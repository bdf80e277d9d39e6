/**
 * 64-bit machine words and the page arithmetic shared by the memory modules.
 * Shifts and masks of the C code by powers of two are written with / and %,
 * which agree with them on non-negative integers.
 */
module Words {
  const PAGE_SIZE := 4096
  const WORDS_PER_PAGE := 512
  const TWO64 := 0x1_0000_0000_0000_0000

  /** First virtual address of the higher-half direct map (HHDM_BASE in boot.asm). */
  const HHDM_BASE := 0xFFFF_8000_0000_0000

  /** The direct map covers physical addresses below 4 GiB, that is, this many frames. */
  const HHDM_FRAMES := 0x10_0000

  type Word = w: int | 0 <= w < TWO64

  datatype Option<+T> = None | Some(value: T)

  /** w & ~0xFFF */
  function PageBase(w: Word): Word {
    w - w % PAGE_SIZE
  }

  /** PHYS_TO_VIRT of byte `off` of frame `n`. */
  function DirectMap(n: nat, off: nat): Word
    requires n < HHDM_FRAMES && off < PAGE_SIZE
  {
    HHDM_BASE + n * PAGE_SIZE + off
  }

  // ----- multiplication and division -----

  lemma MulMono(a: nat, b: nat, c: nat)
    requires a <= b
    ensures a * c <= b * c && (a < b ==> a * c + c <= b * c)
  {
    if a < b {
      MulMono(a, b - 1, c);
      assert b * c == (b - 1) * c + c;
    }
  }

  lemma DivMod(cols: nat, x: nat, y: nat)
    requires x < cols
    ensures (y * cols + x) / cols == y && (y * cols + x) % cols == x
  {
    var q, r := (y * cols + x) / cols, (y * cols + x) % cols;
    assert y * cols + x == q * cols + r;
    if q < y { MulMono(q, y, cols); } else { MulMono(y, q, cols); }
  }
}
