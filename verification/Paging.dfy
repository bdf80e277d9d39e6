/**
 * Four-level page tables kept in the same physical memory that the frame
 * allocator manages (src/mem/vmm.c), as functions on values.  Physical memory
 * is one flat sequence of words; a table is 512 consecutive words of it.
 */
module Paging {
  import opened Words
  import opened Frames

  type Mem = seq<Word>

  type Index = i: nat | i < WORDS_PER_PAGE

  const PTE_W: Word := 2

  // ----- words of a frame -----

  /** Word i of frame n; memory that does not exist reads as zero. */
  function Entry(m: Mem, n: nat, i: Index): Word {
    if n * WORDS_PER_PAGE + i < |m| then m[n * WORDS_PER_PAGE + i] else 0
  }

  /** Store to word i of frame n; stores outside memory are lost. */
  function Put(m: Mem, n: nat, i: Index, w: Word): (m': Mem)
    ensures |m'| == |m|
    ensures forall k: nat, j: Index :: Entry(m', k, j) ==
              if k == n && j == i && n * WORDS_PER_PAGE + i < |m| then w else Entry(m, k, j)
  {
    if n * WORDS_PER_PAGE + i < |m| then m[n * WORDS_PER_PAGE + i := w] else m
  }

  /** memset(ptr, 0, 4096) on frame n. */
  function ZeroFrame(m: Mem, n: nat): (m': Mem)
    requires (n + 1) * WORDS_PER_PAGE <= |m|
    ensures |m'| == |m|
    ensures forall k: nat, j: Index :: Entry(m', k, j) == if k == n then 0 else Entry(m, k, j)
  {
    m[..n * WORDS_PER_PAGE] + seq(WORDS_PER_PAGE, _ => 0) + m[(n + 1) * WORDS_PER_PAGE..]
  }

  // ----- virtual addresses and entries -----

  function Idx4(v: Word): Index { v / 0x80_0000_0000 % 512 }
  function Idx3(v: Word): Index { v / 0x4000_0000 % 512 }
  function Idx2(v: Word): Index { v / 0x20_0000 % 512 }
  function Idx1(v: Word): Index { v / 0x1000 % 512 }

  /** The indices are the 9-bit digits of the page number; the low 12 bits of the address select the byte. */
  lemma IndicesSplit(v: Word)
    ensures v % 0x1_0000_0000_0000 == (((Idx4(v) * 512 + Idx3(v)) * 512 + Idx2(v)) * 512 + Idx1(v)) * PAGE_SIZE + v % PAGE_SIZE
  {
    var q1, q2, q3 := v / 0x1000, v / 0x20_0000, v / 0x4000_0000;
    assert q2 == q1 / 512 && q3 == q2 / 512 && v / 0x80_0000_0000 == q3 / 512;
    assert v / 0x1_0000_0000_0000 == q3 / 512 / 512;
  }

  predicate Present(e: Word) { e % 2 == 1 }

  /** The PS bit of a level-3 or level-2 entry. */
  predicate Huge(e: Word) { e / 128 % 2 == 1 }

  /** The R/W bit. */
  predicate WriteBit(e: Word) { e / 2 % 2 == 1 }

  function FrameOf(e: Word): nat { e / PAGE_SIZE }

  /** (new_frame & ~0xFFF) | P | W */
  function TableEntry(f: nat): Word
    requires f < HHDM_FRAMES
  {
    f * PAGE_SIZE + 3
  }

  /** (phys & ~0xFFF) | (flags & 0xFFF) | P */
  function LeafEntry(phys: Word, flags: Word): Word {
    PageBase(phys) + flags % PAGE_SIZE + (if flags % 2 == 1 then 0 else 1)
  }

  /** A present entry that maps phys with bits 11..1 of flags. */
  predicate IsLeafFor(e: Word, phys: Word, flags: Word) {
    Present(e) && PageBase(e) == PageBase(phys) && e % PAGE_SIZE / 2 == flags % PAGE_SIZE / 2
  }

  lemma LowBitsOf(q: nat, r: nat)
    requires r < PAGE_SIZE
    ensures (q * PAGE_SIZE + r) / PAGE_SIZE == q && (q * PAGE_SIZE + r) % PAGE_SIZE == r && (q * PAGE_SIZE + r) % 2 == r % 2
  {
  }

  /** A table entry points to its frame; a leaf entry is present and keeps the page address. */
  lemma EntryFields(f: nat, phys: Word, flags: Word)
    requires f < HHDM_FRAMES
    ensures Present(TableEntry(f)) && WriteBit(TableEntry(f)) && !Huge(TableEntry(f)) && FrameOf(TableEntry(f)) == f
    ensures IsLeafFor(LeafEntry(phys, flags), phys, flags)
  {
    LowBitsOf(PageBase(phys) / PAGE_SIZE, flags % PAGE_SIZE + if flags % 2 == 1 then 0 else 1);
    assert TableEntry(f) / 128 == 32 * f;
  }

  // ----- the walk -----

  /** Where the walk of an address ends: nowhere, at a huge page, or in a level-1 table. */
  datatype Walk = Missing | Giant(entry: Word) | Large(entry: Word) | Leaf(table: nat)

  function Resolve(m: Mem, root: nat, v: Word): Walk {
    var e4 := Entry(m, root, Idx4(v));
    if !Present(e4) then Missing else
    var e3 := Entry(m, FrameOf(e4), Idx3(v));
    if !Present(e3) then Missing else if Huge(e3) then Giant(e3) else
    var e2 := Entry(m, FrameOf(e3), Idx2(v));
    if !Present(e2) then Missing else if Huge(e2) then Large(e2) else Leaf(FrameOf(e2))
  }

  /** (phys & ~0xFFF) | (virt & 0xFFF) */
  function InPage(phys: Word, v: Word): Word {
    PageBase(phys) + v % PAGE_SIZE
  }

  function LeafTarget(e: Word, v: Word): Option<Word> {
    if Present(e) then Some(InPage(e, v)) else None
  }

  /** vmm_translate.  Its 2 MiB mask keeps bits 47..21 (src/mem/vmm.c:129); see ProcessorAgrees. */
  function Translate(m: Mem, root: nat, v: Word): Option<Word> {
    match Resolve(m, root, v)
    case Missing => None
    case Giant(e) => Some(e / 0x4000_0000 % 0x40_0000 * 0x4000_0000 + v % 0x4000_0000)
    case Large(e) => Some(e / 0x20_0000 % 0x800_0000 * 0x20_0000 + v % 0x20_0000)
    case Leaf(t) => LeafTarget(Entry(m, t, Idx1(v)), v)
  }

  /**
   * The translation the processor applies, where all page tables are in memory:
   * of a 2 MiB entry bits 51..21 count, and of a 4 KiB entry bits 51..12.
   */
  function ProcessorTranslate(m: Mem, root: nat, v: Word): Option<Word> {
    match Resolve(m, root, v)
    case Missing => None
    case Giant(e) => Some(e / 0x4000_0000 % 0x40_0000 * 0x4000_0000 + v % 0x4000_0000)
    case Large(e) => Some(e / 0x20_0000 % 0x8000_0000 * 0x20_0000 + v % 0x20_0000)
    case Leaf(t) => var e := Entry(m, t, Idx1(v)); if Present(e) then Some(e / PAGE_SIZE % 0x100_0000_0000 * PAGE_SIZE + v % PAGE_SIZE) else None
  }

  /** Bits 51..48 of a 2 MiB entry, which vmm_translate leaves out. */
  function HighBits(e: Word): nat {
    e / 0x1_0000_0000_0000 % 16
  }

  /** Bits 63..52 of a 4 KiB entry, which vmm_translate takes for address bits. */
  function TopBits(e: Word): nat {
    e / 0x10_0000_0000_0000
  }

  /** vmm_translate and the processor agree on v if and only if neither kind of bit is set in the entry that maps v. */
  lemma ProcessorAgrees(m: Mem, root: nat, v: Word)
    ensures ProcessorTranslate(m, root, v) == Translate(m, root, v) <==>
              match Resolve(m, root, v)
              case Large(e) => HighBits(e) == 0
              case Leaf(t) => var e := Entry(m, t, Idx1(v)); Present(e) ==> TopBits(e) == 0
              case _ => true
  {
    hide Resolve, Entry, Idx1, Present;
    match Resolve(m, root, v)
    case Large(e) => MaskedBits(e);
    case Leaf(t) => LeafBits(Entry(m, t, Idx1(v)));
    case _ =>
  }

  lemma LeafBits(e: Word)
    ensures PageBase(e) == e / PAGE_SIZE % 0x100_0000_0000 * PAGE_SIZE + TopBits(e) * 0x10_0000_0000_0000
  {
    var q := e / PAGE_SIZE;
    assert e / 0x10_0000_0000_0000 == q / 0x100_0000_0000;
  }

  lemma MaskedBits(e: Word)
    ensures e / 0x20_0000 % 0x8000_0000 == e / 0x20_0000 % 0x800_0000 + HighBits(e) * 0x800_0000
  {
    var q := e / 0x20_0000;
    assert e / 0x1_0000_0000_0000 == q / 0x800_0000;
    assert q / 0x8000_0000 == q / 0x800_0000 / 16;
  }

  /** No huge-page entry lies on the path of v. */
  predicate ClearPath(m: Mem, root: nat, v: Word) {
    var r := Resolve(m, root, v);
    r.Missing? || r.Leaf?
  }

  /** Stores to v are permitted: the R/W bit is set on every level of the walk. */
  predicate Writable(m: Mem, root: nat, v: Word) {
    var e4 := Entry(m, root, Idx4(v));
    Present(e4) && WriteBit(e4) &&
    var e3 := Entry(m, FrameOf(e4), Idx3(v));
    Present(e3) && WriteBit(e3) && (Huge(e3) ||
    var e2 := Entry(m, FrameOf(e3), Idx2(v));
    Present(e2) && WriteBit(e2) && (Huge(e2) ||
    var e1 := Entry(m, FrameOf(e2), Idx1(v));
    Present(e1) && WriteBit(e1)))
  }

  // ----- the operations -----

  datatype Vm = Vm(mem: Mem, root: nat, frames: Frames)

  /** Memory is exactly the managed frames, and all of them lie under the direct map. */
  predicate Sized(s: Vm) {
    |s.mem| == |s.frames.used| * WORDS_PER_PAGE && |s.frames.used| <= HHDM_FRAMES
  }

  /** ensure_table on word i of frame n: the new state and the table's frame, 0 on failure. */
  function EnsureTable(s: Vm, n: nat, i: Index): (r: (Vm, nat))
    requires Sized(s)
    ensures Sized(r.0) && r.0.root == s.root
  {
    var e := Entry(s.mem, n, i);
    if Present(e) then (s, FrameOf(e)) else
    var (fr, f) := Alloc(s.frames);
    if f == 0 then (s.(frames := fr), 0) else
    (Vm(Put(ZeroFrame(s.mem, f), n, i, TableEntry(f)), s.root, fr), f)
  }

  /** The three ensure_table calls of vmm_map_page: the level-1 table of v, 0 on failure. */
  function EnsurePath(s: Vm, v: Word): (r: (Vm, nat))
    requires Sized(s)
    ensures Sized(r.0) && r.0.root == s.root
  {
    var (s3, pdpt) := EnsureTable(s, s.root, Idx4(v));
    if pdpt == 0 then (s3, 0) else
    var (s2, pd) := EnsureTable(s3, pdpt, Idx3(v));
    if pd == 0 then (s2, 0) else
    EnsureTable(s2, pd, Idx2(v))
  }

  /** vmm_map_page: the new state and whether it succeeded. */
  function MapPage(s: Vm, v: Word, phys: Word, flags: Word): (r: (Vm, bool))
    requires Sized(s)
    ensures Sized(r.0) && r.0.root == s.root
  {
    if s.root == 0 then (s, false) else
    var (s1, pt) := EnsurePath(s, v);
    if pt == 0 then (s1, false) else
    (s1.(mem := Put(s1.mem, pt, Idx1(v), LeafEntry(phys, flags))), true)
  }

  /** The level-1 table vmm_unmap_page writes to; like the C code it ignores the PS bit. */
  function UnmapTable(m: Mem, root: nat, v: Word): Option<nat> {
    var e4 := Entry(m, root, Idx4(v));
    if !Present(e4) then None else
    var e3 := Entry(m, FrameOf(e4), Idx3(v));
    if !Present(e3) then None else
    var e2 := Entry(m, FrameOf(e3), Idx2(v));
    if !Present(e2) then None else Some(FrameOf(e2))
  }

  /** vmm_unmap_page: the new state and whether it succeeded. */
  function UnmapPage(s: Vm, v: Word): (r: (Vm, bool))
    requires Sized(s)
    ensures Sized(r.0) && r.0.root == s.root && r.0.frames == s.frames
  {
    var t := UnmapTable(s.mem, s.root, v);
    if s.root == 0 || t.None? then (s, false)
    else (s.(mem := Put(s.mem, t.value, Idx1(v), 0)), true)
  }

  /** vmm_map_alloc_page: the new state and the fresh frame, 0 on failure. */
  function MapAllocPage(s: Vm, v: Word, flags: Word): (r: (Vm, nat))
    requires Sized(s)
    ensures Sized(r.0) && r.0.root == s.root
  {
    var (fr, f) := Alloc(s.frames);
    if f == 0 then (s.(frames := fr), 0) else
    var (s1, ok) := MapPage(s.(frames := fr), v, f * PAGE_SIZE, flags);
    if ok then (s1, f) else (s1.(frames := Free(s1.frames, f)), 0)
  }

  // ----- ownership of frames -----

  /**
   * What a frame is used for.  A table records its level and the slot that
   * points to it; the other owners belong to the allocators above.
   */
  datatype Owner =
    | Unowned
    | Fixed
    | Table(level: nat, parent: nat, index: nat)
    | SlabPage(cls: nat)
    | Lost
    | HeapPage(vpn: nat)

  /** PML4[0] and PML4[256] share one PDPT; both slots count as slot 0. */
  function Canon(level: nat, i: nat): nat {
    if level == 4 && i == 256 then 0 else i
  }

  predicate IsTable(owner: seq<Owner>, n: nat) {
    n < |owner| && owner[n].Table?
  }

  /** Slot i of table n points to no table, or, writable, to the table that names this slot as its parent. */
  ghost predicate ChildOk(m: Mem, owner: seq<Owner>, n: nat, i: Index)
    requires IsTable(owner, n)
  {
    var e := Entry(m, n, i);
    Present(e) && owner[n].level >= 2 && (owner[n].level == 4 || !Huge(e)) ==>
      IsTable(owner, FrameOf(e)) && owner[FrameOf(e)] == Table(owner[n].level - 1, n, Canon(owner[n].level, i)) && WriteBit(e)
  }

  ghost predicate TablesOk(m: Mem, root: nat, owner: seq<Owner>) {
    && |m| == |owner| * WORDS_PER_PAGE
    && IsTable(owner, root) && owner[root].level == 4
    && (forall n: nat :: IsTable(owner, n) ==> 0 < n && 1 <= owner[n].level <= 4 && (owner[n].level == 4 ==> n == root))
    && (forall n: nat, i: Index :: IsTable(owner, n) ==> ChildOk(m, owner, n, i))
  }

  /** Entry i of the k-th low page directory: 2 MiB page number i of gigabyte k. */
  function LowEntry(k: nat, i: Index): Word
    requires k < 4
  {
    k * 0x4000_0000 + i * 0x20_0000 + 0x83
  }

  /** The boot tables of the identity and direct map are intact; root + 1 .. root + 5 hold them. */
  ghost predicate IdentityOk(m: Mem, root: nat) {
    && 0 < root < HHDM_FRAMES - 8
    && Entry(m, root, 0) == TableEntry(root + 1)
    && Entry(m, root, 256) == TableEntry(root + 1)
    && Entry(m, root + 1, 0) == TableEntry(root + 2) && Entry(m, root + 1, 1) == TableEntry(root + 3)
    && Entry(m, root + 1, 2) == TableEntry(root + 4) && Entry(m, root + 1, 3) == TableEntry(root + 5)
    && (forall d: nat, i: Index :: root + 2 <= d < root + 6 ==> Entry(m, d, i) == LowEntry(d - root - 2, i))
  }

  ghost predicate FramesOk(fr: Frames, owner: seq<Owner>) {
    && Counted(fr)
    && |fr.used| == |owner|
    && 0 < |owner| && owner[0] != Unowned
    && (forall n :: 0 <= n < |owner| ==> (fr.used[n] <==> owner[n] != Unowned))
  }

  ghost predicate Inv(s: Vm, owner: seq<Owner>) {
    && Sized(s)
    && TablesOk(s.mem, s.root, owner)
    && IdentityOk(s.mem, s.root)
    && FramesOk(s.frames, owner)
  }

  /** From `a` to `b` frames changed hands only from free to page table. */
  ghost predicate OnlyNewTables(a: seq<Owner>, b: seq<Owner>) {
    |a| == |b| && forall n :: 0 <= n < |a| ==> a[n] == b[n] || (a[n] == Unowned && b[n].Table?)
  }

  // ----- the direct map -----

  /** The walk that every access of the kernel relies on. */
  lemma DirectMapWalk(m: Mem, root: nat, p: nat)
    requires IdentityOk(m, root)
    requires p < HHDM_FRAMES * PAGE_SIZE
    ensures Translate(m, root, p) == Some(p)
    ensures Translate(m, root, HHDM_BASE + p) == Some(p)
    ensures Writable(m, root, p) && Writable(m, root, HHDM_BASE + p)
  {
    var k := p / 0x4000_0000;
    var i := p / 0x20_0000 % 512;
    EntryFields(root + 1, 0, 0);
    EntryFields(root + 2 + k, 0, 0);
    LowEntryFields(k, i);
    LowIndices(p);
    LowSplit(p);
    assert Entry(m, root + 2 + k, i) == LowEntry(k, i);
  }

  lemma LowIndices(p: nat)
    requires p < HHDM_FRAMES * PAGE_SIZE
    ensures Idx4(p) == 0 && Idx3(p) == p / 0x4000_0000 < 4
    ensures Idx4(HHDM_BASE + p) == 256 && Idx3(HHDM_BASE + p) == p / 0x4000_0000
    ensures Idx2(HHDM_BASE + p) == Idx2(p) && (HHDM_BASE + p) % 0x20_0000 == p % 0x20_0000
  {
    assert (HHDM_BASE + p) / 0x80_0000_0000 == 0x1FF_FF00 + p / 0x80_0000_0000;
    assert (HHDM_BASE + p) / 0x4000_0000 == 0x3FFFE0000 + p / 0x4000_0000;
    assert (HHDM_BASE + p) / 0x20_0000 == 0x7FFFC000000 + p / 0x20_0000;
  }

  lemma LowSplit(p: nat)
    requires p < HHDM_FRAMES * PAGE_SIZE
    ensures p == p / 0x4000_0000 * 0x4000_0000 + Idx2(p) * 0x20_0000 + p % 0x20_0000
  {
    var q := p / 0x20_0000;
    assert q / 512 == p / 0x4000_0000;
  }

  lemma LowEntryFields(k: nat, i: Index)
    requires k < 4
    ensures var e := LowEntry(k, i);
            Present(e) && WriteBit(e) && Huge(e) && e / 0x20_0000 % 0x800_0000 * 0x20_0000 == k * 0x4000_0000 + i * 0x20_0000
  {
    var e := LowEntry(k, i);
    assert e == (512 * k + i) * 0x20_0000 + 0x83;
    assert e / 0x20_0000 == 512 * k + i;
    assert e / 128 == (512 * k + i) * 0x4000 + 1;
  }
}
