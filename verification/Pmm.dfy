/** The physical memory manager of src/mem/pmm.c: a byte bitmap implementing Frames. */
module Pmm {
  import opened Words
  import opened Frames

  const BITMAP_BYTES: nat := 256 * 1024
  const MEMORY_AVAILABLE := 1

  // ----- bits of a bitmap byte -----

  /** The byte that has bit k only. */
  function Mask(k: nat): bv8
    requires k < 8
  {
    if k == 0 then 1 else if k == 1 then 2 else if k == 2 then 4 else if k == 3 then 8
    else if k == 4 then 16 else if k == 5 then 32 else if k == 6 then 64 else 128
  }

  lemma OneShifted(k: nat)
    requires k < 8
    ensures (1 as bv8) << k == Mask(k)
  {
  }

  predicate Bit(b: bv8, k: nat)
    requires k < 8
  {
    b & Mask(k) != 0
  }

  lemma SetBit(b: bv8, i: nat, k: nat)
    requires i < 8 && k < 8
    ensures Bit(b | Mask(i), k) == (i == k || Bit(b, k))
  {
  }

  lemma ClearBit(b: bv8, i: nat, k: nat)
    requires i < 8 && k < 8
    ensures Bit(b & !Mask(i), k) == (i != k && Bit(b, k))
  {
  }

  lemma FullByte(b: bv8)
    ensures b == 0xFF <==> forall k :: 0 <= k < 8 ==> Bit(b, k)
  {
    if forall k :: 0 <= k < 8 ==> Bit(b, k) {
      assert Bit(b, 0) && Bit(b, 1) && Bit(b, 2) && Bit(b, 3) && Bit(b, 4) && Bit(b, 5) && Bit(b, 6) && Bit(b, 7);
    }
  }

  // ----- what the boot loader hands over -----

  datatype MmapEntry = MmapEntry(addr: Word, len: Word, kind: nat)

  datatype Tag = Mmap(entries: seq<MmapEntry>) | Module(start: Word, end: Word) | OtherTag

  /** Multiboot information at `mb` (`mbSize` bytes) and the kernel's linker symbols. */
  datatype BootInfo = BootInfo(mb: Word, mbSize: Word, tags: seq<Tag>,
                               kernelStart: Word, bssEnd: Word, loadEnd: Word)

  /** How many frames have bytes below addr. */
  function CeilFrame(addr: nat): (c: nat)
    ensures forall f: nat :: f < c <==> InSpan(0, addr, f)
  {
    (addr + PAGE_SIZE - 1) / PAGE_SIZE
  }

  /** Frame f has bytes in [lo, hi), for lo < hi. */
  predicate InSpan(lo: nat, hi: nat, f: nat) {
    lo < (f + 1) * PAGE_SIZE && f * PAGE_SIZE < hi
  }

  lemma SpanFrames(lo: nat, hi: nat, f: nat)
    ensures InSpan(lo, hi, f) <==> lo / PAGE_SIZE <= f < (hi + PAGE_SIZE - 1) / PAGE_SIZE
  {
  }

  /** No range of the boot information wraps around the 64-bit address space. */
  ghost predicate WellFormed(info: BootInfo) {
    && (forall t, e :: t in info.tags && t.Mmap? && e in t.entries ==> e.addr + e.len + PAGE_SIZE <= TWO64)
    && (forall t :: t in info.tags && t.Module? ==> t.end + PAGE_SIZE <= TWO64)
    && info.mb + info.mbSize + PAGE_SIZE <= TWO64
    && info.bssEnd + PAGE_SIZE <= TWO64
    && info.loadEnd + PAGE_SIZE <= TWO64
  }

  ghost predicate Available(t: Tag, e: MmapEntry) {
    t.Mmap? && e in t.entries && e.kind == 1
  }

  /** `top` is the largest end address of an available entry, 0 when there is none. */
  ghost predicate IsTop(tags: seq<Tag>, top: nat) {
    && (forall t, e :: t in tags && Available(t, e) ==> e.addr + e.len <= top)
    && (top == 0 || exists t, e :: t in tags && Available(t, e) && e.addr + e.len == top)
  }

  /** Some available entry that starts below `top` covers frame f, at least in part. */
  ghost predicate Covered(tags: seq<Tag>, top: nat, f: nat) {
    exists t, e :: t in tags && Available(t, e) && e.addr < top && InSpan(e.addr, e.addr + e.len, f)
  }

  /** The end of .bss, or of the loaded part where the linker gives none. */
  function KernelEnd(info: BootInfo): Word {
    if info.bssEnd == 0 then info.loadEnd else info.bssEnd
  }

  ghost predicate InModule(tags: seq<Tag>, f: nat) {
    exists t :: t in tags && t.Module? && t.start < t.end && InSpan(t.start, t.end, f)
  }

  predicate InMultiboot(info: BootInfo, f: nat) {
    InSpan(info.mb, info.mb + info.mbSize, f)
  }

  ghost predicate Reserved(info: BootInfo, f: nat) {
    || (info.kernelStart < KernelEnd(info) && InSpan(info.kernelStart, KernelEnd(info), f))
    || InSpan(0, 0x10_0000, f)
    || (info.mbSize > 0 && InMultiboot(info, f))
    || InModule(info.tags, f)
  }

  class Pmm {
    const bitmap: array<bv8>
    var maxPhys: nat
    var totalFrames: nat
    var freeFrames: nat

    ghost predicate Valid()
      reads this, bitmap
    {
      bitmap.Length == BITMAP_BYTES && totalFrames <= 8 * BITMAP_BYTES
    }

    ghost predicate IsUsed(f: nat)
      requires bitmap.Length == BITMAP_BYTES && f < 8 * BITMAP_BYTES
      reads bitmap
    {
      Bit(bitmap[f / 8], f % 8)
    }

    /** The abstract allocator state held in the bitmap and the counter. */
    ghost function State(): (fr: Frames)
      requires Valid()
      reads this, bitmap
      ensures |fr.used| == totalFrames && fr.free == freeFrames
      ensures forall f :: 0 <= f < totalFrames ==> fr.used[f] == IsUsed(f)
    {
      Frames(seq(totalFrames, f requires 0 <= f < totalFrames && Valid() reads this, bitmap => IsUsed(f)), freeFrames)
    }

    /** Statics are zero before pmm_init. */
    constructor ()
      ensures Valid() && fresh(bitmap) && State() == Frames([], 0)
    {
      bitmap := new bv8[BITMAP_BYTES](_ => 0);
      maxPhys, totalFrames, freeFrames := 0, 0, 0;
    }

    method SetFrameUsed(f: nat)
      requires Valid() && f < 8 * BITMAP_BYTES
      modifies bitmap
      ensures forall k :: 0 <= k < 8 * BITMAP_BYTES ==> IsUsed(k) == (k == f || old(IsUsed(k)))
    {
      forall k | 0 <= k < 8 { SetBit(bitmap[f / 8], f % 8, k); }
      OneShifted(f % 8);
      bitmap[f / 8] := bitmap[f / 8] | (1 << (f % 8));
    }

    method SetFrameFree(f: nat)
      requires Valid() && f < 8 * BITMAP_BYTES
      modifies bitmap
      ensures forall k :: 0 <= k < 8 * BITMAP_BYTES ==> IsUsed(k) == (k != f && old(IsUsed(k)))
    {
      forall k | 0 <= k < 8 { ClearBit(bitmap[f / 8], f % 8, k); }
      OneShifted(f % 8);
      bitmap[f / 8] := bitmap[f / 8] & !(1 << (f % 8));
    }

    method FrameIsFree(f: nat) returns (r: bool)
      requires Valid() && f < 8 * BITMAP_BYTES
      ensures r == !IsUsed(f)
    {
      OneShifted(f % 8);
      r := bitmap[f / 8] & (1 << (f % 8)) == 0;
    }

    /** The loops `for (f = fstart; f < fend && f < total_frames; ++f)` of pmm_init. */
    method MarkRange(fstart: nat, fend: nat, used: bool)
      requires Valid()
      modifies bitmap
      ensures forall k :: 0 <= k < totalFrames ==>
                            IsUsed(k) == (if fstart <= k < fend then used else old(IsUsed(k)))
    {
      var f := fstart;
      while f < fend && f < totalFrames
        invariant fstart <= f
        invariant forall k :: 0 <= k < totalFrames ==>
                                IsUsed(k) == (if fstart <= k < f && k < fend then used else old(IsUsed(k)))
      {
        if used { SetFrameUsed(f); } else { SetFrameFree(f); }
        f := f + 1;
      }
    }

    /** The frames that an address range touches. */
    method MarkSpan(lo: nat, hi: nat, used: bool)
      requires Valid()
      modifies bitmap
      ensures forall k :: 0 <= k < totalFrames ==>
                            IsUsed(k) == (if InSpan(lo, hi, k) then used else old(IsUsed(k)))
    {
      hide IsUsed, InSpan;
      forall k: nat ensures InSpan(lo, hi, k) <==> lo / PAGE_SIZE <= k < (hi + PAGE_SIZE - 1) / PAGE_SIZE { SpanFrames(lo, hi, k); }
      MarkRange(lo / PAGE_SIZE, (hi + PAGE_SIZE - 1) / PAGE_SIZE, used);
    }

    /** First pass over the tags: the highest available byte address. */
    method HighestAvailable(tags: seq<Tag>) returns (highest: nat)
      ensures IsTop(tags, highest)
    {
      highest := 0;
      for i := 0 to |tags|
        invariant IsTop(tags[..i], highest)
      {
        if tags[i].Mmap? {
          var es := tags[i].entries;
          for j := 0 to |es|
            invariant forall t, e :: t in tags[..i] && Available(t, e) ==> e.addr + e.len <= highest
            invariant forall e :: e in es[..j] && e.kind == MEMORY_AVAILABLE ==> e.addr + e.len <= highest
            invariant highest == 0 || exists t, e :: t in tags[..i + 1] && Available(t, e) && e.addr + e.len == highest
          {
            assert es[j] in es && tags[i] in tags[..i + 1];
            if es[j].kind == MEMORY_AVAILABLE && es[j].addr + es[j].len > highest {
              highest := es[j].addr + es[j].len;
              assert Available(tags[i], es[j]);
            }
          }
          assert es[..|es|] == es;
        }
        assert tags[..i + 1] == tags[..i] + [tags[i]];
      }
      assert tags[..|tags|] == tags;
    }

    /** Second pass: free every frame an available entry covers. */
    method FreeAvailable(tags: seq<Tag>)
      requires Valid()
      requires IsTop(tags, maxPhys)
      requires forall k :: 0 <= k < totalFrames ==> IsUsed(k)
      modifies bitmap
      ensures forall k :: 0 <= k < totalFrames ==> IsUsed(k) == !Covered(tags, maxPhys, k)
    {
      for i := 0 to |tags|
        invariant forall k :: 0 <= k < totalFrames ==> IsUsed(k) == !Covered(tags[..i], maxPhys, k)
      {
        assert tags[..i + 1] == tags[..i] + [tags[i]];
        if tags[i].Mmap? {
          var es := tags[i].entries;
          for j := 0 to |es|
            invariant forall k :: 0 <= k < totalFrames ==>
              IsUsed(k) == !(Covered(tags[..i], maxPhys, k) || Covered([Mmap(es[..j])], maxPhys, k))
          {
            var e := es[j];
            assert es[..j + 1] == es[..j] + [e];
            assert e in es[..j + 1];
            CoveredSnoc(es[..j], e, maxPhys);
            if e.kind == MEMORY_AVAILABLE && e.addr < maxPhys {
              assert Available(tags[i], e) && tags[i] in tags;
              var end := if e.addr + e.len > maxPhys then maxPhys else e.addr + e.len;
              MarkSpan(e.addr, end, false);
            }
          }
          assert Mmap(es[..|es|]) == tags[i];
        }
        CoveredAppend(tags[..i], tags[i], maxPhys);
      }
      assert tags[..|tags|] == tags;
    }

    method ReserveModules(tags: seq<Tag>)
      requires Valid()
      modifies bitmap
      ensures forall k :: 0 <= k < totalFrames ==> IsUsed(k) == (old(IsUsed(k)) || InModule(tags, k))
    {
      for i := 0 to |tags|
        invariant forall k :: 0 <= k < totalFrames ==> IsUsed(k) == (old(IsUsed(k)) || InModule(tags[..i], k))
      {
        assert tags[..i + 1] == tags[..i] + [tags[i]];
        if tags[i].Module? && tags[i].start < tags[i].end {
          assert tags[i] in tags[..i + 1];
          MarkSpan(tags[i].start, tags[i].end, true);
        }
        assert forall k :: InModule(tags[..i + 1], k) <==> InModule(tags[..i], k) || InModule([tags[i]], k) by {
          InModuleAppend(tags[..i], tags[i]);
        }
      }
      assert tags[..|tags|] == tags;
    }

    method CountFreeFrames()
      requires Valid()
      modifies this`freeFrames
      ensures Valid() && State() == Frames(old(State()).used, CountFree(old(State()).used, totalFrames))
    {
      hide IsUsed;
      ghost var used := State().used;
      var count := 0;
      for f := 0 to totalFrames
        invariant count == CountFree(used, f)
      {
        var free := FrameIsFree(f);
        if free { count := count + 1; }
      }
      freeFrames := count;
      assert State().used == used;
    }

    /** The reservations of pmm_init, in its order. */
    method Reserve(info: BootInfo)
      requires Valid() && WellFormed(info)
      modifies bitmap
      ensures forall k :: 0 <= k < totalFrames ==> IsUsed(k) == (old(IsUsed(k)) || Reserved(info, k))
    {
      var kernelEnd := info.bssEnd;
      if kernelEnd == 0 { kernelEnd := info.loadEnd; }
      if info.kernelStart < kernelEnd { MarkSpan(info.kernelStart, kernelEnd, true); }
      MarkSpan(0, 0x10_0000, true);
      if info.mbSize > 0 { MarkSpan(info.mb, info.mb + info.mbSize, true); }
      ReserveModules(info.tags);
    }

    /**
     * pmm_init: afterwards a frame is free exactly when an available entry
     * covers it and no reservation does, and the count is exact.
     */
    method Init(info: BootInfo)
      requires Valid() && totalFrames == 0 && freeFrames == 0
      requires WellFormed(info)
      modifies this, bitmap
      ensures Valid() && Counted(State())
      ensures info.mb == 0 ==> totalFrames == 0
      ensures info.mb != 0 ==> IsTop(info.tags, maxPhys)
      ensures info.mb != 0 ==> totalFrames == if CeilFrame(maxPhys) <= 0x20_0000 then CeilFrame(maxPhys) else 0x20_0000
      ensures forall f :: 0 <= f < totalFrames ==>
                            (!State().used[f] <==> Covered(info.tags, maxPhys, f) && !Reserved(info, f))
    {
      forall i | 0 <= i < BITMAP_BYTES { bitmap[i] := 0xFF; }
      if info.mb == 0 { return; }
      maxPhys := HighestAvailable(info.tags);
      totalFrames := (maxPhys + PAGE_SIZE - 1) / PAGE_SIZE;
      if (totalFrames + 7) / 8 > BITMAP_BYTES {
        totalFrames := BITMAP_BYTES * 8;
      }
      MarkRange(0, totalFrames, true);
      FreeAvailable(info.tags);
      Reserve(info);
      CountFreeFrames();
    }

    /** The bit loop of pmm_alloc_frame over byte b: its first free frame, if any. */
    method ScanByte(b: nat) returns (r: Option<nat>)
      requires Valid() && b < (totalFrames + 7) / 8
      ensures r.Some? ==> 8 * b <= r.value < totalFrames && !IsUsed(r.value)
      ensures forall k :: 8 * b <= k < (if r.Some? then r.value else 8 * b + 8) && k < totalFrames ==> IsUsed(k)
    {
      for bit := 0 to 8
        invariant forall k :: 8 * b <= k < 8 * b + bit && k < totalFrames ==> IsUsed(k)
      {
        var f := b * 8 + bit;
        if f >= totalFrames { return None; }
        var free := FrameIsFree(f);
        if free { return Some(f); }
      }
      r := None;
    }

    /** The byte loop of pmm_alloc_frame, which skips full bytes: the lowest free frame. */
    method FindFree() returns (r: Option<nat>)
      requires Valid()
      ensures var f := FirstFree(State().used, 0); r == if f < totalFrames then Some(f) else None
    {
      var b := 0;
      while b < (totalFrames + 7) / 8
        invariant forall k :: 0 <= k < 8 * b && k < totalFrames ==> IsUsed(k)
      {
        if bitmap[b] == 0xFF {
          FullByte(bitmap[b]);
        } else {
          r := ScanByte(b);
          if r.Some? { return; }
        }
        b := b + 1;
      }
      r := None;
    }

    /** pmm_alloc_frame: physical address of the frame, 0 on failure. */
    method AllocFrame() returns (phys: Word)
      requires Valid()
      modifies this`freeFrames, bitmap
      ensures Valid()
      ensures State() == Alloc(old(State())).0
      ensures phys == Alloc(old(State())).1 * PAGE_SIZE
    {
      if freeFrames == 0 { return 0; }
      var r := FindFree();
      if r.None? { return 0; }
      ghost var used := State().used;
      SetFrameUsed(r.value);
      freeFrames := freeFrames - 1;
      assert State().used == used[r.value := true];
      phys := r.value * PAGE_SIZE;
    }

    /** pmm_free_frame: addresses that are unaligned or out of range are ignored. */
    method FreeFrame(phys: Word)
      requires Valid()
      modifies this`freeFrames, bitmap
      ensures Valid()
      ensures State() == if phys % PAGE_SIZE != 0 then old(State()) else Free(old(State()), phys / PAGE_SIZE)
    {
      if phys % PAGE_SIZE != 0 { return; }
      var f := phys / PAGE_SIZE;
      if f >= totalFrames { return; }
      var free := FrameIsFree(f);
      if !free {
        ghost var fr := State();
        SetFrameFree(f);
        freeFrames := freeFrames + 1;
        assert State().used == fr.used[f := false];
      }
    }
  }

  lemma CoveredSnoc(es: seq<MmapEntry>, e: MmapEntry, top: nat)
    ensures forall k :: Covered([Mmap(es + [e])], top, k) <==>
                        Covered([Mmap(es)], top, k) || (e.kind == MEMORY_AVAILABLE && e.addr < top && InSpan(e.addr, e.addr + e.len, k))
  {
    forall k | e.kind == MEMORY_AVAILABLE && e.addr < top && InSpan(e.addr, e.addr + e.len, k)
      ensures Covered([Mmap(es + [e])], top, k)
    {
      assert Available(Mmap(es + [e]), e) && Mmap(es + [e]) in [Mmap(es + [e])];
    }
    forall k | Covered([Mmap(es)], top, k)
      ensures Covered([Mmap(es + [e])], top, k)
    {
      var d :| Available(Mmap(es), d) && d.addr < top && InSpan(d.addr, d.addr + d.len, k);
      assert Available(Mmap(es + [e]), d) && Mmap(es + [e]) in [Mmap(es + [e])];
    }
    forall k | Covered([Mmap(es + [e])], top, k)
      ensures Covered([Mmap(es)], top, k) || (e.kind == MEMORY_AVAILABLE && e.addr < top && InSpan(e.addr, e.addr + e.len, k))
    {
      var d :| Available(Mmap(es + [e]), d) && d.addr < top && InSpan(d.addr, d.addr + d.len, k);
      if d in es {
        assert Available(Mmap(es), d) && Mmap(es) in [Mmap(es)];
      }
    }
  }

  lemma CoveredAppend(tags: seq<Tag>, t: Tag, top: nat)
    ensures forall k :: Covered(tags + [t], top, k) <==> Covered(tags, top, k) || Covered([t], top, k)
  {
  }

  lemma InModuleAppend(tags: seq<Tag>, t: Tag)
    ensures forall k :: InModule(tags + [t], k) <==> InModule(tags, k) || InModule([t], k)
  {
  }

  /**
   * The kernel passes the direct-map address of the Multiboot block
   * (src/core/kernel.c:57, boot/boot.asm:339-340), so the reservation of that
   * block covers a managed frame exactly when the address itself is below the
   * managed range; for a direct-map address it never does.
   */
  lemma MultibootBlockReserved(info: BootInfo, total: nat)
    requires 0 < info.mbSize
    ensures (exists f :: 0 <= f < total && InMultiboot(info, f)) <==> info.mb / PAGE_SIZE < total
    ensures info.mb >= HHDM_BASE && total <= 8 * BITMAP_BYTES ==>
              forall f :: 0 <= f < total ==> !InMultiboot(info, f)
  {
    if info.mb / PAGE_SIZE < total {
      assert InMultiboot(info, info.mb / PAGE_SIZE);
    }
  }
}
