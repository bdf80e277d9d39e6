/** The slab allocator of src/mem/slab.c in flat memory, for the one CPU that get_cpu_id reports. */
module Slab {
  import opened Words
  import opened Paging
  import opened PagingLaws
  import Frames
  import V = Vmm
  import M = SlabModel
  import opened SlabLayout

  type Class = M.Class

  class Slab {
    const vmm: V.Vmm
    const partial: array<Word>      // caches[c].partial
    const mags: array<seq<Word>>    // caches[c].mags[0], at most 16 pointers
    ghost var caches: seq<M.Cache>
    ghost var live: seq<set<M.Obj>>

    ghost predicate Shape()
      reads this
    {
      && partial as object != vmm.mem && mags as object != vmm.mem
      && partial as object != vmm.pmm.bitmap && mags as object != vmm.pmm.bitmap
      && partial.Length == M.SLAB_CLASSES && mags.Length == M.SLAB_CLASSES
      && |caches| == M.SLAB_CLASSES && |live| == M.SLAB_CLASSES
    }

    ghost predicate ClassOk(c: Class)
      requires Shape()
      reads this, partial, mags, vmm, vmm.mem
    {
      ClassInv(vmm.mem[..], vmm.owner, c, caches[c], live[c], partial[c], mags[c])
    }

    ghost predicate Valid()
      reads this, partial, mags, vmm, vmm.mem, vmm.pmm, vmm.pmm.bitmap
    {
      && Shape()
      && vmm.Valid() && vmm.pml4Phys != 0 && |vmm.owner| <= HHDM_FRAMES
      && AllInv(vmm.mem[..], vmm.owner, caches, live, partial[..], mags[..])
    }

    lemma ClassIs(c: Class)
      requires Valid()
      ensures ClassOk(c)
    {
      hide Inv, ClassInv;
    }

    /** slab_init */
    constructor (vmm: V.Vmm)
      requires vmm.Valid() && vmm.pml4Phys != 0 && |vmm.owner| <= HHDM_FRAMES
      requires forall n, c :: 0 <= n < |vmm.owner| ==> vmm.owner[n] != SlabPage(c)
      ensures Valid() && this.vmm == vmm
      ensures forall c: Class :: caches[c] == M.Cache([], map[], []) && live[c] == {}
    {
      hide Inv, Repr, M.CacheInv;
      this.vmm := vmm;
      partial := new Word[M.SLAB_CLASSES](_ => 0);
      mags := new seq<Word>[M.SLAB_CLASSES](_ => []);
      caches := seq(M.SLAB_CLASSES, _ => M.Cache([], map[], []));
      live := seq(M.SLAB_CLASSES, _ => {});
      new;
      forall c: Class ensures ClassInv(vmm.mem[..], vmm.owner, c, caches[c], live[c], partial[..][c], mags[..][c]) {
        EmptyRepr(vmm.mem[..], vmm.owner, c);
      }
    }

    /** One round of the loop in create_slab_page, for slot i of frame n. */
    method ThreadSlot(c: Class, base: Word, i: nat, ghost n: nat)
      requires vmm.Valid() && vmm.pml4Phys != 0 && n < |vmm.owner| <= HHDM_FRAMES && !IsTable(vmm.owner, n)
      requires base == PagePtr(n) && i < M.SlotsPerPage(c)
      modifies vmm.mem
      ensures vmm.Valid()
      ensures vmm.State() == old(vmm.State()).(mem :=
        Put(Put(old(vmm.mem[..]), n, ObjWord(c, i), Entry(old(vmm.mem[..]), n, FREE_LIST)), n, FREE_LIST, ObjPtr(c, M.Obj(n, i))))
      ensures SameWalks(old(vmm.mem[..]), vmm.mem[..], vmm.Root())
    {
      hide Inv, AllInv, Put, Translate, Writable, ClearPath, M.SlotsPerPage, ObjWord;
      ObjPtrOffset(c, M.Obj(n, i));
      var obj := base + M.SlotOffset(c, i);
      var first := vmm.LoadWord(base + 16, n, FREE_LIST);
      vmm.StoreWord(obj, first, n, ObjWord(c, i));
      vmm.StoreWord(base + 16, obj, n, FREE_LIST);
    }

    /** create_slab_page: a fresh page of class c, not yet on the list; 0 when memory is exhausted. */
    method CreatePage(c: Class) returns (sp: Word)
      requires vmm.Valid() && vmm.pml4Phys != 0 && |vmm.owner| <= HHDM_FRAMES
      modifies vmm.mem, vmm.pmm`freeFrames, vmm.pmm.bitmap, vmm`owner
      ensures vmm.Valid()
      ensures vmm.State().frames == Frames.Alloc(old(vmm.State()).frames).0
      ensures var n := Frames.Alloc(old(vmm.State()).frames).1;
              && (n == 0 ==> sp == 0 && vmm.mem[..] == old(vmm.mem[..]) && vmm.owner == old(vmm.owner))
              && (n != 0 ==> n < |old(vmm.owner)| <= HHDM_FRAMES && sp == PagePtr(n)
                             && old(vmm.owner)[n] == Unowned && vmm.owner == old(vmm.owner)[n := Fixed]
                             && PageRepr(vmm.mem[..], c, n, M.FreshSlots(M.SlotsPerPage(c)))
                             && OtherFrames(old(vmm.mem[..]), vmm.mem[..], n))
      ensures SameWalks(old(vmm.mem[..]), vmm.mem[..], vmm.Root())
    {
      hide Inv, AllInv, Put, ZeroFrame, Translate, Writable, ClearPath, Frames.Alloc, M.SlotsPerPage, ObjWord, ObjPtr, Pack;
      ghost var n := Frames.Alloc(vmm.State().frames).1;
      var phys := vmm.AllocOwned(Fixed);
      if phys == 0 { return 0; }
      assert n != 0;
      vmm.FrameInMemory(n);
      vmm.ZeroData(phys, n);
      sp := HHDM_BASE + phys;
      SlotsFit(c);
      vmm.StoreWord(sp + 8, Pack(c, M.SlotsPerPage(c)), n, COUNTS);
      ThreadAll(c, sp, n);
    }

    /** The loop of create_slab_page: every slot of frame n goes onto its free list. */
    method ThreadAll(c: Class, base: Word, ghost n: nat)
      requires vmm.Valid() && vmm.pml4Phys != 0 && n < |vmm.owner| <= HHDM_FRAMES && !IsTable(vmm.owner, n) && base == PagePtr(n)
      requires M.SlotsPerPage(c) < 0x1_0000 && Entry(vmm.mem[..], n, FREE_LIST) == 0 && Entry(vmm.mem[..], n, COUNTS) == Pack(c, M.SlotsPerPage(c))
      modifies vmm.mem
      ensures vmm.Valid() && vmm.State().frames == old(vmm.State()).frames
      ensures PageRepr(vmm.mem[..], c, n, M.FreshSlots(M.SlotsPerPage(c)))
      ensures OtherFrames(old(vmm.mem[..]), vmm.mem[..], n) && SameWalks(old(vmm.mem[..]), vmm.mem[..], vmm.Root())
    {
      hide Inv, AllInv, Put, Translate, Writable, ClearPath, M.SlotsPerPage, M.FreshSlots, PageRepr, ObjWord, ObjPtr, Pack, V.P.Pmm.State, V.P.Pmm.IsUsed;
      var i := 0;
      vmm.FrameInMemory(n);
      while i < M.SlotsPerPage(c)
        invariant i <= M.SlotsPerPage(c) && vmm.Valid() && vmm.State().frames == old(vmm.State()).frames
        invariant Threaded(vmm.mem[..], c, n, i) && Entry(vmm.mem[..], n, COUNTS) == Pack(c, M.SlotsPerPage(c))
        invariant OtherFrames(old(vmm.mem[..]), vmm.mem[..], n)
        invariant SameWalks(old(vmm.mem[..]), vmm.mem[..], vmm.Root())
      {
        ThreadStep(vmm.mem[..], c, n, i);
        ThreadSlot(c, base, i, n);
        i := i + 1;
      }
      ThreadedRepr(vmm.mem[..], c, n);
    }

    /** All of Valid again, once the changes are known to concern class c only and c itself is well. */
    lemma Restored(c: Class, m0: Mem, owner0: seq<Owner>, caches0: seq<M.Cache>, live0: seq<set<M.Obj>>, heads0: seq<Word>, mags0: seq<seq<Word>>)
      requires Shape() && vmm.Valid() && vmm.pml4Phys != 0 && |vmm.owner| <= HHDM_FRAMES
      requires AllInv(m0, owner0, caches0, live0, heads0, mags0)
      requires OnlyClass(m0, owner0, vmm.mem[..], vmm.owner, c)
      requires forall d: Class :: d != c ==> caches[d] == caches0[d] && live[d] == live0[d] && partial[d] == heads0[d] && mags[d] == mags0[d]
      requires ClassOk(c)
      ensures Valid()
    {
      hide Inv, ClassInv, OnlyClass;
      forall d: Class ensures ClassInv(vmm.mem[..], vmm.owner, d, caches[d], live[d], partial[..][d], mags[..][d]) {
        assert ClassInv(m0, owner0, d, caches0[d], live0[d], heads0[d], mags0[d]);
        if d != c {
          OtherClass(m0, owner0, vmm.mem[..], vmm.owner, c, d, caches[d], live[d], partial[d], mags[d]);
        }
      }
    }

    /** slab_alloc: create_slab_page, then sp->next = c->partial; c->partial = sp. */
    method AddPage(c: Class) returns (sp: Word)
      requires Valid() && M.NeedsPage(caches[c])
      modifies vmm.mem, vmm.pmm`freeFrames, vmm.pmm.bitmap, vmm`owner, partial, `caches
      ensures Valid() && live == old(live)
      ensures SameWalks(old(vmm.mem[..]), vmm.mem[..], vmm.Root())
      ensures OnlyClass(old(vmm.mem[..]), old(vmm.owner), vmm.mem[..], vmm.owner, c)
      ensures caches == old(caches)[c := M.Refill(old(caches)[c], M.SlotsPerPage(c), Frames.Alloc(old(vmm.State()).frames).1)]
      ensures sp == 0 <==> M.NeedsPage(caches[c])
      ensures vmm.State().frames == Frames.Alloc(old(vmm.State()).frames).0
      ensures ContentsKept(old(vmm.mem[..]), old(vmm.owner), vmm.mem[..], c, None) && StaysIn(old(vmm.owner), vmm.owner, c)
    {
      hide Inv, AllInv, Repr, PageRepr, M.CacheInv, Pack, Frames.Alloc, Translate, Writable, ClearPath, Put, OtherFrames, OnlyClass,
           ContentsKept, StaysIn, SameWalks, M.NeedsPage, M.Refill, M.SlotsPerPage, M.FreshSlots, V.P.Pmm.State, V.P.Pmm.IsUsed;
      ghost var k, m, o, mag, head := caches[c], vmm.mem[..], vmm.owner, mags[c], partial[c];
      ClassIs(c);
      ghost var n := Frames.Alloc(vmm.State().frames).1;
      sp := CreatePage(c);
      NotListed(m, o, c, k, head, mag, n);
      SlotsFit(c);
      M.RefillKeeps(k, M.SlotsPerPage(c), n, live[c]);
      if sp != 0 {
        assert n != 0;
        vmm.FrameInMemory(n);
        LinkPage(m, vmm.mem[..], c, n, head);
        ghost var m1 := vmm.mem[..];
        vmm.StoreWord(sp, partial[c], n, NEXT);
        SameWalksTrans(m, m1, vmm.mem[..], vmm.Root());
        partial[c] := sp;
        caches := caches[c := M.Refill(k, M.SlotsPerPage(c), n)];
        vmm.Reassign(n, SlabPage(c));
        assert vmm.owner == o[n := SlabPage(c)];
        LinkedRepr(m, vmm.mem[..], o, c, k, head, mag, n);
        NewPageOnly(m, o, vmm.mem[..], n, c);
        assert ClassOk(c);
      } else {
        RefillNothing(k, M.SlotsPerPage(c));
        assert caches == caches[c := M.Refill(k, M.SlotsPerPage(c), n)];
        NothingChanged(m, o, c);
        assert ClassOk(c);
      }
      Restored(c, old(vmm.mem[..]), old(vmm.owner), old(caches), old(live), old(partial[..]), old(mags[..]));
    }

    /** !sp || sp->free_count == 0 on the first page, once the magazine is empty. */
    method HeadExhausted(c: Class) returns (b: bool)
      requires Valid() && mags[c] == []
      ensures b == M.NeedsPage(caches[c])
    {
      hide Inv, AllInv, Repr, PageRepr, M.CacheInv, Pack, LinkOk;
      ClassIs(c);
      ghost var k := caches[c];
      MagEmpty(vmm.mem[..], vmm.owner, c, k, partial[c], mags[c]);
      HeadRepr(vmm.mem[..], vmm.owner, c, k, partial[c], mags[c]);
      var sp := partial[c];
      if sp == 0 { return true; }
      var counts := vmm.LoadWord(sp + 8, k.pages[0], COUNTS);
      PackFields(c, |k.free[k.pages[0]]|);
      b := CountField(counts) == 0;
    }

    /** obj = sp->free_list; sp->free_list = *obj; sp->free_count-- on page n with free list fl. */
    method UnthreadSlot(c: Class, sp: Word, ghost n: nat, ghost fl: seq<nat>) returns (obj: Word)
      requires vmm.Valid() && vmm.pml4Phys != 0 && n < |vmm.owner| <= HHDM_FRAMES && !IsTable(vmm.owner, n)
      requires sp == PagePtr(n) && SlotsOk(c, fl) && fl != [] && |fl| < 0x1_0000
      requires Entry(vmm.mem[..], n, COUNTS) == Pack(c, |fl|) && Entry(vmm.mem[..], n, FREE_LIST) == SlotPtr(c, n, fl, 0)
      modifies vmm.mem
      ensures vmm.Valid() && vmm.State() == old(vmm.State()).(mem := TakeSlot(old(vmm.mem[..]), c, n, fl[0], |fl|))
      ensures SameWalks(old(vmm.mem[..]), vmm.mem[..], vmm.Root())
      ensures obj == ObjPtr(c, M.Obj(n, fl[0]))
    {
      hide Inv, AllInv, Pack, Translate, Writable, ClearPath, Put, M.SlotsPerPage, ObjWord, V.P.Pmm.State, V.P.Pmm.IsUsed;
      vmm.FrameInMemory(n);
      obj := vmm.LoadWord(sp + 16, n, FREE_LIST);
      var next := vmm.LoadWord(obj, n, ObjWord(c, fl[0]));
      vmm.StoreWord(sp + 16, next, n, FREE_LIST);
      var counts := vmm.LoadWord(sp + 8, n, COUNTS);
      CountDown(c, |fl|);
      vmm.StoreWord(sp + 8, counts - 0x1_0000_0000, n, COUNTS);
    }

    /** slab_alloc on the first page of the class. */
    method TakeFromHead(c: Class) returns (obj: Word)
      requires Valid() && caches[c].mag == [] && !M.NeedsPage(caches[c])
      modifies vmm.mem, `caches, `live
      ensures Valid() && vmm.State().frames == old(vmm.State()).frames
      ensures SameWalks(old(vmm.mem[..]), vmm.mem[..], vmm.Root())
      ensures OnlyClass(old(vmm.mem[..]), old(vmm.owner), vmm.mem[..], vmm.owner, c) && vmm.owner == old(vmm.owner)
      ensures ContentsKept(old(vmm.mem[..]), old(vmm.owner), vmm.mem[..], c, None)
      ensures var (k, o) := M.Take(old(caches)[c]);
              && o.page < HHDM_FRAMES && o.slot < M.SlotsPerPage(c) && obj == ObjPtr(c, o)
              && caches == old(caches)[c := k] && live == old(live)[c := old(live)[c] + {o}]
    {
      hide ContentsKept, Inv, AllInv, Repr, PageRepr, M.CacheInv, Pack, Translate, Writable, ClearPath, SameWalks, TakeSlot, OnlyClass,
           M.SlotsPerPage, ObjWord, V.P.Pmm.State, V.P.Pmm.IsUsed;
      ghost var k, m := caches[c], vmm.mem[..];
      ClassIs(c);
      ghost var n := k.pages[0];
      HeadRepr(m, vmm.owner, c, k, partial[c], mags[c]);
      TakeOnly(m, vmm.owner, n, c, k.free[n][0], |k.free[n]|);
      SlotsFit(c);
      vmm.FrameInMemory(n);
      vmm.MemorySize();
      TakeRepr(m, vmm.owner, c, k, partial[c], mags[c]);
      M.TakeKeeps(k, M.SlotsPerPage(c), live[c]);
      obj := UnthreadSlot(c, partial[c], n, k.free[n]);
      caches := caches[c := M.Take(k).0];
      live := live[c := live[c] + {M.Take(k).1}];
      assert ClassOk(c);
      Restored(c, old(vmm.mem[..]), old(vmm.owner), old(caches), old(live), old(partial[..]), old(mags[..]));
    }

    /** obj = m->objs[--m->count] */
    method PopMagazine(c: Class) returns (obj: Word)
      requires Valid() && mags[c] != []
      modifies mags, `caches, `live
      ensures Valid()
      ensures old(caches)[c].mag != []
      ensures var (k, o) := M.Take(old(caches)[c]);
              && o.page < HHDM_FRAMES && o.slot < M.SlotsPerPage(c) && obj == ObjPtr(c, o)
              && caches == old(caches)[c := k] && live == old(live)[c := old(live)[c] + {o}]
    {
      hide Inv, AllInv, PageRepr, M.CacheInv, ListRepr, M.SlotsPerPage, ObjPtr;
      ghost var k := caches[c];
      ClassIs(c);
      obj := mags[c][|mags[c]| - 1];
      M.TakeKeeps(k, M.SlotsPerPage(c), live[c]);
      NothingChanged(vmm.mem[..], vmm.owner, c);
      mags[c] := mags[c][..|mags[c]| - 1];
      caches := caches[c := M.Take(k).0];
      live := live[c := live[c] + {M.Take(k).1}];
      assert ClassOk(c);
      Restored(c, old(vmm.mem[..]), old(vmm.owner), old(caches), old(live), old(partial[..]), old(mags[..]));
    }

    /**
     * slab_alloc: NULL for sizes above 2048 and when memory is exhausted, and
     * otherwise a pointer to a slot of the size's class that was not live.
     */
    method Alloc(size: nat) returns (ptr: Word)
      requires Valid()
      modifies vmm.mem, vmm.pmm`freeFrames, vmm.pmm.bitmap, vmm`owner, partial, mags, `caches, `live
      ensures Valid()
      ensures SameWalks(old(vmm.mem[..]), vmm.mem[..], vmm.Root())
      ensures M.SizeToIndex(size).None? ==>
                ptr == 0 && caches == old(caches) && live == old(live) && vmm.State() == old(vmm.State()) && vmm.owner == old(vmm.owner)
      ensures M.SizeToIndex(size).Some? ==>
                var c := M.SizeToIndex(size).value;
                Allocated(c, old(caches), old(live), old(vmm.State()), ptr) &&
                OnlyClass(old(vmm.mem[..]), old(vmm.owner), vmm.mem[..], vmm.owner, c)
      ensures LiveKept(old(vmm.mem[..]), vmm.mem[..], old(live))
    {
      hide ContentsKept, StaysIn, LiveKept, OnlyClass, Inv, AllInv, Repr, M.CacheInv, Translate, Writable, ClearPath, SameFrame, M.Take, M.SlotsPerPage, Frames.Alloc,
           V.P.Pmm.State, V.P.Pmm.IsUsed;
      var idx := M.SizeToIndex(size);
      NothingWritten(vmm.mem[..], live);
      if idx.None? { return 0; }
      var c := idx.value;
      ghost var k := caches[c];
      ClassIs(c);
      MagEmpty(vmm.mem[..], vmm.owner, c, k, partial[c], mags[c]);
      FreshForClass(c);
      M.AllocKeeps(k, M.SlotsPerPage(c), Frames.Alloc(vmm.State().frames).1, live[c]);
      if mags[c] != [] {
        NothingChanged(vmm.mem[..], vmm.owner, c);
        ptr := PopMagazine(c);
        return;
      }
      var b := HeadExhausted(c);
      if b {
        var sp := AddPage(c);
        if sp == 0 {
          LiveStays(old(vmm.mem[..]), old(vmm.owner), vmm.mem[..], vmm.owner, c, old(caches), old(live), old(partial[..]), old(mags[..]), None);
          return 0;
        }
      }
      ghost var m, o := vmm.mem[..], vmm.owner;
      ptr := TakeFromHead(c);
      if b { OnlyClassThen(old(vmm.mem[..]), old(vmm.owner), m, o, vmm.mem[..], c); }
      LiveStays(old(vmm.mem[..]), old(vmm.owner), vmm.mem[..], vmm.owner, c, old(caches), old(live), old(partial[..]), old(mags[..]), None);
    }

    /** What slab_alloc leaves behind in class c, in terms of the class's abstract state. */
    ghost predicate Allocated(c: Class, caches0: seq<M.Cache>, live0: seq<set<M.Obj>>, s0: Vm, ptr: Word)
      requires |caches0| == |live0| == M.SLAB_CLASSES && vmm.Shape()
      reads this, vmm, vmm.mem, vmm.pmm, vmm.pmm.bitmap
    {
      var (k, r) := M.Alloc(caches0[c], M.SlotsPerPage(c), Frames.Alloc(s0.frames).1);
      && caches == caches0[c := k]
      && live == (if r.Some? then live0[c := live0[c] + {r.value}] else live0)
      && vmm.State().frames == (if M.NeedsPage(caches0[c]) then Frames.Alloc(s0.frames).0 else s0.frames)
      && (r.None? ==> ptr == 0)
      && (r.Some? ==> r.value !in live0[c] && r.value.page < HHDM_FRAMES && r.value.slot < M.SlotsPerPage(c) && ptr == ObjPtr(c, r.value))
    }

    /** The frame the allocator would hand out is on no list. */
    lemma FreshForClass(c: Class)
      requires Valid()
      ensures Frames.Alloc(vmm.State().frames).1 !in caches[c].pages && 0 < M.SlotsPerPage(c)
    {
      hide Repr, M.CacheInv, TablesOk, IdentityOk, Frames.Counted, Frames.Alloc;
      ClassIs(c);
      SlotsFit(c);
      AllocFrames(vmm.State().frames, vmm.owner, Fixed);
      NotListed(vmm.mem[..], vmm.owner, c, caches[c], partial[c], mags[c], Frames.Alloc(vmm.State().frames).1);
    }

    /** *ptr = sp->free_list; sp->free_list = ptr; sp->free_count++; the new header word. */
    method RethreadSlot(c: Class, sp: Word, ptr: Word, ghost n: nat, ghost slot: nat, ghost count: nat) returns (counts: Word)
      requires vmm.Valid() && vmm.pml4Phys != 0 && n < |vmm.owner| <= HHDM_FRAMES && !IsTable(vmm.owner, n)
      requires slot < M.SlotsPerPage(c) && count + 1 < 0x1_0000
      requires sp == PagePtr(n) && ptr == ObjPtr(c, M.Obj(n, slot)) && Entry(vmm.mem[..], n, COUNTS) == Pack(c, count)
      modifies vmm.mem
      ensures vmm.Valid() && vmm.State() == old(vmm.State()).(mem := PushSlot(old(vmm.mem[..]), c, n, slot, count))
      ensures SameWalks(old(vmm.mem[..]), vmm.mem[..], vmm.Root())
      ensures counts == Pack(c, count + 1)
    {
      hide Inv, AllInv, Pack, Translate, Writable, ClearPath, Put, M.SlotsPerPage, ObjWord, V.P.Pmm.State, V.P.Pmm.IsUsed;
      vmm.FrameInMemory(n);
      var head := vmm.LoadWord(sp + 16, n, FREE_LIST);
      vmm.StoreWord(ptr, head, n, ObjWord(c, slot));
      vmm.StoreWord(sp + 16, ptr, n, FREE_LIST);
      counts := vmm.LoadWord(sp + 8, n, COUNTS);
      CountUp(c, count);
      counts := counts + 0x1_0000_0000;
      vmm.StoreWord(sp + 8, counts, n, COUNTS);
    }

    /** The search `while (*pp && *pp != sp)`: the page before n, NULL when n is first. */
    method FindPrevious(c: Class, sp: Word, ghost pages: seq<nat>, ghost n: nat) returns (prev: Word, ghost k: nat)
      requires vmm.Valid() && vmm.pml4Phys != 0 && partial.Length == M.SLAB_CLASSES
      requires ListRepr(vmm.mem[..], pages, partial[c]) && M.NoDup(pages) && n in pages && sp == PagePtr(n)
      requires forall i :: 0 <= i < |pages| ==> pages[i] < |vmm.owner| <= HHDM_FRAMES
      ensures k < |pages| && pages[k] == n
      ensures prev == if k == 0 then 0 else PagePtr(pages[k - 1])
    {
      hide Inv, AllInv, PagePtr;
      prev := 0;
      var cur := partial[c];
      k := 0;
      NextPtrIs(pages, 0, n);
      while cur != 0 && cur != sp
        invariant k <= |pages| && forall i :: 0 <= i < k ==> pages[i] != n
        invariant cur == NextPtr(pages, k) && (cur == 0 <==> k == |pages|) && (k < |pages| ==> (cur == sp <==> pages[k] == n))
        invariant prev == if k == 0 then 0 else PagePtr(pages[k - 1])
        decreases |pages| - k
      {
        assert NextOk(vmm.mem[..], pages, k);
        NextPtrIs(pages, k + 1, n);
        prev := cur;
        cur := ReadNext(cur, pages[k]);
        k := k + 1;
      }
    }

    method ReadNext(sp: Word, ghost n: nat) returns (next: Word)
      requires vmm.Valid() && vmm.pml4Phys != 0 && n < |vmm.owner| <= HHDM_FRAMES && sp == PagePtr(n)
      ensures next == Entry(vmm.mem[..], n, NEXT)
    {
      hide Inv;
      next := vmm.LoadWord(sp, n, NEXT);
    }

    /** *pp = sp->next */
    method Unlink(c: Class, sp: Word, ghost pages: seq<nat>, ghost n: nat)
      requires vmm.Valid() && vmm.pml4Phys != 0 && partial.Length == M.SLAB_CLASSES && partial != vmm.mem
      requires ListRepr(vmm.mem[..], pages, partial[c]) && M.NoDup(pages) && n in pages && sp == PagePtr(n)
      requires forall i :: 0 <= i < |pages| ==> pages[i] < |vmm.owner| <= HHDM_FRAMES && !IsTable(vmm.owner, pages[i])
      modifies vmm.mem, partial
      ensures vmm.Valid() && vmm.State().frames == old(vmm.State()).frames
      ensures SameWalks(old(vmm.mem[..]), vmm.mem[..], vmm.Root())
      ensures ListRepr(vmm.mem[..], M.Without(pages, n), partial[c])
      ensures forall d: Class :: d != c ==> partial[d] == old(partial[d])
      ensures OnlyLinks(old(vmm.mem[..]), vmm.mem[..], pages)
    {
      hide Inv, AllInv, ListRepr, PagePtr, Put, Translate, Writable, ClearPath, V.P.Pmm.State, V.P.Pmm.IsUsed;
      var prev, k := FindPrevious(c, sp, pages, n);
      ghost var m := vmm.mem[..];
      NextOf(m, pages, partial[c], k);
      var next := ReadNext(sp, n);
      if prev == 0 {
        PagePtrNonNull(if k > 0 then pages[k - 1] else 0);
        UnlinkRepr(m, m, pages, partial[c], next, k);
        partial[c] := next;
        assert vmm.mem[..] == m;
      } else {
        vmm.FrameInMemory(pages[k - 1]);
        UnlinkRepr(m, Put(m, pages[k - 1], NEXT, next), pages, partial[c], partial[c], k);
        StoreNext(prev, next, pages[k - 1]);
      }
    }

    method StoreNext(sp: Word, next: Word, ghost n: nat)
      requires vmm.Valid() && vmm.pml4Phys != 0 && n < |vmm.owner| <= HHDM_FRAMES && sp == PagePtr(n) && !IsTable(vmm.owner, n)
      modifies vmm.mem
      ensures vmm.Valid() && vmm.State() == old(vmm.State()).(mem := Put(old(vmm.mem[..]), n, NEXT, next))
      ensures SameWalks(old(vmm.mem[..]), vmm.mem[..], vmm.Root())
    {
      hide Inv, AllInv, SameWalks, Put;
      vmm.StoreWord(sp, next, n, NEXT);
    }

    /** m->objs[m->count++] = ptr */
    method ParkSlot(c: Class, ptr: Word, ghost o: M.Obj)
      requires Valid() && o in live[c] && o.page < HHDM_FRAMES && o.slot < M.SlotsPerPage(c) && ptr == ObjPtr(c, o)
      requires |mags[c]| < M.MAGAZINE_SIZE
      modifies mags, `caches, `live
      ensures Valid()
      ensures caches == old(caches)[c := M.Free(old(caches)[c], M.SlotsPerPage(c), o)] && live == old(live)[c := old(live)[c] - {o}]
    {
      hide Inv, AllInv, PageRepr, M.CacheInv, ListRepr, M.SlotsPerPage, ObjPtr;
      ghost var k := caches[c];
      ClassIs(c);
      M.FreeKeeps(k, M.SlotsPerPage(c), o, live[c]);
      NothingChanged(vmm.mem[..], vmm.owner, c);
      mags[c] := mags[c] + [ptr];
      caches := caches[c := M.Free(k, M.SlotsPerPage(c), o)];
      live := live[c := live[c] - {o}];
      assert ClassOk(c);
      Restored(c, old(vmm.mem[..]), old(vmm.owner), old(caches), old(live), old(partial[..]), old(mags[..]));
    }

    /** pmm_free_frame(page_base): given a direct-map address, it does nothing. */
    method FreeIgnored(base: Word, ghost n: nat)
      requires vmm.Valid() && vmm.pml4Phys != 0 && n < HHDM_FRAMES && base == PagePtr(n)
      modifies vmm.pmm`freeFrames, vmm.pmm.bitmap
      ensures vmm.Valid() && vmm.State() == old(vmm.State())
    {
      hide Inv, AllInv, V.P.Pmm.State, V.P.Pmm.IsUsed;
      vmm.DirectMapOutOfRange(n);
      vmm.pmm.FreeFrame(base);
    }

    /** A page whose slots are all on its free list leaves class c; its frame is then lost. */
    method RetirePage(c: Class, base: Word, ghost k: M.Cache, ghost n: nat)
      requires vmm.Valid() && vmm.pml4Phys != 0 && |vmm.owner| <= HHDM_FRAMES && Shape()
      requires Repr(vmm.mem[..], vmm.owner, c, k, partial[c], mags[c]) && M.NoDup(k.pages)
      requires n in k.pages && n < HHDM_FRAMES && base == PagePtr(n)
      modifies vmm.mem, vmm.pmm`freeFrames, vmm.pmm.bitmap, vmm`owner, partial
      ensures vmm.Valid() && vmm.State().frames == old(vmm.State()).frames
      ensures SameWalks(old(vmm.mem[..]), vmm.mem[..], vmm.Root())
      ensures n < |old(vmm.owner)| && vmm.owner == old(vmm.owner)[n := Lost]
      ensures Repr(vmm.mem[..], vmm.owner, c, k.(pages := M.Without(k.pages, n), free := k.free - {n}), partial[c], mags[c])
      ensures forall d: Class :: d != c ==> partial[d] == old(partial[d])
      ensures OnlyLinks(old(vmm.mem[..]), vmm.mem[..], k.pages)
    {
      hide Inv, AllInv, Repr, PageRepr, ListRepr, PagePtr, Translate, Writable, ClearPath, V.P.Pmm.State, V.P.Pmm.IsUsed;
      ghost var m, own, head, mag := vmm.mem[..], vmm.owner, partial[c], mags[c];
      PagesUsable(m, own, c, k, head, mag);
      Unlink(c, base, k.pages, n);
      RetireRepr(m, vmm.mem[..], own, c, k, head, partial[c], mag, n);
      vmm.Reassign(n, Lost);
      FreeIgnored(base, n);
    }

    /** RetirePage as the end of slab_free, which began in memory m0 and has put o back. */
    method RetireEmptied(c: Class, base: Word, ghost k: M.Cache, ghost o: M.Obj, ghost m0: Mem)
      requires vmm.Valid() && vmm.pml4Phys != 0 && |vmm.owner| <= HHDM_FRAMES && Shape()
      requires Repr(vmm.mem[..], vmm.owner, c, k, partial[c], mags[c]) && M.NoDup(k.pages)
      requires o.page in k.pages && o.page < HHDM_FRAMES && base == PagePtr(o.page)
      requires OnlyClass(m0, vmm.owner, vmm.mem[..], vmm.owner, c) && ContentsKept(m0, vmm.owner, vmm.mem[..], c, Some(o))
      requires SameWalks(m0, vmm.mem[..], vmm.Root())
      modifies vmm.mem, vmm.pmm`freeFrames, vmm.pmm.bitmap, vmm`owner, partial
      ensures vmm.Valid() && vmm.State().frames == old(vmm.State()).frames && |vmm.owner| == |old(vmm.owner)|
      ensures SameWalks(m0, vmm.mem[..], vmm.Root())
      ensures Repr(vmm.mem[..], vmm.owner, c, k.(pages := M.Without(k.pages, o.page), free := k.free - {o.page}), partial[c], mags[c])
      ensures forall d: Class :: d != c ==> partial[d] == old(partial[d])
      ensures OnlyClass(m0, old(vmm.owner), vmm.mem[..], vmm.owner, c) && ContentsKept(m0, old(vmm.owner), vmm.mem[..], c, Some(o))
    {
      hide Inv, AllInv, Repr, PageRepr, ListRepr, PagePtr, Translate, Writable, ClearPath, OnlyClass, ContentsKept, OnlyLinks, V.P.Pmm.State, V.P.Pmm.IsUsed;
      ghost var m, own := vmm.mem[..], vmm.owner;
      PagesUsable(m, own, c, k, partial[c], mags[c]);
      RetirePage(c, base, k, o.page);
      UnlinkOnly(m0, m, vmm.mem[..], own, c, k, o.page);
    }

    /** The rest of slab_free past a full magazine, for the page at `base`. */
    method ReturnSlot(c: Class, base: Word, ptr: Word, ghost o: M.Obj)
      requires Valid() && o in live[c] && o.page < HHDM_FRAMES && o.slot < M.SlotsPerPage(c)
      requires ptr == ObjPtr(c, o) && base == PagePtr(o.page)
      requires |mags[c]| == M.MAGAZINE_SIZE
      modifies vmm.mem, vmm.pmm`freeFrames, vmm.pmm.bitmap, vmm`owner, partial, `caches, `live
      ensures Valid() && vmm.State().frames == old(vmm.State()).frames
      ensures SameWalks(old(vmm.mem[..]), vmm.mem[..], vmm.Root())
      ensures OnlyClass(old(vmm.mem[..]), old(vmm.owner), vmm.mem[..], vmm.owner, c)
      ensures caches == old(caches)[c := M.Free(old(caches)[c], M.SlotsPerPage(c), o)] && live == old(live)[c := old(live)[c] - {o}]
      ensures ContentsKept(old(vmm.mem[..]), old(vmm.owner), vmm.mem[..], c, Some(o))
    {
      hide ContentsKept, Inv, AllInv, Repr, PageRepr, M.CacheInv, M.NoDup, ListRepr, M.SlotsPerPage, Pack, PagePtr, ObjPtr, Translate, Writable,
           ClearPath, PushSlot, OnlyClass, OnlyLinks, V.P.Pmm.State, V.P.Pmm.IsUsed, M.Without;
      ghost var k, m, own, mag := caches[c], vmm.mem[..], vmm.owner, mags[c];
      ghost var slots := M.SlotsPerPage(c);
      ClassIs(c);
      BeforePush(m, own, c, k, partial[c], mag, live[c], o);
      ghost var fl := k.free[o.page];
      vmm.MemorySize();
      PushRepr(m, own, c, k, partial[c], mag, o);
      M.FreeKeeps(k, slots, o, live[c]);
      PushOnly(m, own, c, o, |fl|);
      var counts := RethreadSlot(c, base, ptr, o.page, o.slot, |fl|);
      PackFields(c, |fl| + 1);
      caches := caches[c := M.Free(k, slots, o)];
      live := live[c := live[c] - {o}];
      if CountField(counts) == SlotsField(counts) {
        RetireEmptied(c, base, k.(free := k.free[o.page := [o.slot] + fl]), o, m);
        RetiredMap(k, o, fl);
      }
      assert ClassOk(c);
      Restored(c, old(vmm.mem[..]), old(vmm.owner), old(caches), old(live), old(partial[..]), old(mags[..]));
    }

    /**
     * slab_free of a live object o of class c: the object leaves the live set, and
     * nothing outside its class changes.  NULL is ignored.
     */
    method Free(ptr: Word, ghost c: Class, ghost o: M.Obj)
      requires Valid()
      requires ptr != 0 ==> o in live[c] && o.page < HHDM_FRAMES && o.slot < M.SlotsPerPage(c) && ptr == ObjPtr(c, o)
      modifies vmm.mem, vmm.pmm`freeFrames, vmm.pmm.bitmap, vmm`owner, partial, mags, `caches, `live
      ensures Valid() && vmm.State().frames == old(vmm.State()).frames
      ensures SameWalks(old(vmm.mem[..]), vmm.mem[..], vmm.Root())
      ensures OnlyClass(old(vmm.mem[..]), old(vmm.owner), vmm.mem[..], vmm.owner, c)
      ensures ptr == 0 ==> caches == old(caches) && live == old(live)
      ensures ptr != 0 ==> caches == old(caches)[c := M.Free(old(caches)[c], M.SlotsPerPage(c), o)] && live == old(live)[c := old(live)[c] - {o}]
      ensures LiveKept(old(vmm.mem[..]), vmm.mem[..], live)
    {
      hide ContentsKept, StaysIn, LiveKept, Inv, AllInv, Repr, PageRepr, M.CacheInv, M.NoDup, M.Free, M.SlotsPerPage, Pack, ObjWord, Translate, Writable, ClearPath,
           OnlyClass, V.P.Pmm.State, V.P.Pmm.IsUsed, LinkOk, SlotPtr, SizeField, SlotsField;
      NothingChanged(vmm.mem[..], vmm.owner, c);
      NothingWritten(vmm.mem[..], live);
      if ptr == 0 { return; }
      ClassIs(c);
      BeforePush(vmm.mem[..], vmm.owner, c, caches[c], partial[c], mags[c], live[c], o);
      PtrPage(o.page, 8 * ObjWord(c, o.slot));
      PackFields(c, |caches[c].free[o.page]|);
      SlotsFit(c);
      SizePositive(c);
      var base := PageBase(ptr);
      var counts := vmm.LoadWord(base + 8, o.page, COUNTS);
      if SizeField(counts) == 0 || SlotsField(counts) == 0 { return; }
      var idx := M.SizeToIndex(SizeField(counts));
      if idx.None? { return; }
      MagSize(c);
      if |mags[idx.value]| < M.MAGAZINE_SIZE {
        ParkSlot(idx.value, ptr, o);
      } else {
        ReturnSlot(idx.value, base, ptr, o);
      }
      LiveStays(old(vmm.mem[..]), old(vmm.owner), vmm.mem[..], vmm.owner, c, old(caches), old(live), old(partial[..]), old(mags[..]), Some(o));
      LessLive(old(vmm.mem[..]), vmm.mem[..], old(live), c, o);
    }

    lemma MagSize(c: Class)
      requires Valid()
      ensures |mags[c]| <= M.MAGAZINE_SIZE
    {
      hide Inv;
      ClassIs(c);
    }

    /** slab_free_objects: walks the list adding free counts, then adds the magazine. */
    method FreeObjects(size: nat) returns (total: nat)
      requires Valid()
      ensures M.SizeToIndex(size).None? ==> total == 0
      ensures M.SizeToIndex(size).Some? ==>
                var c := M.SizeToIndex(size).value;
                total + |live[c]| == |caches[c].pages| * M.SlotsPerPage(c)
    {
      hide Inv, AllInv, Repr, PageRepr, M.CacheInv, M.SlotsPerPage, Pack, PagePtr, LinkOk, SlotPtr, CountField;
      var idx := M.SizeToIndex(size);
      if idx.None? { return 0; }
      var c := idx.value;
      ghost var k := caches[c];
      ClassIs(c);
      PagesUsable(vmm.mem[..], vmm.owner, c, k, partial[c], mags[c]);
      MagEmpty(vmm.mem[..], vmm.owner, c, k, partial[c], mags[c]);
      M.FreeObjectsExact(k, M.SlotsPerPage(c), live[c]);
      total := 0;
      var p := partial[c];
      ghost var i := 0;
      while p != 0
        invariant i <= |k.pages| && p == NextPtr(k.pages, i)
        invariant total + M.TotalFree(k, k.pages[i..]) == M.TotalFree(k, k.pages)
        decreases |k.pages| - i
      {
        PageHeaders(vmm.mem[..], vmm.owner, c, k, partial[c], mags[c], k.pages[i]);
        PackFields(c, |k.free[k.pages[i]]|);
        assert NextOk(vmm.mem[..], k.pages, i);
        var counts := ReadCounts(p, k.pages[i]);
        total := total + CountField(counts);
        p := ReadNext(p, k.pages[i]);
        i := i + 1;
      }
      if i < |k.pages| { PagePtrNonNull(k.pages[i]); }
      total := total + |mags[c]|;
    }

    method ReadCounts(sp: Word, ghost n: nat) returns (counts: Word)
      requires vmm.Valid() && vmm.pml4Phys != 0 && n < |vmm.owner| <= HHDM_FRAMES && sp == PagePtr(n)
      ensures counts == Entry(vmm.mem[..], n, COUNTS)
    {
      hide Inv;
      counts := vmm.LoadWord(sp + 8, n, COUNTS);
    }
  }

  lemma SizePositive(c: Class)
    ensures 16 <= M.SlabSize(c)
  {
  }

  lemma RetiredMap(k: M.Cache, o: M.Obj, fl: seq<nat>)
    ensures k.free[o.page := [o.slot] + fl] - {o.page} == k.free - {o.page}
  {
  }

  /** What slab_free may rely on when it puts a live slot back on its page. */
  lemma BeforePush(m: Mem, owner: seq<Owner>, c: Class, k: M.Cache, head: Word, mag: seq<Word>, live: set<M.Obj>, o: M.Obj)
    requires Repr(m, owner, c, k, head, mag) && M.CacheInv(k, M.SlotsPerPage(c), live) && o in live
    ensures |k.mag| == |mag|
    ensures o.page in k.pages && PageHeader(m, owner, c, k, o.page) && o.slot !in k.free[o.page]
    ensures |k.free[o.page]| < M.SlotsPerPage(c) <= 254 && M.NoDup(k.pages)
  {
    SlotsFit(c);
    PageHeaders(m, owner, c, k, head, mag, o.page);
    assert !M.Listed(k, o);
    if |k.free[o.page]| == M.SlotsPerPage(c) {
      M.FullPageIdle(k, M.SlotsPerPage(c), live, o.page);
    }
  }

  lemma PagesUsable(m: Mem, owner: seq<Owner>, c: Class, k: M.Cache, head: Word, mag: seq<Word>)
    requires Repr(m, owner, c, k, head, mag)
    ensures ListRepr(m, k.pages, head)
    ensures forall i :: 0 <= i < |k.pages| ==> 0 < k.pages[i] < |owner| && owner[k.pages[i]] == SlabPage(c)
  {
    forall i | 0 <= i < |k.pages| ensures 0 < k.pages[i] < |owner| && owner[k.pages[i]] == SlabPage(c) {
      assert k.pages[i] in k.pages;
    }
  }

  lemma PushOnly(m: Mem, owner: seq<Owner>, c: Class, o: M.Obj, count: nat)
    requires o.page < |owner| && o.page < HHDM_FRAMES && owner[o.page] == SlabPage(c) && o.slot < M.SlotsPerPage(c) && count + 1 < 0x1_0000
    ensures OnlyClass(m, owner, PushSlot(m, c, o.page, o.slot, count), owner, c)
    ensures ContentsKept(m, owner, PushSlot(m, c, o.page, o.slot, count), c, Some(o))
  {
    SizePositive(c);
  }

  lemma UnlinkOnly(m: Mem, m1: Mem, m2: Mem, owner: seq<Owner>, c: Class, k: M.Cache, n: nat)
    requires OnlyClass(m, owner, m1, owner, c) && OnlyLinks(m1, m2, k.pages)
    requires n < |owner| && owner[n] == SlabPage(c)
    requires forall i :: 0 <= i < |k.pages| ==> k.pages[i] < |owner| && owner[k.pages[i]] == SlabPage(c)
    ensures OnlyClass(m, owner, m2, owner[n := Lost], c)
    ensures forall f :: ContentsKept(m, owner, m1, c, f) ==> ContentsKept(m, owner, m2, c, f)
  {
  }

  /** m and m' differ at most in the next fields of the given pages. */
  ghost predicate OnlyLinks(m: Mem, m': Mem, pages: seq<nat>) {
    forall k: nat, i: Index :: k !in pages || i != NEXT ==> Entry(m', k, i) == Entry(m, k, i)
  }

  lemma NextOf(m: Mem, pages: seq<nat>, head: Word, k: nat)
    requires ListRepr(m, pages, head) && k < |pages|
    ensures PagesOk(pages) && Entry(m, pages[k], NEXT) == NextPtr(pages, k + 1)
    ensures k == 0 ==> head == NextPtr(pages, 0)
  {
    assert NextOk(m, pages, k);
  }

  lemma PagePtrNonNull(n: nat)
    requires n < HHDM_FRAMES
    ensures PagePtr(n) != 0
  {
  }

  lemma MagEmpty(m: Mem, owner: seq<Owner>, c: Class, k: M.Cache, head: Word, mag: seq<Word>)
    requires Repr(m, owner, c, k, head, mag)
    ensures |k.mag| == |mag|
  {
  }

  lemma TakeOnly(m: Mem, owner: seq<Owner>, n: nat, c: Class, slot: nat, count: nat)
    requires n < |owner| && owner[n] == SlabPage(c) && slot < M.SlotsPerPage(c) && 0 < count < 0x1_0000
    ensures OnlyClass(m, owner, TakeSlot(m, c, n, slot, count), owner, c)
    ensures ContentsKept(m, owner, TakeSlot(m, c, n, slot, count), c, None)
  {
  }

  /** Storing the next field completes a page that create_slab_page made. */
  lemma LinkPage(m: Mem, m': Mem, c: Class, n: nat, head: Word)
    requires n < HHDM_FRAMES && (n + 1) * WORDS_PER_PAGE <= |m'|
    requires OtherFrames(m, m', n) && PageRepr(m', c, n, M.FreshSlots(M.SlotsPerPage(c)))
    ensures var m2 := Put(m', n, NEXT, head);
            OtherFrames(m, m2, n) && PageRepr(m2, c, n, M.FreshSlots(M.SlotsPerPage(c))) && Entry(m2, n, NEXT) == head
  {
    hide M.SlotsPerPage, M.FreshSlots, PageRepr;
    PageReprFrame(m', Put(m', n, NEXT, head), c, n, M.FreshSlots(M.SlotsPerPage(c)));
  }

  lemma LinkedRepr(m: Mem, m': Mem, owner: seq<Owner>, c: Class, k: M.Cache, head: Word, mag: seq<Word>, n: nat)
    requires Repr(m, owner, c, k, head, mag) && M.NeedsPage(k)
    requires 0 < n < |owner| && n < HHDM_FRAMES && owner[n] == Unowned
    requires OtherFrames(m, m', n) && PageRepr(m', c, n, M.FreshSlots(M.SlotsPerPage(c))) && Entry(m', n, NEXT) == head
    ensures Repr(m', owner[n := SlabPage(c)], c, M.Refill(k, M.SlotsPerPage(c), n), PagePtr(n), mag)
  {
    hide M.SlotsPerPage, M.FreshSlots, PageRepr, Repr;
    AddPageRepr(m, m', owner, c, k, head, mag, n);
  }

  /** Class c lies in memory m as its abstract state says, and the partition of its slots holds. */
  ghost predicate ClassInv(m: Mem, owner: seq<Owner>, c: Class, cache: M.Cache, live: set<M.Obj>, head: Word, mag: seq<Word>) {
    M.CacheInv(cache, M.SlotsPerPage(c), live) && Repr(m, owner, c, cache, head, mag)
  }

  ghost predicate AllInv(m: Mem, owner: seq<Owner>, caches: seq<M.Cache>, live: seq<set<M.Obj>>, heads: seq<Word>, mags: seq<seq<Word>>) {
    && |caches| == |live| == |heads| == |mags| == M.SLAB_CLASSES
    && forall c: Class :: ClassInv(m, owner, c, caches[c], live[c], heads[c], mags[c])
  }

  /** A change to frames of class c alone leaves another class as it is. */
  lemma OtherClass(m: Mem, owner: seq<Owner>, m': Mem, owner': seq<Owner>, c: Class, d: Class, cache: M.Cache, live: set<M.Obj>, head: Word, mag: seq<Word>)
    requires c != d && OnlyClass(m, owner, m', owner', c) && ClassInv(m, owner, d, cache, live, head, mag)
    ensures ClassInv(m', owner', d, cache, live, head, mag)
  {
    hide Repr, M.CacheInv;
    ReprFrame(m, m', owner, owner', d, cache, head, mag);
  }

  lemma OnlyClassThen(m: Mem, owner: seq<Owner>, m1: Mem, owner1: seq<Owner>, m2: Mem, c: Class)
    requires OnlyClass(m, owner, m1, owner1, c) && OnlyClass(m1, owner1, m2, owner1, c)
    ensures OnlyClass(m, owner, m2, owner1, c)
    ensures ContentsKept(m, owner, m1, c, None) && ContentsKept(m1, owner1, m2, c, None) && StaysIn(owner, owner1, c) ==> ContentsKept(m, owner, m2, c, None)
  {
  }

  lemma RefillNothing(k: M.Cache, slots: nat)
    ensures M.Refill(k, slots, 0) == k
  {
  }

  lemma NothingChanged(m: Mem, owner: seq<Owner>, c: Class)
    ensures OnlyClass(m, owner, m, owner, c) && StaysIn(owner, owner, c)
    ensures forall f :: ContentsKept(m, owner, m, c, f)
  {
  }

  lemma NewPageOnly(m: Mem, owner: seq<Owner>, m': Mem, n: nat, c: Class)
    requires n < |owner| && owner[n] == Unowned && OtherFrames(m, m', n)
    ensures OnlyClass(m, owner, m', owner[n := SlabPage(c)], c)
    ensures ContentsKept(m, owner, m', c, None) && StaysIn(owner, owner[n := SlabPage(c)], c)
  {
  }

  /** A frame that was free is on no list. */
  lemma NotListed(m: Mem, owner: seq<Owner>, c: Class, k: M.Cache, head: Word, mag: seq<Word>, n: nat)
    requires Repr(m, owner, c, k, head, mag)
    ensures n < |owner| && owner[n] == Unowned ==> n !in k.pages
    ensures n == 0 ==> n !in k.pages
  {
  }

  /** m and m' agree everywhere except in frame n. */
  ghost predicate OtherFrames(m: Mem, m': Mem, n: nat) {
    forall k: nat, i: Index :: k != n ==> Entry(m', k, i) == Entry(m, k, i)
  }

  lemma EmptyRepr(m: Mem, owner: seq<Owner>, c: Class)
    requires forall n :: 0 <= n < |owner| ==> owner[n] != SlabPage(c)
    ensures Repr(m, owner, c, M.Cache([], map[], []), 0, [])
    ensures M.CacheInv(M.Cache([], map[], []), M.SlotsPerPage(c), {})
  {
  }

  /** From one state to the next only frames of class c, and frames that were free, were written or changed hands. */
  ghost predicate OnlyClass(m: Mem, owner: seq<Owner>, m': Mem, owner': seq<Owner>, c: Class) {
    && |owner'| == |owner|
    && (forall n: nat :: n < |owner| ==>
          || owner'[n] == owner[n]
          || (owner[n] == Unowned && owner'[n] == SlabPage(c))
          || (owner[n] == SlabPage(c) && owner'[n] == Lost))
    && (forall n: nat :: n < |owner| && owner[n] != Unowned && owner[n] != SlabPage(c) ==> SameFrame(m, m', n))
  }

  // ----- the contents of live objects -----

  /** In frames of class c nothing but the headers was written, and the slot of a freed object. */
  ghost predicate ContentsKept(m: Mem, owner: seq<Owner>, m': Mem, c: Class, freed: Option<M.Obj>) {
    forall n: nat, i: Index ::
      n < |owner| && owner[n] == SlabPage(c) && 3 <= i && !(freed.Some? && InObject(c, freed.value, n, i)) ==> Entry(m', n, i) == Entry(m, n, i)
  }

  /** Frames of class c stay with it. */
  ghost predicate StaysIn(owner: seq<Owner>, owner': seq<Owner>, c: Class) {
    |owner'| == |owner| && forall n: nat :: n < |owner| && owner[n] == SlabPage(c) ==> owner'[n] == SlabPage(c)
  }

  /** Every word of every live object keeps its value. */
  ghost predicate LiveKept(m: Mem, m': Mem, live: seq<set<M.Obj>>) {
    |live| == M.SLAB_CLASSES && forall c: Class, o: M.Obj :: o in live[c] ==> ObjectKept(m, m', c, o)
  }

  ghost predicate ObjectKept(m: Mem, m': Mem, c: Class, o: M.Obj) {
    forall i: Index :: InObject(c, o, o.page, i) ==> Entry(m', o.page, i) == Entry(m, o.page, i)
  }

  lemma NothingWritten(m: Mem, live: seq<set<M.Obj>>)
    requires |live| == M.SLAB_CLASSES
    ensures LiveKept(m, m, live)
  {
  }

  /** If class c changed only in headers, free slots and the slot of the freed object, all other live objects keep their words. */
  lemma LiveStays(m: Mem, owner: seq<Owner>, m': Mem, owner': seq<Owner>, c: Class, caches: seq<M.Cache>, live: seq<set<M.Obj>>,
                  heads: seq<Word>, mags: seq<seq<Word>>, freed: Option<M.Obj>)
    requires AllInv(m, owner, caches, live, heads, mags) && OnlyClass(m, owner, m', owner', c)
    requires ContentsKept(m, owner, m', c, freed)
    ensures forall d: Class, o: M.Obj :: o in live[d] && !(d == c && freed == Some(o)) ==> ObjectKept(m, m', d, o)
    ensures freed == None ==> LiveKept(m, m', live)
  {
    hide Repr, M.CacheInv, ObjWord;
    forall d: Class, o: M.Obj | o in live[d] && !(d == c && freed == Some(o)) ensures ObjectKept(m, m', d, o) {
      assert ClassInv(m, owner, d, caches[d], live[d], heads[d], mags[d]);
      BeforePush(m, owner, d, caches[d], heads[d], mags[d], live[d], o);
      if d != c { assert SameFrame(m, m', o.page); }
      forall i: Index | InObject(d, o, o.page, i) ensures Entry(m', o.page, i) == Entry(m, o.page, i) {
        if d == c && freed.Some? && InObject(c, freed.value, o.page, i) { InOneSlot(c, o.slot, freed.value.slot, i); }
      }
    }
  }

  lemma LessLive(m: Mem, m': Mem, live: seq<set<M.Obj>>, c: Class, o: M.Obj)
    requires |live| == M.SLAB_CLASSES
    requires forall d: Class, p: M.Obj :: p in live[d] && !(d == c && p == o) ==> ObjectKept(m, m', d, p)
    ensures LiveKept(m, m', live[c := live[c] - {o}])
  {
    hide ObjectKept;
  }
}
