/**
 * kmalloc and kfree of src/lib/alloc.c over the slab allocator and the paging
 * state, all in one flat memory.
 */
module Alloc {
  import opened Words
  import opened Paging
  import opened PagingLaws
  import opened HeapModel
  import opened SlabLayout
  import opened Contents
  import Frames
  import M = SlabModel
  import S = Slab
  import V = Vmm

  class Kalloc {
    const slab: S.Slab
    const vmm: V.Vmm
    const heapBase: Word   // PAGE_ALIGN_UP(_kernel_bss_end)
    var heapCur: Word      // 0 until the first large request
    ghost const win: Window
    ghost var pages: set<nat>
    ghost var blocks: map<nat, nat>

    /** Next virtual page the heap will use. */
    ghost function Cur(): nat
      reads `heapCur
    {
      if heapCur == 0 then win.lo else FrameOf(heapCur)
    }

    ghost predicate CursorOk()
      reads `heapCur
    {
      && win.lo < PAGES && heapBase == PageAddr(win.lo) && 0 < win.lo
      && heapCur % PAGE_SIZE == 0
      && win.lo <= Cur() <= win.hi <= PAGES
    }

    ghost predicate HeapOk()
      requires vmm.Shape()
      reads this, vmm, vmm.mem, vmm.pmm, vmm.pmm.bitmap
    {
      && HeapInv(vmm.State(), vmm.owner, win, pages)
      && BlocksOk(vmm.State(), blocks, pages)
      && forall p :: p in pages ==> p < Cur()
    }

    ghost predicate Valid()
      reads this, slab, slab.partial, slab.mags, vmm, vmm.mem, vmm.pmm, vmm.pmm.bitmap
    {
      && slab.vmm == vmm && slab.Valid() && CursorOk() && HeapOk()
    }

    /** Memory and what is live in it. */
    ghost function Snap(): Heap
      requires vmm.Shape()
      reads `blocks, slab, vmm, vmm.mem, vmm.pmm, vmm.pmm.bitmap
    {
      Heap(vmm.State(), blocks, slab.live)
    }

    lemma SoundNow()
      requires Valid()
      ensures Sound(Snap(), vmm.owner, win, pages)
    {
      hide Inv, HeapInv, BlocksOk, S.AllInv, Repr, M.CacheInv;
      forall c: M.Class, o: M.Obj | o in slab.live[c] ensures o.page < |vmm.owner| && vmm.owner[o.page] == SlabPage(c) {
        slab.ClassIs(c);
        S.BeforePush(vmm.mem[..], vmm.owner, c, slab.caches[c], slab.partial[c], slab.mags[c], slab.live[c], o);
      }
    }

    /** What the slab allocator does to class c keeps all live memory but what it may free. */
    lemma KeptBySlab(h: Heap, owner0: seq<Owner>, c: S.Class, except: Target)
      requires Sound(h, owner0, win, pages) && vmm.Valid() && vmm.pml4Phys != 0 && vmm.Root() == h.s.root && (except == Null || except.Object?)
      requires |h.s.mem| == vmm.mem.Length
      requires SameWalks(h.s.mem, vmm.mem[..], h.s.root) && S.OnlyClass(h.s.mem, owner0, vmm.mem[..], vmm.owner, c)
      requires forall d: S.Class, o: M.Obj :: o in h.live[d] && except != Object(d, o) ==> S.ObjectKept(h.s.mem, vmm.mem[..], d, o)
      ensures Kept(h, Snap(), except)
    {
      hide Inv, HeapInv, BlocksOk, SameWalks, Entry, InObject, Owns, ObjectsPlaced, V.P.Pmm.State, V.P.Pmm.IsUsed;
      forall f: nat, i: Index | f < |owner0| && owner0[f].HeapPage? ensures Entry(vmm.mem[..], f, i) == Entry(h.s.mem, f, i) {
        assert SameFrame(h.s.mem, vmm.mem[..], f);
      }
      KeptByStill(h, owner0, win, pages, Snap(), vmm.owner, except);
    }

    /** The heap starts empty in a window that the page tables leave alone. */
    constructor (slab: S.Slab, heapBase: Word, ghost win: Window)
      requires slab.Valid() && win.lo < PAGES && heapBase == PageAddr(win.lo) && 0 < win.lo
      requires HeapInv(slab.vmm.State(), slab.vmm.owner, win, {})
      ensures Valid() && this.slab == slab && this.win == win && pages == {} && blocks == map[]
    {
      hide Inv;
      this.slab, this.vmm, this.heapBase, this.win := slab, slab.vmm, heapBase, win;
      heapCur := 0;
      pages, blocks := {}, map[];
    }

    /** The slab invariant does not depend on frames it does not own. */
    lemma SlabKept(m0: Mem, owner0: seq<Owner>)
      requires slab.Shape() && vmm == slab.vmm && vmm.Valid() && vmm.pml4Phys != 0
      requires S.AllInv(m0, owner0, slab.caches, slab.live, slab.partial[..], slab.mags[..])
      requires |vmm.owner| == |owner0| <= HHDM_FRAMES
      requires forall n, c :: 0 <= n < |owner0| ==> (vmm.owner[n] == SlabPage(c) <==> owner0[n] == SlabPage(c))
      requires forall n: nat :: n < |owner0| && owner0[n].SlabPage? ==> SameFrame(m0, vmm.mem[..], n)
      ensures slab.Valid()
    {
      hide Inv, Repr, M.CacheInv, SameFrame;
      forall c: S.Class ensures S.ClassInv(vmm.mem[..], vmm.owner, c, slab.caches[c], slab.live[c], slab.partial[..][c], slab.mags[..][c]) {
        assert S.ClassInv(m0, owner0, c, slab.caches[c], slab.live[c], slab.partial[..][c], slab.mags[..][c]);
        ReprFrame(m0, vmm.mem[..], owner0, vmm.owner, c, slab.caches[c], slab.partial[c], slab.mags[c]);
      }
    }

    /** The mapping loop of kmalloc: how many pages it mapped. */
    method MapPages(p: nat, n: nat) returns (mapped: nat)
      requires vmm.Valid() && vmm.pml4Phys != 0 && p + n <= PAGES
      requires forall q: nat :: p <= q < p + n ==> ClearPath(vmm.mem[..], vmm.Root(), PageAddr(q))
      modifies vmm.mem, vmm.pmm`freeFrames, vmm.pmm.bitmap, vmm`owner
      ensures vmm.Valid()
      ensures vmm.State() == HeapModel.MapPages(old(vmm.State()), p, n).0 && mapped == HeapModel.MapPages(old(vmm.State()), p, n).1
    {
      hide Inv, Translate, Writable, ClearPath, MapAllocPage, V.P.Pmm.State, V.P.Pmm.IsUsed;
      ghost var s := vmm.State();
      mapped := 0;
      while mapped < n
        invariant mapped <= n && vmm.Valid()
        invariant forall q: nat :: p <= q < p + n ==> ClearPath(vmm.mem[..], vmm.Root(), PageAddr(q))
        invariant HeapModel.MapPages(s, p, n).0 == HeapModel.MapPages(vmm.State(), p + mapped, n - mapped).0
        invariant HeapModel.MapPages(s, p, n).1 == mapped + HeapModel.MapPages(vmm.State(), p + mapped, n - mapped).1
      {
        var phys := vmm.MapAllocPage(PageAddr(p + mapped), PTE_W);
        if phys == 0 { break; }
        mapped := mapped + 1;
      }
    }

    /** One round of the unwinding loop and of kfree. */
    method UnmapOne(p: nat, ghost pgs: set<nat>)
      requires vmm.Valid() && vmm.pml4Phys != 0 && HeapInv(vmm.State(), vmm.owner, win, pgs) && p in pgs && p < PAGES
      modifies vmm.mem, vmm.pmm`freeFrames, vmm.pmm.bitmap, vmm`owner
      ensures vmm.Valid() && vmm.State() == HeapModel.UnmapOne(old(vmm.State()), p)
      ensures HeapInv(vmm.State(), vmm.owner, win, pgs - {p})
    {
      hide TablesOk, IdentityOk, FramesOk, Translate, Writable, ClearPath, UnmapPage, Entry, V.P.Pmm.State, V.P.Pmm.IsUsed;
      ghost var owner' := UnmapOneKeeps(vmm.State(), vmm.owner, win, pgs, p);
      assert Backed(vmm.State(), vmm.owner, p) && InWindow(win, p);
      var phys := vmm.TranslatePage(PageAddr(p));
      ghost var f := FrameOf(phys);
      FrameStart(f);
      if phys != 0 {
        var _ := vmm.UnmapPage(PageAddr(p));
        vmm.FreeOwned(phys, f);
      }
      vmm.SetOwner(owner');
    }

    method UnmapPages(p: nat, n: nat, ghost pgs: set<nat>)
      requires vmm.Valid() && vmm.pml4Phys != 0 && HeapInv(vmm.State(), vmm.owner, win, pgs) && p + n <= PAGES && Range(p, n) <= pgs
      modifies vmm.mem, vmm.pmm`freeFrames, vmm.pmm.bitmap, vmm`owner
      ensures vmm.Valid() && vmm.State() == HeapModel.UnmapPages(old(vmm.State()), p, n)
      ensures HeapInv(vmm.State(), vmm.owner, win, pgs - Range(p, n))
    {
      hide Inv, HeapInv, HeapModel.UnmapOne, V.P.Pmm.State, V.P.Pmm.IsUsed;
      ghost var s := vmm.State();
      var i := 0;
      assert pgs - Range(p, 0) == pgs;
      while i < n
        invariant i <= n && vmm.Valid()
        invariant HeapInv(vmm.State(), vmm.owner, win, pgs - Range(p, i))
        invariant HeapModel.UnmapPages(s, p, n) == HeapModel.UnmapPages(vmm.State(), p + i, n - i)
      {
        UnmapOne(p + i, pgs - Range(p, i));
        assert pgs - Range(p, i) - {p + i} == pgs - Range(p, i + 1);
        i := i + 1;
      }
    }

    /** Maps pages p .. p+n-1, or none: the loops of kmalloc with their unwinding. */
    method MapAll(p: nat, n: nat) returns (ok: bool)
      requires Valid() && win.lo <= p && p + n <= win.hi && Range(p, n) !! pages
      modifies vmm.mem, vmm.pmm`freeFrames, vmm.pmm.bitmap, vmm`owner
      ensures slab.Valid()
      ensures vmm.State() == HeapModel.MapAll(old(vmm.State()), p, n).0 && ok == HeapModel.MapAll(old(vmm.State()), p, n).1
      ensures Untouched(old(vmm.mem[..]), vmm.mem[..], old(vmm.owner))
      ensures ok ==> HeapInv(vmm.State(), vmm.owner, win, pages + Range(p, n))
                     && OnlyNewPages(old(vmm.owner), vmm.owner, Range(p, n))
                     && SameElsewhere(old(vmm.mem[..]), vmm.mem[..], vmm.Root(), Range(p, n))
      ensures !ok ==> HeapInv(vmm.State(), vmm.owner, win, pages)
                      && OnlyNewTables(old(vmm.owner), vmm.owner)
                      && SameWalks(old(vmm.mem[..]), vmm.mem[..], vmm.Root())
    {
      hide Inv, HeapInv, Translate, Writable, ClearPath, Entry, S.AllInv, HeapModel.MapPages, HeapModel.UnmapPages, BlocksOk,
           SamePage, SameWalks, SameElsewhere, Untouched, OnlyNewPages, OnlyNewTables, V.P.Pmm.State, V.P.Pmm.IsUsed;
      ghost var s, own := vmm.State(), vmm.owner;
      HeapSized(s, own, win, pages);
      ClearRange(s, own, win, pages, p, n);
      var mapped := MapPages(p, n);
      ghost var own1 := MapPagesKeeps(s, own, win, pages, p, n);
      HeapInvIsInv(vmm.State(), own1, win, pages + Range(p, mapped));
      vmm.SetOwner(own1);
      ok := mapped == n;
      if !ok {
        UnmapPages(p, mapped, pages + Range(p, mapped));
      }
      ghost var own2 := MapAllKeeps(s, own, win, pages, p, n);
      ghost var h := if ok then pages + Range(p, n) else pages;
      HeapInvIsInv(vmm.State(), own2, win, h);
      vmm.SetOwner(own2);
      SlabsSpared(s.mem, own, Range(p, n));
    }

    /** Mapping heap pages leaves the slab allocator alone. */
    lemma SlabsSpared(m0: Mem, owner0: seq<Owner>, mapped: set<nat>)
      requires slab.Shape() && vmm == slab.vmm && vmm.Valid() && vmm.pml4Phys != 0
      requires S.AllInv(m0, owner0, slab.caches, slab.live, slab.partial[..], slab.mags[..])
      requires |owner0| <= HHDM_FRAMES && Untouched(m0, vmm.mem[..], owner0)
      requires OnlyNewPages(owner0, vmm.owner, mapped) || OnlyNewTables(owner0, vmm.owner)
      ensures slab.Valid()
    {
      hide Inv, S.AllInv, V.P.Pmm.State, V.P.Pmm.IsUsed;
      SlabKept(m0, owner0);
    }

    /** The frame behind a live page: fit for data, and writable. */
    lemma PageFrame(p: nat, pgs: set<nat>)
      requires vmm.Shape() && HeapInv(vmm.State(), vmm.owner, win, pgs) && p in pgs
      ensures p < PAGES && vmm.owner != []
      ensures var t := Translate(vmm.mem[..], vmm.Root(), PageAddr(p));
              t.Some? && var f := FrameOf(t.value); t.value == f * PAGE_SIZE && f < |vmm.owner| && vmm.owner[f] == HeapPage(p)
      ensures Writable(vmm.mem[..], vmm.Root(), PageAddr(p))
    {
      hide Inv, Translate, Writable, ClearPath;
      assert Backed(vmm.State(), vmm.owner, p);
    }

    /** Writes the header of the block at page p through the new mapping. */
    method WriteHeader(p: nat, n: nat, ghost pgs: set<nat>)
      requires slab.Valid() && slab.vmm == vmm && HeapInv(vmm.State(), vmm.owner, win, pgs) && p in pgs && p < PAGES
      modifies vmm.mem
      ensures slab.Valid() && HeapInv(vmm.State(), vmm.owner, win, pgs)
      ensures vmm.State().frames == old(vmm.State()).frames
      ensures SameWalks(old(vmm.mem[..]), vmm.mem[..], vmm.Root())
      ensures HeaderAt(vmm.State(), p) == Header(n)
      ensures forall k: nat, i: Index :: k < |vmm.owner| && vmm.owner[k] != HeapPage(p) ==> Entry(vmm.mem[..], k, i) == old(Entry(vmm.mem[..], k, i))
    {
      hide Inv, HeapInv, Translate, Writable, ClearPath, Header, S.AllInv, Put, V.P.Pmm.State, V.P.Pmm.IsUsed;
      ghost var m, own := vmm.mem[..], vmm.owner;
      PageFrame(p, pgs);
      ghost var f := FrameOf(Translate(vmm.mem[..], vmm.Root(), PageAddr(p)).value);
      vmm.FrameInMemory(f);
      DataStoreHeap(vmm.State(), Put(m, f, 0, Header(n)), own, win, pgs);
      vmm.StoreMapped(PageAddr(p), Header(n), f, 0);
      SlabKept(m, own);
    }

    /** kmalloc_init */
    method Init()
      requires Valid()
      modifies `heapCur
      ensures Valid() && Cur() == old(Cur()) && heapCur != 0 && heapCur == PageAddr(Cur())
    {
      hide HeapInv, BlocksOk, S.AllInv, Inv;
      CursorFields();
      if heapCur != 0 { return; }
      heapCur := heapBase;
      CursorFields();
    }

    lemma CursorFields()
      requires CursorOk()
      ensures heapBase != 0 && heapBase % PAGE_SIZE == 0 && FrameOf(heapBase) == win.lo
      ensures heapCur != 0 ==> FrameOf(heapCur) < PAGES && heapCur == PageAddr(FrameOf(heapCur))
    {
    }

    /** The pages from the cursor on are not in use. */
    lemma FreshRange(n: nat)
      requires Valid() && Cur() + n <= win.hi
      ensures Range(Cur(), n) !! pages && win.lo <= Cur() && Cur() + n < PAGES && WindowOk(win)
    {
      hide Inv, BlocksOk, S.AllInv, Range;
    }

    lemma CursorMoved(p: nat, n: nat)
      requires win.lo < PAGES && heapBase == PageAddr(win.lo) && 0 < win.lo <= p && p + n <= win.hi < PAGES
      requires heapCur == PageAddr(p) + n * PAGE_SIZE
      ensures CursorOk() && Cur() == p + n
    {
    }

    /**
     * A request whose page count wraps around to 0 maps nothing and goes on to store
     * its header, but the page at the cursor is not mapped: the store faults.
     */
    lemma NoPagesFault(size: Word)
      requires Valid() && Cur() < win.hi && TWO64 - HEADER_SIZE - (PAGE_SIZE - 1) <= size <= TWO64 - HEADER_SIZE
      ensures RequestPages(size) == 0 && HeapModel.MapAll(vmm.State(), Cur(), RequestPages(size)) == (vmm.State(), true)
      ensures Translate(vmm.mem[..], vmm.Root(), PageAddr(Cur())).None?
    {
      hide Inv, BlocksOk, S.AllInv, Translate, Writable, ClearPath, V.P.Pmm.State, V.P.Pmm.IsUsed, RequestPages;
      NoPages(size);
    }

    /** kmalloc beyond 2048 bytes; the window must have room for the request. */
    method LargeAlloc(size: Word) returns (ptr: Word)
      requires Valid() && 2048 < size
      requires 0 < RequestPages(size) && Cur() + RequestPages(size) <= win.hi
      modifies `heapCur, `pages, `blocks, vmm.mem, vmm.pmm`freeFrames, vmm.pmm.bitmap, vmm`owner
      ensures Valid()
      ensures var p, n := old(Cur()), RequestPages(size);
              if HeapModel.MapAll(old(vmm.State()), p, n).1 then
                && p < PAGES && ptr == BlockPtr(p) && Cur() == p + n
                && blocks == old(blocks)[p := n] && pages == old(pages) + Range(p, n)
                && Granted(old(vmm.State()), old(vmm.owner), vmm.State(), vmm.owner, p, n)
              else
                && ptr == 0 && Cur() == p && blocks == old(blocks) && pages == old(pages)
                && Refused(old(vmm.State()), old(vmm.owner), vmm.State(), vmm.owner)
      ensures Kept(old(Snap()), Snap(), Null)
      ensures vmm.State().frames == HeapModel.MapAll(old(vmm.State()), old(Cur()), RequestPages(size)).0.frames
    {
      hide Kept, Sound, Untouched, Inv, HeapInv, BlocksOk, S.AllInv, Translate, Writable, ClearPath, SameElsewhere, SameWalks, Entry, HeaderAt, Header,
           OnlyNewPages, OnlyNewTables, HeapModel.MapAll, Range, V.P.Pmm.State, V.P.Pmm.IsUsed;
      Init();
      ghost var s, own, p, h := vmm.State(), vmm.owner, Cur(), Snap();
      SoundNow();
      var tot := (size + HEADER_SIZE) % TWO64;
      var npages := (tot + PAGE_SIZE - 1) % TWO64 / PAGE_SIZE;
      FreshRange(npages);
      if HeapModel.MapAll(s, p, npages).1 { GrantedCount(s, own, win, pages, p, npages); }
      var ok := MapAll(FrameOf(heapCur), npages);
      if !ok {
        RefusedBlocks(s, own, vmm.State(), win, pages, blocks);
        NoRange(p);
        SameWalksElse(s.mem, vmm.mem[..], vmm.Root());
        KeptByMapping(h, own, win, pages, Snap(), vmm.owner, p, 0);
        return 0;
      }
      ghost var s1, own1 := vmm.State(), vmm.owner;
      assert p in Range(p, npages);
      WriteHeader(FrameOf(heapCur), npages, pages + Range(p, npages));
      GrantBlock(s, own, s1, own1, vmm.State(), win, pages, blocks, p, npages);
      ptr := heapCur + HEADER_SIZE;
      heapCur := heapCur + npages * PAGE_SIZE;
      blocks := blocks[p := npages];
      pages := pages + Range(p, npages);
      CursorMoved(p, npages);
      KeptByMapping(h, own, win, old(pages), Snap(), vmm.owner, p, npages);
    }

    /** The heap invariant survives whatever the slab allocator does to class c. */
    lemma HeapKept(m0: Mem, owner0: seq<Owner>, frames0: Frames.Frames, c: S.Class)
      requires vmm.Valid() && vmm.pml4Phys != 0 && slab.vmm == vmm
      requires HeapInv(Vm(m0, vmm.Root(), frames0), owner0, win, pages) && BlocksOk(Vm(m0, vmm.Root(), frames0), blocks, pages)
      requires SameWalks(m0, vmm.mem[..], vmm.Root()) && S.OnlyClass(m0, owner0, vmm.mem[..], vmm.owner, c)
      ensures HeapInv(vmm.State(), vmm.owner, win, pages) && BlocksOk(vmm.State(), blocks, pages)
    {
      hide Inv, HeapInv, BlocksOk, SameWalks, Entry;
      var s := Vm(m0, vmm.Root(), frames0);
      SameWalksHeap(s, owner0, vmm.State(), vmm.owner, win, pages);
      forall k: nat | k < |owner0| && owner0[k].HeapPage? ensures Entry(vmm.mem[..], k, 0) == Entry(m0, k, 0) {
        assert SameFrame(m0, vmm.mem[..], k);
      }
      BlocksKept(s, owner0, vmm.State(), win, pages, blocks);
    }

    /**
     * kmalloc.  Requests up to 2048 bytes go to the slab class of their size, larger
     * ones to fresh pages at the heap cursor; NULL when memory is exhausted.
     */
    method Kmalloc(size: Word) returns (ptr: Word)
      requires Valid()
      requires size > 2048 ==> 0 < RequestPages(size) && Cur() + RequestPages(size) <= win.hi
      modifies `heapCur, `pages, `blocks, vmm.mem, vmm.pmm`freeFrames, vmm.pmm.bitmap, vmm`owner
      modifies slab.partial, slab.mags, slab`caches, slab`live
      ensures Valid()
      ensures size == 0 ==> ptr == 0 && vmm.State() == old(vmm.State()) && slab.caches == old(slab.caches) && slab.live == old(slab.live)
      ensures 0 < size <= 2048 ==>
                M.SizeToIndex(size).Some? && slab.Allocated(M.SizeToIndex(size).value, old(slab.caches), old(slab.live), old(vmm.State()), ptr)
      ensures size <= 2048 ==> Cur() == old(Cur()) && blocks == old(blocks) && pages == old(pages) && SameWalks(old(vmm.mem[..]), vmm.mem[..], vmm.Root())
      ensures size > 2048 ==>
                var p, n := old(Cur()), RequestPages(size);
                slab.caches == old(slab.caches) && slab.live == old(slab.live) &&
                if HeapModel.MapAll(old(vmm.State()), p, n).1 then
                  && p < PAGES && ptr == BlockPtr(p) && Cur() == p + n
                  && blocks == old(blocks)[p := n] && pages == old(pages) + Range(p, n)
                  && Granted(old(vmm.State()), old(vmm.owner), vmm.State(), vmm.owner, p, n)
                else
                  && ptr == 0 && Cur() == p && blocks == old(blocks) && pages == old(pages)
                  && Refused(old(vmm.State()), old(vmm.owner), vmm.State(), vmm.owner)
      ensures Kept(old(Snap()), Snap(), Null)
      ensures size > 2048 ==> vmm.State().frames == HeapModel.MapAll(old(vmm.State()), old(Cur()), RequestPages(size)).0.frames
    {
      hide Kept, Sound, Granted, Refused, S.LiveKept, S.ObjectKept, Inv, HeapInv, BlocksOk, S.AllInv, Translate, Writable, ClearPath, SameElsewhere, Entry, OnlyNewPages, OnlyNewTables,
           S.OnlyClass, M.Alloc, HeapModel.MapAll, Range, V.P.Pmm.State, V.P.Pmm.IsUsed, RequestPages;
      SoundNow();
      KeptSelf(vmm.owner);
      if size == 0 { return 0; }
      if size <= 2048 {
        ptr := slab.Alloc(size);
        LiveObjects(old(vmm.mem[..]), old(slab.live));
        KeptBySlab(old(Snap()), old(vmm.owner), M.SizeToIndex(size).value, Null);
        HeapKept(old(vmm.mem[..]), old(vmm.owner), old(vmm.State()).frames, M.SizeToIndex(size).value);
      } else {
        ptr := LargeAlloc(size);
      }
    }

    // ----- kfree -----

    /** t is live: a block kmalloc granted, or an object of the slab allocator. */
    ghost predicate IsLive(t: Target)
      requires slab.Shape()
      reads `blocks, slab
    {
      match t
      case Null => true
      case Block(p) => p in blocks && p < PAGES
      case Object(c, o) => o in slab.live[c] && o.page < HHDM_FRAMES && o.slot < M.SlotsPerPage(c)
    }

    /** The pointer kmalloc returned for t. */
    ghost function Pointer(t: Target): Word
      requires slab.Shape() && IsLive(t)
      reads `blocks, slab
    {
      match t
      case Null => 0
      case Block(p) => BlockPtr(p)
      case Object(c, o) => ObjPtr(c, o)
    }

    /** h->magic and h->pages at the masked pointer: a block shows its header, a slab page never does. */
    method ReadHeader(base: Word, ghost t: Target) returns (h: Word)
      requires Valid() && IsLive(t) && t != Null && base == PageBase(Pointer(t))
      ensures HasMagic(h) <==> t.Block?
      ensures t.Block? ==> base == PageAddr(t.page) && HeaderPages(h) == blocks[t.page]
    {
      hide Inv, HeapInv, BlocksOk, S.AllInv, Repr, M.CacheInv, Translate, Writable, ClearPath, ObjWord, HasMagic, V.P.Pmm.State,
           V.P.Pmm.IsUsed;
      ghost var f;
      if t.Block? {
        BlockStarts(vmm.State(), blocks, pages, t.page);
        BlockPtrPage(t.page);
        PageFrame(t.page, pages);
        HeaderFields(blocks[t.page]);
        f := FrameOf(Translate(vmm.mem[..], vmm.Root(), PageAddr(t.page)).value);
      } else {
        ghost var c, o := t.cls, t.obj;
        slab.ClassIs(c);
        S.BeforePush(vmm.mem[..], vmm.owner, c, slab.caches[c], slab.partial[c], slab.mags[c], slab.live[c], o);
        PtrPage(o.page, 8 * ObjWord(c, o.slot));
        NextFieldAligned(vmm.mem[..], vmm.owner, c, slab.caches[c], slab.partial[c], slab.mags[c], o.page);
        AlignedHasNoMagic(Entry(vmm.mem[..], o.page, NEXT));
        f := o.page;
        vmm.RootInMemory();
        vmm.FrameInMemory(f);
        DirectMapWalk(vmm.mem[..], vmm.Root(), f * PAGE_SIZE);
      }
      h := LoadHeader(base, f);
    }

    method LoadHeader(base: Word, ghost f: nat) returns (h: Word)
      requires vmm.Valid() && vmm.pml4Phys != 0 && f < |vmm.owner| <= HHDM_FRAMES
      requires Translate(vmm.mem[..], vmm.Root(), base) == Some(f * PAGE_SIZE)
      ensures h == Entry(vmm.mem[..], f, 0)
    {
      hide Inv, Translate, Writable;
      h := vmm.LoadMapped(base, f, 0);
    }

    /** The page loop of kfree, with the page count read once (see HeapModel.HeaderUnmapped). */
    method LargeFree(p: nat, n: nat)
      requires Valid() && p in blocks && n == blocks[p] && p < PAGES
      modifies `pages, `blocks, vmm.mem, vmm.pmm`freeFrames, vmm.pmm.bitmap, vmm`owner
      ensures Valid() && Cur() == old(Cur())
      ensures blocks == old(blocks) - {p} && pages == old(pages) - Range(p, n)
      ensures OnlyFreed(old(vmm.owner), vmm.owner, Range(p, n)) && KeptFrames(old(vmm.mem[..]), vmm.mem[..], old(vmm.owner), Range(p, n))
      ensures SameElsewhere(old(vmm.mem[..]), vmm.mem[..], vmm.Root(), Range(p, n))
      ensures p + n <= PAGES && vmm.State() == HeapModel.UnmapPages(old(vmm.State()), p, n)
    {
      hide Inv, HeapInv, BlocksOk, S.AllInv, Translate, Writable, ClearPath, SameElsewhere, Entry, Range, HeapModel.UnmapPages,
           V.P.Pmm.State, V.P.Pmm.IsUsed;
      ghost var s, own := vmm.State(), vmm.owner;
      BlockStarts(s, blocks, pages, p);
      HeapSized(s, own, win, pages);
      RangeInWindow(win, pages, p, n);
      UnmapPages(p, n, pages);
      ghost var own1 := UnmapPagesKeeps(s, own, win, pages, p, n);
      HeapInvIsInv(vmm.State(), own1, win, pages - Range(p, n));
      vmm.SetOwner(own1);
      SlabKept(s.mem, own);
      DropBlock(s, own, vmm.State(), win, pages, blocks, p);
      blocks := blocks - {p};
      pages := pages - Range(p, n);
    }

    /** kfree of a live pointer releases exactly what it points to, by the header it finds. */
    method Kfree(ptr: Word, ghost t: Target)
      requires Valid() && IsLive(t) && ptr == Pointer(t)
      modifies `pages, `blocks, vmm.mem, vmm.pmm`freeFrames, vmm.pmm.bitmap, vmm`owner
      modifies slab.partial, slab.mags, slab`caches, slab`live
      ensures Valid() && Cur() == old(Cur())
      ensures t == Null ==> blocks == old(blocks) && slab.caches == old(slab.caches) && slab.live == old(slab.live)
      ensures t.Block? ==>
                var n := old(blocks)[t.page];
                && blocks == old(blocks) - {t.page} && pages == old(pages) - Range(t.page, n)
                && slab.caches == old(slab.caches) && slab.live == old(slab.live)
                && OnlyFreed(old(vmm.owner), vmm.owner, Range(t.page, n))
                && SameElsewhere(old(vmm.mem[..]), vmm.mem[..], vmm.Root(), Range(t.page, n))
                && KeptFrames(old(vmm.mem[..]), vmm.mem[..], old(vmm.owner), Range(t.page, n))
      ensures t.Object? ==>
                && blocks == old(blocks) && pages == old(pages)
                && slab.caches == old(slab.caches)[t.cls := M.Free(old(slab.caches)[t.cls], M.SlotsPerPage(t.cls), t.obj)]
                && slab.live == old(slab.live)[t.cls := old(slab.live)[t.cls] - {t.obj}]
                && SameWalks(old(vmm.mem[..]), vmm.mem[..], vmm.Root())
      ensures Kept(old(Snap()), Snap(), t)
      ensures t.Object? ==> vmm.State().frames == old(vmm.State()).frames
      ensures t.Block? ==> t.page + old(blocks)[t.page] <= PAGES && vmm.State() == HeapModel.UnmapPages(old(vmm.State()), t.page, old(blocks)[t.page])
    {
      hide Kept, Sound, KeptFrames, S.LiveKept, S.ObjectKept, Inv, HeapInv, BlocksOk, S.AllInv, Translate, Writable, ClearPath, SameElsewhere, Entry, OnlyFreed, S.OnlyClass, M.Free,
           Range, V.P.Pmm.State, V.P.Pmm.IsUsed, HasMagic, HeaderPages, ObjWord;
      PointerNonNull(t);
      SoundNow();
      KeptSelf(vmm.owner);
      if ptr == 0 { return; }
      var base := PageBase(ptr);
      var h := ReadHeader(base, t);
      if HasMagic(h) {
        PageAddrFrame(t.page);
        LargeFree(FrameOf(base), HeaderPages(h));
        KeptByFreeing(old(Snap()), old(vmm.owner), win, old(pages), Snap(), vmm.owner, t.page);
        return;
      }
      ghost var c := t.cls;
      slab.Free(ptr, c, t.obj);
      LiveObjects(old(vmm.mem[..]), slab.live);
      KeptBySlab(old(Snap()), old(vmm.owner), c, t);
      HeapKept(old(vmm.mem[..]), old(vmm.owner), old(vmm.State()).frames, c);
    }

    // ----- what the owners of live memory may do -----

    /** A load by the owner of live memory. */
    method LoadAt(a: Word, ghost t: Target) returns (w: Word)
      requires Valid() && IsLive(t) && Within(Snap(), t, a)
      ensures Seen(vmm.State(), a) == Some(w)
    {
      hide Inv, HeapInv, BlocksOk, S.AllInv, Within, Owns, Seen, Sound, Translate, Writable, ClearPath, V.P.Pmm.State, V.P.Pmm.IsUsed;
      SoundNow();
      ghost var n, i := WordAt(Snap(), vmm.owner, win, pages, t, a);
      w := vmm.LoadMapped(a, n, i);
    }

    /** A store by the owner of live memory, anywhere in it: no other word that is live changes, and no invariant is disturbed. */
    method StoreAt(a: Word, w: Word, ghost t: Target)
      requires Valid() && IsLive(t) && Within(Snap(), t, a)
      modifies vmm.mem
      ensures Valid() && SameWalks(old(vmm.mem[..]), vmm.mem[..], vmm.Root()) && vmm.State().frames == old(vmm.State()).frames
      ensures Written(old(Snap()), Snap(), a, w) && Kept(old(Snap()), Snap(), t)
    {
      hide Inv, HeapInv, BlocksOk, S.AllInv, Within, Owns, Seen, Sound, Translate, Writable, ClearPath, Put, Kept, Written, SameWalks, InObject,
           V.P.Pmm.State, V.P.Pmm.IsUsed;
      ghost var h, own := Snap(), vmm.owner;
      SoundNow();
      ghost var n, i := WordAt(h, own, win, pages, t, a);
      DataFrame(h, own, t, n, i);
      vmm.StoreMapped(a, w, n, i);
      StoreIsWritten(h, own, win, pages, Snap(), t, a, n, i, w);
      if t.Block? {
        ghost var q := BlockOwns(h, own, t.page, n, i);
        BlockStored(h, own, t.page, q, n, i, w);
      } else {
        ObjectOwned(h, own, t.cls, t.obj, n, i);
        ObjectStored(h, own, t.cls, t.obj, i, w);
      }
    }

    lemma DataFrame(h: Heap, own: seq<Owner>, t: Target, n: nat, i: Index)
      requires Owns(h, own, t, n, i)
      ensures n < |own| && !IsTable(own, n) && t != Null
    {
    }

    lemma BlockOwns(h: Heap, own: seq<Owner>, p: nat, n: nat, i: Index) returns (q: nat)
      requires Owns(h, own, Block(p), n, i)
      ensures p in h.blocks && q in Range(p, h.blocks[p]) && (q == p ==> 0 < i) && n < |own| && own[n] == HeapPage(q)
    {
      q := own[n].vpn;
    }

    lemma ObjectOwned(h: Heap, own: seq<Owner>, c: S.Class, o: M.Obj, n: nat, i: Index)
      requires Owns(h, own, Object(c, o), n, i)
      ensures n == o.page < |own| && own[n] == SlabPage(c) && InObject(c, o, o.page, i)
    {
    }

    /** The state before a store was valid, and only memory changed since. */
    ghost predicate OnlyStored(h: Heap, own: seq<Owner>, n: nat, i: Index, w: Word)
      reads this, slab, slab.partial, slab.mags, vmm, vmm.mem, vmm.pmm, vmm.pmm.bitmap
    {
      && slab.vmm == vmm && slab.Shape() && vmm.Valid() && vmm.pml4Phys != 0 && vmm.owner == own && |own| <= HHDM_FRAMES && CursorOk()
      && Sound(h, own, win, pages) && S.AllInv(h.s.mem, own, slab.caches, slab.live, slab.partial[..], slab.mags[..])
      && blocks == h.blocks && slab.live == h.live && (forall p :: p in pages ==> p < Cur())
      && vmm.State() == h.s.(mem := Put(h.s.mem, n, i, w)) && SameWalks(h.s.mem, vmm.mem[..], h.s.root)
    }

    lemma BlockStored(h: Heap, own: seq<Owner>, p: nat, q: nat, n: nat, i: Index, w: Word)
      requires OnlyStored(h, own, n, i, w)
      requires p in h.blocks && q in Range(p, h.blocks[p]) && (q == p ==> 0 < i) && n < |own| && own[n] == HeapPage(q)
      ensures Valid() && Kept(h, Snap(), Block(p))
    {
      hide Inv, HeapInv, BlocksOk, S.AllInv, Kept, Owns, Translate, Writable, ClearPath, SameWalks, Put, Range, V.P.Pmm.State, V.P.Pmm.IsUsed;
      DataStoreHeap(h.s, vmm.mem[..], own, win, pages);
      HeadersSpared(h.s, own, blocks, pages, p, q, n, i, w);
      SlabKept(h.s.mem, own);
      BlocksKept(h.s, own, vmm.State(), win, pages, blocks);
      KeptByBlockStore(h, own, p, q, n, i, w);
    }

    lemma ObjectStored(h: Heap, own: seq<Owner>, c: S.Class, o: M.Obj, i: Index, w: Word)
      requires OnlyStored(h, own, o.page, i, w)
      requires o in h.live[c] && o.page < |own| && own[o.page] == SlabPage(c) && InObject(c, o, o.page, i)
      ensures Valid() && Kept(h, Snap(), Object(c, o))
    {
      hide Kept, Owns, S.ObjectKept, Inv, HeapInv, BlocksOk, S.AllInv, Repr, M.CacheInv, Translate, Writable, ClearPath, SameWalks, Put, V.P.Pmm.State,
           V.P.Pmm.IsUsed, InSlot, ObjectsPlaced;
      ClassWas(h, own, c);
      S.BeforePush(h.s.mem, own, c, slab.caches[c], slab.partial[c], slab.mags[c], slab.live[c], o);
      ObjectStoreRepr(h.s.mem, own, c, slab.caches[c], slab.partial[c], slab.mags[c], o, i, w);
      StoreOnly(h.s.mem, own, c, o.page, i, w);
      slab.Restored(c, h.s.mem, own, slab.caches, slab.live, slab.partial[..], slab.mags[..]);
      HeapKept(h.s.mem, own, h.s.frames, c);
      OtherObjects(h, own, c, o, i, w);
      KeptBySlab(h, own, c, Object(c, o));
    }

    lemma ClassWas(h: Heap, own: seq<Owner>, c: S.Class)
      requires slab.Shape() && S.AllInv(h.s.mem, own, slab.caches, slab.live, slab.partial[..], slab.mags[..])
      ensures S.ClassInv(h.s.mem, own, c, slab.caches[c], slab.live[c], slab.partial[c], slab.mags[c])
    {
      hide Repr, M.CacheInv;
    }

    /** In terms of pages: a store of a live block's owner, anywhere behind the header. */
    method StoreBlock(p: nat, q: nat, i: Index, w: Word)
      requires Valid() && p in blocks && q in Range(p, blocks[p]) && q < PAGES && (q == p ==> 0 < i)
      modifies vmm.mem
      ensures Valid() && SameWalks(old(vmm.mem[..]), vmm.mem[..], vmm.Root())
      ensures var t := Translate(old(vmm.mem[..]), vmm.Root(), PageAddr(q));
              t.Some? && vmm.mem[..] == Put(old(vmm.mem[..]), FrameOf(t.value), i, w)
      ensures Kept(old(Snap()), Snap(), Block(p))
    {
      hide Kept, Sound, Owns, Inv, HeapInv, BlocksOk, S.AllInv, Translate, Writable, ClearPath, Put, Range, SameWalks, V.P.Pmm.State, V.P.Pmm.IsUsed;
      ghost var h, own := Snap(), vmm.owner;
      BlockStarts(h.s, blocks, pages, p);
      PageFrame(q, pages);
      ghost var f := FrameOf(Translate(vmm.mem[..], vmm.Root(), PageAddr(q)).value);
      InsidePage(h.s, own, win, pages, q, 8 * i);
      SoundNow();
      vmm.StoreMapped(PageAddr(q) + 8 * i, w, f, i);
      BlockStored(h, own, p, q, f, i, w);
    }

    /** In terms of slots: a store of a live object's owner, anywhere inside the object. */
    method StoreObject(ptr: Word, i: Index, w: Word, ghost c: S.Class, ghost o: M.Obj)
      requires Valid() && o in slab.live[c] && o.page < HHDM_FRAMES && o.slot < M.SlotsPerPage(c)
      requires InSlot(c, o.slot, i) && ptr == DirectMap(o.page, 8 * i)
      modifies vmm.mem
      ensures Valid() && vmm.mem[..] == Put(old(vmm.mem[..]), o.page, i, w)
      ensures Kept(old(Snap()), Snap(), Object(c, o))
    {
      hide Kept, Sound, Owns, Inv, HeapInv, BlocksOk, S.AllInv, Repr, M.CacheInv, Translate, Writable, ClearPath, SameWalks, Put, V.P.Pmm.State,
           V.P.Pmm.IsUsed, InSlot;
      ghost var h, own := Snap(), vmm.owner;
      slab.ClassIs(c);
      S.BeforePush(h.s.mem, own, c, slab.caches[c], slab.partial[c], slab.mags[c], slab.live[c], o);
      SoundNow();
      vmm.StoreWord(ptr, w, o.page, i);
      ObjectStored(h, own, c, o, i, w);
    }

    /**
     * slab_free hands pmm_free_frame a direct-map address, which is ignored.  The
     * physical address would have been safe: nothing refers to a retired page.
     */
    method ReturnLost(n: nat)
      requires Valid() && 0 < n < |vmm.owner| && vmm.owner[n] == Lost && n * PAGE_SIZE < TWO64
      modifies vmm.pmm`freeFrames, vmm.pmm.bitmap, vmm`owner
      ensures Valid() && vmm.State() == old(vmm.State()).(frames := Frames.Free(old(vmm.State()).frames, n))
    {
      hide Inv, HeapInv, BlocksOk, S.AllInv, Translate, Writable, ClearPath, SameWalks, Entry, Frames.Free, V.P.Pmm.State, V.P.Pmm.IsUsed;
      ghost var s, own := vmm.State(), vmm.owner;
      vmm.FreeOwned(n * PAGE_SIZE, n);
      SlabKept(s.mem, own);
      SameWalksSelf(s.mem, vmm.Root());
      SameWalksHeap(s, own, vmm.State(), vmm.owner, win, pages);
      BlocksKept(s, own, vmm.State(), win, pages, blocks);
    }

    lemma SameWalksSelf(m: Mem, root: nat)
      ensures SameWalks(m, m, root)
    {
    }

    lemma KeptByBlockStore(h: Heap, owner0: seq<Owner>, p: nat, q: nat, f: nat, i: Index, w: Word)
      requires Sound(h, owner0, win, pages) && vmm.Valid() && vmm.pml4Phys != 0 && vmm.Root() == h.s.root && |h.s.mem| == vmm.mem.Length
      requires SameWalks(h.s.mem, vmm.mem[..], h.s.root) && vmm.mem[..] == Put(h.s.mem, f, i, w)
      requires p in h.blocks && q in Range(p, h.blocks[p]) && (q == p ==> 0 < i) && f < |owner0| && owner0[f] == HeapPage(q)
      ensures Kept(h, Snap(), Block(p))
    {
      hide Inv, HeapInv, BlocksOk, SameWalks, InObject, Range, V.P.Pmm.State, V.P.Pmm.IsUsed;
      assert Owns(h, owner0, Block(p), f, i);
      KeptByStill(h, owner0, win, pages, Snap(), vmm.owner, Block(p));
    }

    lemma OtherObjects(h: Heap, owner0: seq<Owner>, c: S.Class, o: M.Obj, i: Index, w: Word)
      requires Sound(h, owner0, win, pages) && vmm.Shape() && vmm.mem[..] == Put(h.s.mem, o.page, i, w)
      requires o in h.live[c] && InObject(c, o, o.page, i)
      ensures forall d: S.Class, p: M.Obj :: p in h.live[d] && Object(c, o) != Object(d, p) ==> S.ObjectKept(h.s.mem, vmm.mem[..], d, p)
    {
      hide HeapInv, BlocksOk, ObjWord, V.P.Pmm.State, V.P.Pmm.IsUsed;
      forall d: S.Class, p: M.Obj | p in h.live[d] && Object(c, o) != Object(d, p) ensures S.ObjectKept(h.s.mem, vmm.mem[..], d, p) {
        forall j: Index | InObject(d, p, p.page, j) ensures Entry(vmm.mem[..], p.page, j) == Entry(h.s.mem, p.page, j) {
          if p.page == o.page && j == i {
            assert owner0[p.page] == SlabPage(d) && owner0[o.page] == SlabPage(c);
            InOneSlot(c, o.slot, p.slot, i);
          }
        }
      }
    }

    lemma KeptSelf(owner0: seq<Owner>)
      requires vmm.Shape() && Sound(Snap(), owner0, win, pages)
      ensures Kept(Snap(), Snap(), Null) && SameWalks(vmm.mem[..], vmm.mem[..], vmm.Root())
    {
      hide HeapInv, BlocksOk, Translate, Writable, ClearPath, Owns, Seen, ObjectsPlaced, Live, Address, Size;
      LiveClasses(owner0, slab.live);
      SameWalksSelf(vmm.mem[..], vmm.Root());
      forall u, a | Within(Snap(), u, a) ensures Seen(vmm.State(), a).Some? {
        var n, i := WordAt(Snap(), owner0, win, pages, u, a);
      }
    }

    lemma LiveObjects(m0: Mem, live0: seq<set<M.Obj>>)
      requires vmm.Shape() && S.LiveKept(m0, vmm.mem[..], live0)
      ensures forall d: S.Class, o: M.Obj :: o in live0[d] ==> S.ObjectKept(m0, vmm.mem[..], d, o)
    {
    }

    lemma NoRange(p: nat)
      ensures Range(p, 0) == {}
    {
    }

    lemma SameWalksElse(m: Mem, m': Mem, root: nat)
      requires SameWalks(m, m', root)
      ensures forall r :: SameElsewhere(m, m', root, r)
    {
      hide Translate, Writable, ClearPath;
    }

    lemma PointerNonNull(t: Target)
      requires slab.Shape() && IsLive(t)
      ensures Pointer(t) == 0 <==> t == Null
    {
    }
  }

  lemma StoreOnly(m: Mem, owner: seq<Owner>, c: S.Class, n: nat, i: Index, w: Word)
    requires n < |owner| && owner[n] == SlabPage(c)
    ensures S.OnlyClass(m, owner, Put(m, n, i, w), owner, c)
  {
  }

  lemma PageAddrFrame(p: nat)
    requires p < PAGES
    ensures FrameOf(PageAddr(p)) == p
  {
  }

  /** A granted request: only the requested pages translate differently, to frames that were free; frames in use keep their contents. */
  ghost predicate Granted(s: Vm, owner: seq<Owner>, s': Vm, owner': seq<Owner>, p: nat, n: nat) {
    OnlyNewPages(owner, owner', Range(p, n)) && SameElsewhere(s.mem, s'.mem, s.root, Range(p, n)) && Untouched(s.mem, s'.mem, owner)
  }

  /** A refused request: every translation and all frames in use are as before, and only page-table frames are gone. */
  ghost predicate Refused(s: Vm, owner: seq<Owner>, s': Vm, owner': seq<Owner>) {
    OnlyNewTables(owner, owner') && SameWalks(s.mem, s'.mem, s.root) && Untouched(s.mem, s'.mem, owner)
  }

  lemma ClearRange(s: Vm, owner: seq<Owner>, win: Window, pages: set<nat>, p: nat, n: nat)
    requires HeapInv(s, owner, win, pages) && win.lo <= p && p + n <= win.hi
    ensures p + n <= PAGES && forall q: nat :: p <= q < p + n ==> ClearPath(s.mem, s.root, PageAddr(q))
  {
    hide Inv, ClearPath, Translate, Writable;
  }

  lemma HeapInvIsInv(s: Vm, owner: seq<Owner>, win: Window, pages: set<nat>)
    requires HeapInv(s, owner, win, pages)
    ensures Inv(s, owner)
  {
  }
}
