/** Page-backed kmalloc and kfree of src/lib/alloc.c as functions on the paging state. */
module HeapModel {
  import opened Words
  import opened Frames
  import opened Paging
  import opened PagingLaws

  const KALLOC_MAGIC: Word := 0x4B4D_414C
  const HEADER_SIZE := 8

  /** Number of 4 KiB pages of the virtual address space. */
  const PAGES := 0x10_0000_0000_0000

  /** First address of virtual page p. */
  function PageAddr(p: nat): Word
    requires p < PAGES
  {
    p * PAGE_SIZE
  }

  // ----- the code -----

  /** The mapping loop of kmalloc: n pages from p on; how many it mapped before it gave up. */
  function MapPages(s: Vm, p: nat, n: nat): (r: (Vm, nat))
    requires Sized(s) && p + n <= PAGES
    ensures Sized(r.0) && r.0.root == s.root && r.1 <= n
    decreases n
  {
    if n == 0 then (s, 0) else
    var (s1, f) := MapAllocPage(s, PageAddr(p), PTE_W);
    if f == 0 then (s1, 0) else
    var (s2, k) := MapPages(s1, p + 1, n - 1);
    (s2, k + 1)
  }

  /** One round of the unwinding loop and of kfree: translate, unmap, free the frame. */
  function UnmapOne(s: Vm, p: nat): (s': Vm)
    requires Sized(s) && p < PAGES
    ensures Sized(s') && s'.root == s.root
  {
    match Translate(s.mem, s.root, PageAddr(p))
    case None => s
    case Some(phys) =>
      if phys == 0 then s else
      var s1 := UnmapPage(s, PageAddr(p)).0;
      if phys % PAGE_SIZE != 0 then s1 else s1.(frames := Free(s1.frames, FrameOf(phys)))
  }

  function UnmapPages(s: Vm, p: nat, n: nat): (s': Vm)
    requires Sized(s) && p + n <= PAGES
    ensures Sized(s') && s'.root == s.root
    decreases n
  {
    if n == 0 then s else UnmapPages(UnmapOne(s, p), p + 1, n - 1)
  }

  /** The mapping part of kmalloc: all n pages from p on, or none. */
  function MapAll(s: Vm, p: nat, n: nat): (r: (Vm, bool))
    requires Sized(s) && p + n <= PAGES
    ensures Sized(r.0) && r.0.root == s.root
  {
    var (s1, k) := MapPages(s, p, n);
    if k == n then (s1, true) else (UnmapPages(s1, p, k), false)
  }

  /** The two 32-bit fields of kalloc_header_t as one word. */
  function Header(npages: nat): Word {
    KALLOC_MAGIC + npages % 0x1_0000_0000 * 0x1_0000_0000
  }

  predicate HasMagic(w: Word) {
    w % 0x1_0000_0000 == KALLOC_MAGIC
  }

  function HeaderPages(w: Word): nat {
    w / 0x1_0000_0000
  }

  /** The first field reads 'KMAL', the second is the page count. */
  lemma HeaderFields(npages: nat)
    ensures HasMagic(Header(npages)) && HeaderPages(Header(npages)) == npages % 0x1_0000_0000
    ensures KALLOC_MAGIC == (('K' as int * 256 + 'M' as int) * 256 + 'A' as int) * 256 + 'L' as int
  {
    DivMod(0x1_0000_0000, KALLOC_MAGIC, npages % 0x1_0000_0000);
  }

  /** 0x4B4D414C is not a multiple of 4096, so no page-aligned word carries the magic. */
  lemma AlignedHasNoMagic(w: Word)
    requires w % PAGE_SIZE == 0
    ensures !HasMagic(w)
  {
    assert w % 0x1_0000_0000 % PAGE_SIZE == w % PAGE_SIZE;
  }

  /** Pages for a request, with the 64-bit wrap-around of size + 8 and of DIV_ROUND_UP. */
  function RequestPages(size: Word): nat {
    var tot := (size + HEADER_SIZE) % TWO64;
    (tot + PAGE_SIZE - 1) % TWO64 / PAGE_SIZE
  }

  /** A request gets enough pages exactly when neither sum wraps around, and then not one too many. */
  lemma RequestFits(size: Word)
    ensures RequestPages(size) * PAGE_SIZE >= size + HEADER_SIZE <==> size + HEADER_SIZE + PAGE_SIZE - 1 < TWO64
    ensures size + HEADER_SIZE + PAGE_SIZE - 1 < TWO64 ==> (RequestPages(size) - 1) * PAGE_SIZE < size + HEADER_SIZE
  {
  }

  /** No page at all is asked for by exactly the sizes whose sum with the header, exact or rounded up, just wraps around. */
  lemma NoPages(size: Word)
    ensures RequestPages(size) == 0 <==> TWO64 - HEADER_SIZE - (PAGE_SIZE - 1) <= size <= TWO64 - HEADER_SIZE
  {
  }

  // ----- the heap window -----

  /** Virtual pages lo .. hi-1, all in one PML4 slot that is neither the identity nor the direct map. */
  datatype Window = Window(lo: nat, hi: nat)

  predicate WindowOk(w: Window) {
    && w.lo < w.hi < PAGES
    && w.lo / 0x800_0000 == (w.hi - 1) / 0x800_0000
    && w.lo / 0x800_0000 % 512 != 0 && w.lo / 0x800_0000 % 512 != 256
  }

  predicate InWindow(w: Window, p: nat) {
    w.lo <= p < w.hi
  }

  lemma PageIndices(p: nat)
    requires p < PAGES
    ensures var v := PageAddr(p);
            Idx4(v) == p / 0x800_0000 % 512 && Idx3(v) == p / 0x4_0000 % 512 && Idx2(v) == p / 512 % 512 && Idx1(v) == p % 512
  {
  }

  /** Inside the window different pages are different. */
  lemma WindowPages(w: Window, p: nat, q: nat)
    requires WindowOk(w) && InWindow(w, p) && InWindow(w, q)
    ensures SamePage(PageAddr(p), PageAddr(q)) <==> p == q
  {
    PageIndices(p);
    PageIndices(q);
    SameSlot(w, p);
    SameSlot(w, q);
    if SamePage(PageAddr(p), PageAddr(q)) {
      Digits(p);
      Digits(q);
    }
  }

  lemma SameSlot(w: Window, p: nat)
    requires WindowOk(w) && InWindow(w, p)
    ensures p / 0x800_0000 == w.lo / 0x800_0000
  {
  }

  lemma Digits(p: nat)
    ensures p == (p / 0x800_0000 * 512 + p / 0x4_0000 % 512) * 0x4_0000 + p / 512 % 512 * 512 + p % 512
  {
    var a := p / 512;
    var b := a / 512;
    assert b == p / 0x4_0000;
    assert b / 512 == p / 0x800_0000;
  }

  // ----- the heap invariant -----

  /** Virtual page p is mapped, writable, to a frame that is owned as p's. */
  ghost predicate Backed(s: Vm, owner: seq<Owner>, p: nat) {
    p < PAGES &&
    var t := Translate(s.mem, s.root, PageAddr(p));
    t.Some? && t.value == FrameOf(t.value) * PAGE_SIZE && 0 < FrameOf(t.value) < |owner| && owner[FrameOf(t.value)] == HeapPage(p)
    && Writable(s.mem, s.root, PageAddr(p))
  }

  /** Frame f belongs to the page it says it belongs to. */
  ghost predicate Backs(s: Vm, owner: seq<Owner>, pages: set<nat>, f: nat) {
    f < |owner| && owner[f].HeapPage? ==>
      owner[f].vpn in pages && owner[f].vpn < PAGES && f < HHDM_FRAMES &&
      Translate(s.mem, s.root, PageAddr(owner[f].vpn)) == Some(f * PAGE_SIZE)
  }

  /** In the window exactly the given pages are mapped, each to a frame of its own. */
  ghost predicate HeapInv(s: Vm, owner: seq<Owner>, w: Window, pages: set<nat>) {
    && Inv(s, owner) && WindowOk(w)
    && (forall p :: p in pages ==> InWindow(w, p) && Backed(s, owner, p))
    && (forall p: nat :: InWindow(w, p) ==> ClearPath(s.mem, s.root, PageAddr(p)))
    && (forall p: nat :: InWindow(w, p) && p !in pages ==> Translate(s.mem, s.root, PageAddr(p)).None?)
    && (forall f: nat :: Backs(s, owner, pages, f))
  }

  /** Frames changed hands only from free to page table or to one of the given pages. */
  ghost predicate OnlyNewPages(a: seq<Owner>, b: seq<Owner>, pages: set<nat>) {
    |a| == |b| && forall n :: 0 <= n < |a| ==>
      b[n] == a[n] || (a[n] == Unowned && (b[n].Table? || (b[n].HeapPage? && b[n].vpn in pages)))
  }

  /** Frames changed hands only from one of the given pages to free. */
  ghost predicate OnlyFreed(a: seq<Owner>, b: seq<Owner>, pages: set<nat>) {
    |a| == |b| && forall n :: 0 <= n < |a| ==>
      b[n] == if a[n].HeapPage? && a[n].vpn in pages then Unowned else a[n]
  }

  /** Addresses on none of the given pages translate as before. */
  ghost predicate SameElsewhere(m: Mem, m': Mem, root: nat, pages: set<nat>) {
    forall w :: OffPages(pages, w) ==> Translate(m', root, w) == Translate(m, root, w) && Writable(m', root, w) == Writable(m, root, w)
  }

  ghost predicate OffPages(pages: set<nat>, w: Word) {
    forall p :: p in pages && p < PAGES ==> !SamePage(PageAddr(p), w)
  }

  /** Pages of a range. */
  function Range(p: nat, n: nat): (r: set<nat>)
    ensures forall q :: q in r <==> p <= q < p + n
    decreases n
  {
    if n == 0 then {} else {p} + Range(p + 1, n - 1)
  }

  // ----- mapping one page -----

  lemma PageStart(f: nat, p: nat)
    requires f < HHDM_FRAMES && p < PAGES
    ensures InPage(f * PAGE_SIZE, PageAddr(p)) == f * PAGE_SIZE && FrameOf(f * PAGE_SIZE) == f
  {
  }

  /** vmm_map_alloc_page keeps the heap invariant; on success the page is added. */
  lemma MapAllocKeeps(s: Vm, owner: seq<Owner>, win: Window, pages: set<nat>, p: nat) returns (owner': seq<Owner>)
    requires HeapInv(s, owner, win, pages) && InWindow(win, p) && p !in pages
    ensures var (s', f) := MapAllocPage(s, PageAddr(p), PTE_W);
            && SamePaths(s.mem, s'.mem, s.root) && Untouched(s.mem, s'.mem, owner)
            && (f == 0 ==> HeapInv(s', owner', win, pages) && OnlyNewTables(owner, owner') && SameWalks(s.mem, s'.mem, s.root))
            && (f != 0 ==> HeapInv(s', owner', win, pages + {p}) && OnlyNewPages(owner, owner', {p}) && SameElsewhere(s.mem, s'.mem, s.root, {p}))
  {
    hide TablesOk, IdentityOk, FramesOk, Translate, Writable, ClearPath, MapAllocPage, SamePage, InPage, FrameOf, Entry;
    owner' := MapAllocEffect(s, owner, PageAddr(p), PTE_W, HeapPage(p));
    var (s', f) := MapAllocPage(s, PageAddr(p), PTE_W);
    if f == 0 {
      SameWalksHeap(s, owner, s', owner', win, pages);
    } else {
      PageStart(f, p);
      forall q: nat | InWindow(win, q) ensures SamePage(PageAddr(p), PageAddr(q)) <==> p == q {
        WindowPages(win, p, q);
      }
      forall g: nat ensures Backs(s', owner', pages + {p}, g) {
        assert Backs(s, owner, pages, g);
        if g < |owner| && owner[g].HeapPage? {
          assert InWindow(win, owner[g].vpn);
        }
      }
    }
  }

  /** Nothing the heap can see changed. */
  lemma SameWalksHeap(s: Vm, owner: seq<Owner>, s': Vm, owner': seq<Owner>, win: Window, pages: set<nat>)
    requires HeapInv(s, owner, win, pages) && Inv(s', owner') && s'.root == s.root
    requires SameWalks(s.mem, s'.mem, s.root)
    requires |owner'| == |owner|
    requires forall f :: 0 <= f < |owner| ==> (owner'[f] == owner[f] || (!owner[f].HeapPage? && !owner'[f].HeapPage?))
    ensures HeapInv(s', owner', win, pages)
  {
    hide Inv, Translate, Writable, ClearPath;
    forall g: nat ensures Backs(s', owner', pages, g) {
      assert Backs(s, owner, pages, g);
    }
  }

  // ----- unmapping one page -----

  lemma UnmapOneEffect(s: Vm, owner: seq<Owner>, p: nat, f: nat)
    requires Inv(s, owner) && p < PAGES && ClearPath(s.mem, s.root, PageAddr(p))
    requires 0 < f < |owner| && f < HHDM_FRAMES && !IsTable(owner, f) && Translate(s.mem, s.root, PageAddr(p)) == Some(f * PAGE_SIZE)
    ensures var s' := UnmapOne(s, p);
            && Inv(s', owner[f := Unowned]) && SamePaths(s.mem, s'.mem, s.root) && Untouched(s.mem, s'.mem, owner)
            && s'.frames == Free(s.frames, f)
            && (forall w :: Translate(s'.mem, s.root, w) == if SamePage(PageAddr(p), w) then None else Translate(s.mem, s.root, w))
            && (forall w :: Writable(s'.mem, s.root, w) == (!SamePage(PageAddr(p), w) && Writable(s.mem, s.root, w)))
  {
    hide TablesOk, IdentityOk, FramesOk, UnmapPage, Free, Translate, Writable, ClearPath, SamePage, Entry;
    FrameStart(f);
    UnmapPageRefines(s, owner, PageAddr(p));
    ReleaseFrame(UnmapPage(s, PageAddr(p)).0, owner, f);
  }

  lemma FrameStart(f: nat)
    ensures f * PAGE_SIZE % PAGE_SIZE == 0 && f * PAGE_SIZE / PAGE_SIZE == f && (f * PAGE_SIZE == 0 <==> f == 0)
  {
  }

  /** Unmapping a page of the heap frees exactly its frame. */
  lemma UnmapOneKeeps(s: Vm, owner: seq<Owner>, win: Window, pages: set<nat>, p: nat) returns (owner': seq<Owner>)
    requires HeapInv(s, owner, win, pages) && p in pages
    ensures var s' := UnmapOne(s, p);
            && HeapInv(s', owner', win, pages - {p}) && OnlyFreed(owner, owner', {p})
            && SamePaths(s.mem, s'.mem, s.root) && Untouched(s.mem, s'.mem, owner) && SameElsewhere(s.mem, s'.mem, s.root, {p})
  {
    hide TablesOk, IdentityOk, FramesOk, Translate, Writable, ClearPath, UnmapOne, SamePage, FrameOf, Entry;
    assert Backed(s, owner, p) && InWindow(win, p);
    var f := FrameOf(Translate(s.mem, s.root, PageAddr(p)).value);
    FrameLimit(s, owner, f);
    UnmapOneEffect(s, owner, p, f);
    owner' := owner[f := Unowned];
    var s' := UnmapOne(s, p);
    forall q: nat | InWindow(win, q) ensures SamePage(PageAddr(p), PageAddr(q)) <==> p == q {
      WindowPages(win, p, q);
    }
    forall g: nat ensures Backs(s', owner', pages - {p}, g) && (g < |owner| && owner[g] == HeapPage(p) ==> g == f) {
      assert Backs(s, owner, pages, g);
      if g < |owner| && owner[g] == HeapPage(p) { FrameStart(g); FrameStart(f); }
    }
    forall q | q in pages && q != p ensures Backed(s', owner', q) {
      assert Backed(s, owner, q);
    }
  }

  lemma FrameLimit(s: Vm, owner: seq<Owner>, f: nat)
    requires Inv(s, owner) && f < |owner|
    ensures f < HHDM_FRAMES
  {
  }

  // ----- ranges of pages -----

  /** The loop of kmalloc maps a prefix of the range and touches nothing else. */
  lemma {:induction false} MapPagesKeeps(s: Vm, owner: seq<Owner>, win: Window, pages: set<nat>, p: nat, n: nat) returns (owner': seq<Owner>)
    requires HeapInv(s, owner, win, pages) && win.lo <= p && p + n <= win.hi && Range(p, n) !! pages
    ensures var (s', k) := MapPages(s, p, n);
            && HeapInv(s', owner', win, pages + Range(p, k)) && OnlyNewPages(owner, owner', Range(p, k))
            && SamePaths(s.mem, s'.mem, s.root) && Untouched(s.mem, s'.mem, owner) && SameElsewhere(s.mem, s'.mem, s.root, Range(p, k))
    decreases n
  {
    hide Inv, Translate, Writable, ClearPath, MapAllocPage, SamePage, Entry, HeapInv;
    owner' := owner;
    if n == 0 {
      assert pages + Range(p, 0) == pages;
    } else {
      HeapSized(s, owner, win, pages);
      assert p in Range(p, n);
      var owner1 := MapAllocKeeps(s, owner, win, pages, p);
      var (s1, f) := MapAllocPage(s, PageAddr(p), PTE_W);
      owner' := owner1;
      if f == 0 {
        assert pages + Range(p, 0) == pages;
      } else {
        owner' := MapPagesKeeps(s1, owner1, win, pages + {p}, p + 1, n - 1);
        var (s2, k) := MapPages(s1, p + 1, n - 1);
        assert pages + {p} + Range(p + 1, k) == pages + Range(p, k + 1);
        ElsewhereTrans(s.mem, s1.mem, s2.mem, s.root, {p}, Range(p + 1, k), Range(p, k + 1));
        GrowTrans(s.mem, s1.mem, s2.mem, owner, owner1, owner', {p}, Range(p + 1, k), Range(p, k + 1));
      }
    }
  }

  lemma HeapSized(s: Vm, owner: seq<Owner>, win: Window, pages: set<nat>)
    requires HeapInv(s, owner, win, pages)
    ensures Sized(s) && WindowOk(win) && forall p :: p in pages ==> InWindow(win, p)
  {
  }

  lemma ElsewhereTrans(m: Mem, m1: Mem, m2: Mem, root: nat, a: set<nat>, b: set<nat>, c: set<nat>)
    requires SameElsewhere(m, m1, root, a) && SameElsewhere(m1, m2, root, b) && a <= c && b <= c
    ensures SameElsewhere(m, m2, root, c)
  {
    hide Translate, Writable, SamePage;
    forall w | OffPages(c, w) ensures Translate(m2, root, w) == Translate(m, root, w) && Writable(m2, root, w) == Writable(m, root, w) {
      assert OffPages(a, w) && OffPages(b, w);
    }
  }

  lemma GrowTrans(m: Mem, m1: Mem, m2: Mem, o: seq<Owner>, o1: seq<Owner>, o2: seq<Owner>, a: set<nat>, b: set<nat>, c: set<nat>)
    requires OnlyNewPages(o, o1, a) && OnlyNewPages(o1, o2, b) && a <= c && b <= c
    requires Untouched(m, m1, o) && Untouched(m1, m2, o1)
    ensures OnlyNewPages(o, o2, c) && Untouched(m, m2, o)
  {
    hide Entry;
  }

  /** The unwinding loop, and the loop of kfree, free exactly the frames of the range. */
  lemma {:induction false} UnmapPagesKeeps(s: Vm, owner: seq<Owner>, win: Window, pages: set<nat>, p: nat, n: nat) returns (owner': seq<Owner>)
    requires HeapInv(s, owner, win, pages) && p + n <= PAGES && Range(p, n) <= pages
    ensures var s' := UnmapPages(s, p, n);
            && HeapInv(s', owner', win, pages - Range(p, n)) && OnlyFreed(owner, owner', Range(p, n))
            && SamePaths(s.mem, s'.mem, s.root) && SameElsewhere(s.mem, s'.mem, s.root, Range(p, n))
            && KeptFrames(s.mem, s'.mem, owner, Range(p, n))
    decreases n
  {
    hide Inv, Translate, Writable, ClearPath, UnmapOne, SamePage, Entry, HeapInv;
    owner' := owner;
    HeapSized(s, owner, win, pages);
    if n == 0 {
      assert pages - Range(p, 0) == pages;
    } else {
      var owner1 := UnmapOneKeeps(s, owner, win, pages, p);
      var s1 := UnmapOne(s, p);
      owner' := UnmapPagesKeeps(s1, owner1, win, pages - {p}, p + 1, n - 1);
      var s2 := UnmapPages(s1, p + 1, n - 1);
      assert pages - {p} - Range(p + 1, n - 1) == pages - Range(p, n);
      ElsewhereTrans(s.mem, s1.mem, s2.mem, s.root, {p}, Range(p + 1, n - 1), Range(p, n));
      ShrinkTrans(s.mem, s1.mem, s2.mem, owner, owner1, owner', p, n);
    }
  }

  /** No word changed in frames that belong to someone other than the page tables and the given pages. */
  ghost predicate KeptFrames(m: Mem, m': Mem, owner: seq<Owner>, pages: set<nat>) {
    forall k: nat, j: Index ::
      k < |owner| && !IsTable(owner, k) && owner[k] != Unowned && !(owner[k].HeapPage? && owner[k].vpn in pages) ==> Entry(m', k, j) == Entry(m, k, j)
  }

  lemma ShrinkTrans(m: Mem, m1: Mem, m2: Mem, o: seq<Owner>, o1: seq<Owner>, o2: seq<Owner>, p: nat, n: nat)
    requires 0 < n
    requires OnlyFreed(o, o1, {p}) && OnlyFreed(o1, o2, Range(p + 1, n - 1))
    requires Untouched(m, m1, o) && KeptFrames(m1, m2, o1, Range(p + 1, n - 1))
    ensures OnlyFreed(o, o2, Range(p, n)) && KeptFrames(m, m2, o, Range(p, n))
  {
    hide Entry;
  }

  // ----- the allocator's promises -----

  /** Two heap states with the same pages mapped translate alike when only addresses of other pages could differ. */
  lemma WalksRestored(s: Vm, owner: seq<Owner>, s': Vm, owner': seq<Owner>, win: Window, pages: set<nat>, p: nat, n: nat)
    requires HeapInv(s, owner, win, pages) && HeapInv(s', owner', win, pages) && s'.root == s.root
    requires win.lo <= p && p + n <= win.hi && Range(p, n) !! pages
    requires SameElsewhere(s.mem, s'.mem, s.root, Range(p, n)) && SamePaths(s.mem, s'.mem, s.root)
    ensures SameWalks(s.mem, s'.mem, s.root)
  {
    hide TablesOk, FramesOk, Translate, Writable, ClearPath, SamePage;
    forall w ensures Translate(s'.mem, s.root, w) == Translate(s.mem, s.root, w) && Writable(s'.mem, s.root, w) == Writable(s.mem, s.root, w) {
      if Writable(s.mem, s.root, w) { WritableIsMapped(s.mem, s.root, w); }
      if Writable(s'.mem, s.root, w) { WritableIsMapped(s'.mem, s.root, w); }
      if !OffPages(Range(p, n), w) {
        var q: nat :| q in Range(p, n) && q < PAGES && SamePage(PageAddr(q), w);
        assert InWindow(win, q) && q !in pages;
        TwinWalk(s.mem, s.root, PageAddr(q), w);
        TwinWalk(s'.mem, s.root, PageAddr(q), w);
      }
    }
  }

  /**
   * Page-backed kmalloc conserves frames.  Success maps exactly the requested
   * pages, each to a frame that was free; failure restores every translation and
   * gives back every data frame, keeping at most page-table frames.
   */
  lemma MapAllKeeps(s: Vm, owner: seq<Owner>, win: Window, pages: set<nat>, p: nat, n: nat) returns (owner': seq<Owner>)
    requires HeapInv(s, owner, win, pages) && win.lo <= p && p + n <= win.hi && Range(p, n) !! pages
    ensures var (s', ok) := MapAll(s, p, n);
            && SamePaths(s.mem, s'.mem, s.root) && Untouched(s.mem, s'.mem, owner)
            && (ok ==> HeapInv(s', owner', win, pages + Range(p, n)) && OnlyNewPages(owner, owner', Range(p, n))
                       && SameElsewhere(s.mem, s'.mem, s.root, Range(p, n)))
            && (!ok ==> HeapInv(s', owner', win, pages) && OnlyNewTables(owner, owner') && SameWalks(s.mem, s'.mem, s.root))
  {
    hide Inv, Translate, Writable, ClearPath, MapPages, UnmapPages, Entry, HeapInv, SamePage;
    HeapSized(s, owner, win, pages);
    owner' := MapPagesKeeps(s, owner, win, pages, p, n);
    var (s1, k) := MapPages(s, p, n);
    if k != n {
      var owner1 := owner';
      owner' := UnmapPagesKeeps(s1, owner1, win, pages + Range(p, k), p, k);
      var s2 := UnmapPages(s1, p, k);
      assert pages + Range(p, k) - Range(p, k) == pages;
      ElsewhereTrans(s.mem, s1.mem, s2.mem, s.root, Range(p, k), Range(p, k), Range(p, k));
      WalksRestored(s, owner, s2, owner', win, pages, p, k);
      NoOldPages(s, owner, win, pages, Range(p, k));
      Undone(s.mem, s1.mem, s2.mem, owner, owner1, owner', Range(p, k));
    }
  }

  lemma NoOldPages(s: Vm, owner: seq<Owner>, win: Window, pages: set<nat>, range: set<nat>)
    requires HeapInv(s, owner, win, pages) && range !! pages
    ensures forall f :: 0 <= f < |owner| && owner[f].HeapPage? ==> owner[f].vpn !in range
  {
    hide Inv, Translate, Writable, ClearPath;
    forall f | 0 <= f < |owner| && owner[f].HeapPage? ensures owner[f].vpn !in range {
      assert Backs(s, owner, pages, f);
    }
  }

  /** Taking pages and freeing the same pages leaves only new page tables behind. */
  lemma Undone(m: Mem, m1: Mem, m2: Mem, o: seq<Owner>, o1: seq<Owner>, o2: seq<Owner>, range: set<nat>)
    requires OnlyNewPages(o, o1, range) && OnlyFreed(o1, o2, range)
    requires forall f :: 0 <= f < |o| && o[f].HeapPage? ==> o[f].vpn !in range
    requires Untouched(m, m1, o) && KeptFrames(m1, m2, o1, range)
    ensures OnlyNewTables(o, o2) && Untouched(m, m2, o)
  {
    hide Entry;
  }

  /**
   * A successful page-backed kmalloc followed by kfree restores every
   * translation and frees every data frame again; only page tables remain.
   * s1 is the state after kmalloc and any stores to data since.
   */
  lemma FreeUndoesMap(s: Vm, owner: seq<Owner>, s1: Vm, owner1: seq<Owner>, win: Window, pages: set<nat>, p: nat, n: nat) returns (owner': seq<Owner>)
    requires HeapInv(s, owner, win, pages) && win.lo <= p && p + n <= win.hi && Range(p, n) !! pages
    requires HeapInv(s1, owner1, win, pages + Range(p, n)) && OnlyNewPages(owner, owner1, Range(p, n)) && s1.root == s.root
    requires SameElsewhere(s.mem, s1.mem, s.root, Range(p, n)) && SamePaths(s.mem, s1.mem, s.root)
    ensures var s' := UnmapPages(s1, p, n);
            HeapInv(s', owner', win, pages) && OnlyNewTables(owner, owner') && SameWalks(s.mem, s'.mem, s.root)
  {
    hide Inv, Translate, Writable, ClearPath, UnmapPages, Entry, HeapInv, SamePage;
    HeapSized(s1, owner1, win, pages + Range(p, n));
    owner' := UnmapPagesKeeps(s1, owner1, win, pages + Range(p, n), p, n);
    var s2 := UnmapPages(s1, p, n);
    assert pages + Range(p, n) - Range(p, n) == pages;
    ElsewhereTrans(s.mem, s1.mem, s2.mem, s.root, Range(p, n), Range(p, n), Range(p, n));
    WalksRestored(s, owner, s2, owner', win, pages, p, n);
    NoOldPages(s, owner, win, pages, Range(p, n));
  }

  lemma SameWalksElsewhere(m: Mem, m1: Mem, m2: Mem, root: nat, range: set<nat>)
    requires SameElsewhere(m, m1, root, range) && SameWalks(m1, m2, root)
    ensures SameElsewhere(m, m2, root, range)
  {
    hide Translate, Writable, ClearPath, SamePage;
  }

  /** A store outside the page tables does not concern the heap invariant. */
  lemma DataStoreHeap(s: Vm, m: Mem, owner: seq<Owner>, win: Window, pages: set<nat>)
    requires HeapInv(s, owner, win, pages) && SameTables(s.mem, m, owner)
    ensures HeapInv(s.(mem := m), owner, win, pages) && SameWalks(s.mem, m, s.root)
  {
    hide TablesOk, IdentityOk, FramesOk, Translate, Writable, ClearPath, Entry;
    DataStore(s, m, owner);
    SameWalksHeap(s, owner, s.(mem := m), owner, win, pages);
  }

  /**
   * kfree reads h->pages again in every round (src/lib/alloc.c:82), but its first
   * round unmaps the page the header is on: from then on that read would fault.
   */
  lemma HeaderUnmapped(s: Vm, owner: seq<Owner>, win: Window, pages: set<nat>, p: nat)
    requires HeapInv(s, owner, win, pages) && p in pages
    ensures Translate(UnmapOne(s, p).mem, s.root, PageAddr(p)).None?
  {
    hide Inv, Translate, Writable, ClearPath, UnmapOne;
    var owner' := UnmapOneKeeps(s, owner, win, pages, p);
  }

  // ----- live blocks -----

  /** First word of the frame behind virtual page p: where a block keeps its header. */
  function HeaderAt(s: Vm, p: nat): Word
    requires p < PAGES
  {
    match Translate(s.mem, s.root, PageAddr(p))
    case None => 0
    case Some(t) => Entry(s.mem, FrameOf(t), 0)
  }

  ghost predicate BlockOk(s: Vm, b: nat, n: nat, pages: set<nat>) {
    && 0 < n < 0x1_0000_0000 && b < PAGES && Range(b, n) <= pages
    && HeaderAt(s, b) == Header(n)
  }

  /** The live blocks: they cover the mapped pages without overlap, and each carries its header. */
  ghost predicate BlocksOk(s: Vm, blocks: map<nat, nat>, pages: set<nat>) {
    && (forall b :: b in blocks ==> BlockOk(s, b, blocks[b], pages))
    && (forall b, c :: b in blocks && c in blocks && b != c ==> Range(b, blocks[b]) !! Range(c, blocks[c]))
    && (forall p :: p in pages ==> InSome(blocks, p))
  }

  ghost predicate InSome(blocks: map<nat, nat>, p: nat) {
    exists b :: b in blocks && p in Range(b, blocks[b])
  }

  lemma BlockStarts(s: Vm, blocks: map<nat, nat>, pages: set<nat>, b: nat)
    requires BlocksOk(s, blocks, pages) && b in blocks
    ensures BlockOk(s, b, blocks[b], pages) && b in pages && b in Range(b, blocks[b])
  {
    hide HeaderAt, Header;
    assert b in Range(b, blocks[b]);
  }

  /** Different mapped pages lie in different frames, none of them a slab page or a page table. */
  lemma PagesOwnFrames(s: Vm, owner: seq<Owner>, win: Window, pages: set<nat>, p: nat, q: nat)
    requires HeapInv(s, owner, win, pages) && p in pages && q in pages && p != q
    ensures var f := Translate(s.mem, s.root, PageAddr(p));
            var g := Translate(s.mem, s.root, PageAddr(q));
            f.Some? && g.Some? && FrameOf(f.value) != FrameOf(g.value) && owner[FrameOf(f.value)] == HeapPage(p)
  {
    hide Inv, Translate, Writable, ClearPath;
    assert Backed(s, owner, p) && Backed(s, owner, q);
  }

  lemma OffRange(win: Window, p: nat, n: nat, b: nat)
    requires WindowOk(win) && win.lo <= p && p + n <= win.hi && InWindow(win, b) && b !in Range(p, n)
    ensures OffPages(Range(p, n), PageAddr(b))
  {
    hide SamePage;
    forall q | q in Range(p, n) && q < PAGES ensures !SamePage(PageAddr(q), PageAddr(b)) {
      WindowPages(win, q, b);
    }
  }

  /** A live block outside a range of pages keeps its header when only that range changes. */
  lemma HeaderKept(s: Vm, owner: seq<Owner>, s': Vm, win: Window, pages: set<nat>, b: nat, p: nat, n: nat)
    requires HeapInv(s, owner, win, pages) && s'.root == s.root && b in pages && b !in Range(p, n)
    requires win.lo <= p && p + n <= win.hi && SameElsewhere(s.mem, s'.mem, s.root, Range(p, n))
    requires forall k: nat :: k < |owner| && owner[k] == HeapPage(b) ==> Entry(s'.mem, k, 0) == Entry(s.mem, k, 0)
    ensures b < PAGES && HeaderAt(s', b) == HeaderAt(s, b)
  {
    hide Inv, Translate, Writable, ClearPath, Entry, SamePage;
    assert Backed(s, owner, b) && InWindow(win, b);
    OffRange(win, p, n, b);
  }

  /** The new block of kmalloc, with its header written, joins the live blocks. */
  lemma AddBlock(s: Vm, owner: seq<Owner>, s': Vm, win: Window, pages: set<nat>, blocks: map<nat, nat>, p: nat, n: nat)
    requires HeapInv(s, owner, win, pages) && BlocksOk(s, blocks, pages) && s'.root == s.root
    requires win.lo <= p && p + n <= win.hi && p < PAGES && Range(p, n) !! pages && 0 < n < 0x1_0000_0000
    requires SameElsewhere(s.mem, s'.mem, s.root, Range(p, n))
    requires forall k: nat :: k < |owner| && owner[k].HeapPage? ==> Entry(s'.mem, k, 0) == Entry(s.mem, k, 0)
    requires HeaderAt(s', p) == Header(n)
    ensures BlocksOk(s', blocks[p := n], pages + Range(p, n))
  {
    hide Inv, HeapInv, SameElsewhere, Entry, HeaderAt, Header, SamePage, Range;
    var blocks' := blocks[p := n];
    if p in blocks { BlockStarts(s, blocks, pages, p); }
    forall b | b in blocks
      ensures BlockOk(s', b, blocks[b], pages) && Range(b, blocks[b]) !! Range(p, n)
    {
      BlockStarts(s, blocks, pages, b);
      HeaderKept(s, owner, s', win, pages, b, p, n);
    }
    forall q | q in pages + Range(p, n) ensures InSome(blocks', q) {
      if q in pages {
        assert InSome(blocks, q);
        var b :| b in blocks && q in Range(b, blocks[b]);
        assert b in blocks' && q in Range(b, blocks'[b]);
      } else {
        assert p in blocks' && q in Range(p, blocks'[p]);
      }
    }
  }

  /** The block kfree released leaves the live blocks. */
  lemma DropBlock(s: Vm, owner: seq<Owner>, s': Vm, win: Window, pages: set<nat>, blocks: map<nat, nat>, p: nat)
    requires HeapInv(s, owner, win, pages) && BlocksOk(s, blocks, pages) && s'.root == s.root && p in blocks
    requires SameElsewhere(s.mem, s'.mem, s.root, Range(p, blocks[p]))
    requires KeptFrames(s.mem, s'.mem, owner, Range(p, blocks[p]))
    ensures BlocksOk(s', blocks - {p}, pages - Range(p, blocks[p]))
  {
    hide Inv, HeapInv, SameElsewhere, Entry, HeaderAt, Header, SamePage, Range;
    var n := blocks[p];
    var rest := blocks - {p};
    BlockStarts(s, blocks, pages, p);
    HeapSized(s, owner, win, pages);
    RangeInWindow(win, pages, p, n);
    forall b | b in rest ensures BlockOk(s', b, rest[b], pages - Range(p, n)) {
      BlockStarts(s, blocks, pages, b);
      assert Range(b, blocks[b]) !! Range(p, n);
      HeaderKept(s, owner, s', win, pages, b, p, n);
    }
    forall q | q in pages - Range(p, n) ensures InSome(rest, q) {
      assert InSome(blocks, q);
      var b :| b in blocks && q in Range(b, blocks[b]);
      assert b in rest && q in Range(b, rest[b]);
    }
  }

  lemma RangeInWindow(win: Window, pages: set<nat>, p: nat, n: nat)
    requires Range(p, n) <= pages && 0 < n && forall q :: q in pages ==> InWindow(win, q)
    ensures win.lo <= p && p + n <= win.hi
  {
    assert p in Range(p, n) && p + n - 1 in Range(p, n);
  }

  /** The slab allocator, and stores to data, do not concern the live blocks. */
  lemma BlocksKept(s: Vm, owner: seq<Owner>, s': Vm, win: Window, pages: set<nat>, blocks: map<nat, nat>)
    requires HeapInv(s, owner, win, pages) && BlocksOk(s, blocks, pages) && s'.root == s.root
    requires SameWalks(s.mem, s'.mem, s.root)
    requires forall k: nat :: k < |owner| && owner[k].HeapPage? && owner[k].vpn in blocks ==> Entry(s'.mem, k, 0) == Entry(s.mem, k, 0)
    ensures BlocksOk(s', blocks, pages)
  {
    hide Inv, HeapInv, SameWalks, Entry, HeaderAt, Header, Range;
    forall b | b in blocks ensures BlockOk(s', b, blocks[b], pages) {
      BlockStarts(s, blocks, pages, b);
      SameHeader(s, owner, s', win, pages, b);
    }
  }

  lemma SameHeader(s: Vm, owner: seq<Owner>, s': Vm, win: Window, pages: set<nat>, b: nat)
    requires HeapInv(s, owner, win, pages) && s'.root == s.root && b in pages
    requires SameWalks(s.mem, s'.mem, s.root)
    requires forall k: nat :: k < |owner| && owner[k] == HeapPage(b) ==> Entry(s'.mem, k, 0) == Entry(s.mem, k, 0)
    ensures b < PAGES && HeaderAt(s', b) == HeaderAt(s, b)
  {
    hide Inv, Translate, Writable, ClearPath, Entry;
    assert Backed(s, owner, b);
  }

  // ----- how many pages memory can back -----

  lemma EnsureTableSpends(s: Vm, n: nat, i: Index)
    requires Sized(s)
    ensures EnsureTable(s, n, i).0.frames.free <= s.frames.free
  {
  }

  lemma MapAllocSpends(s: Vm, v: Word, flags: Word)
    requires Sized(s)
    ensures var (s', f) := MapAllocPage(s, v, flags); f != 0 ==> s'.frames.free < s.frames.free
  {
    hide EnsureTable, Entry;
    var (fr, f) := Alloc(s.frames);
    if f != 0 {
      var s0 := s.(frames := fr);
      var (s3, pdpt) := EnsureTable(s0, s0.root, Idx4(v));
      EnsureTableSpends(s0, s0.root, Idx4(v));
      var (s2, pd) := EnsureTable(s3, pdpt, Idx3(v));
      EnsureTableSpends(s3, pdpt, Idx3(v));
      EnsureTableSpends(s2, pd, Idx2(v));
    }
  }

  /** No more pages are mapped than frames were free, so the 32-bit page count of the header is exact. */
  lemma {:induction false} MapPagesSpends(s: Vm, p: nat, n: nat)
    requires Sized(s) && p + n <= PAGES
    ensures MapPages(s, p, n).1 <= s.frames.free
    decreases n
  {
    hide MapAllocPage, PageAddr;
    if n > 0 {
      var (s1, f) := MapAllocPage(s, PageAddr(p), PTE_W);
      MapAllocSpends(s, PageAddr(p), PTE_W);
      if f != 0 { MapPagesSpends(s1, p + 1, n - 1); }
    }
  }

  lemma CountAtMost(s: Vm, owner: seq<Owner>, win: Window, pages: set<nat>)
    requires HeapInv(s, owner, win, pages)
    ensures s.frames.free <= HHDM_FRAMES
  {
  }

  /** The block that MapAll mapped, once its header is written. */
  lemma GrantBlock(s: Vm, owner: seq<Owner>, s1: Vm, owner1: seq<Owner>, s2: Vm, win: Window, pages: set<nat>, blocks: map<nat, nat>, p: nat, n: nat)
    requires HeapInv(s, owner, win, pages) && BlocksOk(s, blocks, pages) && s1.root == s.root && s2.root == s.root
    requires win.lo <= p && p + n <= win.hi && p < PAGES && Range(p, n) !! pages && 0 < n < 0x1_0000_0000
    requires OnlyNewPages(owner, owner1, Range(p, n)) && SameElsewhere(s.mem, s1.mem, s.root, Range(p, n)) && Untouched(s.mem, s1.mem, owner)
    requires SameWalks(s1.mem, s2.mem, s.root)
    requires forall k: nat, i: Index :: k < |owner1| && owner1[k] != HeapPage(p) ==> Entry(s2.mem, k, i) == Entry(s1.mem, k, i)
    requires HeaderAt(s2, p) == Header(n)
    ensures BlocksOk(s2, blocks[p := n], pages + Range(p, n)) && SameElsewhere(s.mem, s2.mem, s.root, Range(p, n))
    ensures Untouched(s.mem, s2.mem, owner)
  {
    hide Inv, HeapInv, SameWalks, SameElsewhere, Entry, HeaderAt, Header, BlocksOk, Range;
    SameWalksElsewhere(s.mem, s1.mem, s2.mem, s.root, Range(p, n));
    NoOldPages(s, owner, win, pages, Range(p, n));
    assert p in Range(p, n);
    forall k: nat, i: Index | k < |owner| && !IsTable(owner, k) && owner[k] != Unowned ensures Entry(s2.mem, k, i) == Entry(s.mem, k, i) {
      assert owner1[k] == owner[k];
    }
    AddBlock(s, owner, s2, win, pages, blocks, p, n);
  }

  lemma GrantedCount(s: Vm, owner: seq<Owner>, win: Window, pages: set<nat>, p: nat, n: nat)
    requires HeapInv(s, owner, win, pages) && p + n <= PAGES && MapAll(s, p, n).1
    ensures n <= HHDM_FRAMES
  {
    hide Inv, HeapInv, MapPages, UnmapPages;
    HeapSized(s, owner, win, pages);
    CountAtMost(s, owner, win, pages);
    MapPagesSpends(s, p, n);
  }

  /** A refused request leaves the live blocks alone. */
  lemma RefusedBlocks(s: Vm, owner: seq<Owner>, s': Vm, win: Window, pages: set<nat>, blocks: map<nat, nat>)
    requires HeapInv(s, owner, win, pages) && BlocksOk(s, blocks, pages) && s'.root == s.root
    requires SameWalks(s.mem, s'.mem, s.root) && Untouched(s.mem, s'.mem, owner)
    ensures BlocksOk(s', blocks, pages)
  {
    hide Inv, HeapInv, BlocksOk, SameWalks, Entry;
    BlocksKept(s, owner, s', win, pages, blocks);
  }

  // ----- addresses inside live pages -----

  lemma OffsetIndices(p: nat, off: nat)
    requires p < PAGES && off < PAGE_SIZE
    ensures var v := PageAddr(p) + off;
            v < TWO64 && Idx4(v) == Idx4(PageAddr(p)) && Idx3(v) == Idx3(PageAddr(p)) && Idx2(v) == Idx2(PageAddr(p)) && Idx1(v) == Idx1(PageAddr(p))
            && v % PAGE_SIZE == off
  {
    var v := PageAddr(p) + off;
    assert v / PAGE_SIZE == p;
    assert v / 0x20_0000 == p / 512 && v / 0x4000_0000 == p / 0x4_0000 && v / 0x80_0000_0000 == p / 0x800_0000;
    PageIndices(p);
  }

  /** All addresses of a live page lie in its frame, at the same offset. */
  lemma InsidePage(s: Vm, owner: seq<Owner>, win: Window, pages: set<nat>, p: nat, off: nat)
    requires HeapInv(s, owner, win, pages) && p in pages && off < PAGE_SIZE
    ensures p < PAGES && PageAddr(p) + off < TWO64
    ensures var t := Translate(s.mem, s.root, PageAddr(p));
            t.Some? && Translate(s.mem, s.root, PageAddr(p) + off) == Some(FrameOf(t.value) * PAGE_SIZE + off)
    ensures Writable(s.mem, s.root, PageAddr(p) + off)
  {
    hide Inv, Idx4, Idx3, Idx2, Idx1, Backs;
    assert Backed(s, owner, p) && InWindow(win, p);
    assert ClearPath(s.mem, s.root, PageAddr(p));
    OffsetIndices(p, off);
    OffsetIndices(p, 0);
  }

  /** A page inside a live block, other than its first, starts no block. */
  lemma InnerPage(s: Vm, blocks: map<nat, nat>, pages: set<nat>, p: nat, q: nat)
    requires BlocksOk(s, blocks, pages) && p in blocks && q in blocks && q in Range(p, blocks[p])
    ensures p == q
  {
    hide HeaderAt, Header;
    BlockStarts(s, blocks, pages, q);
  }

  /** A store behind the header of a block, or to another of its pages, changes no header. */
  lemma HeadersSpared(s: Vm, owner: seq<Owner>, blocks: map<nat, nat>, pages: set<nat>, p: nat, q: nat, f: nat, i: Index, w: Word)
    requires BlocksOk(s, blocks, pages) && p in blocks && q in Range(p, blocks[p]) && (q == p ==> 0 < i)
    requires f < |owner| && owner[f] == HeapPage(q)
    ensures forall k: nat :: k < |owner| && owner[k].HeapPage? && owner[k].vpn in blocks ==> Entry(Put(s.mem, f, i, w), k, 0) == Entry(s.mem, k, 0)
  {
    hide HeaderAt, Header, Range, BlocksOk;
    if q in blocks { InnerPage(s, blocks, pages, p, q); }
  }
}
