/** What the callers of kmalloc own: the words behind live pointers, by virtual address and by place in memory. */
module Contents {
  import opened Words
  import opened Paging
  import opened PagingLaws
  import opened SlabLayout
  import opened HeapModel
  import M = SlabModel

  /** What a live pointer points to. */
  datatype Target = Null | Block(page: nat) | Object(cls: M.Class, obj: M.Obj)

  /** Memory, the live blocks with their page counts, and the live objects of each class. */
  datatype Heap = Heap(s: Vm, blocks: map<nat, nat>, live: seq<set<M.Obj>>)

  /** t is live: a block kmalloc granted, or an object of the slab allocator. */
  ghost predicate Live(h: Heap, t: Target)
    requires |h.live| == M.SLAB_CLASSES
  {
    match t
    case Null => true
    case Block(p) => p in h.blocks && p < PAGES
    case Object(c, o) => o in h.live[c] && o.page < HHDM_FRAMES && o.slot < M.SlotsPerPage(c)
  }

  /** The pointer of a block: behind the header on its first page. */
  function BlockPtr(p: nat): Word
    requires p < PAGES
  {
    PageAddr(p) + HEADER_SIZE
  }

  lemma BlockPtrPage(p: nat)
    requires p < PAGES
    ensures PageBase(BlockPtr(p)) == PageAddr(p)
  {
  }

  /** The pointer kmalloc returned for t. */
  ghost function Address(h: Heap, t: Target): Word
    requires |h.live| == M.SLAB_CLASSES && Live(h, t)
  {
    match t
    case Null => 0
    case Block(p) => BlockPtr(p)
    case Object(c, o) => ObjPtr(c, o)
  }

  /** Bytes that belong to the caller from there on. */
  ghost function Size(h: Heap, t: Target): nat
    requires |h.live| == M.SLAB_CLASSES && Live(h, t)
  {
    match t
    case Null => 0
    case Block(p) => if h.blocks[p] == 0 then 0 else h.blocks[p] * PAGE_SIZE - HEADER_SIZE
    case Object(c, _) => M.SlabSize(c)
  }

  /** a is the address of a word of t. */
  ghost predicate Within(h: Heap, t: Target, a: Word)
    requires |h.live| == M.SLAB_CLASSES
  {
    Live(h, t) && Address(h, t) <= a < Address(h, t) + Size(h, t) && a % 8 == 0
  }

  /** The word that a load from address a finds. */
  function Seen(s: Vm, a: Word): Option<Word> {
    match Translate(s.mem, s.root, a)
    case None => None
    case Some(pa) => if pa / 8 < |s.mem| then Some(s.mem[pa / 8]) else None
  }

  /** Every word of live memory, except that of one target, can be read and keeps its value. */
  ghost predicate Kept(h: Heap, h': Heap, except: Target)
    requires |h.live| == M.SLAB_CLASSES
  {
    forall t, a :: t != except && Within(h, t, a) ==> Seen(h.s, a).Some? && Seen(h'.s, a) == Seen(h.s, a)
  }

  /** Word i of frame n is one of t's. */
  ghost predicate Owns(h: Heap, owner: seq<Owner>, t: Target, n: nat, i: Index) {
    match t
    case Null => false
    case Block(p) => p in h.blocks && n < |owner| && owner[n].HeapPage? && owner[n].vpn in Range(p, h.blocks[p]) && (owner[n].vpn == p ==> 0 < i)
    case Object(c, o) => n < |owner| && owner[n] == SlabPage(c) && InObject(c, o, n, i)
  }

  /** Live objects lie in frames of their class. */
  ghost predicate ObjectsPlaced(owner: seq<Owner>, live: seq<set<M.Obj>>) {
    && |live| == M.SLAB_CLASSES && |owner| <= HHDM_FRAMES
    && forall c: M.Class, o: M.Obj :: o in live[c] ==> o.page < |owner| && owner[o.page] == SlabPage(c)
  }

  ghost predicate Sound(h: Heap, owner: seq<Owner>, win: Window, pages: set<nat>) {
    HeapInv(h.s, owner, win, pages) && BlocksOk(h.s, h.blocks, pages) && ObjectsPlaced(owner, h.live)
  }

  // ----- where the words are -----

  /** Each page of a block is in the window and has a frame of its own. */
  lemma BlockPage(h: Heap, owner: seq<Owner>, win: Window, pages: set<nat>, p: nat, q: nat) returns (n: nat)
    requires Sound(h, owner, win, pages) && p in h.blocks && q in Range(p, h.blocks[p])
    ensures q in pages && InWindow(win, q) && q < PAGES
    ensures n < |owner| && owner[n] == HeapPage(q) && Translate(h.s.mem, h.s.root, PageAddr(q)) == Some(n * PAGE_SIZE)
  {
    hide Inv, Translate, Writable, ClearPath, BlocksOk, ObjectsPlaced;
    BlockStarts(h.s, h.blocks, pages, p);
    assert Backed(h.s, owner, q) && InWindow(win, q);
    n := FrameOf(Translate(h.s.mem, h.s.root, PageAddr(q)).value);
  }

  /** The words of a block lie in the frames of its pages, behind the header. */
  lemma BlockWord(h: Heap, owner: seq<Owner>, win: Window, pages: set<nat>, p: nat, a: Word) returns (q: nat, n: nat, i: Index)
    requires Sound(h, owner, win, pages) && Within(h, Block(p), a)
    ensures q in pages && q in Range(p, h.blocks[p]) && InWindow(win, q) && q < PAGES && a == PageAddr(q) + 8 * i
    ensures n < |owner| && owner[n] == HeapPage(q) && Translate(h.s.mem, h.s.root, PageAddr(q)) == Some(n * PAGE_SIZE)
    ensures Owns(h, owner, Block(p), n, i) && Translate(h.s.mem, h.s.root, a) == Some(n * PAGE_SIZE + 8 * i)
    ensures Writable(h.s.mem, h.s.root, a)
  {
    hide HeapInv, Translate, Writable, BlocksOk, ObjectsPlaced;
    q, i := PageOfWord(p, h.blocks[p], a);
    n := BlockPage(h, owner, win, pages, p, q);
    InsidePage(h.s, owner, win, pages, q, 8 * i);
  }

  /** Page and word of an address in the n pages from p on, behind the header. */
  lemma PageOfWord(p: nat, n: nat, a: Word) returns (q: nat, i: Index)
    requires p < PAGES && BlockPtr(p) <= a < p * PAGE_SIZE + n * PAGE_SIZE && a % 8 == 0
    ensures p <= q < p + n && q < PAGES && a == PageAddr(q) + 8 * i && (q == p ==> 0 < i)
  {
    q, i := a / PAGE_SIZE, a % PAGE_SIZE / 8;
  }

  /** Every byte of a granted block, with its header, is mapped and writable. */
  lemma BlockWritable(h: Heap, owner: seq<Owner>, win: Window, pages: set<nat>, p: nat, off: nat)
    requires Sound(h, owner, win, pages) && p in h.blocks && off < h.blocks[p] * PAGE_SIZE
    ensures p < PAGES && PageAddr(p) + off < TWO64
    ensures Translate(h.s.mem, h.s.root, PageAddr(p) + off).Some? && Writable(h.s.mem, h.s.root, PageAddr(p) + off)
  {
    hide HeapInv, Translate, Writable, BlocksOk, ObjectsPlaced, ClearPath;
    var q := p + off / PAGE_SIZE;
    var _ := BlockPage(h, owner, win, pages, p, p);
    var _ := BlockPage(h, owner, win, pages, p, q);
    InsidePage(h.s, owner, win, pages, q, off % PAGE_SIZE);
  }

  /** The words of an object lie in its slot, and the direct map leads there. */
  lemma ObjectWordAt(s: Vm, owner: seq<Owner>, c: M.Class, o: M.Obj, a: Word) returns (i: Index)
    requires IdentityOk(s.mem, s.root) && o.page < |owner| <= HHDM_FRAMES && owner[o.page] == SlabPage(c)
    requires o.slot < M.SlotsPerPage(c) && ObjPtr(c, o) <= a < ObjPtr(c, o) + M.SlabSize(c) && a % 8 == 0
    ensures InObject(c, o, o.page, i) && a == HHDM_BASE + o.page * PAGE_SIZE + 8 * i
    ensures Translate(s.mem, s.root, a) == Some(o.page * PAGE_SIZE + 8 * i) && Writable(s.mem, s.root, a)
  {
    hide IdentityOk, Translate, Writable, ObjWord, M.SlotsPerPage, ObjPtr;
    ObjPtrOffset(c, o);
    M.SlotInside(c, o.slot);
    SlotWord(c, o.slot);
    var off := a - HHDM_BASE - o.page * PAGE_SIZE;
    i := off / 8;
    DirectMapWalk(s.mem, s.root, o.page * PAGE_SIZE + off);
  }

  lemma SlotWord(c: M.Class, slot: nat)
    requires slot < M.SlotsPerPage(c)
    ensures M.SlotOffset(c, slot) == 8 * ObjWord(c, slot) && M.SlabSize(c) % 8 == 0
  {
    var w := M.SlabSize(c) / 8;
    assert slot * (8 * w) == 8 * (slot * w);
  }

  /** Every word of a live target has its place in memory, where it can be read and written. */
  lemma WordAt(h: Heap, owner: seq<Owner>, win: Window, pages: set<nat>, t: Target, a: Word) returns (n: nat, i: Index)
    requires Sound(h, owner, win, pages) && Within(h, t, a)
    ensures n < |owner| && Owns(h, owner, t, n, i) && Translate(h.s.mem, h.s.root, a) == Some(n * PAGE_SIZE + 8 * i)
    ensures Seen(h.s, a) == Some(Entry(h.s.mem, n, i)) && Writable(h.s.mem, h.s.root, a)
  {
    hide TablesOk, IdentityOk, FramesOk, BlocksOk, Translate, Writable, ClearPath, Owns, ObjPtr, Backs, Backed;
    if t.Block? {
      var q;
      q, n, i := BlockWord(h, owner, win, pages, t.page, a);
    } else {
      n := t.obj.page;
      i := ObjectWordAt(h.s, owner, t.cls, t.obj, a);
      ObjectOwns(h, owner, t.cls, t.obj, i);
    }
    InvSize(h.s, owner);
    SeenEntry(h.s, owner, a, n, i);
  }

  lemma InvSize(s: Vm, owner: seq<Owner>)
    requires Inv(s, owner)
    ensures |s.mem| == |owner| * WORDS_PER_PAGE
  {
  }

  lemma ObjectOwns(h: Heap, owner: seq<Owner>, c: M.Class, o: M.Obj, i: Index)
    requires o.page < |owner| && owner[o.page] == SlabPage(c) && InObject(c, o, o.page, i)
    ensures Owns(h, owner, Object(c, o), o.page, i)
  {
  }

  lemma SeenEntry(s: Vm, owner: seq<Owner>, a: Word, n: nat, i: Index)
    requires |s.mem| == |owner| * WORDS_PER_PAGE && n < |owner| && Translate(s.mem, s.root, a) == Some(n * PAGE_SIZE + 8 * i)
    ensures Seen(s, a) == Some(Entry(s.mem, n, i))
  {
    hide Translate, Writable;
  }

  /** No word has two owners. */
  lemma OneOwner(h: Heap, owner: seq<Owner>, win: Window, pages: set<nat>, t: Target, u: Target, n: nat, i: Index)
    requires Sound(h, owner, win, pages) && Owns(h, owner, t, n, i) && Owns(h, owner, u, n, i)
    ensures t == u
  {
    hide HeapInv, HeaderAt, Header, ObjWord, Range;
    if t.Object? && u.Object? {
      if t.obj.slot != u.obj.slot { InOneSlot(t.cls, t.obj.slot, u.obj.slot, i); }
    }
  }

  // ----- what changes nothing -----

  /** Live memory is kept when its words are, and blocks stay mapped where they are. */
  lemma KeptIf(h: Heap, owner: seq<Owner>, win: Window, pages: set<nat>, h': Heap, owner': seq<Owner>, except: Target)
    requires Sound(h, owner, win, pages) && Inv(h'.s, owner') && h'.s.root == h.s.root && |h'.s.mem| == |h.s.mem|
    requires forall t, a :: t != except && t.Block? && Within(h, t, a) ==> Translate(h'.s.mem, h.s.root, a) == Translate(h.s.mem, h.s.root, a)
    requires forall t, n: nat, i: Index :: t != except && Live(h, t) && Owns(h, owner, t, n, i) ==> Entry(h'.s.mem, n, i) == Entry(h.s.mem, n, i)
    ensures Kept(h, h', except)
  {
    hide Inv, HeapInv, BlocksOk, Translate, Writable, ClearPath, Owns, Seen, Entry, ObjPtr, ObjectsPlaced, Live, Address, Size;
    assert ObjectsPlaced(owner, h.live);
    LiveClasses(owner, h.live);
    forall t, a | t != except && Within(h, t, a) ensures Seen(h.s, a).Some? && Seen(h'.s, a) == Seen(h.s, a) {
      WordKept(h, owner, win, pages, h', owner', t, a);
    }
  }

  lemma LiveClasses(owner: seq<Owner>, live: seq<set<M.Obj>>)
    requires ObjectsPlaced(owner, live)
    ensures |live| == M.SLAB_CLASSES
  {
  }

  lemma WordKept(h: Heap, owner: seq<Owner>, win: Window, pages: set<nat>, h': Heap, owner': seq<Owner>, t: Target, a: Word)
    requires Sound(h, owner, win, pages) && Inv(h'.s, owner') && h'.s.root == h.s.root && |h'.s.mem| == |h.s.mem| && Within(h, t, a)
    requires t.Block? ==> Translate(h'.s.mem, h.s.root, a) == Translate(h.s.mem, h.s.root, a)
    requires forall n: nat, i: Index :: Owns(h, owner, t, n, i) ==> Entry(h'.s.mem, n, i) == Entry(h.s.mem, n, i)
    ensures Seen(h.s, a).Some? && Seen(h'.s, a) == Seen(h.s, a)
  {
    hide TablesOk, IdentityOk, FramesOk, HeapInv, BlocksOk, Translate, Writable, ClearPath, Owns, Seen, Entry, ObjPtr;
    InvOf(h, owner, win, pages);
    InvSize(h.s, owner);
    InvSize(h'.s, owner');
    var n, i := WordAt(h, owner, win, pages, t, a);
    if t.Object? {
      OwnsObject(h, owner, t.cls, t.obj, n, i);
      var j := ObjectWordAt(h.s, owner, t.cls, t.obj, a);
      var j' := ObjectWordAt(h'.s, owner, t.cls, t.obj, a);
      assert i == j && j' == j;
    }
    SeenEntry(h'.s, owner', a, n, i);
  }

  lemma OwnsObject(h: Heap, owner: seq<Owner>, c: M.Class, o: M.Obj, n: nat, i: Index)
    requires Owns(h, owner, Object(c, o), n, i)
    ensures n == o.page < |owner| && owner[o.page] == SlabPage(c)
  {
  }

  lemma InvOf(h: Heap, owner: seq<Owner>, win: Window, pages: set<nat>)
    requires Sound(h, owner, win, pages)
    ensures Inv(h.s, owner) && WindowOk(win)
  {
  }

  /** Different targets are kept apart in memory, not only in the address space, and so are the words of one. */
  lemma WordsApart(h: Heap, owner: seq<Owner>, win: Window, pages: set<nat>, t: Target, u: Target, a: Word, b: Word)
    requires Sound(h, owner, win, pages) && Within(h, t, a) && Within(h, u, b) && (t != u || a != b)
    ensures Translate(h.s.mem, h.s.root, a).Some? && Translate(h.s.mem, h.s.root, b).Some?
    ensures Translate(h.s.mem, h.s.root, a).value / 8 != Translate(h.s.mem, h.s.root, b).value / 8
  {
    hide HeapInv, BlocksOk, Translate, Writable, ClearPath, Owns, ObjPtr, ObjectsPlaced, BlockPtr;
    if t.Block? && u.Block? {
      BlockWordsApart(h, owner, win, pages, t.page, u.page, a, b);
    } else if t == u {
      ObjectWordsApart(h, owner, win, pages, t.cls, t.obj, a, b);
    } else {
      var n, i := WordAt(h, owner, win, pages, t, a);
      var m, j := WordAt(h, owner, win, pages, u, b);
      if n == m && i == j { OneOwner(h, owner, win, pages, t, u, n, i); }
    }
  }

  lemma ObjectWordsApart(h: Heap, owner: seq<Owner>, win: Window, pages: set<nat>, c: M.Class, o: M.Obj, a: Word, b: Word)
    requires Sound(h, owner, win, pages) && Within(h, Object(c, o), a) && Within(h, Object(c, o), b) && a != b
    ensures Translate(h.s.mem, h.s.root, a).Some? && Translate(h.s.mem, h.s.root, b).Some?
    ensures Translate(h.s.mem, h.s.root, a).value / 8 != Translate(h.s.mem, h.s.root, b).value / 8
  {
    hide TablesOk, IdentityOk, FramesOk, BlocksOk, Translate, Writable, ClearPath, Owns, ObjPtr, Backed;
    var i := ObjectWordAt(h.s, owner, c, o, a);
    var j := ObjectWordAt(h.s, owner, c, o, b);
  }

  lemma BlockWordsApart(h: Heap, owner: seq<Owner>, win: Window, pages: set<nat>, p: nat, q: nat, a: Word, b: Word)
    requires Sound(h, owner, win, pages) && Within(h, Block(p), a) && Within(h, Block(q), b) && (p != q || a != b)
    ensures Translate(h.s.mem, h.s.root, a).Some? && Translate(h.s.mem, h.s.root, b).Some?
    ensures Translate(h.s.mem, h.s.root, a).value / 8 != Translate(h.s.mem, h.s.root, b).value / 8
  {
    hide HeapInv, Translate, Writable, ClearPath, Owns, BlockOk, Range, ObjectsPlaced;
    var q1, n, i := BlockWord(h, owner, win, pages, p, a);
    var q2, m, j := BlockWord(h, owner, win, pages, q, b);
    assert p != q ==> q1 != q2;
    if q1 != q2 { PagesOwnFrames(h.s, owner, win, pages, q1, q2); }
    FrameStart(n);
    FrameStart(m);
  }

  // ----- stores -----

  /** The word at address a of live memory has become w; every other one can be read and keeps its value. */
  ghost predicate Written(h: Heap, h': Heap, a: Word, w: Word)
    requires |h.live| == M.SLAB_CLASSES
  {
    && Seen(h'.s, a) == Some(w)
    && forall t, b :: b != a && Within(h, t, b) ==> Seen(h.s, b).Some? && Seen(h'.s, b) == Seen(h.s, b)
  }

  /** A store where the tables lead writes that word. */
  lemma StoreIsWritten(h: Heap, owner: seq<Owner>, win: Window, pages: set<nat>, h': Heap, t: Target, a: Word, n: nat, i: Index, w: Word)
    requires Sound(h, owner, win, pages) && Within(h, t, a) && n < |owner| && Translate(h.s.mem, h.s.root, a) == Some(n * PAGE_SIZE + 8 * i)
    requires h'.s.root == h.s.root && h'.s.mem == Put(h.s.mem, n, i, w) && SameWalks(h.s.mem, h'.s.mem, h.s.root)
    ensures |h.live| == M.SLAB_CLASSES && Written(h, h', a, w)
  {
    hide Inv, HeapInv, BlocksOk, Translate, Writable, ClearPath, Within, ObjectsPlaced, Entry, Seen;
    InvOf(h, owner, win, pages);
    InvSize(h.s, owner);
    assert ObjectsPlaced(owner, h.live);
    LiveClasses(owner, h.live);
    SeenEntry(h'.s, owner, a, n, i);
    InFrame(owner, h.s.mem, n, i);
    forall u, b | b != a && Within(h, u, b) ensures Seen(h.s, b).Some? && Seen(h'.s, b) == Seen(h.s, b) {
      WordsApart(h, owner, win, pages, t, u, a, b);
      var m, j := WordAt(h, owner, win, pages, u, b);
      SeenEntry(h'.s, owner, b, m, j);
    }
  }

  lemma InFrame(owner: seq<Owner>, m: Mem, n: nat, i: Index)
    requires |m| == |owner| * WORDS_PER_PAGE && n < |owner|
    ensures n * WORDS_PER_PAGE + i < |m|
  {
  }

  // ----- the cases of kmalloc and kfree -----

  /** Addresses of a block translate as before when only other pages of the window change. */
  lemma BlockElsewhere(h: Heap, owner: seq<Owner>, win: Window, pages: set<nat>, m': Mem, b: nat, p: nat, n: nat, a: Word)
    requires Sound(h, owner, win, pages) && Within(h, Block(b), a) && Range(b, h.blocks[b]) !! Range(p, n)
    requires win.lo <= p && p + n <= win.hi && SameElsewhere(h.s.mem, m', h.s.root, Range(p, n))
    ensures Translate(m', h.s.root, a) == Translate(h.s.mem, h.s.root, a)
  {
    hide HeapInv, BlocksOk, Translate, Writable, ClearPath, Owns, ObjectsPlaced, SamePage, Range;
    var q, f, i := BlockWord(h, owner, win, pages, b, a);
    InvOf(h, owner, win, pages);
    OffRange(win, p, n, q);
    SamePageInside(q, a - PageAddr(q));
    assert OffPages(Range(p, n), a);
  }

  lemma SamePageInside(p: nat, off: nat)
    requires p < PAGES && off < PAGE_SIZE
    ensures PageAddr(p) + off < TWO64 && forall v :: SamePage(v, PageAddr(p) + off) == SamePage(v, PageAddr(p))
  {
    hide Idx4, Idx3, Idx2, Idx1;
    OffsetIndices(p, off);
    OffsetIndices(p, 0);
  }

  /** Mapping pages outside of all blocks keeps every live word. */
  lemma KeptByMapping(h: Heap, owner: seq<Owner>, win: Window, pages: set<nat>, h': Heap, owner': seq<Owner>, p: nat, n: nat)
    requires Sound(h, owner, win, pages) && Inv(h'.s, owner') && h'.s.root == h.s.root && |h'.s.mem| == |h.s.mem|
    requires win.lo <= p && p + n <= win.hi && Range(p, n) !! pages
    requires SameElsewhere(h.s.mem, h'.s.mem, h.s.root, Range(p, n)) && Untouched(h.s.mem, h'.s.mem, owner)
    ensures Kept(h, h', Null)
  {
    hide Inv, HeapInv, BlocksOk, Translate, Writable, ClearPath, SameElsewhere, Entry, ObjPtr, Range, InObject;
    forall t: Target, a | t.Block? && Within(h, t, a) ensures Translate(h'.s.mem, h.s.root, a) == Translate(h.s.mem, h.s.root, a) {
      BlockStarts(h.s, h.blocks, pages, t.page);
      BlockElsewhere(h, owner, win, pages, h'.s.mem, t.page, p, n, a);
    }
    KeptIf(h, owner, win, pages, h', owner', Null);
  }

  /** So does a change that neither moves a translation nor touches such words. */
  lemma KeptByStill(h: Heap, owner: seq<Owner>, win: Window, pages: set<nat>, h': Heap, owner': seq<Owner>, except: Target)
    requires Sound(h, owner, win, pages) && Inv(h'.s, owner') && h'.s.root == h.s.root && |h'.s.mem| == |h.s.mem|
    requires SameWalks(h.s.mem, h'.s.mem, h.s.root)
    requires forall f: nat, i: Index :: f < |owner| && owner[f].HeapPage? && !Owns(h, owner, except, f, i) ==> Entry(h'.s.mem, f, i) == Entry(h.s.mem, f, i)
    requires forall c: M.Class, o: M.Obj, i: Index :: o in h.live[c] && except != Object(c, o) && InObject(c, o, o.page, i) ==>
               Entry(h'.s.mem, o.page, i) == Entry(h.s.mem, o.page, i)
    ensures Kept(h, h', except)
  {
    hide Inv, HeapInv, BlocksOk, Translate, Writable, ClearPath, Entry, ObjPtr, Range, InObject;
    forall t, n: nat, i: Index | t != except && Live(h, t) && Owns(h, owner, t, n, i) ensures Entry(h'.s.mem, n, i) == Entry(h.s.mem, n, i) {
      if Owns(h, owner, except, n, i) { OneOwner(h, owner, win, pages, t, except, n, i); }
      if t.Object? { OwnsObject(h, owner, t.cls, t.obj, n, i); }
    }
    KeptIf(h, owner, win, pages, h', owner', except);
  }

  /** Freeing a block keeps the words of all other targets. */
  lemma KeptByFreeing(h: Heap, owner: seq<Owner>, win: Window, pages: set<nat>, h': Heap, owner': seq<Owner>, p: nat)
    requires Sound(h, owner, win, pages) && Inv(h'.s, owner') && h'.s.root == h.s.root && |h'.s.mem| == |h.s.mem|
    requires p in h.blocks && SameElsewhere(h.s.mem, h'.s.mem, h.s.root, Range(p, h.blocks[p]))
    requires KeptFrames(h.s.mem, h'.s.mem, owner, Range(p, h.blocks[p]))
    ensures Kept(h, h', Block(p))
  {
    hide Inv, HeapInv, HeaderAt, Header, Translate, Writable, ClearPath, SameElsewhere, Entry, ObjPtr, Range, InObject;
    BlockStarts(h.s, h.blocks, pages, p);
    InvOf(h, owner, win, pages);
    HeapSized(h.s, owner, win, pages);
    RangeInWindow(win, pages, p, h.blocks[p]);
    forall t: Target, a | t != Block(p) && t.Block? && Within(h, t, a) ensures Translate(h'.s.mem, h.s.root, a) == Translate(h.s.mem, h.s.root, a) {
      BlockElsewhere(h, owner, win, pages, h'.s.mem, t.page, p, h.blocks[p], a);
    }
    KeptIf(h, owner, win, pages, h', owner', Block(p));
  }

  // ----- live memory is disjoint -----

  ghost predicate Apart(a: Word, n: nat, b: Word, m: nat) {
    a + n <= b || b + m <= a
  }

  /** a and b lead to different words of memory. */
  ghost predicate WordsDiffer(s: Vm, a: Word, b: Word) {
    var x, y := Translate(s.mem, s.root, a), Translate(s.mem, s.root, b);
    x.Some? && y.Some? && x.value / 8 != y.value / 8
  }

  /** t and u share no address and no word of memory. */
  ghost predicate Disjoint(h: Heap, t: Target, u: Target) {
    && |h.live| == M.SLAB_CLASSES && Live(h, t) && Live(h, u)
    && Apart(Address(h, t), Size(h, t), Address(h, u), Size(h, u))
    && forall a, b :: Within(h, t, a) && Within(h, u, b) ==> WordsDiffer(h.s, a, b)
  }

  /** Different live targets are disjoint, in addresses and in memory. */
  lemma TargetsApart(h: Heap, owner: seq<Owner>, win: Window, pages: set<nat>, t: Target, u: Target)
    requires Sound(h, owner, win, pages) && Live(h, t) && Live(h, u) && t != u && t != Null && u != Null
    ensures Disjoint(h, t, u)
  {
    hide HeapInv, BlocksOk, Translate, Writable, ClearPath, HHDM_BASE, ObjPtr, ObjectsPlaced, BlockPtr, M.SlabSize;
    LiveClasses(owner, h.live);
    if t.Block? && u.Block? {
      BlocksApart(h, owner, win, pages, t.page, u.page);
    } else if t.Object? && u.Object? {
      ObjectsApart(h, owner, t.cls, t.obj, u.cls, u.obj);
    } else if t.Block? {
      BlockAndObject(h, owner, win, pages, t.page, u.cls, u.obj);
    } else {
      BlockAndObject(h, owner, win, pages, u.page, t.cls, t.obj);
    }
    forall a, b | Within(h, t, a) && Within(h, u, b) ensures WordsDiffer(h.s, a, b) {
      WordsApart(h, owner, win, pages, t, u, a, b);
    }
  }

  /** All pages of a block lie in the heap window. */
  lemma BlockInWindow(h: Heap, owner: seq<Owner>, win: Window, pages: set<nat>, b: nat)
    requires Sound(h, owner, win, pages) && b in h.blocks
    ensures 0 < h.blocks[b] && win.lo <= b && b + h.blocks[b] <= win.hi && WindowOk(win)
  {
    hide Inv, HeapInv, HeaderAt, Header;
    BlockStarts(h.s, h.blocks, pages, b);
    HeapSized(h.s, owner, win, pages);
    assert b + h.blocks[b] - 1 in Range(b, h.blocks[b]);
  }

  lemma BlocksApart(h: Heap, owner: seq<Owner>, win: Window, pages: set<nat>, b: nat, c: nat)
    requires Sound(h, owner, win, pages) && Live(h, Block(b)) && Live(h, Block(c)) && b != c
    ensures Apart(BlockPtr(b), Size(h, Block(b)), BlockPtr(c), Size(h, Block(c)))
  {
    hide HeapInv, BlockOk;
    assert Range(b, h.blocks[b]) !! Range(c, h.blocks[c]);
    BlockInWindow(h, owner, win, pages, b);
    BlockInWindow(h, owner, win, pages, c);
    if b < c { assert c in Range(c, h.blocks[c]); } else { assert b in Range(b, h.blocks[b]); }
  }

  lemma ObjectsApart(h: Heap, owner: seq<Owner>, c: M.Class, o: M.Obj, d: M.Class, p: M.Obj)
    requires ObjectsPlaced(owner, h.live) && Live(h, Object(c, o)) && Live(h, Object(d, p)) && (c != d || o != p)
    ensures Apart(ObjPtr(c, o), M.SlabSize(c), ObjPtr(d, p), M.SlabSize(d))
  {
    hide ObjWord, ObjPtr, M.SlabSize, M.SlotsPerPage;
    SlotInPage(c, o);
    SlotInPage(d, p);
    if o.page == p.page {
      if o.slot < p.slot { M.SlotsDisjoint(c, o.slot, p.slot); } else { M.SlotsDisjoint(c, p.slot, o.slot); }
    }
  }

  /** An object lies inside its page. */
  lemma SlotInPage(c: M.Class, o: M.Obj)
    requires o.page < HHDM_FRAMES && o.slot < M.SlotsPerPage(c)
    ensures M.SlotOffset(c, o.slot) + M.SlabSize(c) <= PAGE_SIZE
    ensures ObjPtr(c, o) == HHDM_BASE + o.page * PAGE_SIZE + M.SlotOffset(c, o.slot)
  {
    ObjPtrOffset(c, o);
    M.SlotInside(c, o.slot);
  }

  /** The heap window and the direct map lie in different PML4 slots. */
  lemma BlockAndObject(h: Heap, owner: seq<Owner>, win: Window, pages: set<nat>, b: nat, c: M.Class, o: M.Obj)
    requires Sound(h, owner, win, pages) && Live(h, Block(b)) && Live(h, Object(c, o))
    ensures Apart(BlockPtr(b), Size(h, Block(b)), ObjPtr(c, o), M.SlabSize(c))
  {
    hide HeapInv, BlocksOk, ObjWord, ObjPtr, M.SlabSize, M.SlotsPerPage, ObjectsPlaced;
    BlockInWindow(h, owner, win, pages, b);
    SlotInPage(c, o);
    WindowBesideDirectMap(win, b, h.blocks[b], o.page);
  }

  /** Pointers are multiples of 8, and live memory ends before the address space does. */
  lemma Placed(h: Heap, owner: seq<Owner>, win: Window, pages: set<nat>, t: Target)
    requires Sound(h, owner, win, pages) && |h.live| == M.SLAB_CLASSES && Live(h, t)
    ensures Address(h, t) % 8 == 0 && Address(h, t) + Size(h, t) <= TWO64
  {
    hide HeapInv, BlocksOk, ObjPtr, BlockPtr, M.SlabSize, M.SlotsPerPage, ObjectsPlaced;
    match t
    case Null =>
    case Block(p) =>
      BlockInWindow(h, owner, win, pages, p);
      BlockPlaced(p, h.blocks[p], win);
    case Object(c, o) =>
      ObjectPlaced(c, o);
  }

  lemma BlockPlaced(p: nat, n: nat, win: Window)
    requires WindowOk(win) && 0 < n && p + n <= win.hi
    ensures p < PAGES && BlockPtr(p) % 8 == 0 && BlockPtr(p) + n * PAGE_SIZE - HEADER_SIZE <= TWO64
  {
    hide WindowOk;
    WindowEnd(win);
    DivMod(8, 0, 512 * p + 1);
  }

  lemma WindowEnd(win: Window)
    requires WindowOk(win)
    ensures win.hi < PAGES
  {
  }

  lemma ObjectPlaced(c: M.Class, o: M.Obj)
    requires o.page < HHDM_FRAMES && o.slot < M.SlotsPerPage(c)
    ensures ObjPtr(c, o) % 8 == 0 && ObjPtr(c, o) + M.SlabSize(c) <= TWO64
  {
    hide ObjPtr, M.SlabSize, M.SlotsPerPage, ObjWord;
    SlotInPage(c, o);
    SlotWord(c, o.slot);
  }

  lemma WindowBesideDirectMap(win: Window, p: nat, n: nat, f: nat)
    requires WindowOk(win) && 0 < n && win.lo <= p && p + n <= win.hi && f < HHDM_FRAMES
    ensures (p + n) * PAGE_SIZE <= HHDM_BASE + f * PAGE_SIZE || HHDM_BASE + (f + 1) * PAGE_SIZE <= p * PAGE_SIZE
  {
    SameSlot(win, p);
    SameSlot(win, p + n - 1);
    var q := HHDM_BASE / PAGE_SIZE + f;
    assert q / 0x800_0000 % 512 == 256;
    if p <= q <= p + n - 1 { assert InWindow(win, q); SameSlot(win, q); }
  }
}
