/** Bringing the memory stack up in the order of boot/boot.asm and src/core/kernel.c. */
module Kernel {
  import opened Words
  import opened Paging
  import opened PagingLaws
  import opened HeapModel
  import opened SlabLayout
  import opened Contents
  import M = SlabModel
  import Frames
  import Boot
  import P = Pmm
  import V = Vmm
  import S = Slab
  import A = Alloc

  /** A window in a PML4 slot that the boot tables leave empty. */
  predicate FreeSlot(win: Window) {
    WindowOk(win) && win.lo / 0x800_0000 % 512 != 511
  }

  /** What the boot loader must have provided. */
  ghost predicate Bootable(info: P.BootInfo, top: nat, root: nat) {
    && P.WellFormed(info) && info.mb != 0
    && P.IsTop(info.tags, top) && P.CeilFrame(top) <= HHDM_FRAMES
    && 0 < root && root + Boot.BOOT_TABLES < P.CeilFrame(top)
    && info.kernelStart <= root * PAGE_SIZE && (root + Boot.BOOT_TABLES) * PAGE_SIZE <= P.KernelEnd(info)
  }

  lemma TopUnique(tags: seq<P.Tag>, a: nat, b: nat)
    requires P.IsTop(tags, a) && P.IsTop(tags, b)
    ensures a == b
  {
  }

  /** The frames of the kernel image are reserved, and so is frame 0. */
  lemma BootFramesReserved(info: P.BootInfo, root: nat, f: nat)
    requires info.kernelStart <= root * PAGE_SIZE && (root + Boot.BOOT_TABLES) * PAGE_SIZE <= P.KernelEnd(info)
    ensures root <= f < root + Boot.BOOT_TABLES ==> P.Reserved(info, f)
    ensures P.Reserved(info, 0)
  {
    if root <= f < root + Boot.BOOT_TABLES {
      assert P.InSpan(info.kernelStart, P.KernelEnd(info), f);
    }
  }

  /** After boot the heap window is empty and free of huge pages. */
  lemma BootHeap(s: Vm, win: Window)
    requires Sized(s) && Boot.BootTables(s.mem, s.root) && Inv(s, Boot.BootOwner(s.frames.used, s.root)) && FreeSlot(win)
    ensures HeapInv(s, Boot.BootOwner(s.frames.used, s.root), win, {})
  {
    hide Inv, Translate, Writable, ClearPath, Boot.BootTables;
    forall p: nat | InWindow(win, p)
      ensures ClearPath(s.mem, s.root, PageAddr(p)) && Translate(s.mem, s.root, PageAddr(p)).None?
    {
      PageIndices(p);
      SameSlot(win, p);
      Boot.BootClearPath(s.mem, s.root, PageAddr(p));
    }
  }

  /** pmm_init: the frames of the boot tables and frame 0 end up taken. */
  method StartPmm(info: P.BootInfo, ghost top: nat, ghost root: nat) returns (pmm: P.Pmm)
    requires Bootable(info, top, root)
    ensures fresh(pmm) && fresh(pmm.bitmap) && pmm.Valid() && Frames.Counted(pmm.State())
    ensures |pmm.State().used| == P.CeilFrame(top)
    ensures forall f: nat :: f == 0 || root <= f < root + Boot.BOOT_TABLES ==> pmm.State().used[f]
  {
    hide P.IsTop, P.Covered, Frames.Counted;
    pmm := new P.Pmm();
    pmm.Init(info);
    TopUnique(info.tags, top, pmm.maxPhys);
    forall f: nat | f == 0 || root <= f < root + Boot.BOOT_TABLES ensures pmm.State().used[f] {
      BootFramesReserved(info, root, f);
    }
  }

  /**
   * From raw memory and a memory map to a working allocator: page tables, frame
   * allocator, paging, slab allocator and heap, with all their invariants.
   */
  method Start(mem: array<Word>, info: P.BootInfo, ghost top: nat, root: nat, ghost win: Window, heapBase: Word) returns (k: A.Kalloc)
    requires Bootable(info, top, root) && FreeSlot(win)
    requires 0 < win.lo && heapBase == PageAddr(win.lo)
    requires mem.Length == P.CeilFrame(top) * WORDS_PER_PAGE
    modifies mem
    ensures fresh(k) && k.Valid() && k.vmm.mem == mem
    ensures k.blocks == map[] && forall c: S.Class :: k.slab.live[c] == {}
  {
    hide Inv, HeapInv, Frames.Counted, Boot.BootTables, P.IsTop, P.Reserved, P.WellFormed, P.Pmm.State, P.Pmm.IsUsed,
         PageAddr, S.AllInv, BlocksOk;
    Boot.SetupPageTables(mem, root);
    ghost var m := mem[..];
    var pmm := StartPmm(info, top, root);
    assert mem[..] == m;
    ghost var s := Vm(m, root, pmm.State());
    ghost var owner := Boot.BootOwner(s.frames.used, root);
    Boot.BootInv(s);
    BootHeap(s, win);
    RootAddress(root);
    var vmm := new V.Vmm(mem, pmm, root * PAGE_SIZE, owner);
    SizedOwners(s, owner);
    var slab := new S.Slab(vmm);
    k := new A.Kalloc(slab, heapBase, win);
  }

  lemma RootAddress(root: nat)
    requires root < HHDM_FRAMES
    ensures 0 <= root * PAGE_SIZE < TWO64 && root * PAGE_SIZE % PAGE_SIZE == 0 && FrameOf(root * PAGE_SIZE) == root
  {
  }

  lemma SizedOwners(s: Vm, owner: seq<Owner>)
    requires Inv(s, owner)
    ensures |owner| <= HHDM_FRAMES && s.root != 0
  {
  }

  // ----- whole runs -----

  /** What a client asks for: memory, to give back the i-th thing it holds, or to write or read a word of it. */
  datatype Request = Get(size: Word) | Give(index: nat) | Set(index: nat, word: nat, value: Word) | Look(index: nat, word: nat)

  /** What the client itself knows of a thing it holds. */
  datatype Owned = Owned(ptr: Word, asked: Word)

  /** Something held: the pointer, what it points to, and the size that was asked for. */
  datatype Item = Item(ptr: Word, t: Target, asked: Word)

  /** What became of a request. */
  datatype Event = Got(item: Item) | Denied(asked: Word) | NoRoom(asked: Word) | Gave(index: nat)
                 | Wrote(address: Word, value: Word) | Saw(address: Word, value: Word) | Ignored

  /** The allocator at one moment: memory, what is live in it, the slab classes and the heap cursor. */
  datatype Moment = Moment(heap: Heap, caches: seq<M.Cache>, cur: nat)

  ghost function Now(k: A.Kalloc): Moment
    requires k.Valid()
    reads k, k.slab, k.slab.partial, k.slab.mags, k.vmm, k.vmm.mem, k.vmm.pmm, k.vmm.pmm.bitmap
  {
    Moment(k.Snap(), k.slab.caches, k.Cur())
  }

  /** What is held after one more event. */
  function HeldNext(h: seq<Item>, ev: Event): seq<Item> {
    match ev
    case Got(item) => h + [item]
    case Gave(i) => if i < |h| then h[..i] + h[i + 1..] else h
    case _ => h
  }

  /** What is held after the events of a log: everything got and not given back. */
  function HeldAfter(log: seq<Event>): seq<Item> {
    if log == [] then [] else HeldNext(HeldAfter(log[..|log| - 1]), log[|log| - 1])
  }

  /** The request fits the heap window. */
  predicate HasRoom(cur: nat, hi: nat, size: Word) {
    size > 2048 ==> 0 < RequestPages(size) && cur + RequestPages(size) <= hi
  }

  ghost predicate Usable(m: Moment) {
    && |m.heap.live| == |m.caches| == M.SLAB_CLASSES && Sized(m.heap.s)
  }

  /** A request for memory is granted exactly when the abstract allocation finds some. */
  ghost predicate GetStep(m: Moment, size: Word, hi: nat, ev: Event, m': Moment)
    requires Usable(m) && Usable(m') && hi <= PAGES
  {
    if !HasRoom(m.cur, hi, size) then ev == NoRoom(size) && m' == m
    else if size == 0 then ev == Denied(0) && m' == m
    else if size <= 2048 then
      M.SizeToIndex(size).Some? && SmallStep(m, size, M.SizeToIndex(size).value, ev, m')
    else
      LargeStep(m, size, RequestPages(size), ev, m')
  }

  /** slab_alloc: the class's list, magazine and live set move as SlabModel.Alloc says. */
  ghost predicate SmallStep(m: Moment, size: Word, c: S.Class, ev: Event, m': Moment)
    requires Usable(m) && Usable(m')
  {
    var (cache, r) := M.Alloc(m.caches[c], M.SlotsPerPage(c), Frames.Alloc(m.heap.s.frames).1);
    && m'.caches == m.caches[c := cache] && m'.heap.blocks == m.heap.blocks && m'.cur == m.cur
    && m'.heap.s.frames == (if M.NeedsPage(m.caches[c]) then Frames.Alloc(m.heap.s.frames).0 else m.heap.s.frames)
    && Kept(m.heap, m'.heap, Null)
    && if r.None? then ev == Denied(size) && m'.heap.live == m.heap.live
       else m'.heap.live == m.heap.live[c := m.heap.live[c] + {r.value}] && r.value !in m.heap.live[c] && Fresh(m', ev, Object(c, r.value), size)
  }

  /** Page-backed kmalloc: a block at the cursor, if all its pages can be mapped. */
  ghost predicate LargeStep(m: Moment, size: Word, n: nat, ev: Event, m': Moment)
    requires Usable(m) && Usable(m') && m.cur + n <= PAGES
  {
    && m'.caches == m.caches && m'.heap.live == m.heap.live
    && m'.heap.s.frames == HeapModel.MapAll(m.heap.s, m.cur, n).0.frames
    && Kept(m.heap, m'.heap, Null)
    && if HeapModel.MapAll(m.heap.s, m.cur, n).1
       then m'.heap.blocks == m.heap.blocks[m.cur := n] && m.cur !in m.heap.blocks && m'.cur == m.cur + n && Fresh(m', ev, Block(m.cur), size)
       else ev == Denied(size) && m'.heap.blocks == m.heap.blocks && m'.cur == m.cur
  }

  /** The event hands out the live target t. */
  ghost predicate Fresh(m: Moment, ev: Event, t: Target, size: Word)
    requires Usable(m)
  {
    Live(m.heap, t) && ev == Got(Item(Address(m.heap, t), t, size))
  }

  /** kfree releases the i-th item, and nothing else. */
  ghost predicate GiveStep(m: Moment, items: seq<Item>, i: nat, ev: Event, m': Moment)
    requires Usable(m) && Usable(m')
  {
    if i >= |items| then ev == Ignored && m' == m
    else
      && ev == Gave(i) && m'.cur == m.cur && Kept(m.heap, m'.heap, items[i].t)
      && match items[i].t
         case Null => false
         case Block(p) =>
           && p in m.heap.blocks && p + m.heap.blocks[p] <= PAGES
           && m'.heap.s == UnmapPages(m.heap.s, p, m.heap.blocks[p])
           && m'.heap.blocks == m.heap.blocks - {p} && m'.heap.live == m.heap.live && m'.caches == m.caches
         case Object(c, o) =>
           && m'.heap.s.frames == m.heap.s.frames && m'.heap.blocks == m.heap.blocks
           && m'.heap.live == m.heap.live[c := m.heap.live[c] - {o}]
           && m'.caches == m.caches[c := M.Free(m.caches[c], M.SlotsPerPage(c), o)]
  }

  /** Word k of something of which so many bytes were asked for, unless the size sum wraps. */
  predicate InAsked(asked: Word, k: nat) {
    8 * k + 8 <= asked && asked + HEADER_SIZE + PAGE_SIZE - 1 < TWO64
  }

  /** The store changes that word of live memory and no other. */
  ghost predicate SetStep(m: Moment, items: seq<Item>, i: nat, k: nat, w: Word, ev: Event, m': Moment)
    requires Usable(m) && Usable(m')
  {
    if i >= |items| || !InAsked(items[i].asked, k) then ev == Ignored && m' == m
    else
      && ev.Wrote? && ev.address == items[i].ptr + 8 * k && ev.value == w && Within(m.heap, items[i].t, ev.address)
      && Written(m.heap, m'.heap, ev.address, w)
      && m'.cur == m.cur && m'.caches == m.caches && m'.heap == m.heap.(s := m'.heap.s) && m'.heap.s.frames == m.heap.s.frames
  }

  /** A load sees the word that is there. */
  ghost predicate LookStep(m: Moment, items: seq<Item>, i: nat, k: nat, ev: Event, m': Moment)
    requires Usable(m)
  {
    && m' == m
    && if i >= |items| || !InAsked(items[i].asked, k) then ev == Ignored
       else ev.Saw? && ev.address == items[i].ptr + 8 * k && Within(m.heap, items[i].t, ev.address) && Seen(m.heap.s, ev.address) == Some(ev.value)
  }

  ghost predicate StepOk(m: Moment, items: seq<Item>, req: Request, hi: nat, ev: Event, m': Moment) {
    && Usable(m) && Usable(m') && hi <= PAGES
    && match req
       case Get(size) => GetStep(m, size, hi, ev, m')
       case Give(i) => GiveStep(m, items, i, ev, m')
       case Set(i, k, w) => SetStep(m, items, i, k, w, ev, m')
       case Look(i, k) => LookStep(m, items, i, k, ev, m')
  }

  /** A run: one event and one step for every request, each step from where the one before ended. */
  ghost predicate IsRun(trace: seq<Moment>, requests: seq<Request>, log: seq<Event>, hi: nat) {
    && |log| == |requests| && |trace| == |requests| + 1
    && forall r: nat :: r < |requests| ==> StepOk(trace[r], HeldAfter(log[..r]), requests[r], hi, log[r], trace[r + 1])
  }

  /** The items are live, different, where their pointers say, and as large as asked for unless the size sum wraps. */
  ghost predicate Holds(h: Heap, items: seq<Item>) {
    && |h.live| == M.SLAB_CLASSES
    && (forall i :: 0 <= i < |items| ==> ItemOk(h, items[i]))
    && (forall i, j :: 0 <= i < j < |items| ==> items[i].t != items[j].t)
  }

  ghost predicate ItemOk(h: Heap, item: Item)
    requires |h.live| == M.SLAB_CLASSES
  {
    && item.t != Null && Live(h, item.t) && item.ptr == Address(h, item.t)
    && (item.asked + HEADER_SIZE + PAGE_SIZE - 1 < TWO64 ==> item.asked <= Size(h, item.t))
  }

  /** What the client knows of the items. */
  ghost predicate Knows(held: seq<Owned>, items: seq<Item>) {
    |held| == |items| && forall i :: 0 <= i < |held| ==> held[i] == Owned(items[i].ptr, items[i].asked)
  }

  /**
   * A client that allocates, frees, writes and reads in any order.  The log says what became of
   * every request, and the trace that every step is the abstract one: memory is
   * denied only when there is none, and the words of everything held are kept.
   * What the client holds is what it got and did not give back, all of it live,
   * as large as asked for, and pairwise disjoint both in addresses and in memory.
   */
  method Serve(k: A.Kalloc, requests: seq<Request>, hi: nat)
    returns (held: seq<Owned>, ghost items: seq<Item>, ghost log: seq<Event>, ghost trace: seq<Moment>)
    requires k.Valid() && hi == k.win.hi
    modifies k, k.vmm, k.vmm.mem, k.vmm.pmm, k.vmm.pmm.bitmap, k.slab, k.slab.partial, k.slab.mags
    ensures k.Valid() && IsRun(trace, requests, log, hi)
    ensures trace[0] == old(Now(k)) && trace[|requests|] == Now(k)
    ensures items == HeldAfter(log) && Knows(held, items)
    ensures Holds(k.Snap(), items)
    ensures forall i, j :: 0 <= i < j < |items| ==> Disjoint(k.Snap(), items[i].t, items[j].t)
  {
    hide Inv, HeapInv, BlocksOk, S.AllInv, Live, StepOk, Now, Disjoint, ItemOk, HeldAfter;
    held, items, log, trace := [], [], [], [Now(k)];
    WindowFits(k);
    HeldNothing();
    for r := 0 to |requests|
      invariant k.Valid() && IsRun(trace, requests[..r], log, hi) && trace[0] == old(Now(k)) && trace[r] == Now(k)
      invariant items == HeldAfter(log) && Knows(held, items)
      invariant Holds(k.Snap(), items)
    {
      ghost var ev, before := Ignored, items;
      match requests[r] {
        case Get(size) => held, items, ev := Acquire(k, hi, size, held, items);
        case Give(i) => held, items, ev := Release(k, hi, i, held, items);
        case Set(i, j, w) => ev := Modify(k, hi, i, j, w, held, items);
        case Look(i, j) => ev := Inspect(k, hi, i, j, held, items);
      }
      RunGrows(trace, requests, log, hi, r, ev, Now(k));
      HeldGrows(log, ev);
      log, trace := log + [ev], trace + [Now(k)];
    }
    assert requests[..|requests|] == requests;
    UsableNow(k);
    forall i, j | 0 <= i < j < |items| ensures Disjoint(k.Snap(), items[i].t, items[j].t) {
      ItemLive(k.Snap(), items[i]);
      ItemLive(k.Snap(), items[j]);
      TargetsApart(k.Snap(), k.vmm.owner, k.win, k.pages, items[i].t, items[j].t);
    }
  }

  lemma ItemLive(h: Heap, item: Item)
    requires |h.live| == M.SLAB_CLASSES && ItemOk(h, item)
    ensures item.t != Null && Live(h, item.t)
  {
  }

  lemma WindowFits(k: A.Kalloc)
    requires k.Valid()
    ensures k.win.hi <= PAGES
  {
  }

  lemma HeldNothing()
    ensures HeldAfter([]) == []
  {
  }

  lemma HeldGrows(log: seq<Event>, ev: Event)
    ensures HeldAfter(log + [ev]) == HeldNext(HeldAfter(log), ev)
  {
    assert (log + [ev])[..|log|] == log;
  }

  lemma RunGrows(trace: seq<Moment>, requests: seq<Request>, log: seq<Event>, hi: nat, r: nat, ev: Event, m: Moment)
    requires r < |requests| && IsRun(trace, requests[..r], log, hi)
    requires StepOk(trace[r], HeldAfter(log), requests[r], hi, ev, m)
    ensures IsRun(trace + [m], requests[..r + 1], log + [ev], hi)
  {
    hide StepOk, HeldAfter;
    var trace', log' := trace + [m], log + [ev];
    forall q: nat | q < r + 1 ensures StepOk(trace'[q], HeldAfter(log'[..q]), requests[..r + 1][q], hi, log'[q], trace'[q + 1]) {
      if q < r {
        assert log'[..q] == log[..q] && requests[..r + 1][q] == requests[..r][q];
      } else {
        assert log'[..q] == log;
      }
    }
  }

  /** Request r of the run gives t back. */
  ghost predicate GivesBack(log: seq<Event>, r: nat, t: Target)
    requires r < |log|
  {
    log[r].Gave? && log[r].index < |HeldAfter(log[..r])| && HeldAfter(log[..r])[log[r].index].t == t
  }

  /** Request r of the run writes the word at address x. */
  predicate Writes(log: seq<Event>, r: nat, x: Word)
    requires r < |log|
  {
    log[r].Wrote? && log[r].address == x
  }

  /** A step frees at most what it gives back, writes at most the word it names, and keeps the other words of what stays live. */
  lemma StepKeepsLive(m: Moment, items: seq<Item>, req: Request, hi: nat, ev: Event, m': Moment, t: Target, x: Word)
    requires StepOk(m, items, req, hi, ev, m') && t != Null && Within(m.heap, t, x)
    requires !(ev.Gave? && ev.index < |items| && items[ev.index].t == t) && !(ev.Wrote? && ev.address == x)
    ensures Within(m'.heap, t, x) && Seen(m'.heap.s, x) == Seen(m.heap.s, x)
  {
    hide Seen, ObjPtr, BlockPtr, M.Free, M.Alloc, M.NeedsPage, HeapModel.UnmapPages, HeapModel.MapAll, RequestPages, Frames.Alloc;
  }

  /** As long as nobody gives it back, live memory stays live, where it is and as large as it is, and every word keeps its value until it is written. */
  lemma {:induction false} RunKeeps(trace: seq<Moment>, requests: seq<Request>, log: seq<Event>, hi: nat, a: nat, b: nat, t: Target, x: Word)
    requires IsRun(trace, requests, log, hi) && a <= b <= |requests| && Usable(trace[a]) && t != Null && Within(trace[a].heap, t, x)
    requires forall r: nat :: a <= r < b ==> !GivesBack(log, r, t) && !Writes(log, r, x)
    ensures Usable(trace[b]) && Within(trace[b].heap, t, x) && Seen(trace[b].heap.s, x) == Seen(trace[a].heap.s, x)
  {
    hide StepOk, Live, Seen, Size, ObjPtr, BlockPtr, HeldAfter;
    if a < b {
      RunKeeps(trace, requests, log, hi, a, b - 1, t, x);
      assert !GivesBack(log, b - 1, t) && !Writes(log, b - 1, x);
      var items := HeldAfter(log[..b - 1]);
      assert StepOk(trace[b - 1], items, requests[b - 1], hi, log[b - 1], trace[b]);
      StepUsable(trace[b - 1], items, requests[b - 1], hi, log[b - 1], trace[b]);
      StepKeepsLive(trace[b - 1], items, requests[b - 1], hi, log[b - 1], trace[b], t, x);
    }
  }

  /** What is read is what was written there last, whatever happened in between to other memory. */
  lemma RunReadsBack(trace: seq<Moment>, requests: seq<Request>, log: seq<Event>, hi: nat, a: nat, b: nat, t: Target)
    requires IsRun(trace, requests, log, hi) && a < b < |requests| && log[a].Wrote? && log[b].Saw? && log[b].address == log[a].address
    requires Usable(trace[a]) && t != Null && Within(trace[a].heap, t, log[a].address)
    requires forall r: nat :: a < r < b ==> !GivesBack(log, r, t) && !Writes(log, r, log[a].address)
    ensures log[b].value == log[a].value
  {
    hide StepOk, Live, Seen, Size, ObjPtr, BlockPtr, HeldAfter;
    assert StepOk(trace[a], HeldAfter(log[..a]), requests[a], hi, log[a], trace[a + 1]);
    assert StepOk(trace[b], HeldAfter(log[..b]), requests[b], hi, log[b], trace[b + 1]);
    StepUsable(trace[a], HeldAfter(log[..a]), requests[a], hi, log[a], trace[a + 1]);
    WroteIs(trace[a], HeldAfter(log[..a]), requests[a], hi, log[a], trace[a + 1], t);
    RunKeeps(trace, requests, log, hi, a + 1, b, t, log[a].address);
    SawIs(trace[b], HeldAfter(log[..b]), requests[b], hi, log[b], trace[b + 1]);
  }

  lemma WroteIs(m: Moment, items: seq<Item>, req: Request, hi: nat, ev: Event, m': Moment, t: Target)
    requires StepOk(m, items, req, hi, ev, m') && ev.Wrote? && t != Null && Within(m.heap, t, ev.address)
    ensures Within(m'.heap, t, ev.address) && Seen(m'.heap.s, ev.address) == Some(ev.value)
  {
    hide Seen, ObjPtr, BlockPtr, M.Free, M.Alloc, M.NeedsPage, HeapModel.UnmapPages, HeapModel.MapAll, RequestPages, Frames.Alloc;
  }

  lemma SawIs(m: Moment, items: seq<Item>, req: Request, hi: nat, ev: Event, m': Moment)
    requires StepOk(m, items, req, hi, ev, m') && ev.Saw?
    ensures Seen(m.heap.s, ev.address) == Some(ev.value)
  {
    hide Seen, ObjPtr, BlockPtr, M.Free, M.Alloc, M.NeedsPage, HeapModel.UnmapPages, HeapModel.MapAll, RequestPages, Frames.Alloc;
  }

  lemma StepUsable(m: Moment, items: seq<Item>, req: Request, hi: nat, ev: Event, m': Moment)
    requires StepOk(m, items, req, hi, ev, m')
    ensures Usable(m')
  {
  }

  method CheckRoom(k: A.Kalloc, hi: nat, size: Word) returns (b: bool)
    requires k.Valid()
    ensures b == HasRoom(k.Cur(), hi, size)
  {
    hide Inv, HeapInv, BlocksOk, S.AllInv;
    var cur := if k.heapCur == 0 then FrameOf(k.heapBase) else FrameOf(k.heapCur);
    A.PageAddrFrame(k.win.lo);
    b := size <= 2048 || (0 < RequestPages(size) && cur + RequestPages(size) <= hi);
  }

  lemma UsableNow(k: A.Kalloc)
    requires k.Valid()
    ensures Usable(Now(k)) && k.win.hi <= PAGES && Sound(k.Snap(), k.vmm.owner, k.win, k.pages)
  {
    hide TablesOk, IdentityOk, FramesOk, HeapInv, BlocksOk, S.AllInv;
    k.SoundNow();
    InvOf(k.Snap(), k.vmm.owner, k.win, k.pages);
  }

  /** The class's view of a live target and that of its snapshot are the same. */
  lemma LiveIs(k: A.Kalloc, t: Target)
    requires k.Valid()
    ensures k.IsLive(t) <==> Live(k.Snap(), t)
    ensures k.IsLive(t) ==> k.Pointer(t) == Address(k.Snap(), t)
  {
    hide Inv, HeapInv, BlocksOk, S.AllInv;
  }

  lemma RefusedForRoom(m: Moment, items: seq<Item>, size: Word, hi: nat)
    requires Usable(m) && hi <= PAGES && !HasRoom(m.cur, hi, size)
    ensures StepOk(m, items, Get(size), hi, NoRoom(size), m)
  {
  }

  /** A live block lies below the cursor. */
  lemma CursorFree(k: A.Kalloc)
    requires k.Valid()
    ensures k.Cur() !in k.blocks
  {
    hide Inv, HeapInv, BlocksOk, S.AllInv;
    if k.Cur() in k.blocks { BlockStarts(k.vmm.State(), k.blocks, k.pages, k.Cur()); }
  }

  /** kmalloc as a step of a run. */
  method KmallocStep(k: A.Kalloc, hi: nat, size: Word) returns (ptr: Word, ghost ev: Event)
    requires k.Valid() && hi == k.win.hi && HasRoom(k.Cur(), hi, size)
    modifies k, k.vmm, k.vmm.mem, k.vmm.pmm, k.vmm.pmm.bitmap, k.slab, k.slab.partial, k.slab.mags
    ensures k.Valid() && Usable(old(Now(k))) && Usable(Now(k)) && hi <= PAGES
    ensures GetStep(old(Now(k)), size, hi, ev, Now(k))
    ensures if ptr == 0 then ev == Denied(size) else ev.Got? && ev.item.ptr == ptr && ev.item.asked == size
  {
    hide Inv, HeapInv, BlocksOk, S.AllInv, Kept, Sound, RequestPages, M.Alloc, M.NeedsPage, Frames.Alloc, HeapModel.MapAll,
         V.P.Pmm.State, V.P.Pmm.IsUsed, S.OnlyClass, A.Granted, A.Refused, SameWalks, ObjWord;
    UsableNow(k);
    CursorFree(k);
    ghost var m := Now(k);
    ptr := k.Kmalloc(size);
    UsableNow(k);
    ev := Denied(size);
    if size > 2048 {
      assert ptr != 0 <==> HeapModel.MapAll(m.heap.s, m.cur, RequestPages(size)).1;
      if ptr != 0 { ev := Got(Item(ptr, Block(m.cur), size)); }
    } else if size > 0 {
      ghost var c := M.SizeToIndex(size).value;
      ghost var r := M.Alloc(m.caches[c], M.SlotsPerPage(c), Frames.Alloc(m.heap.s.frames).1).1;
      assert ptr != 0 <==> r.Some?;
      if r.Some? { ev := Got(Item(ptr, Object(c, r.value), size)); }
      assert SmallStep(m, size, c, ev, Now(k));
    }
  }

  /** After a step of kmalloc the client holds what it held, and what it got. */
  lemma GetHolds(m: Moment, m': Moment, size: Word, hi: nat, ev: Event, items: seq<Item>)
    requires Usable(m) && Usable(m') && hi <= PAGES && GetStep(m, size, hi, ev, m') && Holds(m.heap, items)
    ensures Holds(m'.heap, HeldNext(items, ev))
  {
    hide Kept, RequestPages, M.Alloc, M.NeedsPage, Frames.Alloc, HeapModel.MapAll, ObjPtr, BlockPtr, HasRoom;
    RequestFits(size);
    forall i | 0 <= i < |items| ensures ItemOk(m'.heap, items[i]) {
      assert ItemOk(m.heap, items[i]);
    }
  }

  /** kmalloc for a client, when there is room in the window. */
  method Acquire(k: A.Kalloc, hi: nat, size: Word, held: seq<Owned>, ghost items: seq<Item>)
    returns (held': seq<Owned>, ghost items': seq<Item>, ghost ev: Event)
    requires k.Valid() && hi == k.win.hi && Holds(k.Snap(), items)
    requires Knows(held, items)
    modifies k, k.vmm, k.vmm.mem, k.vmm.pmm, k.vmm.pmm.bitmap, k.slab, k.slab.partial, k.slab.mags
    ensures k.Valid() && StepOk(old(Now(k)), items, Get(size), hi, ev, Now(k))
    ensures items' == HeldNext(items, ev) && Holds(k.Snap(), items')
    ensures Knows(held', items')
  {
    hide Inv, HeapInv, BlocksOk, S.AllInv, GetStep, Kept, Sound, ItemOk, HasRoom, Usable;
    UsableNow(k);
    held', items', ev := held, items, NoRoom(size);
    var room := CheckRoom(k, hi, size);
    if !room {
      RefusedForRoom(Now(k), items, size, hi);
      return;
    }
    ghost var m := Now(k);
    var ptr;
    ptr, ev := KmallocStep(k, hi, size);
    GetHolds(m, Now(k), size, hi, ev, items);
    items' := HeldNext(items, ev);
    if ptr != 0 { held' := held + [Owned(ptr, size)]; }
  }

  /** After a step of kfree the client holds all but what it gave back. */
  lemma GiveHolds(m: Moment, m': Moment, i: nat, hi: nat, ev: Event, items: seq<Item>)
    requires Usable(m) && Usable(m') && GiveStep(m, items, i, ev, m') && Holds(m.heap, items)
    ensures Holds(m'.heap, HeldNext(items, ev))
  {
    hide Kept, ObjPtr, BlockPtr, M.Free, HeapModel.UnmapPages;
    var items' := HeldNext(items, ev);
    forall j | 0 <= j < |items'| ensures ItemOk(m'.heap, items'[j]) && (i < |items| ==> items'[j].t != items[i].t) {
      assert items'[j] == items[if i >= |items| || j < i then j else j + 1];
      assert ItemOk(m.heap, items'[j]);
    }
  }

  /** kfree as a step of a run. */
  method KfreeStep(k: A.Kalloc, ptr: Word, ghost items: seq<Item>, ghost i: nat)
    requires k.Valid() && i < |items| && ptr == items[i].ptr && ItemOk(k.Snap(), items[i])
    modifies k, k.vmm, k.vmm.mem, k.vmm.pmm, k.vmm.pmm.bitmap, k.slab, k.slab.partial, k.slab.mags
    ensures k.Valid() && Usable(old(Now(k))) && Usable(Now(k)) && GiveStep(old(Now(k)), items, i, Gave(i), Now(k))
  {
    hide Inv, HeapInv, BlocksOk, S.AllInv, Kept, Sound, M.Free, HeapModel.UnmapPages, V.P.Pmm.State, V.P.Pmm.IsUsed, S.OnlyClass,
         SameWalks, OnlyFreed, KeptFrames, SameElsewhere, ObjWord;
    UsableNow(k);
    ghost var t := items[i].t;
    LiveIs(k, t);
    k.Kfree(ptr, t);
    UsableNow(k);
  }

  /** kfree for a client. */
  method Release(k: A.Kalloc, hi: nat, i: nat, held: seq<Owned>, ghost items: seq<Item>)
    returns (held': seq<Owned>, ghost items': seq<Item>, ghost ev: Event)
    requires k.Valid() && hi == k.win.hi && Holds(k.Snap(), items)
    requires Knows(held, items)
    modifies k, k.vmm, k.vmm.mem, k.vmm.pmm, k.vmm.pmm.bitmap, k.slab, k.slab.partial, k.slab.mags
    ensures k.Valid() && StepOk(old(Now(k)), items, Give(i), hi, ev, Now(k))
    ensures items' == HeldNext(items, ev) && Holds(k.Snap(), items')
    ensures Knows(held', items')
  {
    hide Inv, HeapInv, BlocksOk, S.AllInv, Kept, Sound, ItemOk, Usable;
    UsableNow(k);
    held', items', ev := held, items, Ignored;
    if i >= |held| { return; }
    ghost var m := Now(k);
    KfreeStep(k, held[i].ptr, items, i);
    UsableNow(k);
    ev := Gave(i);
    GiveHolds(m, Now(k), i, hi, ev, items);
    items' := HeldNext(items, ev);
    held' := held[..i] + held[i + 1..];
  }

  /** Word j of an item belongs to it. */
  lemma WordOf(k: A.Kalloc, item: Item, j: nat)
    requires k.Valid() && ItemOk(k.Snap(), item) && InAsked(item.asked, j)
    ensures k.IsLive(item.t) && item.ptr + 8 * j < TWO64 && Within(k.Snap(), item.t, item.ptr + 8 * j)
  {
    hide Inv, HeapInv, BlocksOk, S.AllInv, ObjPtr, BlockPtr, Sound;
    LiveIs(k, item.t);
    UsableNow(k);
    Placed(k.Snap(), k.vmm.owner, k.win, k.pages, item.t);
  }

  /** A write of a client to something it holds. */
  method Modify(k: A.Kalloc, hi: nat, i: nat, j: nat, w: Word, held: seq<Owned>, ghost items: seq<Item>) returns (ghost ev: Event)
    requires k.Valid() && hi == k.win.hi && Holds(k.Snap(), items) && Knows(held, items)
    modifies k.vmm.mem
    ensures k.Valid() && StepOk(old(Now(k)), items, Set(i, j, w), hi, ev, Now(k))
    ensures items == HeldNext(items, ev) && Holds(k.Snap(), items)
  {
    hide Inv, HeapInv, BlocksOk, S.AllInv, Kept, Sound, ItemOk, Usable, Within, Written, SameWalks, V.P.Pmm.State, V.P.Pmm.IsUsed;
    UsableNow(k);
    ev := Ignored;
    if i >= |held| || !InAsked(held[i].asked, j) { return; }
    WordOf(k, items[i], j);
    ghost var m := Now(k);
    k.StoreAt(held[i].ptr + 8 * j, w, items[i].t);
    UsableNow(k);
    ev := Wrote(items[i].ptr + 8 * j, w);
    StillHolds(m.heap, k.Snap(), items);
  }

  lemma StillHolds(h: Heap, h': Heap, items: seq<Item>)
    requires Holds(h, items) && h'.blocks == h.blocks && h'.live == h.live
    ensures Holds(h', items)
  {
    hide ObjPtr, BlockPtr;
    forall i | 0 <= i < |items| ensures ItemOk(h', items[i]) {
      assert ItemOk(h, items[i]);
    }
  }

  /** A read of a client from something it holds. */
  method Inspect(k: A.Kalloc, hi: nat, i: nat, j: nat, held: seq<Owned>, ghost items: seq<Item>) returns (ev: Event)
    requires k.Valid() && hi == k.win.hi && Holds(k.Snap(), items) && Knows(held, items)
    ensures k.Valid() && StepOk(Now(k), items, Look(i, j), hi, ev, Now(k)) && items == HeldNext(items, ev)
  {
    hide Inv, HeapInv, BlocksOk, S.AllInv, Kept, Sound, ItemOk, Usable, Within, V.P.Pmm.State, V.P.Pmm.IsUsed;
    UsableNow(k);
    if i >= |held| || !InAsked(held[i].asked, j) { return Ignored; }
    WordOf(k, items[i], j);
    var w := k.LoadAt(held[i].ptr + 8 * j, items[i].t);
    ev := Saw(held[i].ptr + 8 * j, w);
  }
}
