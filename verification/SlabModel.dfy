/**
 * The slab allocator of src/mem/slab.c on values: which page is on which list,
 * which slot is on which free list or in the magazine.  SlabLayout ties these
 * values to the words of the slab pages.
 */
module SlabModel {
  import opened Words

  const SLAB_CLASSES := 8
  const SLAB_HEADER := 24
  const MAGAZINE_SIZE := 16

  type Class = c: nat | c < SLAB_CLASSES

  /** slab_sizes[c] */
  function SlabSize(c: Class): nat {
    [16, 32, 64, 128, 256, 512, 1024, 2048][c]
  }

  function SizeToIndex(size: nat): (r: Option<Class>)
    ensures r.Some? <==> size <= 2048
    ensures r.Some? ==> size <= SlabSize(r.value)
    ensures forall c: Class :: size <= SlabSize(c) ==> r.Some? && r.value <= c
  {
    FirstFit(size, 0)
  }

  /** The loop of size_to_index from class c on. */
  function FirstFit(size: nat, c: nat): (r: Option<Class>)
    requires c <= SLAB_CLASSES
    ensures r.None? <==> forall d: Class :: c <= d ==> SlabSize(d) < size
    ensures r.Some? ==> c <= r.value && size <= SlabSize(r.value) && forall d: Class :: c <= d < r.value ==> SlabSize(d) < size
    decreases SLAB_CLASSES - c
  {
    if c == SLAB_CLASSES then None else if size <= SlabSize(c) then Some(c) else FirstFit(size, c + 1)
  }

  /** objs_per_page */
  function SlotsPerPage(c: Class): nat {
    (PAGE_SIZE - SLAB_HEADER) / SlabSize(c)
  }

  /** A slot of a slab page, the page being a frame number. */
  datatype Obj = Obj(page: nat, slot: nat)

  /** Byte offset of a slot inside its page. */
  function SlotOffset(c: Class, slot: nat): nat {
    SLAB_HEADER + slot * SlabSize(c)
  }

  /** A slot lies behind the header inside the page. */
  lemma SlotInside(c: Class, slot: nat)
    requires slot < SlotsPerPage(c)
    ensures SLAB_HEADER <= SlotOffset(c, slot) && SlotOffset(c, slot) + SlabSize(c) <= PAGE_SIZE
  {
    var sz := SlabSize(c);
    assert (slot + 1) * sz <= SlotsPerPage(c) * sz <= PAGE_SIZE - SLAB_HEADER;
  }

  /** A page has room for its slots and for not one more. */
  lemma PageFull(c: Class)
    ensures 0 < SlotsPerPage(c)
    ensures 24 + SlotsPerPage(c) * SlabSize(c) <= 4096 < 24 + (SlotsPerPage(c) + 1) * SlabSize(c)
  {
    var sz := SlabSize(c);
    var n := (PAGE_SIZE - SLAB_HEADER) / sz;
    assert (n + 1) * sz == n * sz + sz;
  }

  /** Slots lie behind the header inside the page, and different slots do not overlap. */
  lemma SlotsDisjoint(c: Class, k: nat, l: nat)
    requires k < l < SlotsPerPage(c)
    ensures SLAB_HEADER <= SlotOffset(c, k)
    ensures SlotOffset(c, k) + SlabSize(c) <= SlotOffset(c, l)
    ensures SlotOffset(c, l) + SlabSize(c) <= PAGE_SIZE
  {
    var sz := SlabSize(c);
    assert (k + 1) * sz <= l * sz;
    assert (l + 1) * sz <= SlotsPerPage(c) * sz <= PAGE_SIZE - SLAB_HEADER;
  }

  // ----- one size class -----

  /** The pages on the class's list, the free list of each, and the magazine of the one modelled CPU. */
  datatype Cache = Cache(pages: seq<nat>, free: map<nat, seq<nat>>, mag: seq<Obj>)

  /** Free list of a fresh page: the code pushes slots 0, 1, 2, .. so the last one is first. */
  function FreshSlots(slots: nat): (l: seq<nat>)
    ensures |l| == slots
  {
    seq(slots, i => slots - 1 - i)
  }

  /** The magazine is empty and the first page, if any, has no free slot. */
  predicate NeedsPage(c: Cache) {
    c.mag == [] && (c.pages == [] || c.pages[0] !in c.free || c.free[c.pages[0]] == [])
  }

  /** A fresh frame, if there is one, becomes the first page when one is needed. */
  function Refill(c: Cache, slots: nat, frame: nat): Cache {
    if !NeedsPage(c) || frame == 0 then c
    else Cache([frame] + c.pages, c.free[frame := FreshSlots(slots)], c.mag)
  }

  /** Pops the magazine, or else the free list of the first page. */
  function Take(c: Cache): (Cache, Obj)
    requires !NeedsPage(c)
  {
    if c.mag != [] then (c.(mag := c.mag[..|c.mag| - 1]), c.mag[|c.mag| - 1]) else
    var n := c.pages[0];
    (c.(free := c.free[n := c.free[n][1..]]), Obj(n, c.free[n][0]))
  }

  /**
   * slab_alloc within a class; `frame` is the frame pmm_alloc_frame returns if
   * it is asked, 0 when memory is exhausted.
   */
  function Alloc(c: Cache, slots: nat, frame: nat): (Cache, Option<Obj>) {
    var c1 := Refill(c, slots, frame);
    if NeedsPage(c1) then (c1, None)
    else var (c2, o) := Take(c1); (c2, Some(o))
  }

  /** The list with its first occurrence of n unlinked. */
  function Without(pages: seq<nat>, n: nat): seq<nat> {
    if pages == [] then [] else
    if pages[0] == n then pages[1..] else [pages[0]] + Without(pages[1..], n)
  }

  lemma {:induction false} WithoutMembers(pages: seq<nat>, n: nat)
    requires NoDup(pages)
    ensures NoDup(Without(pages, n)) && forall k :: k in Without(pages, n) <==> k in pages && k != n
  {
    if pages != [] {
      InSplit(pages);
      assert pages[0] !in pages[1..];
      WithoutMembers(pages[1..], n);
    }
  }

  /** slab_free within a class; a page whose slots are then all on its free list is unlinked. */
  function Free(c: Cache, slots: nat, o: Obj): Cache {
    if |c.mag| < MAGAZINE_SIZE then c.(mag := c.mag + [o]) else
    if o.page !in c.free then c else
    var fl := [o.slot] + c.free[o.page];
    if |fl| == slots then c.(pages := Without(c.pages, o.page), free := c.free - {o.page})
    else c.(free := c.free[o.page := fl])
  }

  predicate NoDup<T(==)>(s: seq<T>) {
    forall i, j :: 0 <= i < j < |s| ==> s[i] != s[j]
  }

  /** The slot belongs to a listed page. */
  predicate IsSlot(c: Cache, slots: nat, o: Obj) {
    o.page in c.pages && o.slot < slots
  }

  predicate Listed(c: Cache, o: Obj) {
    o.page in c.free && o.slot in c.free[o.page]
  }

  /** Every slot of a listed page is in exactly one of the free list, the magazine and the live set. */
  ghost predicate Partition(c: Cache, slots: nat, live: set<Obj>) {
    forall o: Obj ::
      && (Listed(c, o) ==> IsSlot(c, slots, o) && o !in c.mag && o !in live)
      && (o in c.mag ==> IsSlot(c, slots, o) && o !in live)
      && (o in live ==> IsSlot(c, slots, o))
      && (IsSlot(c, slots, o) ==> Listed(c, o) || o in c.mag || o in live)
  }

  ghost predicate CacheInv(c: Cache, slots: nat, live: set<Obj>) {
    && NoDup(c.pages) && NoDup(c.mag) && |c.mag| <= MAGAZINE_SIZE
    && (forall n :: n in c.free <==> n in c.pages)
    && (forall n :: n in c.free ==> NoDup(c.free[n]))
    && Partition(c, slots, live)
  }

  // ----- what every call keeps -----

  lemma FreshSlotsAll(slots: nat)
    ensures NoDup(FreshSlots(slots)) && forall k :: k in FreshSlots(slots) <==> 0 <= k < slots
  {
    forall k | 0 <= k < slots ensures k in FreshSlots(slots) {
      assert FreshSlots(slots)[slots - 1 - k] == k;
    }
  }

  lemma InSplit<T>(s: seq<T>)
    requires s != []
    ensures forall x :: x in s <==> x == s[0] || x in s[1..]
    ensures forall x :: x in s <==> x == s[|s| - 1] || x in s[..|s| - 1]
  {
    assert s == [s[0]] + s[1..] && s == s[..|s| - 1] + [s[|s| - 1]];
  }

  lemma TakeKeeps(c: Cache, slots: nat, live: set<Obj>)
    requires CacheInv(c, slots, live) && !NeedsPage(c)
    ensures var (c', o) := Take(c);
            o !in live && IsSlot(c, slots, o) && CacheInv(c', slots, live + {o}) && c'.pages == c.pages
  {
    var (c', o) := Take(c);
    if c.mag != [] {
      InSplit(c.mag);
      assert o !in c'.mag;
      assert forall p: Obj :: Listed(c', p) <==> Listed(c, p);
    } else {
      InSplit(c.free[o.page]);
      assert Listed(c, o);
      assert forall p: Obj :: Listed(c', p) <==> Listed(c, p) && p != o;
    }
  }

  lemma RefillKeeps(c: Cache, slots: nat, frame: nat, live: set<Obj>)
    requires CacheInv(c, slots, live) && 0 < slots && frame !in c.pages
    ensures CacheInv(Refill(c, slots, frame), slots, live)
    ensures NeedsPage(Refill(c, slots, frame)) <==> NeedsPage(c) && frame == 0
  {
    FreshSlotsAll(slots);
    var c' := Refill(c, slots, frame);
    if c' != c {
      assert forall o: Obj :: Listed(c', o) <==> Listed(c, o) || (o.page == frame && o.slot < slots);
      assert forall o: Obj :: IsSlot(c', slots, o) <==> IsSlot(c, slots, o) || (o.page == frame && o.slot < slots);
    }
  }

  /**
   * slab_alloc hands out a slot that was not live, and the partition goes on to
   * hold; it fails exactly when it needs a page and none can be had.
   */
  lemma AllocKeeps(c: Cache, slots: nat, frame: nat, live: set<Obj>)
    requires CacheInv(c, slots, live) && 0 < slots && frame !in c.pages
    ensures var (c', r) := Alloc(c, slots, frame);
            && (r.None? <==> NeedsPage(c) && frame == 0)
            && (r.None? ==> c' == c)
            && (r.Some? ==> r.value !in live && IsSlot(c', slots, r.value) && CacheInv(c', slots, live + {r.value}))
  {
    RefillKeeps(c, slots, frame, live);
    var c1 := Refill(c, slots, frame);
    if !NeedsPage(c1) {
      TakeKeeps(c1, slots, live);
    }
  }

  /** A duplicate-free list of `slots` numbers below `slots` contains every one of them. */
  lemma Pigeonhole(l: seq<nat>, slots: nat)
    requires NoDup(l) && |l| == slots && forall k :: k in l ==> k < slots
    ensures forall k :: 0 <= k < slots ==> k in l
  {
    var s := set k | k in l :: Obj(0, k);
    FreeListCount(0, l);
    PageSlotsCount(0, slots);
    SubsetSame(s, PageSlots(0, slots));
    forall k | 0 <= k < slots ensures k in l {
      assert Obj(0, k) in PageSlots(0, slots);
    }
  }

  lemma {:induction false} DistinctCount<T>(l: seq<T>)
    requires NoDup(l)
    ensures |set x | x in l| == |l|
  {
    if l != [] {
      InSplit(l);
      DistinctCount(l[1..]);
      assert (set x | x in l) == {l[0]} + (set x | x in l[1..]);
    }
  }

  lemma SubsetSame<T>(s: set<T>, t: set<T>)
    requires s <= t && |s| == |t|
    ensures s == t
  {
    assert t == s + (t - s);
  }

  /** The slots of a page whose free list is as long as the page are neither live nor in the magazine. */
  lemma FullPageIdle(c: Cache, slots: nat, live: set<Obj>, n: nat)
    requires CacheInv(c, slots, live) && n in c.pages && |c.free[n]| == slots
    ensures forall o: Obj :: o.page == n ==> o !in live && o !in c.mag
  {
    forall k | k in c.free[n] ensures k < slots {
      assert Listed(c, Obj(n, k));
    }
    Pigeonhole(c.free[n], slots);
    forall o: Obj | o.page == n ensures o !in live && o !in c.mag {
      if IsSlot(c, slots, o) {
        assert Listed(c, o);
      }
    }
  }

  lemma PushKeeps(c: Cache, slots: nat, o: Obj, live: set<Obj>)
    requires CacheInv(c, slots, live) && o in live
    ensures CacheInv(c.(free := c.free[o.page := [o.slot] + c.free[o.page]]), slots, live - {o})
  {
    var c' := c.(free := c.free[o.page := [o.slot] + c.free[o.page]]);
    assert !Listed(c, o);
    assert forall p: Obj :: Listed(c', p) <==> Listed(c, p) || p == o;
  }

  /**
   * slab_free keeps the partition.  A page leaves the list exactly when its last
   * used slot is freed past a full magazine; no live or parked slot is lost.
   */
  lemma FreeKeeps(c: Cache, slots: nat, o: Obj, live: set<Obj>)
    requires CacheInv(c, slots, live) && o in live
    ensures IsSlot(c, slots, o)
    ensures var c' := Free(c, slots, o);
            && CacheInv(c', slots, live - {o})
            && (o.page !in c'.pages ==> c'.pages == Without(c.pages, o.page) && c'.mag == c.mag
                                        && forall p: Obj :: p.page == o.page ==> p !in live - {o} && p !in c.mag)
            && (o.page in c'.pages ==> c'.pages == c.pages)
            && (o.page !in c'.pages <==> |c.mag| == 16 && |c.free[o.page]| + 1 == slots)
  {
    assert IsSlot(c, slots, o);
    var c' := Free(c, slots, o);
    if |c.mag| < MAGAZINE_SIZE {
      assert forall p: Obj :: Listed(c', p) <==> Listed(c, p);
    } else {
      PushKeeps(c, slots, o, live);
      var c1 := c.(free := c.free[o.page := [o.slot] + c.free[o.page]]);
      if |c1.free[o.page]| == slots {
        FullPageIdle(c1, slots, live - {o}, o.page);
        WithoutMembers(c.pages, o.page);
        assert forall p: Obj :: Listed(c', p) <==> Listed(c1, p) && p.page != o.page;
      }
    }
  }

  // ----- slab_free_objects -----

  function TotalFree(c: Cache, pages: seq<nat>): nat {
    if pages == [] then 0 else (if pages[0] in c.free then |c.free[pages[0]]| else 0) + TotalFree(c, pages[1..])
  }

  /** slab_free_objects: the free counts of the listed pages plus the magazine. */
  function FreeObjects(c: Cache): nat {
    TotalFree(c, c.pages) + |c.mag|
  }

  ghost function SlotSet(pages: seq<nat>, slots: nat): set<Obj> {
    set n, k | n in pages && 0 <= k < slots :: Obj(n, k)
  }

  lemma {:induction false} SlotSetCount(pages: seq<nat>, slots: nat)
    requires NoDup(pages)
    ensures |SlotSet(pages, slots)| == |pages| * slots
  {
    if pages != [] {
      SlotSetCount(pages[1..], slots);
      PageSlotsCount(pages[0], slots);
      SlotSetSplit(pages, slots);
      assert (1 + |pages[1..]|) * slots == slots + |pages[1..]| * slots;
    }
  }

  lemma SlotSetSplit(pages: seq<nat>, slots: nat)
    requires NoDup(pages) && pages != []
    ensures SlotSet(pages, slots) == PageSlots(pages[0], slots) + SlotSet(pages[1..], slots)
    ensures PageSlots(pages[0], slots) !! SlotSet(pages[1..], slots)
  {
    InSplit(pages);
    assert pages[0] !in pages[1..];
  }

  ghost function PageSlots(n: nat, slots: nat): set<Obj> {
    set k | 0 <= k < slots :: Obj(n, k)
  }

  lemma {:induction false} PageSlotsCount(n: nat, slots: nat)
    ensures |PageSlots(n, slots)| == slots
  {
    if slots > 0 {
      PageSlotsCount(n, slots - 1);
      assert PageSlots(n, slots) == PageSlots(n, slots - 1) + {Obj(n, slots - 1)};
    }
  }

  ghost function ListedSet(c: Cache, pages: seq<nat>): set<Obj>
    requires forall n :: n in pages ==> n in c.free
  {
    set n, k | n in pages && k in c.free[n] :: Obj(n, k)
  }

  lemma {:induction false} ListedSetCount(c: Cache, pages: seq<nat>)
    requires NoDup(pages) && forall n :: n in pages ==> n in c.free && NoDup(c.free[n])
    ensures |ListedSet(c, pages)| == TotalFree(c, pages)
  {
    if pages != [] {
      InSplit(pages);
      ListedSetCount(c, pages[1..]);
      FreeListCount(pages[0], c.free[pages[0]]);
      var one := set k | k in c.free[pages[0]] :: Obj(pages[0], k);
      assert ListedSet(c, pages) == one + ListedSet(c, pages[1..]);
      assert one !! ListedSet(c, pages[1..]);
    }
  }

  lemma {:induction false} FreeListCount(n: nat, l: seq<nat>)
    requires NoDup(l)
    ensures |set k | k in l :: Obj(n, k)| == |l|
  {
    if l != [] {
      InSplit(l);
      FreeListCount(n, l[1..]);
      assert (set k | k in l :: Obj(n, k)) == {Obj(n, l[0])} + (set k | k in l[1..] :: Obj(n, k));
    }
  }

  /** slab_free_objects reports exactly the slots of the listed pages that are not live. */
  lemma FreeObjectsExact(c: Cache, slots: nat, live: set<Obj>)
    requires CacheInv(c, slots, live)
    ensures FreeObjects(c) + |live| == |c.pages| * slots
  {
    var listed := ListedSet(c, c.pages);
    var parked := set o | o in c.mag;
    SlotSetCount(c.pages, slots);
    ListedSetCount(c, c.pages);
    DistinctCount(c.mag);
    forall o: Obj ensures o in SlotSet(c.pages, slots) <==> o in listed + parked + live {
      assert IsSlot(c, slots, o) <==> o in SlotSet(c.pages, slots);
      assert Listed(c, o) <==> o in listed;
    }
    assert SlotSet(c.pages, slots) == listed + parked + live;
    assert listed !! parked && (listed + parked) !! live by {
      forall o | o in listed ensures o !in parked && o !in live { assert Listed(c, o); }
    }
  }

  // ----- runs of one class -----

  datatype Op = AllocOp(frame: nat) | FreeOp(o: Obj)

  datatype Run = Run(cache: Cache, live: set<Obj>)

  /** Frees are of live objects; a fresh frame is not already on the list. */
  ghost predicate Legal(r: Run, op: Op) {
    match op
    case AllocOp(frame) => frame !in r.cache.pages
    case FreeOp(o) => o in r.live
  }

  function Step(r: Run, slots: nat, op: Op): Run {
    match op
    case AllocOp(frame) =>
      var (c, o) := Alloc(r.cache, slots, frame);
      Run(c, if o.Some? then r.live + {o.value} else r.live)
    case FreeOp(o) => Run(Free(r.cache, slots, o), r.live - {o})
  }

  /** A run visits `states`, each reached from the one before by a legal call. */
  ghost predicate IsRun(states: seq<Run>, ops: seq<Op>, slots: nat) {
    && |states| == |ops| + 1
    && states[0] == Run(Cache([], map[], []), {})
    && forall i :: 0 <= i < |ops| ==> IsStep(states[i], slots, ops[i], states[i + 1])
  }

  ghost predicate IsStep(r: Run, slots: nat, op: Op, r': Run) {
    Legal(r, op) && r' == Step(r, slots, op)
  }

  /** From slab_init on, every reachable state is partitioned and reports its free slots exactly. */
  lemma {:induction false} RunPartitioned(states: seq<Run>, ops: seq<Op>, slots: nat, i: nat)
    requires IsRun(states, ops, slots) && 0 < slots && i < |states|
    ensures CacheInv(states[i].cache, slots, states[i].live)
    ensures FreeObjects(states[i].cache) + |states[i].live| == |states[i].cache.pages| * slots
  {
    if i > 0 {
      RunPartitioned(states, ops, slots, i - 1);
      assert IsStep(states[i - 1], slots, ops[i - 1], states[i]);
      var r := states[i - 1];
      match ops[i - 1]
      case AllocOp(frame) => AllocKeeps(r.cache, slots, frame, r.live);
      case FreeOp(o) => FreeKeeps(r.cache, slots, o, r.live);
    }
    FreeObjectsExact(states[i].cache, slots, states[i].live);
  }
}
