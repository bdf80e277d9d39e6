/**
 * How a size class lies in flat memory: the page header, the next pointers
 * threaded through free objects, and the list of pages.  All pointers are
 * direct-map addresses.
 */
module SlabLayout {
  import opened Words
  import opened Paging
  import opened SlabModel

  const NEXT: Index := 0
  const COUNTS: Index := 1
  const FREE_LIST: Index := 2

  // ----- pointers -----

  function PagePtr(n: nat): Word
    requires n < HHDM_FRAMES
  {
    DirectMap(n, 0)
  }

  /** Word of its page in which a slot starts. */
  function ObjWord(c: Class, slot: nat): (i: Index)
    requires slot < SlotsPerPage(c)
    ensures 3 <= i
  {
    ObjWordFits(c, slot);
    3 + slot * (SlabSize(c) / 8)
  }

  lemma ObjWordFits(c: Class, slot: nat)
    requires slot < SlotsPerPage(c)
    ensures 0 <= slot * (SlabSize(c) / 8) && 3 + (slot + 1) * (SlabSize(c) / 8) <= WORDS_PER_PAGE
  {
    var w := SlabSize(c) / 8;
    assert (slot + 1) * w <= SlotsPerPage(c) * w;
    assert SlotsPerPage(c) * w <= 509;
  }

  lemma ObjWordDistinct(c: Class, k: nat, l: nat)
    requires k < SlotsPerPage(c) && l < SlotsPerPage(c) && k != l
    ensures ObjWord(c, k) != ObjWord(c, l)
  {
    var w := SlabSize(c) / 8;
    if k < l { assert (k + 1) * w <= l * w; } else { assert (l + 1) * w <= k * w; }
  }

  function ObjPtr(c: Class, o: Obj): Word
    requires o.page < HHDM_FRAMES && o.slot < SlotsPerPage(c)
  {
    DirectMap(o.page, 8 * ObjWord(c, o.slot))
  }

  /** The byte address the C code computes: data + i * obj_size behind the header. */
  lemma ObjPtrOffset(c: Class, o: Obj)
    requires o.page < HHDM_FRAMES && o.slot < SlotsPerPage(c)
    ensures SlotOffset(c, o.slot) < PAGE_SIZE && ObjPtr(c, o) == DirectMap(o.page, SlotOffset(c, o.slot))
  {
    var w := SlabSize(c) / 8;
    assert SlabSize(c) == 8 * w;
    assert o.slot * (8 * w) == 8 * (o.slot * w);
  }

  /** Masking the low bits of an object pointer gives its page, and no two objects share a pointer. */
  lemma PtrPage(n: nat, off: nat)
    requires n < HHDM_FRAMES && off < PAGE_SIZE
    ensures PageBase(DirectMap(n, off)) == PagePtr(n) && DirectMap(n, off) - PagePtr(n) == off
    ensures FrameOf(DirectMap(n, off) - HHDM_BASE) == n
  {
  }

  lemma ObjPtrUnique(c: Class, o: Obj, p: Obj)
    requires o.page < HHDM_FRAMES && o.slot < SlotsPerPage(c)
    requires p.page < HHDM_FRAMES && p.slot < SlotsPerPage(c)
    requires ObjPtr(c, o) == ObjPtr(c, p)
    ensures o == p
  {
    PtrPage(o.page, 8 * ObjWord(c, o.slot));
    PtrPage(p.page, 8 * ObjWord(c, p.slot));
    if o.slot != p.slot { ObjWordDistinct(c, o.slot, p.slot); }
  }

  // ----- the header word with obj_size, free_count and objs_per_page -----

  function Pack(c: Class, count: nat): Word
    requires count < 0x1_0000
  {
    SlotsFit(c);
    SlabSize(c) + count * 0x1_0000_0000 + SlotsPerPage(c) * 0x1_0000_0000_0000
  }

  function SizeField(w: Word): nat { w % 0x1_0000_0000 }
  function CountField(w: Word): nat { w / 0x1_0000_0000 % 0x1_0000 }
  function SlotsField(w: Word): nat { w / 0x1_0000_0000_0000 }

  lemma SlotsFit(c: Class)
    ensures 0 < SlotsPerPage(c) <= 254 && SlabSize(c) <= 2048
  {
  }

  lemma PackFields(c: Class, count: nat)
    requires count < 0x1_0000
    ensures SizeField(Pack(c, count)) == SlabSize(c)
    ensures CountField(Pack(c, count)) == count
    ensures SlotsField(Pack(c, count)) == SlotsPerPage(c)
    ensures SizeToIndex(SlabSize(c)) == Some(c)
  {
    var size, slots := SlabSize(c), SlotsPerPage(c);
    SlotsFit(c);
    assert Pack(c, count) / 0x1_0000_0000 == count + slots * 0x1_0000;
    var r := SizeToIndex(size);
    if r != Some(c) {
      assert r.value < c;
      SizesGrow(r.value, c);
    }
  }

  lemma SizesGrow(c: Class, d: Class)
    requires c < d
    ensures SlabSize(c) < SlabSize(d)
  {
  }

  // ----- one page -----

  /** Pointer to the k-th element of a free list, NULL past its end. */
  function SlotPtr(c: Class, n: nat, fl: seq<nat>, k: nat): Word
    requires n < HHDM_FRAMES
    requires k < |fl| ==> fl[k] < SlotsPerPage(c)
  {
    if k < |fl| then ObjPtr(c, Obj(n, fl[k])) else 0
  }

  ghost predicate SlotsOk(c: Class, fl: seq<nat>) {
    && NoDup(fl) && |fl| <= SlotsPerPage(c)
    && forall k :: 0 <= k < |fl| ==> fl[k] < SlotsPerPage(c)
  }

  ghost predicate LinkOk(m: Mem, c: Class, n: nat, fl: seq<nat>, k: nat)
    requires SlotsOk(c, fl) && n < HHDM_FRAMES && k < |fl|
  {
    Entry(m, n, ObjWord(c, fl[k])) == SlotPtr(c, n, fl, k + 1)
  }

  /** Frame n is a slab page of class c with free list fl. */
  ghost predicate PageRepr(m: Mem, c: Class, n: nat, fl: seq<nat>)
    requires n < HHDM_FRAMES
  {
    && SlotsOk(c, fl)
    && (SlotsFit(c); Entry(m, n, COUNTS) == Pack(c, |fl|))
    && Entry(m, n, FREE_LIST) == SlotPtr(c, n, fl, 0)
    && (forall k: nat :: k < |fl| ==> LinkOk(m, c, n, fl, k))
  }

  ghost predicate SameFrame(m: Mem, m': Mem, n: nat) {
    forall i: Index :: Entry(m', n, i) == Entry(m, n, i)
  }

  lemma PageReprFrame(m: Mem, m': Mem, c: Class, n: nat, fl: seq<nat>)
    requires n < HHDM_FRAMES && PageRepr(m, c, n, fl)
    requires forall i: Index :: i != NEXT ==> Entry(m', n, i) == Entry(m, n, i)
    ensures PageRepr(m', c, n, fl)
  {
    forall k: nat | k < |fl| ensures LinkOk(m', c, n, fl, k) {
      assert LinkOk(m, c, n, fl, k);
    }
  }

  /** sp->free_list = *obj; sp->free_count-- */
  function TakeSlot(m: Mem, c: Class, n: nat, slot: nat, count: nat): Mem
    requires slot < SlotsPerPage(c) && 0 < count < 0x1_0000
  {
    Put(Put(m, n, FREE_LIST, Entry(m, n, ObjWord(c, slot))), n, COUNTS, Pack(c, count - 1))
  }

  lemma TakeSlotRepr(m: Mem, c: Class, n: nat, fl: seq<nat>)
    requires n < HHDM_FRAMES && (n + 1) * WORDS_PER_PAGE <= |m|
    requires PageRepr(m, c, n, fl) && fl != []
    ensures SlotsPerPage(c) < 0x1_0000 && PageRepr(TakeSlot(m, c, n, fl[0], |fl|), c, n, fl[1..])
  {
    SlotsFit(c);
    var m' := TakeSlot(m, c, n, fl[0], |fl|);
    assert LinkOk(m, c, n, fl, 0);
    forall k: nat | k < |fl[1..]| ensures LinkOk(m', c, n, fl[1..], k) {
      assert LinkOk(m, c, n, fl, k + 1);
    }
  }

  /** *ptr = sp->free_list; sp->free_list = ptr; sp->free_count++ */
  function PushSlot(m: Mem, c: Class, n: nat, slot: nat, count: nat): Mem
    requires n < HHDM_FRAMES && slot < SlotsPerPage(c) && count + 1 < 0x1_0000
  {
    Put(Put(Put(m, n, ObjWord(c, slot), Entry(m, n, FREE_LIST)), n, FREE_LIST, ObjPtr(c, Obj(n, slot))), n, COUNTS, Pack(c, count + 1))
  }

  lemma PushSlotRepr(m: Mem, c: Class, n: nat, fl: seq<nat>, slot: nat)
    requires n < HHDM_FRAMES && (n + 1) * WORDS_PER_PAGE <= |m|
    requires PageRepr(m, c, n, fl) && slot < SlotsPerPage(c) && slot !in fl && |fl| < SlotsPerPage(c)
    ensures SlotsPerPage(c) < 0x1_0000 && PageRepr(PushSlot(m, c, n, slot, |fl|), c, n, [slot] + fl)
  {
    SlotsFit(c);
    var m' := PushSlot(m, c, n, slot, |fl|);
    var fl' := [slot] + fl;
    forall k: nat | k < |fl'| ensures LinkOk(m', c, n, fl', k) {
      if k > 0 {
        assert LinkOk(m, c, n, fl, k - 1);
        assert fl[k - 1] in fl;
        ObjWordDistinct(c, slot, fl[k - 1]);
      }
    }
  }

  // ----- the list of pages -----

  ghost predicate PagesOk(pages: seq<nat>) {
    forall k :: 0 <= k < |pages| ==> 0 < pages[k] < HHDM_FRAMES
  }

  function NextPtr(pages: seq<nat>, k: nat): Word
    requires k < |pages| ==> pages[k] < HHDM_FRAMES
  {
    if k < |pages| then PagePtr(pages[k]) else 0
  }

  ghost predicate NextOk(m: Mem, pages: seq<nat>, k: nat)
    requires PagesOk(pages) && k < |pages|
  {
    Entry(m, pages[k], NEXT) == NextPtr(pages, k + 1)
  }

  ghost predicate ListRepr(m: Mem, pages: seq<nat>, head: Word) {
    && PagesOk(pages)
    && head == NextPtr(pages, 0)
    && forall k: nat :: k < |pages| ==> NextOk(m, pages, k)
  }

  ghost predicate MagRepr(c: Class, objs: seq<Obj>, mag: seq<Word>) {
    && |mag| == |objs|
    && forall i :: 0 <= i < |mag| ==>
         objs[i].page < HHDM_FRAMES && objs[i].slot < SlotsPerPage(c) && mag[i] == ObjPtr(c, objs[i])
  }

  /** The whole class: its pages are the frames it owns, linked from `head`. */
  ghost predicate Repr(m: Mem, owner: seq<Owner>, c: Class, cache: Cache, head: Word, mag: seq<Word>) {
    && ListRepr(m, cache.pages, head)
    && MagRepr(c, cache.mag, mag)
    && (forall n: nat :: n in cache.pages <==> n < |owner| && owner[n] == SlabPage(c))
    && (forall n: nat :: n in cache.pages ==> n in cache.free && n < HHDM_FRAMES && PageRepr(m, c, n, cache.free[n]))
  }

  /** Nothing outside the class's own frames matters to it. */
  lemma ReprFrame(m: Mem, m': Mem, owner: seq<Owner>, owner': seq<Owner>, c: Class, cache: Cache, head: Word, mag: seq<Word>)
    requires Repr(m, owner, c, cache, head, mag)
    requires forall n: nat :: n < |owner| && owner[n] == SlabPage(c) ==> SameFrame(m, m', n)
    requires forall n: nat :: n < |owner'| && owner'[n] == SlabPage(c) <==> n < |owner| && owner[n] == SlabPage(c)
    ensures Repr(m', owner', c, cache, head, mag)
  {
    forall k: nat | k < |cache.pages| ensures NextOk(m', cache.pages, k) {
      assert cache.pages[k] in cache.pages && NextOk(m, cache.pages, k);
      assert SameFrame(m, m', cache.pages[k]);
    }
    forall n: nat | n in cache.pages ensures PageRepr(m', c, n, cache.free[n]) {
      assert SameFrame(m, m', n);
      PageReprFrame(m, m', c, n, cache.free[n]);
    }
  }

  /** slab_alloc on the page at the head of the list. */
  lemma TakeRepr(m: Mem, owner: seq<Owner>, c: Class, cache: Cache, head: Word, mag: seq<Word>)
    requires Repr(m, owner, c, cache, head, mag) && |m| == |owner| * WORDS_PER_PAGE
    requires !NeedsPage(cache) && cache.mag == []
    ensures var n := cache.pages[0];
            var fl := cache.free[n];
            n < HHDM_FRAMES && |fl| < 0x1_0000 && fl[0] < SlotsPerPage(c)
            && Repr(TakeSlot(m, c, n, fl[0], |fl|), owner, c, Take(cache).0, head, mag)
  {
    var n := cache.pages[0];
    var fl := cache.free[n];
    SlotsFit(c);
    TakeSlotRepr(m, c, n, fl);
    assert forall k: nat :: k < |cache.pages| ==> NextOk(m, cache.pages, k) ==> NextOk(TakeSlot(m, c, n, fl[0], |fl|), cache.pages, k);
    var m' := TakeSlot(m, c, n, fl[0], |fl|);
    forall k: nat | k in cache.pages && k != n ensures PageRepr(m', c, k, cache.free[k]) {
      PageReprFrame(m, m', c, k, cache.free[k]);
    }
  }

  /** slab_free past a full magazine, before a possible unlinking. */
  lemma PushRepr(m: Mem, owner: seq<Owner>, c: Class, cache: Cache, head: Word, mag: seq<Word>, o: Obj)
    requires Repr(m, owner, c, cache, head, mag) && |m| == |owner| * WORDS_PER_PAGE
    requires o.page in cache.pages && o.slot < SlotsPerPage(c)
    requires o.slot !in cache.free[o.page] && |cache.free[o.page]| < SlotsPerPage(c)
    ensures var fl := cache.free[o.page];
            o.page < HHDM_FRAMES && |fl| + 1 < 0x1_0000
            && Repr(PushSlot(m, c, o.page, o.slot, |fl|), owner, c, cache.(free := cache.free[o.page := [o.slot] + fl]), head, mag)
  {
    var fl := cache.free[o.page];
    SlotsFit(c);
    PushSlotRepr(m, c, o.page, fl, o.slot);
    assert forall k: nat :: k < |cache.pages| ==> NextOk(m, cache.pages, k) ==> NextOk(PushSlot(m, c, o.page, o.slot, |fl|), cache.pages, k);
    var m' := PushSlot(m, c, o.page, o.slot, |fl|);
    forall k: nat | k in cache.pages && k != o.page ensures PageRepr(m', c, k, cache.free[k]) {
      PageReprFrame(m, m', c, k, cache.free[k]);
    }
  }

  // ----- a new page -----

  /** Memory after the loop of create_slab_page has threaded slots 0 .. i-1 onto the free list. */
  ghost predicate Threaded(m: Mem, c: Class, n: nat, i: nat)
    requires n < HHDM_FRAMES && i <= SlotsPerPage(c)
  {
    && (forall k: nat :: k < i ==> Entry(m, n, ObjWord(c, k)) == if k == 0 then 0 else ObjPtr(c, Obj(n, k - 1)))
    && Entry(m, n, FREE_LIST) == if i == 0 then 0 else ObjPtr(c, Obj(n, i - 1))
  }

  /** One round of the loop: *(void**)obj = sp->free_list; sp->free_list = obj */
  lemma ThreadStep(m: Mem, c: Class, n: nat, i: nat)
    requires n < HHDM_FRAMES && (n + 1) * WORDS_PER_PAGE <= |m| && i < SlotsPerPage(c)
    requires Threaded(m, c, n, i)
    ensures Threaded(Put(Put(m, n, ObjWord(c, i), Entry(m, n, FREE_LIST)), n, FREE_LIST, ObjPtr(c, Obj(n, i))), c, n, i + 1)
  {
    hide ObjWord, ObjPtr, Put, Entry, SlotsPerPage;
    forall k: nat | k < i ensures ObjWord(c, k) != ObjWord(c, i) {
      ObjWordDistinct(c, k, i);
    }
  }

  lemma ThreadedRepr(m: Mem, c: Class, n: nat)
    requires n < HHDM_FRAMES && Threaded(m, c, n, SlotsPerPage(c))
    requires SlotsPerPage(c) < 0x1_0000 && Entry(m, n, COUNTS) == Pack(c, SlotsPerPage(c))
    ensures PageRepr(m, c, n, FreshSlots(SlotsPerPage(c)))
  {
    hide ObjWord, ObjPtr, Entry, Pack, SlotsPerPage, SlabSize;
    var fl := FreshSlots(SlotsPerPage(c));
    SlotsFit(c);
    FreshSlotsAll(SlotsPerPage(c));
    forall k: nat | k < |fl| ensures fl[k] < SlotsPerPage(c) && SlotsOk(c, fl) && LinkOk(m, c, n, fl, k) {
      assert fl[k] == SlotsPerPage(c) - 1 - k;
    }
  }

  /** Linking a fresh page in front: sp->next = c->partial; c->partial = sp */
  lemma AddPageRepr(m: Mem, m': Mem, owner: seq<Owner>, c: Class, cache: Cache, head: Word, mag: seq<Word>, n: nat)
    requires Repr(m, owner, c, cache, head, mag)
    requires 0 < n < |owner| && n < HHDM_FRAMES && owner[n] != SlabPage(c)
    requires forall k: nat, i: Index :: k != n ==> Entry(m', k, i) == Entry(m, k, i)
    requires Entry(m', n, NEXT) == head && PageRepr(m', c, n, FreshSlots(SlotsPerPage(c)))
    ensures Repr(m', owner[n := SlabPage(c)], c, Cache([n] + cache.pages, cache.free[n := FreshSlots(SlotsPerPage(c))], cache.mag), PagePtr(n), mag)
  {
    var pages := [n] + cache.pages;
    assert n !in cache.pages;
    assert PagesOk(pages);
    forall k: nat | k < |pages| ensures NextOk(m', pages, k) {
      if k > 0 {
        assert pages[k] == cache.pages[k - 1] && pages[k] in cache.pages;
        assert NextOk(m, cache.pages, k - 1);
      }
    }
    forall k: nat | k in cache.pages ensures PageRepr(m', c, k, cache.free[k]) {
      PageReprFrame(m, m', c, k, cache.free[k]);
    }
  }

  // ----- unlinking a page -----

  /** Position of n in the list. */
  function Position(pages: seq<nat>, n: nat): (k: nat)
    requires n in pages
    ensures k < |pages| && pages[k] == n
  {
    if pages[0] == n then 0 else 1 + Position(pages[1..], n)
  }

  lemma {:induction false} WithoutAt(pages: seq<nat>, k: nat)
    requires k < |pages| && NoDup(pages)
    ensures Without(pages, pages[k]) == pages[..k] + pages[k + 1..]
  {
    if k > 0 {
      WithoutAt(pages[1..], k - 1);
      assert pages[0] != pages[k];
      assert pages[..k] == [pages[0]] + pages[1..][..k - 1];
      assert pages[1..][k..] == pages[k + 1..];
    }
  }

  /** *pp = sp->next, where pp is the head or the next field of the page before. */
  lemma UnlinkRepr(m: Mem, m': Mem, pages: seq<nat>, head: Word, head': Word, k: nat)
    requires ListRepr(m, pages, head) && NoDup(pages) && k < |pages|
    requires k == 0 ==> m' == m && head' == NextPtr(pages, 1)
    requires k > 0 ==> head' == head && m' == Put(m, pages[k - 1], NEXT, NextPtr(pages, k + 1))
    requires k > 0 ==> (pages[k - 1] + 1) * WORDS_PER_PAGE <= |m|
    ensures ListRepr(m', Without(pages, pages[k]), head')
  {
    hide PagePtr, Without, Put, Entry;
    WithoutAt(pages, k);
    var rest := pages[..k] + pages[k + 1..];
    assert PagesOk(rest);
    forall j: nat | j < |rest| ensures NextOk(m', rest, j) {
      assert NextOk(m, pages, if j < k then j else j + 1);
    }
  }

  /** A fully free page leaves the class and becomes a frame nobody uses again. */
  lemma RetireRepr(m: Mem, m': Mem, owner: seq<Owner>, c: Class, cache: Cache, head: Word, head': Word, mag: seq<Word>, n: nat)
    requires Repr(m, owner, c, cache, head, mag) && NoDup(cache.pages) && n in cache.pages
    requires ListRepr(m', Without(cache.pages, n), head')
    requires forall k: nat, i: Index :: i != NEXT ==> Entry(m', k, i) == Entry(m, k, i)
    ensures Repr(m', owner[n := Lost], c, cache.(pages := Without(cache.pages, n), free := cache.free - {n}), head', mag)
  {
    WithoutMembers(cache.pages, n);
    forall k: nat | k in cache.pages && k != n ensures PageRepr(m', c, k, cache.free[k]) {
      PageReprFrame(m, m', c, k, cache.free[k]);
    }
  }

  // ----- what the code reads -----

  /** The head of the list and the header of its first page. */
  lemma HeadRepr(m: Mem, owner: seq<Owner>, c: Class, cache: Cache, head: Word, mag: seq<Word>)
    requires Repr(m, owner, c, cache, head, mag)
    ensures head == 0 <==> cache.pages == []
    ensures cache.pages != [] ==>
              PageHeader(m, owner, c, cache, cache.pages[0]) && head == PagePtr(cache.pages[0])
  {
    SlotsFit(c);
    if cache.pages != [] {
      assert cache.pages[0] in cache.pages;
    }
  }

  /** Page n of the class: its header words and the first link of its free list. */
  ghost predicate PageHeader(m: Mem, owner: seq<Owner>, c: Class, cache: Cache, n: nat) {
    && n < |owner| && n < HHDM_FRAMES && owner[n] == SlabPage(c) && n in cache.pages && n in cache.free
    && var fl := cache.free[n];
    && SlotsOk(c, fl) && |fl| < 0x1_0000
    && Entry(m, n, COUNTS) == Pack(c, |fl|)
    && Entry(m, n, FREE_LIST) == SlotPtr(c, n, fl, 0)
    && (fl != [] ==> LinkOk(m, c, n, fl, 0))
  }

  lemma PageHeaders(m: Mem, owner: seq<Owner>, c: Class, cache: Cache, head: Word, mag: seq<Word>, n: nat)
    requires Repr(m, owner, c, cache, head, mag) && n in cache.pages
    ensures PageHeader(m, owner, c, cache, n)
  {
    SlotsFit(c);
  }

  /** Pages of the list have different pointers, none of them NULL. */
  lemma NextPtrIs(pages: seq<nat>, j: nat, n: nat)
    requires PagesOk(pages) && NoDup(pages) && j <= |pages| && 0 < n < HHDM_FRAMES
    ensures NextPtr(pages, j) == 0 <==> j == |pages|
    ensures j < |pages| ==> (NextPtr(pages, j) == PagePtr(n) <==> pages[j] == n)
  {
  }

  /** sp->free_count++ on the packed header word. */
  lemma CountUp(c: Class, count: nat)
    requires count + 1 < 0x1_0000
    ensures Pack(c, count) + 0x1_0000_0000 == Pack(c, count + 1)
  {
  }

  /** sp->free_count-- */
  lemma CountDown(c: Class, count: nat)
    requires 0 < count < 0x1_0000
    ensures Pack(c, count) >= 0x1_0000_0000 && Pack(c, count) - 0x1_0000_0000 == Pack(c, count - 1)
  {
  }

  /** The first word of a slab page is NULL or page-aligned, never anything else. */
  lemma NextFieldAligned(m: Mem, owner: seq<Owner>, c: Class, cache: Cache, head: Word, mag: seq<Word>, n: nat)
    requires Repr(m, owner, c, cache, head, mag) && n in cache.pages
    ensures Entry(m, n, NEXT) % PAGE_SIZE == 0
  {
    var k := Position(cache.pages, n);
    assert NextOk(m, cache.pages, k);
    if k + 1 < |cache.pages| { PtrPage(cache.pages[k + 1], 0); }
  }

  // ----- the contents of live objects -----

  /** Word i of the page lies inside slot `slot`. */
  predicate InSlot(c: Class, slot: nat, i: Index)
    requires slot < SlotsPerPage(c)
  {
    ObjWord(c, slot) <= i < ObjWord(c, slot) + SlabSize(c) / 8
  }

  /** Word i of frame n belongs to object o. */
  predicate InObject(c: Class, o: Obj, n: nat, i: Index) {
    o.page == n && o.slot < SlotsPerPage(c) && InSlot(c, o.slot, i)
  }

  lemma InOneSlot(c: Class, k: nat, l: nat, i: Index)
    requires k < SlotsPerPage(c) && l < SlotsPerPage(c) && k != l && InSlot(c, k, i)
    ensures !InSlot(c, l, i) && i != ObjWord(c, l)
  {
    var w := SlabSize(c) / 8;
    if k < l { assert (k + 1) * w <= l * w; } else { assert (l + 1) * w <= k * w; }
  }

  /** The allocator keeps nothing in objects that are live or in the magazine: any store into them is harmless. */
  lemma ObjectStoreRepr(m: Mem, owner: seq<Owner>, c: Class, cache: Cache, head: Word, mag: seq<Word>, o: Obj, i: Index, w: Word)
    requires Repr(m, owner, c, cache, head, mag) && o.page in cache.pages && o.slot < SlotsPerPage(c)
    requires !Listed(cache, o) && InSlot(c, o.slot, i)
    ensures Repr(Put(m, o.page, i, w), owner, c, cache, head, mag)
  {
    var m' := Put(m, o.page, i, w);
    var fl := cache.free[o.page];
    forall k: nat | k < |cache.pages| ensures NextOk(m', cache.pages, k) {
      assert NextOk(m, cache.pages, k);
    }
    forall k: nat | k < |fl| ensures LinkOk(m', c, o.page, fl, k) {
      assert LinkOk(m, c, o.page, fl, k) && fl[k] in fl;
      InOneSlot(c, o.slot, fl[k], i);
    }
    forall n: nat | n in cache.pages && n != o.page ensures PageRepr(m', c, n, cache.free[n]) {
      PageReprFrame(m, m', c, n, cache.free[n]);
    }
  }
}
