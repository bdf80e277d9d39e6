/** The four-level tables in flat memory refine a map from pages to frames. */
module PagingLaws {
  import opened Words
  import opened Frames
  import opened Paging

  /** v and w are the same page of the address space, or its PML4[0]/PML4[256] twin. */
  predicate SamePage(v: Word, w: Word) {
    && Canon(4, Idx4(v)) == Canon(4, Idx4(w))
    && Idx3(v) == Idx3(w) && Idx2(v) == Idx2(w) && Idx1(v) == Idx1(w)
  }

  // ----- one new table -----

  /** m' is m with the empty table c hung into slot i of table n; nothing a walk can see changed otherwise. */
  ghost predicate Linked(m: Mem, m': Mem, owner: seq<Owner>, n: nat, i: Index, c: nat) {
    && c < HHDM_FRAMES && c < |owner| && !IsTable(owner, c)
    && |m'| == |m|
    && IsTable(owner, n) && owner[n].level >= 2
    && !Present(Entry(m, n, i))
    && Entry(m', n, i) == TableEntry(c)
    && (forall j: Index :: Entry(m', c, j) == 0)
    && (forall k: nat, j: Index :: IsTable(owner, k) && !(k == n && j == i) ==> Entry(m', k, j) == Entry(m, k, j))
  }

  /** A walk reaches the same place before and after, except that it may now end in the empty table. */
  lemma LinkedWalk(m: Mem, m': Mem, root: nat, owner: seq<Owner>, n: nat, i: Index, c: nat, w: Word)
    requires TablesOk(m, root, owner) && Linked(m, m', owner, n, i, c)
    ensures Translate(m', root, w) == Translate(m, root, w)
    ensures Writable(m', root, w) == Writable(m, root, w)
    ensures ClearPath(m', root, w) == ClearPath(m, root, w)
  {
    EntryFields(c, 0, 0);
    assert ChildOk(m, owner, root, Idx4(w));
    var e4 := Entry(m, root, Idx4(w));
    if Present(e4) {
      var t3 := FrameOf(e4);
      assert ChildOk(m, owner, t3, Idx3(w));
      var e3 := Entry(m, t3, Idx3(w));
      if Present(e3) && !Huge(e3) {
        assert ChildOk(m, owner, FrameOf(e3), Idx2(w));
      }
    }
  }

  /** ... and the tables stay well formed once c is recorded as the child of that slot. */
  lemma LinkedTables(m: Mem, m': Mem, root: nat, owner: seq<Owner>, n: nat, i: Index, c: nat)
    requires TablesOk(m, root, owner) && Linked(m, m', owner, n, i, c) && 0 < c
    ensures TablesOk(m', root, owner[c := Table(owner[n].level - 1, n, Canon(owner[n].level, i))])
  {
    EntryFields(c, 0, 0);
    var owner' := owner[c := Table(owner[n].level - 1, n, Canon(owner[n].level, i))];
    forall k: nat, j: Index | IsTable(owner', k)
      ensures ChildOk(m', owner', k, j)
    {
      if k != c {
        assert ChildOk(m, owner, k, j);
      }
    }
  }

  lemma LinkedIdentity(m: Mem, m': Mem, root: nat, owner: seq<Owner>, n: nat, i: Index, c: nat)
    requires TablesOk(m, root, owner) && Linked(m, m', owner, n, i, c) && IdentityOk(m, root)
    ensures IdentityOk(m', root)
  {
    LowTables(m, root, owner);
    forall d: nat, j: Index | root + 2 <= d < root + 6
      ensures Entry(m', d, j) == LowEntry(d - root - 2, j)
    {
      LowEntryFields(d - root - 2, j);
      assert Present(Entry(m, d, j));
    }
    EntryFields(root + 1, 0, 0);
    EntryFields(root + 2, 0, 0); EntryFields(root + 3, 0, 0); EntryFields(root + 4, 0, 0); EntryFields(root + 5, 0, 0);
  }

  /** The frames that carry the direct map are tables. */
  lemma LowTables(m: Mem, root: nat, owner: seq<Owner>)
    requires TablesOk(m, root, owner) && IdentityOk(m, root)
    ensures IsTable(owner, root + 1) && owner[root + 1].level == 3
    ensures forall d: nat :: root + 2 <= d < root + 6 ==> IsTable(owner, d) && owner[d].level == 2
  {
    EntryFields(root + 1, 0, 0);
    EntryFields(root + 2, 0, 0); EntryFields(root + 3, 0, 0); EntryFields(root + 4, 0, 0); EntryFields(root + 5, 0, 0);
    assert ChildOk(m, owner, root, 0);
    assert ChildOk(m, owner, root + 1, 0) && ChildOk(m, owner, root + 1, 1);
    assert ChildOk(m, owner, root + 1, 2) && ChildOk(m, owner, root + 1, 3);
  }

  /** Giving an unowned frame c a new owner is what Alloc does to the flags. */
  lemma AllocFrames(fr: Frames, owner: seq<Owner>, o: Owner)
    requires FramesOk(fr, owner) && o != Unowned
    ensures var (fr', c) := Alloc(fr);
            if c == 0 then fr' == fr
            else c < |owner| && owner[c] == Unowned && FramesOk(fr', owner[c := o])
  {
    AllocLowest(fr);
    AllocCounted(fr);
  }

  /** No translation changed, and no path gained or lost a huge page. */
  ghost predicate SameWalks(m: Mem, m': Mem, root: nat) {
    && (forall w :: Translate(m', root, w) == Translate(m, root, w))
    && (forall w :: Writable(m', root, w) == Writable(m, root, w))
    && (forall w :: ClearPath(m', root, w) == ClearPath(m, root, w))
  }

  lemma SameWalksTrans(m: Mem, m1: Mem, m2: Mem, root: nat)
    requires SameWalks(m, m1, root) && SameWalks(m1, m2, root)
    ensures SameWalks(m, m2, root)
  {
  }

  /** No word changed in the frames that belong to someone other than the page tables. */
  ghost predicate Untouched(m: Mem, m': Mem, owner: seq<Owner>) {
    forall k: nat, j: Index :: k < |owner| && !IsTable(owner, k) && owner[k] != Unowned ==> Entry(m', k, j) == Entry(m, k, j)
  }

  /** Table c is the child in slot i of table n. */
  ghost predicate IsChild(m: Mem, owner: seq<Owner>, n: nat, i: Index, c: nat) {
    && IsTable(owner, n) && IsTable(owner, c) && owner[n].level >= 2
    && owner[c] == Table(owner[n].level - 1, n, Canon(owner[n].level, i))
    && Present(Entry(m, n, i)) && FrameOf(Entry(m, n, i)) == c && (owner[n].level < 4 ==> !Huge(Entry(m, n, i)))
  }

  /** Children stay children. */
  ghost predicate KeepsChildren(m: Mem, m': Mem, owner: seq<Owner>, owner': seq<Owner>) {
    forall n: nat, i: Index, c: nat :: IsChild(m, owner, n, i, c) ==> IsChild(m', owner', n, i, c)
  }

  /** New tables only: no visible effect on translations, on other frames or on existing links. */
  ghost predicate Extends(s: Vm, owner: seq<Owner>, s': Vm, owner': seq<Owner>) {
    && OnlyNewTables(owner, owner')
    && SameWalks(s.mem, s'.mem, s.root)
    && Untouched(s.mem, s'.mem, owner)
    && KeepsChildren(s.mem, s'.mem, owner, owner')
  }

  /** Slot i of table n is free of a huge page, so ensure_table may follow or fill it. */
  ghost predicate Followable(m: Mem, owner: seq<Owner>, n: nat, i: Index) {
    && IsTable(owner, n) && owner[n].level >= 2
    && (Present(Entry(m, n, i)) ==> owner[n].level == 4 || !Huge(Entry(m, n, i)))
  }

  /**
   * ensure_table keeps the whole invariant and every translation; on success
   * the returned table is the child in the slot, and it fails only when memory is exhausted.
   */
  lemma EnsureTableKeeps(s: Vm, owner: seq<Owner>, n: nat, i: Index) returns (owner': seq<Owner>)
    requires Inv(s, owner) && Followable(s.mem, owner, n, i)
    ensures var (s', c) := EnsureTable(s, n, i);
            && Inv(s', owner') && Extends(s, owner, s', owner')
            && (c == 0 ==> s' == s && owner' == owner && s.frames.free == 0)
            && (c != 0 ==> IsChild(s'.mem, owner', n, i, c))
  {
    owner' := owner;
    assert ChildOk(s.mem, owner, n, i);
    if !Present(Entry(s.mem, n, i)) {
      AllocLowest(s.frames);
      AllocFrames(s.frames, owner, Table(owner[n].level - 1, n, Canon(owner[n].level, i)));
      if Alloc(s.frames).1 != 0 {
        owner' := NewTable(s, owner, n, i);
      }
    }
  }

  /** The case of ensure_table that takes a frame. */
  lemma NewTable(s: Vm, owner: seq<Owner>, n: nat, i: Index) returns (owner': seq<Owner>)
    requires Inv(s, owner) && IsTable(owner, n) && owner[n].level >= 2
    requires !Present(Entry(s.mem, n, i)) && Alloc(s.frames).1 != 0
    ensures var (s', c) := EnsureTable(s, n, i);
            && Inv(s', owner') && Extends(s, owner, s', owner')
            && IsChild(s'.mem, owner', n, i, c)
  {
    var (s', c) := EnsureTable(s, n, i);
    var o := Table(owner[n].level - 1, n, Canon(owner[n].level, i));
    AllocFrames(s.frames, owner, o);
    owner' := owner[c := o];
    assert Linked(s.mem, s'.mem, owner, n, i, c) && Untouched(s.mem, s'.mem, owner);
    LinkedTables(s.mem, s'.mem, s.root, owner, n, i, c);
    LinkedIdentity(s.mem, s'.mem, s.root, owner, n, i, c);
    LinkedWalks(s.mem, s'.mem, s.root, owner, n, i, c);
    LinkedChildren(s.mem, s'.mem, owner, n, i, c);
  }

  lemma LinkedChildren(m: Mem, m': Mem, owner: seq<Owner>, n: nat, i: Index, c: nat)
    requires Linked(m, m', owner, n, i, c)
    ensures var owner' := owner[c := Table(owner[n].level - 1, n, Canon(owner[n].level, i))];
            KeepsChildren(m, m', owner, owner') && IsChild(m', owner', n, i, c)
  {
    EntryFields(c, 0, 0);
  }

  lemma LinkedWalks(m: Mem, m': Mem, root: nat, owner: seq<Owner>, n: nat, i: Index, c: nat)
    requires TablesOk(m, root, owner) && Linked(m, m', owner, n, i, c)
    ensures SameWalks(m, m', root)
  {
    forall w ensures Translate(m', root, w) == Translate(m, root, w)
             ensures Writable(m', root, w) == Writable(m, root, w)
             ensures ClearPath(m', root, w) == ClearPath(m, root, w)
    {
      LinkedWalk(m, m', root, owner, n, i, c, w);
    }
  }

  lemma ExtendsTrans(s: Vm, o: seq<Owner>, s1: Vm, o1: seq<Owner>, s2: Vm, o2: seq<Owner>)
    requires Extends(s, o, s1, o1) && Extends(s1, o1, s2, o2) && s1.root == s.root
    ensures Extends(s, o, s2, o2)
  {
    hide IsChild;
  }

  lemma FollowRoot(m: Mem, root: nat, owner: seq<Owner>, v: Word)
    requires IsTable(owner, root) && owner[root].level == 4
    ensures Followable(m, owner, root, Idx4(v))
  {
  }

  lemma FollowPdpt(m: Mem, root: nat, owner: seq<Owner>, v: Word, pdpt: nat)
    requires TablesOk(m, root, owner) && ClearPath(m, root, v) && IsChild(m, owner, root, Idx4(v), pdpt)
    ensures Followable(m, owner, pdpt, Idx3(v))
  {
  }

  lemma FollowPd(m: Mem, root: nat, owner: seq<Owner>, v: Word, pdpt: nat, pd: nat)
    requires TablesOk(m, root, owner) && ClearPath(m, root, v)
    requires IsChild(m, owner, root, Idx4(v), pdpt) && IsChild(m, owner, pdpt, Idx3(v), pd)
    ensures Followable(m, owner, pd, Idx2(v))
  {
  }

  lemma PathToLeaf(m: Mem, root: nat, owner: seq<Owner>, v: Word, pdpt: nat, pd: nat, pt: nat)
    requires TablesOk(m, root, owner) && IsChild(m, owner, root, Idx4(v), pdpt)
    requires IsChild(m, owner, pdpt, Idx3(v), pd) && IsChild(m, owner, pd, Idx2(v), pt)
    ensures IsTable(owner, pt) && owner[pt].level == 1 && Resolve(m, root, v) == Leaf(pt)
  {
  }

  /** The three tables on v's path: created where needed, without any visible effect. */
  lemma EnsurePathKeeps(s: Vm, owner: seq<Owner>, v: Word) returns (owner': seq<Owner>)
    requires Inv(s, owner) && ClearPath(s.mem, s.root, v)
    ensures var (s', pt) := EnsurePath(s, v);
            && Inv(s', owner') && Extends(s, owner, s', owner')
            && (pt == 0 ==> s'.frames.free == 0)
            && (pt != 0 ==> IsTable(owner', pt) && owner'[pt].level == 1 && Resolve(s'.mem, s.root, v) == Leaf(pt))
  {
    hide EnsureTable, IdentityOk, FramesOk, ChildOk, Translate, Untouched, Entry, Resolve, ClearPath, Followable, IsChild;
    FollowRoot(s.mem, s.root, owner, v);
    var (s3, pdpt) := EnsureTable(s, s.root, Idx4(v));
    var owner3 := EnsureTableKeeps(s, owner, s.root, Idx4(v));
    owner' := owner3;
    if pdpt == 0 { return; }
    FollowPdpt(s3.mem, s.root, owner3, v, pdpt);
    var (s2, pd) := EnsureTable(s3, pdpt, Idx3(v));
    var owner2 := EnsureTableKeeps(s3, owner3, pdpt, Idx3(v));
    owner' := owner2;
    ExtendsTrans(s, owner, s3, owner3, s2, owner2);
    if pd == 0 { return; }
    FollowPd(s2.mem, s.root, owner2, v, pdpt, pd);
    var (s1, pt) := EnsureTable(s2, pd, Idx2(v));
    var owner1 := EnsureTableKeeps(s2, owner2, pd, Idx2(v));
    owner' := owner1;
    ExtendsTrans(s, owner, s2, owner2, s1, owner1);
    if pt != 0 {
      PathToLeaf(s1.mem, s.root, owner1, v, pdpt, pd, pt);
    }
  }

  lemma UntouchedTrans(m: Mem, m1: Mem, m2: Mem, owner: seq<Owner>, owner1: seq<Owner>)
    requires Untouched(m, m1, owner) && Untouched(m1, m2, owner1) && OnlyNewTables(owner, owner1)
    ensures Untouched(m, m2, owner)
  {
  }

  // ----- writing a level-1 entry -----

  /** Storing e in slot i of level-1 table t changes exactly the walks that end in that slot. */
  lemma LeafStore(s: Vm, owner: seq<Owner>, t: nat, i: Index, e: Word)
    requires Inv(s, owner) && IsTable(owner, t) && owner[t].level == 1
    ensures Inv(s.(mem := Put(s.mem, t, i, e)), owner)
    ensures forall w :: Resolve(Put(s.mem, t, i, e), s.root, w) == Resolve(s.mem, s.root, w)
  {
    var m' := Put(s.mem, t, i, e);
    LowTables(s.mem, s.root, owner);
    forall w ensures Resolve(m', s.root, w) == Resolve(s.mem, s.root, w) {
      LeafStoreWalk(s.mem, s.root, owner, t, i, e, w);
    }
    forall k: nat, j: Index | IsTable(owner, k)
      ensures ChildOk(m', owner, k, j)
    {
      assert ChildOk(s.mem, owner, k, j);
    }
  }

  /** Storing e where the walk of v ends changes the translation of v's page and its twin only. */
  lemma StorePage(s: Vm, owner: seq<Owner>, v: Word, t: nat, e: Word)
    requires Inv(s, owner) && Resolve(s.mem, s.root, v) == Leaf(t)
    ensures var s' := s.(mem := Put(s.mem, t, Idx1(v), e));
            && Inv(s', owner)
            && (forall w :: Translate(s'.mem, s.root, w) == if SamePage(v, w) then LeafTarget(e, w) else Translate(s.mem, s.root, w))
            && (forall w :: Writable(s'.mem, s.root, w) == if SamePage(v, w) then Present(e) && WriteBit(e) else Writable(s.mem, s.root, w))
            && (forall w :: ClearPath(s'.mem, s.root, w) == ClearPath(s.mem, s.root, w))
            && Untouched(s.mem, s'.mem, owner)
            && Resolve(s'.mem, s.root, v) == Leaf(t)
  {
    hide Writable;
    ResolveTables(s.mem, s.root, owner, v);
    LeafStore(s, owner, t, Idx1(v), e);
    forall w ensures Translate(Put(s.mem, t, Idx1(v), e), s.root, w) == if SamePage(v, w) then LeafTarget(e, w) else Translate(s.mem, s.root, w)
             ensures Writable(Put(s.mem, t, Idx1(v), e), s.root, w) == if SamePage(v, w) then Present(e) && WriteBit(e) else Writable(s.mem, s.root, w)
    {
      StorePageAt(s.mem, s.root, owner, v, t, e, w);
    }
  }

  lemma StorePageAt(m: Mem, root: nat, owner: seq<Owner>, v: Word, t: nat, e: Word, w: Word)
    requires TablesOk(m, root, owner) && IdentityOk(m, root) && Resolve(m, root, v) == Leaf(t)
    ensures Translate(Put(m, t, Idx1(v), e), root, w) == if SamePage(v, w) then LeafTarget(e, w) else Translate(m, root, w)
    ensures Writable(Put(m, t, Idx1(v), e), root, w) == if SamePage(v, w) then Present(e) && WriteBit(e) else Writable(m, root, w)
  {
    hide Resolve, LeafTarget, ChildOk, IdentityOk, SamePage, Writable;
    LeafUnique(m, root, owner, v, w);
    ResolveTables(m, root, owner, v);
    ResolveTables(m, root, owner, w);
    LeafStoreWalk(m, root, owner, t, Idx1(v), e, w);
  }

  lemma LeafStoreWalk(m: Mem, root: nat, owner: seq<Owner>, t: nat, i: Index, e: Word, w: Word)
    requires TablesOk(m, root, owner) && IsTable(owner, t) && owner[t].level == 1
    ensures Resolve(Put(m, t, i, e), root, w) == Resolve(m, root, w)
    ensures Writable(Put(m, t, i, e), root, w) ==
            if Resolve(m, root, w) == Leaf(t) && Idx1(w) == i then Present(e) && WriteBit(e) else Writable(m, root, w)
  {
    assert ChildOk(m, owner, root, Idx4(w));
    var e4 := Entry(m, root, Idx4(w));
    if Present(e4) {
      assert ChildOk(m, owner, FrameOf(e4), Idx3(w));
      var e3 := Entry(m, FrameOf(e4), Idx3(w));
      if Present(e3) && !Huge(e3) { assert ChildOk(m, owner, FrameOf(e3), Idx2(w)); }
    }
  }

  /** A walk that ends in a level-1 table ends in one that belongs to its indices. */
  lemma ResolveTables(m: Mem, root: nat, owner: seq<Owner>, w: Word)
    requires TablesOk(m, root, owner)
    ensures var r := Resolve(m, root, w); r.Leaf? ==>
              && IsTable(owner, r.table) && owner[r.table].level == 1 && owner[r.table].index == Idx2(w)
              && IsTable(owner, owner[r.table].parent)
              && var t2 := owner[owner[r.table].parent];
              && t2.level == 2 && t2.index == Idx3(w) && IsTable(owner, t2.parent)
              && owner[t2.parent] == Table(3, root, Canon(4, Idx4(w)))
  {
    assert ChildOk(m, owner, root, Idx4(w));
    var e4 := Entry(m, root, Idx4(w));
    if Present(e4) {
      assert ChildOk(m, owner, FrameOf(e4), Idx3(w));
      var e3 := Entry(m, FrameOf(e4), Idx3(w));
      if Present(e3) && !Huge(e3) {
        assert ChildOk(m, owner, FrameOf(e3), Idx2(w));
      }
    }
  }

  /** Two addresses end in the same slot exactly when they are the same page (up to the twin). */
  lemma LeafUnique(m: Mem, root: nat, owner: seq<Owner>, v: Word, w: Word)
    requires TablesOk(m, root, owner) && IdentityOk(m, root)
    requires Resolve(m, root, v).Leaf?
    ensures Resolve(m, root, w) == Resolve(m, root, v) && Idx1(w) == Idx1(v) <==> SamePage(v, w)
  {
    ResolveTables(m, root, owner, v);
    ResolveTables(m, root, owner, w);
    if SamePage(v, w) {
      assert Entry(m, root, Idx4(v)) == Entry(m, root, Idx4(w));
    }
  }

  // ----- stores outside the tables -----

  /** m and m' agree on every page table. */
  ghost predicate SameTables(m: Mem, m': Mem, owner: seq<Owner>) {
    |m'| == |m| && forall k: nat, j: Index :: IsTable(owner, k) ==> Entry(m', k, j) == Entry(m, k, j)
  }

  /** Whatever happens outside the page tables, the invariant and every translation stay. */
  lemma DataStore(s: Vm, m': Mem, owner: seq<Owner>)
    requires Inv(s, owner) && SameTables(s.mem, m', owner)
    ensures Inv(s.(mem := m'), owner) && SameWalks(s.mem, m', s.root)
  {
    LowTables(s.mem, s.root, owner);
    forall k: nat, j: Index | IsTable(owner, k) ensures ChildOk(m', owner, k, j) {
      assert ChildOk(s.mem, owner, k, j);
    }
    forall w ensures Translate(m', s.root, w) == Translate(s.mem, s.root, w)
             ensures Writable(m', s.root, w) == Writable(s.mem, s.root, w)
             ensures ClearPath(m', s.root, w) == ClearPath(s.mem, s.root, w)
    {
      DataStoreWalk(s.mem, m', s.root, owner, w);
    }
  }

  lemma DataStoreWalk(m: Mem, m': Mem, root: nat, owner: seq<Owner>, w: Word)
    requires TablesOk(m, root, owner) && SameTables(m, m', owner)
    ensures Resolve(m', root, w) == Resolve(m, root, w) && Translate(m', root, w) == Translate(m, root, w)
    ensures Writable(m', root, w) == Writable(m, root, w)
  {
    assert ChildOk(m, owner, root, Idx4(w));
    var e4 := Entry(m, root, Idx4(w));
    if Present(e4) {
      assert ChildOk(m, owner, FrameOf(e4), Idx3(w));
      var e3 := Entry(m, FrameOf(e4), Idx3(w));
      if Present(e3) && !Huge(e3) {
        assert ChildOk(m, owner, FrameOf(e3), Idx2(w));
      }
    }
  }

  /** Changing the owner of a frame that is no table does not concern the tables. */
  lemma ReassignTables(m: Mem, root: nat, owner: seq<Owner>, n: nat, o: Owner)
    requires TablesOk(m, root, owner) && n < |owner| && !IsTable(owner, n) && !o.Table?
    ensures TablesOk(m, root, owner[n := o])
  {
    var owner' := owner[n := o];
    forall k: nat, i: Index | IsTable(owner', k) ensures ChildOk(m, owner', k, i) {
      assert ChildOk(m, owner, k, i);
    }
  }

  lemma FreeFrames(fr: Frames, owner: seq<Owner>, n: nat)
    requires FramesOk(fr, owner) && 0 < n < |owner|
    ensures FramesOk(Free(fr, n), owner[n := Unowned])
  {
    FreeCounted(fr, n);
  }

  // ----- the operations refine a map from pages to frames -----

  /**
   * vmm_map_page on a path without huge pages.  A successful call sends v's page
   * (and its twin) to the requested frame; every other translation, and after a
   * failed call every translation, is as before, whatever tables were created.
   * It fails only when no frame is left.
   */
  lemma MapPageRefines(s: Vm, owner: seq<Owner>, v: Word, phys: Word, flags: Word) returns (owner': seq<Owner>)
    requires Inv(s, owner) && ClearPath(s.mem, s.root, v)
    ensures var (s', ok) := MapPage(s, v, phys, flags);
            && Inv(s', owner') && OnlyNewTables(owner, owner')
            && (forall w :: Translate(s'.mem, s.root, w) ==
                            if ok && SamePage(v, w) then Some(InPage(phys, w)) else Translate(s.mem, s.root, w))
            && (forall w :: Writable(s'.mem, s.root, w) == if ok && SamePage(v, w) then WriteBit(flags) else Writable(s.mem, s.root, w))
            && (ok ==> var r := Resolve(s'.mem, s.root, v); r.Leaf? && IsLeafFor(Entry(s'.mem, r.table, Idx1(v)), phys, flags))
            && (forall w :: ClearPath(s'.mem, s.root, w) == ClearPath(s.mem, s.root, w))
            && Untouched(s.mem, s'.mem, owner)
            && (!ok ==> s'.frames.free == 0)
  {
    hide TablesOk, FramesOk, EnsurePath, SamePage, Translate, Resolve, ClearPath, LeafEntry, InPage, KeepsChildren,
         OnlyNewTables, Untouched, Writable;
    owner' := EnsurePathKeeps(s, owner, v);
    var (s1, pt) := EnsurePath(s, v);
    if pt != 0 {
      StorePage(s1, owner', v, pt, LeafEntry(phys, flags));
      LeafEntryTarget(phys, flags);
      LeafStored(s1, pt, Idx1(v), phys, flags, owner');
      UntouchedTrans(s.mem, s1.mem, Put(s1.mem, pt, Idx1(v), LeafEntry(phys, flags)), owner, owner');
    }
  }

  lemma LeafStored(s: Vm, t: nat, i: Index, phys: Word, flags: Word, owner: seq<Owner>)
    requires Inv(s, owner) && IsTable(owner, t)
    ensures var e := Entry(Put(s.mem, t, i, LeafEntry(phys, flags)), t, i);
            e == LeafEntry(phys, flags) && IsLeafFor(e, phys, flags) && WriteBit(e) == WriteBit(flags) && Present(e)
  {
    hide LeafEntry, ChildOk, IdentityOk, FramesOk;
    EntryFields(0, phys, flags);
    SecondBit(LeafEntry(phys, flags));
    SecondBit(flags);
  }

  lemma SecondBit(e: Word)
    ensures WriteBit(e) == (e % PAGE_SIZE / 2 % 2 == 1)
  {
    assert e / 2 == e / PAGE_SIZE * 2048 + e % PAGE_SIZE / 2;
  }

  lemma LeafEntryTarget(phys: Word, flags: Word)
    ensures forall w :: LeafTarget(LeafEntry(phys, flags), w) == Some(InPage(phys, w))
  {
    EntryFields(0, phys, flags);
  }

  /** vmm_unmap_page removes v's page and its twin and nothing else; it fails exactly when a table is missing. */
  lemma UnmapPageRefines(s: Vm, owner: seq<Owner>, v: Word)
    requires Inv(s, owner) && ClearPath(s.mem, s.root, v)
    ensures var (s', ok) := UnmapPage(s, v);
            && Inv(s', owner)
            && (ok <==> Resolve(s.mem, s.root, v).Leaf?)
            && (forall w :: Translate(s'.mem, s.root, w) ==
                            if SamePage(v, w) then None else Translate(s.mem, s.root, w))
            && (forall w :: Writable(s'.mem, s.root, w) == (!SamePage(v, w) && Writable(s.mem, s.root, w)))
            && (forall w :: ClearPath(s'.mem, s.root, w) == ClearPath(s.mem, s.root, w))
            && Untouched(s.mem, s'.mem, owner)
  {
    var r := Resolve(s.mem, s.root, v);
    if r.Leaf? {
      StorePage(s, owner, v, r.table, 0);
    } else {
      forall w | SamePage(v, w) ensures Translate(s.mem, s.root, w) == None {
        TwinWalk(s.mem, s.root, v, w);
      }
    }
  }

  /** The two addresses of a twin always translate alike. */
  lemma TwinWalk(m: Mem, root: nat, v: Word, w: Word)
    requires IdentityOk(m, root) && SamePage(v, w)
    ensures Resolve(m, root, v) == Resolve(m, root, w)
    ensures Translate(m, root, v).None? <==> Translate(m, root, w).None?
  {
  }

  /** Mapping a page that was not mapped and unmapping it again restores every translation. */
  lemma UnmapUndoesMap(s: Vm, owner: seq<Owner>, v: Word, phys: Word, flags: Word)
    requires Inv(s, owner) && ClearPath(s.mem, s.root, v)
    requires Translate(s.mem, s.root, v).None?
    requires MapPage(s, v, phys, flags).1
    ensures var (s', ok) := UnmapPage(MapPage(s, v, phys, flags).0, v);
            && ok && (forall w :: Translate(s'.mem, s.root, w) == Translate(s.mem, s.root, w))
            && (forall w :: Writable(s'.mem, s.root, w) == Writable(s.mem, s.root, w))
  {
    hide TablesOk, FramesOk, MapPage, UnmapPage, SamePage, ClearPath, InPage, LeafEntry, Translate, Writable, Resolve, IsLeafFor;
    var s1 := MapPage(s, v, phys, flags).0;
    var owner1 := MapPageRefines(s, owner, v, phys, flags);
    UnmapPageRefines(s1, owner1, v);
    forall w | SamePage(v, w) ensures Translate(s.mem, s.root, w) == None && !Writable(s.mem, s.root, w) {
      TwinWalk(s.mem, s.root, v, w);
      if Writable(s.mem, s.root, w) { WritableIsMapped(s.mem, s.root, w); }
    }
  }

  lemma WritableIsMapped(m: Mem, root: nat, v: Word)
    requires Writable(m, root, v)
    ensures Translate(m, root, v).Some?
  {
  }

  // ----- vmm_map_alloc_page -----

  ghost predicate SamePaths(m: Mem, m': Mem, root: nat) {
    forall w :: ClearPath(m', root, w) == ClearPath(m, root, w)
  }

  /** v's page (and its twin) now lies in frame f, writable if flags say so; everything else translates as before. */
  ghost predicate MapsTo(m: Mem, m': Mem, root: nat, v: Word, f: nat, flags: Word)
    requires f < HHDM_FRAMES
  {
    && (forall w :: Translate(m', root, w) == if SamePage(v, w) then Some(InPage(f * PAGE_SIZE, w)) else Translate(m, root, w))
    && (forall w :: Writable(m', root, w) == if SamePage(v, w) then WriteBit(flags) else Writable(m, root, w))
  }

  /** The state between pmm_alloc_frame and vmm_map_page: the frame already belongs to o. */
  lemma TakeFrame(s: Vm, owner: seq<Owner>, o: Owner)
    requires Inv(s, owner) && o != Unowned && !o.Table?
    ensures var (fr, f) := Alloc(s.frames);
            if f == 0 then fr == s.frames
            else f < |owner| && f < HHDM_FRAMES && owner[f] == Unowned && Inv(s.(frames := fr), owner[f := o])
  {
    hide IdentityOk, Counted, ChildOk, Alloc;
    AllocFrames(s.frames, owner, o);
    var f := Alloc(s.frames).1;
    if f != 0 { ReassignTables(s.mem, s.root, owner, f, o); }
  }

  /** pmm_free_frame on a frame that is no table. */
  lemma ReleaseFrame(s: Vm, owner: seq<Owner>, f: nat)
    requires Inv(s, owner) && 0 < f < |owner| && !IsTable(owner, f)
    ensures Inv(s.(frames := Free(s.frames, f)), owner[f := Unowned])
  {
    hide IdentityOk, Counted, ChildOk, Free;
    FreeFrames(s.frames, owner, f);
    ReassignTables(s.mem, s.root, owner, f, Unowned);
  }

  /**
   * vmm_map_alloc_page maps v to a frame that was free.  A failed call gives the
   * data frame back and keeps every translation; it may have kept page-table frames.
   */
  lemma MapAllocEffect(s: Vm, owner: seq<Owner>, v: Word, flags: Word, o: Owner) returns (owner': seq<Owner>)
    requires Inv(s, owner) && ClearPath(s.mem, s.root, v) && o != Unowned && !o.Table?
    ensures var (s', f) := MapAllocPage(s, v, flags);
            && Inv(s', owner') && SamePaths(s.mem, s'.mem, s.root) && Untouched(s.mem, s'.mem, owner)
            && (f == 0 ==> OnlyNewTables(owner, owner') && SameWalks(s.mem, s'.mem, s.root))
            && (f != 0 ==> f < |owner| && f < HHDM_FRAMES && owner[f] == Unowned && OnlyNewTables(owner[f := o], owner')
                           && MapsTo(s.mem, s'.mem, s.root, v, f, flags))
  {
    hide TablesOk, IdentityOk, FramesOk, Alloc, MapPage, Free, Translate, ClearPath, SamePage, InPage, Entry, Writable, WriteBit, IsLeafFor, Resolve;
    var (fr, f) := Alloc(s.frames);
    owner' := owner;
    TakeFrame(s, owner, o);
    if f != 0 {
      var s1 := s.(frames := fr);
      var owner1 := owner[f := o];
      owner' := MapPageRefines(s1, owner1, v, f * PAGE_SIZE, flags);
      var (s2, ok) := MapPage(s1, v, f * PAGE_SIZE, flags);
      if !ok {
        ReleaseFrame(s2, owner', f);
        owner' := owner'[f := Unowned];
      }
    }
  }

  // ----- runs -----

  datatype VmOp = Map(v: Word, phys: Word, flags: Word) | Unmap(v: Word)

  function VmStep(s: Vm, op: VmOp): (s': Vm)
    requires Sized(s)
    ensures Sized(s') && s'.root == s.root
  {
    match op
    case Map(v, phys, flags) => MapPage(s, v, phys, flags).0
    case Unmap(v) => UnmapPage(s, v).0
  }

  function VmRun(s: Vm, ops: seq<VmOp>): (s': Vm)
    requires Sized(s)
    ensures Sized(s') && s'.root == s.root
    decreases |ops|
  {
    if ops == [] then s else VmRun(VmStep(s, ops[0]), ops[1..])
  }

  /**
   * Any run of maps and unmaps of pages whose path was free of huge pages at
   * the start.  Every reachable state has an owner map in which page tables are
   * taken frames, so no allocation returns one; huge pages stay where they were.
   */
  lemma {:induction false} RunKeeps(s: Vm, owner: seq<Owner>, ops: seq<VmOp>) returns (owner': seq<Owner>)
    requires Inv(s, owner)
    requires forall op :: op in ops ==> ClearPath(s.mem, s.root, op.v)
    ensures var s' := VmRun(s, ops);
            Inv(s', owner') && OnlyNewTables(owner, owner')
            && (forall w :: ClearPath(s'.mem, s.root, w) == ClearPath(s.mem, s.root, w))
    decreases |ops|
  {
    owner' := owner;
    if ops != [] {
      assert ops[0] in ops;
      var s1 := VmStep(s, ops[0]);
      var owner1 := owner;
      if ops[0].Map? {
        owner1 := MapPageRefines(s, owner, ops[0].v, ops[0].phys, ops[0].flags);
      } else {
        UnmapPageRefines(s, owner, ops[0].v);
      }
      owner' := RunKeeps(s1, owner1, ops[1..]);
    }
  }

  /**
   * The walk supports itself: in every reachable state the kernel still sees
   * all of low memory at its own address and through the direct map, and the
   * frame the allocator would hand out next is not a page table.
   */
  lemma WalkSupportsItself(s: Vm, owner: seq<Owner>, ops: seq<VmOp>, p: nat)
    requires Inv(s, owner) && p < HHDM_FRAMES * PAGE_SIZE
    requires forall op :: op in ops ==> ClearPath(s.mem, s.root, op.v)
    ensures var s' := VmRun(s, ops);
            && Translate(s'.mem, s.root, p) == Some(p)
            && Translate(s'.mem, s.root, HHDM_BASE + p) == Some(p)
            && Writable(s'.mem, s.root, p) && Writable(s'.mem, s.root, HHDM_BASE + p)
    ensures exists owner' :: Inv(VmRun(s, ops), owner') && OnlyNewTables(owner, owner') && !IsTable(owner', Alloc(VmRun(s, ops).frames).1)
  {
    var owner' := RunKeeps(s, owner, ops);
    var s' := VmRun(s, ops);
    DirectMapWalk(s'.mem, s.root, p);
    AllocFrames(s'.frames, owner', Fixed);
  }

  // ----- huge pages on the path -----

  /** Huge pages stay as they are, and no new ones appear. */
  ghost predicate SameHuge(m: Mem, m': Mem, root: nat) {
    forall w :: ClearPath(m', root, w) == ClearPath(m, root, w) && (ClearPath(m, root, w) || Resolve(m', root, w) == Resolve(m, root, w))
  }

  lemma LinkedHuge(m: Mem, m': Mem, root: nat, owner: seq<Owner>, n: nat, i: Index, c: nat, w: Word)
    requires TablesOk(m, root, owner) && Linked(m, m', owner, n, i, c)
    ensures ClearPath(m', root, w) == ClearPath(m, root, w) && (ClearPath(m, root, w) || Resolve(m', root, w) == Resolve(m, root, w))
  {
    LinkedWalk(m, m', root, owner, n, i, c, w);
    assert ChildOk(m, owner, root, Idx4(w));
    var e4 := Entry(m, root, Idx4(w));
    if Present(e4) { assert ChildOk(m, owner, FrameOf(e4), Idx3(w)); }
  }

  lemma EnsureTableHuge(s: Vm, owner: seq<Owner>, n: nat, i: Index)
    requires Inv(s, owner) && Followable(s.mem, owner, n, i)
    ensures SameHuge(s.mem, EnsureTable(s, n, i).0.mem, s.root)
  {
    hide Resolve, ClearPath, IdentityOk, ChildOk;
    var (s', c) := EnsureTable(s, n, i);
    if !Present(Entry(s.mem, n, i)) {
      AllocFrames(s.frames, owner, Table(owner[n].level - 1, n, Canon(owner[n].level, i)));
      if c != 0 {
        forall w ensures ClearPath(s'.mem, s.root, w) == ClearPath(s.mem, s.root, w)
                         && (ClearPath(s.mem, s.root, w) || Resolve(s'.mem, s.root, w) == Resolve(s.mem, s.root, w))
        {
          LinkedHuge(s.mem, s'.mem, s.root, owner, n, i, c, w);
        }
      }
    }
  }

  lemma EnsurePathHuge(s: Vm, owner: seq<Owner>, v: Word)
    requires Inv(s, owner) && ClearPath(s.mem, s.root, v)
    ensures SameHuge(s.mem, EnsurePath(s, v).0.mem, s.root)
  {
    hide EnsureTable, IdentityOk, FramesOk, ChildOk, Translate, Untouched, Entry, Resolve, ClearPath, Followable, IsChild;
    FollowRoot(s.mem, s.root, owner, v);
    var (s3, pdpt) := EnsureTable(s, s.root, Idx4(v));
    EnsureTableHuge(s, owner, s.root, Idx4(v));
    var owner3 := EnsureTableKeeps(s, owner, s.root, Idx4(v));
    if pdpt == 0 { return; }
    FollowPdpt(s3.mem, s.root, owner3, v, pdpt);
    var (s2, pd) := EnsureTable(s3, pdpt, Idx3(v));
    EnsureTableHuge(s3, owner3, pdpt, Idx3(v));
    var owner2 := EnsureTableKeeps(s3, owner3, pdpt, Idx3(v));
    if pd == 0 { return; }
    FollowPd(s2.mem, s.root, owner2, v, pdpt, pd);
    EnsureTableHuge(s2, owner2, pd, Idx2(v));
  }

  /** No step on a clear path makes, unmakes or changes a huge page. */
  lemma StepKeepsHuge(s: Vm, owner: seq<Owner>, op: VmOp)
    requires Inv(s, owner) && ClearPath(s.mem, s.root, op.v)
    ensures SameHuge(s.mem, VmStep(s, op).mem, s.root)
  {
    hide TablesOk, IdentityOk, FramesOk, EnsurePath;
    if op.Map? {
      EnsurePathHuge(s, owner, op.v);
      var (s1, pt) := EnsurePath(s, op.v);
      var owner1 := EnsurePathKeeps(s, owner, op.v);
      if pt != 0 { LeafStore(s1, owner1, pt, Idx1(op.v), LeafEntry(op.phys, op.flags)); }
    } else {
      ResolveTables(s.mem, s.root, owner, op.v);
      var t := UnmapTable(s.mem, s.root, op.v);
      if t.Some? { LeafStore(s, owner, t.value, Idx1(op.v), 0); }
    }
  }

  lemma {:induction false} RunKeepsHuge(s: Vm, owner: seq<Owner>, ops: seq<VmOp>)
    requires Inv(s, owner)
    requires forall op :: op in ops ==> ClearPath(s.mem, s.root, op.v)
    ensures SameHuge(s.mem, VmRun(s, ops).mem, s.root)
    decreases |ops|
  {
    hide TablesOk, IdentityOk, FramesOk, Resolve, ClearPath, VmStep, Translate;
    if ops != [] {
      var op := ops[0];
      assert op in ops;
      StepKeepsHuge(s, owner, op);
      var owner1 := RunKeeps(s, owner, [op]);
      assert [op][1..] == [] && VmRun(VmStep(s, op), []) == VmStep(s, op);
      RunKeepsHuge(VmStep(s, op), owner1, ops[1..]);
    }
  }

  /** 4 KiB pages lead to addresses of at most 52 bits. */
  ghost predicate SmallTargets(m: Mem, root: nat) {
    forall w :: ClearPath(m, root, w) && Translate(m, root, w).Some? ==> Translate(m, root, w).value < 0x10_0000_0000_0000
  }

  lemma {:induction false} RunKeepsSmall(s: Vm, owner: seq<Owner>, ops: seq<VmOp>)
    requires Inv(s, owner) && SmallTargets(s.mem, s.root)
    requires forall op :: op in ops ==> ClearPath(s.mem, s.root, op.v) && (op.Map? ==> op.phys < 0x10_0000_0000_0000)
    ensures SmallTargets(VmRun(s, ops).mem, s.root)
    decreases |ops|
  {
    hide TablesOk, IdentityOk, FramesOk, Resolve, ClearPath, Translate, MapPage, UnmapPage, InPage;
    if ops != [] {
      var op, s1, owner1 := ops[0], VmStep(s, ops[0]), owner;
      assert op in ops;
      if op.Map? {
        owner1 := MapPageRefines(s, owner, op.v, op.phys, op.flags);
        SmallInPage(op.phys);
      } else {
        UnmapPageRefines(s, owner, op.v);
      }
      RunKeepsSmall(s1, owner1, ops[1..]);
    }
  }

  lemma SmallInPage(phys: Word)
    requires phys < 0x10_0000_0000_0000
    ensures forall w :: InPage(phys, w) < 0x10_0000_0000_0000
  {
    assert phys / PAGE_SIZE < 0x100_0000_0000;
  }

  /** Word i of frame n is one of those the walk of v reads when a 2 MiB entry ends it. */
  predicate OnWalk(m: Mem, root: nat, v: Word, n: nat, i: Index) {
    var e4 := Entry(m, root, Idx4(v));
    || (n == root && i == Idx4(v))
    || (n == FrameOf(e4) && i == Idx3(v))
    || (n == FrameOf(Entry(m, FrameOf(e4), Idx3(v))) && i == Idx2(v))
  }

  /**
   * The precondition is needed.  When a 2 MiB entry maps v, vmm_map_page still
   * reports success, but it stores into the mapped data: word Idx1(v) of the huge
   * page's first frame.  Unless that very word belongs to the tables on v's path,
   * v keeps translating to where it did.  vmm_unmap_page does the same with a 0.
   */
  lemma HugePathCorrupts(s: Vm, owner: seq<Owner>, v: Word, phys: Word, flags: Word)
    requires Inv(s, owner) && Resolve(s.mem, s.root, v).Large?
    ensures var base, (s', ok) := FrameOf(Resolve(s.mem, s.root, v).entry), MapPage(s, v, phys, flags);
            && (ok <==> base != 0)
            && (ok ==> s' == s.(mem := Put(s.mem, base, Idx1(v), LeafEntry(phys, flags))))
            && (!OnWalk(s.mem, s.root, v, base, Idx1(v)) ==> Translate(s'.mem, s.root, v) == Translate(s.mem, s.root, v))
            && (!IsTable(owner, base) ==> !OnWalk(s.mem, s.root, v, base, Idx1(v)))
  {
    HugePathTables(s, owner, v);
  }

  lemma HugePathUnmapped(s: Vm, owner: seq<Owner>, v: Word)
    requires Inv(s, owner) && Resolve(s.mem, s.root, v).Large?
    ensures var base, (s', ok) := FrameOf(Resolve(s.mem, s.root, v).entry), UnmapPage(s, v);
            && ok && s' == s.(mem := Put(s.mem, base, Idx1(v), 0))
            && (!OnWalk(s.mem, s.root, v, base, Idx1(v)) ==> Translate(s'.mem, s.root, v) == Translate(s.mem, s.root, v))
  {
    HugePathTables(s, owner, v);
  }

  lemma HugePathTables(s: Vm, owner: seq<Owner>, v: Word)
    requires Inv(s, owner) && Resolve(s.mem, s.root, v).Large?
    ensures var t3 := FrameOf(Entry(s.mem, s.root, Idx4(v))); IsTable(owner, t3) && IsTable(owner, FrameOf(Entry(s.mem, t3, Idx3(v))))
  {
    assert ChildOk(s.mem, owner, s.root, Idx4(v));
    var t3 := FrameOf(Entry(s.mem, s.root, Idx4(v)));
    assert ChildOk(s.mem, owner, t3, Idx3(v));
  }
}
