/**
 * The virtual memory manager of src/mem/vmm.c on a flat physical memory.  Every
 * access goes through the page tables themselves: a load or store translates
 * its virtual address with the tables as they are at that moment, and its
 * precondition is that this does not fault; a store also needs the R/W bit on
 * every level of the walk.
 */
module Vmm {
  import opened Words
  import opened Frames
  import opened Paging
  import opened PagingLaws
  import P = Pmm

  /** &((uint64_t*)PHYS_TO_VIRT(tablePhys))[i] for the table in frame n */
  function EntryPtr(tablePhys: Word, i: Index, ghost n: nat): (ptr: Word)
    requires tablePhys == n * PAGE_SIZE && n < HHDM_FRAMES
    ensures ptr == DirectMap(n, 8 * i)
  {
    HHDM_BASE + tablePhys + 8 * i
  }

  lemma WordIndex(n: nat, i: Index)
    ensures (n * PAGE_SIZE + 8 * i) % 8 == 0 && (n * PAGE_SIZE + 8 * i) / 8 == n * WORDS_PER_PAGE + i
  {
  }

  lemma PageOfFrame(e: Word)
    ensures PageBase(e) == FrameOf(e) * PAGE_SIZE
  {
  }

  class Vmm {
    const mem: array<Word>
    const pmm: P.Pmm
    var pml4Phys: Word
    ghost var owner: seq<Owner>

    ghost function Root(): nat
      reads `pml4Phys
    {
      FrameOf(pml4Phys)
    }

    ghost predicate Shape()
      reads `pml4Phys, pmm, pmm.bitmap
    {
      && mem as object != pmm.bitmap
      && pmm.Valid()
      && pml4Phys == Root() * PAGE_SIZE
    }

    ghost function State(): Vm
      requires Shape()
      reads `pml4Phys, mem, pmm, pmm.bitmap
    {
      Vm(mem[..], Root(), pmm.State())
    }

    /** Before vmm_init there is no root; afterwards the paging invariant holds. */
    ghost predicate Valid()
      reads this, mem, pmm, pmm.bitmap
    {
      && Shape()
      && Sized(State())
      && (pml4Phys != 0 ==> Inv(State(), owner))
    }

    /** vmm_init: adopts the tables that CR3 points to. */
    constructor (mem: array<Word>, pmm: P.Pmm, cr3: Word, ghost owner: seq<Owner>)
      requires mem as object != pmm.bitmap && pmm.Valid() && cr3 % PAGE_SIZE == 0
      requires Inv(Vm(mem[..], FrameOf(cr3), pmm.State()), owner)
      ensures Valid() && this.mem == mem && this.pmm == pmm
      ensures State() == Vm(mem[..], FrameOf(cr3), pmm.State()) && this.owner == owner
    {
      this.mem, this.pmm := mem, pmm;
      pml4Phys := cr3;
      this.owner := owner;
    }

    // ----- accesses through the page tables -----

    /** The access to the aligned word at v does not fault and hits existing memory. */
    ghost predicate Mapped(v: Word)
      reads `pml4Phys, mem
    {
      var pa := Translate(mem[..], Root(), v);
      pa.Some? && pa.value % 8 == 0 && pa.value / 8 < mem.Length
    }

    /** Index of the physical word behind v. */
    ghost function At(v: Word): nat
      requires Mapped(v)
      reads `pml4Phys, mem
    {
      Translate(mem[..], Root(), v).value / 8
    }

    method Load(v: Word) returns (w: Word)
      requires Mapped(v)
      ensures w == mem[At(v)]
    {
      var pa := Translate(mem[..], pml4Phys / PAGE_SIZE, v);
      w := mem[pa.value / 8];
    }

    method Store(v: Word, w: Word)
      requires Mapped(v) && Writable(mem[..], Root(), v)
      modifies mem
      ensures mem[..] == old(mem[..])[old(At(v)) := w]
    {
      var pa := Translate(mem[..], pml4Phys / PAGE_SIZE, v);
      mem[pa.value / 8] := w;
    }

    /** Through the direct map, word i of frame n is where it should be. */
    lemma DirectAccess(n: nat, i: Index)
      requires IdentityOk(mem[..], Root())
      requires n < HHDM_FRAMES && (n + 1) * WORDS_PER_PAGE <= mem.Length
      ensures Mapped(DirectMap(n, 8 * i)) && At(DirectMap(n, 8 * i)) == n * WORDS_PER_PAGE + i
      ensures Writable(mem[..], Root(), DirectMap(n, 8 * i))
    {
      hide IdentityOk, Translate, Writable;
      DirectMapWalk(mem[..], Root(), n * PAGE_SIZE + 8 * i);
      WordIndex(n, i);
    }

    /** Reads word i of the table at physical address tablePhys, frame n. */
    method LoadEntry(tablePhys: Word, i: Index, ghost n: nat) returns (w: Word)
      requires IdentityOk(mem[..], Root())
      requires tablePhys == n * PAGE_SIZE && n < HHDM_FRAMES && (n + 1) * WORDS_PER_PAGE <= mem.Length
      ensures w == Entry(mem[..], n, i)
    {
      DirectAccess(n, i);
      hide IdentityOk, Mapped, At, Writable;
      w := Load(EntryPtr(tablePhys, i, n));
    }

    method StoreEntry(tablePhys: Word, i: Index, w: Word, ghost n: nat)
      requires IdentityOk(mem[..], Root())
      requires tablePhys == n * PAGE_SIZE && n < HHDM_FRAMES && (n + 1) * WORDS_PER_PAGE <= mem.Length
      modifies mem
      ensures mem[..] == Put(old(mem[..]), n, i, w)
    {
      DirectAccess(n, i);
      hide IdentityOk, Mapped, At, Writable;
      Store(EntryPtr(tablePhys, i, n), w);
    }

    /** memset(PHYS_TO_VIRT(phys), 0, 4096) on a frame that carries no part of the direct map. */
    method ZeroPage(phys: Word, ghost n: nat)
      requires IdentityOk(mem[..], Root())
      requires phys == n * PAGE_SIZE && n < HHDM_FRAMES && (n + 1) * WORDS_PER_PAGE <= mem.Length
      requires n < Root() || Root() + 6 <= n
      requires mem.Length % WORDS_PER_PAGE == 0
      modifies mem
      ensures mem[..] == ZeroFrame(old(mem[..]), n)
      ensures IdentityOk(mem[..], Root())
    {
      var j := 0;
      while j < WORDS_PER_PAGE
        invariant 0 <= j <= WORDS_PER_PAGE
        invariant IdentityOk(mem[..], Root())
        invariant forall k: nat, i: Index :: Entry(mem[..], k, i) == if k == n && i < j then 0 else old(Entry(mem[..], k, i))
      {
        StoreEntry(phys, j, 0, n);
        j := j + 1;
      }
      SameEntries(mem[..], ZeroFrame(old(mem[..]), n));
    }

    /** Managed frames are frames of memory, below the direct map's limit; so are tables. */
    lemma FrameInMemory(n: nat)
      requires Valid() && pml4Phys != 0 && n < |owner|
      ensures n < HHDM_FRAMES && (n + 1) * WORDS_PER_PAGE <= mem.Length && mem.Length % WORDS_PER_PAGE == 0
      ensures IdentityOk(mem[..], Root()) && IsTable(owner, Root()) && owner[Root()].level == 4
      ensures IsTable(owner, n) ==> 0 < n
    {
      hide IdentityOk, ChildOk, Counted;
    }

    lemma MemorySize()
      requires Valid() && pml4Phys != 0
      ensures mem.Length == |owner| * WORDS_PER_PAGE && |owner| <= HHDM_FRAMES
    {
      hide IdentityOk, ChildOk, Counted;
    }

    lemma RootInMemory()
      requires Valid() && pml4Phys != 0
      ensures IsTable(owner, Root())
    {
      hide IdentityOk, ChildOk, Counted;
    }

    // ----- the code of vmm.c -----

    /** The frame the allocator would hand out is no table, so it carries no part of the direct map. */
    lemma FreshFrame()
      requires Valid() && pml4Phys != 0
      ensures var c := Alloc(State().frames).1;
              c != 0 ==> c < |owner| && owner[c] == Unowned && (c < Root() || Root() + 6 <= c)
    {
      hide IdentityOk, ChildOk, Counted, Alloc;
      AllocFrames(State().frames, owner, Fixed);
      LowTables(mem[..], Root(), owner);
    }

    /** The allocating half of ensure_table: takes a frame, clears it and links it. */
    method NewTable(tablePhys: Word, i: Index, ghost n: nat) returns (r: Word)
      requires Valid() && pml4Phys != 0
      requires IsTable(owner, n) && tablePhys == n * PAGE_SIZE
      modifies mem, pmm`freeFrames, pmm.bitmap
      ensures Shape()
      ensures var (fr, f) := Alloc(old(State()).frames);
              && r == f * PAGE_SIZE && pmm.State() == fr
              && (f == 0 ==> mem[..] == old(mem[..]))
              && (f != 0 ==> f < HHDM_FRAMES && (f + 1) * WORDS_PER_PAGE <= mem.Length &&
                             mem[..] == Put(ZeroFrame(old(mem[..]), f), n, i, TableEntry(f)))
    {
      hide TablesOk, FramesOk, Counted, IdentityOk, Alloc, FrameOf, Put, ZeroFrame, Entry, P.Pmm.State, P.Pmm.IsUsed;
      ghost var c := Alloc(State().frames).1;
      FreshFrame();
      FrameInMemory(n);
      if c != 0 { FrameInMemory(c); }
      r := pmm.AllocFrame();
      if r != 0 {
        ZeroPage(r, c);
        StoreEntry(tablePhys, i, r + 3, n);
      }
    }

    /** ensure_table on the entry &table[i], where the table is frame n. */
    method EnsureTable(tablePhys: Word, i: Index, ghost n: nat) returns (r: Word)
      requires Valid() && pml4Phys != 0
      requires Followable(mem[..], owner, n, i) && tablePhys == n * PAGE_SIZE
      modifies mem, pmm`freeFrames, pmm.bitmap, `owner
      ensures Valid()
      ensures State() == Paging.EnsureTable(old(State()), n, i).0
      ensures r == Paging.EnsureTable(old(State()), n, i).1 * PAGE_SIZE
      ensures Extends(old(State()), old(owner), State(), owner)
      ensures r != 0 ==> IsChild(mem[..], owner, n, i, Paging.EnsureTable(old(State()), n, i).1)
    {
      hide P.Pmm.IsUsed, P.Pmm.State, TablesOk, FramesOk, IdentityOk, Counted, Entry, Extends, IsChild, Alloc, FrameOf,
           PageBase, Present, Huge;
      ghost var s := State();
      ghost var owner' := EnsureTableKeeps(s, owner, n, i);
      FrameInMemory(n);
      var e := LoadEntry(tablePhys, i, n);
      if Present(e) {
        PageOfFrame(e);
        r := PageBase(e);
      } else {
        r := NewTable(tablePhys, i, n);
      }
      owner := owner';
    }

    /** The three ensure_table calls of vmm_map_page: address of the level-1 table, 0 on failure. */
    method EnsurePath(virt: Word) returns (r: Word)
      requires Valid() && pml4Phys != 0 && ClearPath(mem[..], Root(), virt)
      modifies mem, pmm`freeFrames, pmm.bitmap, `owner
      ensures Valid() && OnlyNewTables(old(owner), owner)
      ensures State() == Paging.EnsurePath(old(State()), virt).0
      ensures var pt := Paging.EnsurePath(old(State()), virt).1;
              && r == pt * PAGE_SIZE
              && (r != 0 ==> IsTable(owner, pt) && owner[pt].level == 1 && Resolve(mem[..], Root(), virt) == Leaf(pt))
    {
      hide P.Pmm.IsUsed, P.Pmm.State, TablesOk, FramesOk, IdentityOk, Counted, Paging.EnsureTable, Untouched, Resolve,
           IsChild, Translate, Writable, Followable, FrameOf, Idx4, Idx3, Idx2;
      RootInMemory();
      FrameInMemory(Root());
      FollowRoot(mem[..], Root(), owner, virt);
      ghost var s := State();
      var pdptPhys := EnsureTable(pml4Phys, Idx4(virt), Root());
      ghost var (s3, pdpt) := Paging.EnsureTable(s, s.root, Idx4(virt));
      if pdptPhys == 0 { return 0; }
      FollowPdpt(mem[..], Root(), owner, virt, pdpt);
      var pdPhys := EnsureTable(pdptPhys, Idx3(virt), pdpt);
      ghost var (s2, pd) := Paging.EnsureTable(s3, pdpt, Idx3(virt));
      if pdPhys == 0 { return 0; }
      FollowPd(mem[..], Root(), owner, virt, pdpt, pd);
      r := EnsureTable(pdPhys, Idx2(virt), pd);
      if r != 0 {
        PathToLeaf(mem[..], Root(), owner, virt, pdpt, pd, Paging.EnsureTable(s2, pd, Idx2(virt)).1);
      }
    }

    /** vmm_map_page: 0 on success, -1 on failure. */
    method MapPage(virt: Word, phys: Word, flags: Word) returns (r: int)
      requires Valid()
      requires pml4Phys != 0 ==> ClearPath(mem[..], Root(), virt)
      modifies mem, pmm`freeFrames, pmm.bitmap, `owner
      ensures Valid() && OnlyNewTables(old(owner), owner)
      ensures State() == Paging.MapPage(old(State()), virt, phys, flags).0
      ensures r == if Paging.MapPage(old(State()), virt, phys, flags).1 then 0 else -1
    {
      hide P.Pmm.IsUsed, P.Pmm.State, TablesOk, FramesOk, IdentityOk, Counted, Resolve, LeafEntry, Translate, Writable,
           Paging.EnsurePath, Idx1, FrameOf;
      if pml4Phys == 0 { return -1; }
      ghost var pt := Paging.EnsurePath(State(), virt).1;
      var ptPhys := EnsurePath(virt);
      if ptPhys == 0 { return -1; }
      FrameInMemory(pt);
      StorePage(State(), owner, virt, pt, LeafEntry(phys, flags));
      StoreEntry(ptPhys, Idx1(virt), LeafEntry(phys, flags), pt);
      r := 0;
    }

    /** vmm_unmap_page: 0 on success, -1 when a table on the path is missing. */
    method UnmapPage(virt: Word) returns (r: int)
      requires Valid()
      requires pml4Phys != 0 ==> ClearPath(mem[..], Root(), virt)
      modifies mem
      ensures Valid()
      ensures State() == Paging.UnmapPage(old(State()), virt).0
      ensures r == if Paging.UnmapPage(old(State()), virt).1 then 0 else -1
    {
      hide P.Pmm.IsUsed, P.Pmm.State, TablesOk, FramesOk, IdentityOk, Counted, Translate, Writable, Entry, FrameOf, PageBase, Present,
           Huge, Idx4, Idx3, Idx2, Idx1, SamePage;
      if pml4Phys == 0 { return -1; }
      UnmapPageRefines(State(), owner, virt);
      TablesInRange(virt);
      var e4 := LoadEntry(pml4Phys, Idx4(virt), Root());
      if !Present(e4) { return -1; }
      PageOfFrame(e4);
      var e3 := LoadEntry(PageBase(e4), Idx3(virt), FrameOf(e4));
      if !Present(e3) { return -1; }
      PageOfFrame(e3);
      var e2 := LoadEntry(PageBase(e3), Idx2(virt), FrameOf(e3));
      if !Present(e2) { return -1; }
      PageOfFrame(e2);
      StoreEntry(PageBase(e2), Idx1(virt), 0, FrameOf(e2));
      r := 0;
    }

    /** Every table that a walk of v reads is a frame of memory. */
    lemma TablesInRange(v: Word)
      requires Valid() && pml4Phys != 0
      ensures IdentityOk(mem[..], Root()) && Root() < |owner| <= HHDM_FRAMES && mem.Length == |owner| * WORDS_PER_PAGE
      ensures InRange(mem[..], Root(), |owner|, v)
    {
      assert ChildOk(mem[..], owner, Root(), Idx4(v));
      var e4 := Entry(mem[..], Root(), Idx4(v));
      if Present(e4) {
        assert ChildOk(mem[..], owner, FrameOf(e4), Idx3(v));
        var e3 := Entry(mem[..], FrameOf(e4), Idx3(v));
        if Present(e3) && !Huge(e3) {
          assert ChildOk(mem[..], owner, FrameOf(e3), Idx2(v));
        }
      }
    }

    /** vmm_translate: the physical address, or 0 when v is not mapped. */
    method TranslatePage(virt: Word) returns (r: Word)
      requires Valid()
      ensures pml4Phys == 0 ==> r == 0
      ensures pml4Phys != 0 ==> r == match Translate(mem[..], Root(), virt) case None => 0 case Some(pa) => pa
    {
      hide P.Pmm.IsUsed, P.Pmm.State, TablesOk, FramesOk, IdentityOk, Counted, Entry, FrameOf, PageBase, Present, Huge,
           Idx4, Idx3, Idx2, Idx1;
      if pml4Phys == 0 { return 0; }
      TablesInRange(virt);
      var e4 := LoadEntry(pml4Phys, Idx4(virt), Root());
      if !Present(e4) { return 0; }
      PageOfFrame(e4);
      var e3 := LoadEntry(PageBase(e4), Idx3(virt), FrameOf(e4));
      if !Present(e3) { return 0; }
      if Huge(e3) { return e3 / 0x4000_0000 % 0x40_0000 * 0x4000_0000 + virt % 0x4000_0000; }
      PageOfFrame(e3);
      var e2 := LoadEntry(PageBase(e3), Idx2(virt), FrameOf(e3));
      if !Present(e2) { return 0; }
      if Huge(e2) { return e2 / 0x20_0000 % 0x800_0000 * 0x20_0000 + virt % 0x20_0000; }
      PageOfFrame(e2);
      var e1 := LoadEntry(PageBase(e2), Idx1(virt), FrameOf(e2));
      if !Present(e1) { return 0; }
      r := InPage(e1, virt);
    }

    /** vmm_map_alloc_page: the fresh frame's address, 0 on failure. */
    method MapAllocPage(virt: Word, flags: Word) returns (phys: Word)
      requires Valid() && pml4Phys != 0 && ClearPath(mem[..], Root(), virt)
      modifies mem, pmm`freeFrames, pmm.bitmap, `owner
      ensures Valid() && |owner| == |old(owner)|
      ensures State() == Paging.MapAllocPage(old(State()), virt, flags).0
      ensures phys == Paging.MapAllocPage(old(State()), virt, flags).1 * PAGE_SIZE
      ensures SamePaths(old(mem[..]), mem[..], Root())
    {
      hide TablesOk, FramesOk, IdentityOk, Counted, Alloc, Paging.MapPage, Translate, Writable, ClearPath, SamePage, InPage, Entry,
           P.Pmm.State, P.Pmm.IsUsed;
      ghost var s, owner0 := State(), owner;
      ghost var c := Alloc(s.frames).1;
      ghost var _ := MapAllocEffect(s, owner, virt, flags, Fixed);
      phys := AllocOwned(Fixed);
      if phys == 0 { return; }
      ghost var s1, owner1 := State(), owner;
      ghost var _ := MapPageRefines(s1, owner1, virt, phys, flags);
      var r := MapPage(virt, phys, flags);
      if r < 0 {
        FreeOwned(phys, c);
        phys := 0;
      }
    }

    /** Any owner map that satisfies the invariant serves. */
    ghost method SetOwner(owner': seq<Owner>)
      requires Valid() && Inv(State(), owner')
      modifies `owner
      ensures Valid() && owner == owner' && State() == old(State())
    {
      hide Inv, P.Pmm.State, P.Pmm.IsUsed;
      owner := owner';
    }

    // ----- data frames -----

    /** pmm_alloc_frame on behalf of owner o: the frame's address, 0 on failure. */
    method AllocOwned(ghost o: Owner) returns (phys: Word)
      requires Valid() && pml4Phys != 0 && o != Unowned && !o.Table?
      modifies pmm`freeFrames, pmm.bitmap, `owner
      ensures Valid()
      ensures State() == old(State()).(frames := Alloc(old(State()).frames).0)
      ensures var c := Alloc(old(State()).frames).1;
              && phys == c * PAGE_SIZE
              && (c == 0 ==> owner == old(owner))
              && (c != 0 ==> c < |old(owner)| && old(owner)[c] == Unowned && owner == old(owner)[c := o])
    {
      hide ChildOk, IdentityOk, Counted, Alloc, P.Pmm.State, P.Pmm.IsUsed;
      ghost var c := Alloc(State().frames).1;
      AllocFrames(State().frames, owner, o);
      ReassignTables(mem[..], Root(), owner, c, o);
      phys := pmm.AllocFrame();
      if phys != 0 {
        owner := owner[c := o];
      }
    }

    /** pmm_free_frame on a frame that is no table. */
    method FreeOwned(phys: Word, ghost n: nat)
      requires Valid() && pml4Phys != 0 && n < |owner| && phys == n * PAGE_SIZE
      requires n != 0 && !IsTable(owner, n)
      modifies pmm`freeFrames, pmm.bitmap, `owner
      ensures Valid()
      ensures State() == old(State()).(frames := Free(old(State()).frames, n))
      ensures owner == old(owner)[n := Unowned]
    {
      hide ChildOk, IdentityOk, Counted, Free, P.Pmm.State, P.Pmm.IsUsed;
      FreeFrames(State().frames, owner, n);
      ReassignTables(mem[..], Root(), owner, n, Unowned);
      pmm.FreeFrame(phys);
      owner := owner[n := Unowned];
    }

    /** A used frame that is no table passes to another owner. */
    ghost method Reassign(n: nat, o: Owner)
      requires Valid() && pml4Phys != 0 && 0 < n < |owner| && !IsTable(owner, n) && owner[n] != Unowned
      requires !o.Table? && o != Unowned
      modifies `owner
      ensures Valid() && owner == old(owner)[n := o] && State() == old(State())
    {
      hide ChildOk, IdentityOk, Counted, P.Pmm.State, P.Pmm.IsUsed;
      ReassignTables(mem[..], Root(), owner, n, o);
      owner := owner[n := o];
    }

    /** A direct-map address given to pmm_free_frame is out of range and ignored. */
    lemma DirectMapOutOfRange(n: nat)
      requires Valid() && pml4Phys != 0 && n < HHDM_FRAMES
      ensures DirectMap(n, 0) / PAGE_SIZE >= |State().frames.used|
    {
      hide IdentityOk, ChildOk, Counted;
    }

    /** A load through the direct map. */
    method LoadWord(ptr: Word, ghost n: nat, ghost i: Index) returns (w: Word)
      requires Valid() && pml4Phys != 0 && n < |owner| <= HHDM_FRAMES && ptr == DirectMap(n, 8 * i)
      ensures w == Entry(mem[..], n, i)
    {
      hide Inv, IdentityOk, Mapped, At, Writable, DirectMap;
      FrameInMemory(n);
      DirectAccess(n, i);
      w := Load(ptr);
    }

    /** A store through the direct map to a frame that is no table. */
    method StoreWord(ptr: Word, w: Word, ghost n: nat, ghost i: Index)
      requires Valid() && pml4Phys != 0 && n < |owner| <= HHDM_FRAMES && ptr == DirectMap(n, 8 * i) && !IsTable(owner, n)
      modifies mem
      ensures Valid() && State() == old(State()).(mem := Put(old(mem[..]), n, i, w))
      ensures SameWalks(old(mem[..]), mem[..], Root())
    {
      hide Inv, IdentityOk, Mapped, At, Writable, DirectMap, SameWalks;
      FrameInMemory(n);
      DirectAccess(n, i);
      DataStore(State(), Put(mem[..], n, i, w), owner);
      Store(ptr, w);
    }

    /** A load at a mapped page: word i of the frame n behind it. */
    method LoadMapped(v: Word, ghost n: nat, ghost i: Index) returns (w: Word)
      requires Valid() && pml4Phys != 0 && n < |owner| <= HHDM_FRAMES
      requires Translate(mem[..], Root(), v) == Some(n * PAGE_SIZE + 8 * i)
      ensures w == Entry(mem[..], n, i)
    {
      hide Inv, IdentityOk, Translate, Writable;
      FrameInMemory(n);
      WordIndex(n, i);
      w := Load(v);
    }

    /** A store at a page that is mapped writable and whose frame is no table. */
    method StoreMapped(v: Word, w: Word, ghost n: nat, ghost i: Index)
      requires Valid() && pml4Phys != 0 && n < |owner| <= HHDM_FRAMES && !IsTable(owner, n)
      requires Translate(mem[..], Root(), v) == Some(n * PAGE_SIZE + 8 * i) && Writable(mem[..], Root(), v)
      modifies mem
      ensures Valid() && State() == old(State()).(mem := Put(old(mem[..]), n, i, w))
      ensures SameWalks(old(mem[..]), mem[..], Root())
    {
      hide Inv, IdentityOk, Translate, Writable, SameWalks;
      FrameInMemory(n);
      WordIndex(n, i);
      DataStore(State(), Put(mem[..], n, i, w), owner);
      Store(v, w);
    }

    /** memset(ptr, 0, 4096) on a data frame. */
    method ZeroData(phys: Word, ghost n: nat)
      requires Valid() && pml4Phys != 0 && n < |owner| && phys == n * PAGE_SIZE && !IsTable(owner, n)
      modifies mem
      ensures Valid() && |ZeroAt(old(mem[..]), n)| == |old(mem[..])| && State() == old(State()).(mem := ZeroAt(old(mem[..]), n))
      ensures SameWalks(old(mem[..]), mem[..], Root())
    {
      hide Inv, TablesOk, IdentityOk, SameWalks, ZeroFrame;
      FrameInMemory(n);
      InvTables();
      LowTables(mem[..], Root(), owner);
      DataStore(State(), ZeroFrame(mem[..], n), owner);
      ZeroPage(phys, n);
    }

    lemma InvTables()
      requires Valid() && pml4Phys != 0
      ensures TablesOk(mem[..], Root(), owner) && IdentityOk(mem[..], Root())
    {
    }
  }

  function ZeroAt(m: Mem, n: nat): Mem {
    if (n + 1) * WORDS_PER_PAGE <= |m| then ZeroFrame(m, n) else m
  }

  /** The tables that a walk of v reads have numbers below `limit`. */
  ghost predicate InRange(m: Mem, root: nat, limit: nat, v: Word) {
    var e4 := Entry(m, root, Idx4(v));
    Present(e4) ==>
      (&& FrameOf(e4) < limit
       && var e3 := Entry(m, FrameOf(e4), Idx3(v));
       Present(e3) && !Huge(e3) ==>
         (&& FrameOf(e3) < limit
          && var e2 := Entry(m, FrameOf(e3), Idx2(v));
          Present(e2) && !Huge(e2) ==> FrameOf(e2) < limit))
  }

  /** Memories of whole frames with the same words are equal. */
  lemma SameEntries(m: Mem, m': Mem)
    requires |m| == |m'| && |m| % WORDS_PER_PAGE == 0
    requires forall k: nat, i: Index :: Entry(m, k, i) == Entry(m', k, i)
    ensures m == m'
  {
    forall a | 0 <= a < |m| ensures m[a] == m'[a] {
      assert Entry(m, a / WORDS_PER_PAGE, a % WORDS_PER_PAGE) == Entry(m', a / WORDS_PER_PAGE, a % WORDS_PER_PAGE);
    }
  }
}
