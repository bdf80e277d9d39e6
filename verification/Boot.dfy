/** The page tables that setup_page_tables of boot/boot.asm builds before long mode is entered. */
module Boot {
  import opened Words
  import opened Frames
  import opened Paging
  import opened PagingLaws

  const KERNEL_PHYS_BASE: nat := 0x20_0000
  const KERNEL_PDES: nat := 64  // KERNEL_MAP_SIZE >> 21
  const KERNEL_VIRT_BASE: Word := 0xFFFF_FFFF_8000_0000
  const BOOT_TABLES: nat := 8

  /** Entry i of the kernel page directory. */
  function KernelEntry(i: Index): Word
    requires i < KERNEL_PDES
  {
    KERNEL_PHYS_BASE + i * 0x20_0000 + 0x83
  }

  /**
   * Word i of boot table n.  The eight tables are consecutive frames from
   * `root` on: pml4, pdpt_low, pd_low_0 .. pd_low_3, pdpt_kern, pd_kern_0.
   */
  function BootEntry(root: nat, n: nat, i: Index): Word
    requires root <= n < root + BOOT_TABLES && root + BOOT_TABLES < HHDM_FRAMES
  {
    if n == root then
      if i == 0 || i == 256 then TableEntry(root + 1) else if i == 511 then TableEntry(root + 6) else 0
    else if n == root + 1 then
      if i < 4 then TableEntry(root + 2 + i) else 0
    else if n < root + 6 then LowEntry(n - root - 2, i)
    else if n == root + 6 then
      if i == 510 then TableEntry(root + 7) else 0
    else if i < KERNEL_PDES then KernelEntry(i) else 0
  }

  ghost predicate BootTables(m: Mem, root: nat) {
    && 0 < root && root + BOOT_TABLES < HHDM_FRAMES
    && (forall n: nat, i: Index :: root <= n < root + BOOT_TABLES ==> Entry(m, n, i) == BootEntry(root, n, i))
  }

  // ----- the code -----

  /** mov [table n + 8*i], w */
  method Store(mem: array<Word>, n: nat, i: Index, w: Word)
    requires (n + 1) * WORDS_PER_PAGE <= mem.Length
    modifies mem
    ensures mem[..] == Put(old(mem[..]), n, i, w)
  {
    mem[n * WORDS_PER_PAGE + i] := w;
  }

  /** The rep stosd that clears the eight tables. */
  method ClearTables(mem: array<Word>, root: nat)
    requires (root + BOOT_TABLES) * WORDS_PER_PAGE <= mem.Length
    modifies mem
    ensures forall n: nat, i: Index :: Entry(mem[..], n, i) ==
              if root <= n < root + BOOT_TABLES then 0 else old(Entry(mem[..], n, i))
  {
    var k := 0;
    while k < BOOT_TABLES * WORDS_PER_PAGE
      invariant k <= BOOT_TABLES * WORDS_PER_PAGE
      invariant forall a :: 0 <= a < mem.Length ==>
                  mem[a] == if root * WORDS_PER_PAGE <= a < root * WORDS_PER_PAGE + k then 0 else old(mem[a])
    {
      mem[root * WORDS_PER_PAGE + k] := 0;
      k := k + 1;
    }
  }

  /** fill_pd0 .. fill_pd3: page directory `pd` maps gigabyte k with 2 MiB pages. */
  method FillPd(mem: array<Word>, pd: nat, k: nat)
    requires (pd + 1) * WORDS_PER_PAGE <= mem.Length && k < 4
    modifies mem
    ensures forall n: nat, i: Index :: Entry(mem[..], n, i) == if n == pd then LowEntry(k, i) else old(Entry(mem[..], n, i))
  {
    var c := 0;
    while c != WORDS_PER_PAGE
      invariant 0 <= c <= WORDS_PER_PAGE
      invariant forall n: nat, i: Index :: Entry(mem[..], n, i) == if n == pd && i < c then LowEntry(k, i) else old(Entry(mem[..], n, i))
    {
      Store(mem, pd, c, c * 0x20_0000 + k * 0x4000_0000 + 0x83);
      c := c + 1;
    }
  }

  /** The .fill_kern loop. */
  method FillKernel(mem: array<Word>, pd: nat)
    requires (pd + 1) * WORDS_PER_PAGE <= mem.Length
    modifies mem
    ensures forall n: nat, i: Index :: Entry(mem[..], n, i) ==
              if n == pd && i < KERNEL_PDES then KernelEntry(i) else old(Entry(mem[..], n, i))
  {
    var c := 0;
    var base := KERNEL_PHYS_BASE;
    while c != KERNEL_PDES
      invariant 0 <= c <= KERNEL_PDES && base == KERNEL_PHYS_BASE + c * 0x20_0000
      invariant forall n: nat, i: Index :: Entry(mem[..], n, i) ==
                  if n == pd && i < c && i < KERNEL_PDES then KernelEntry(i) else old(Entry(mem[..], n, i))
    {
      Store(mem, pd, c, base + 0x83);
      base := base + 0x20_0000;
      c := c + 1;
    }
  }

  /** The four pointers from pdpt_low to the low page directories. */
  method LinkLow(mem: array<Word>, root: nat)
    requires root + BOOT_TABLES < HHDM_FRAMES && (root + BOOT_TABLES) * WORDS_PER_PAGE <= mem.Length
    modifies mem
    ensures forall n: nat, i: Index :: Entry(mem[..], n, i) ==
              if n == root + 1 && i < 4 then TableEntry(root + 2 + i) else old(Entry(mem[..], n, i))
  {
    Store(mem, root + 1, 0, (root + 2) * PAGE_SIZE + 3);
    Store(mem, root + 1, 1, (root + 3) * PAGE_SIZE + 3);
    Store(mem, root + 1, 2, (root + 4) * PAGE_SIZE + 3);
    Store(mem, root + 1, 3, (root + 5) * PAGE_SIZE + 3);
  }

  method FillLow(mem: array<Word>, root: nat)
    requires root + BOOT_TABLES < HHDM_FRAMES && (root + BOOT_TABLES) * WORDS_PER_PAGE <= mem.Length
    modifies mem
    ensures forall n: nat, i: Index :: Entry(mem[..], n, i) ==
              if root + 2 <= n < root + 6 then LowEntry(n - root - 2, i) else old(Entry(mem[..], n, i))
  {
    FillPd(mem, root + 2, 0);
    FillPd(mem, root + 3, 1);
    FillPd(mem, root + 4, 2);
    FillPd(mem, root + 5, 3);
  }

  /** The kernel window: pml4[511] -> pdpt_kern[510] -> pd_kern_0. */
  method LinkKernel(mem: array<Word>, root: nat)
    requires root + BOOT_TABLES < HHDM_FRAMES && (root + BOOT_TABLES) * WORDS_PER_PAGE <= mem.Length
    modifies mem
    ensures forall n: nat, i: Index :: Entry(mem[..], n, i) ==
              if n == root && i == 511 then TableEntry(root + 6)
              else if n == root + 6 && i == 510 then TableEntry(root + 7)
              else if n == root + 7 && i < KERNEL_PDES then KernelEntry(i) else old(Entry(mem[..], n, i))
  {
    Store(mem, root, 511, (root + 6) * PAGE_SIZE + 3);
    Store(mem, root + 6, 510, (root + 7) * PAGE_SIZE + 3);
    FillKernel(mem, root + 7);
  }

  method SetupPageTables(mem: array<Word>, root: nat)
    requires 0 < root && root + BOOT_TABLES < HHDM_FRAMES && (root + BOOT_TABLES) * WORDS_PER_PAGE <= mem.Length
    modifies mem
    ensures BootTables(mem[..], root)
    ensures forall n: nat, i: Index :: !(root <= n < root + BOOT_TABLES) ==> Entry(mem[..], n, i) == old(Entry(mem[..], n, i))
  {
    ClearTables(mem, root);
    Store(mem, root, 0, (root + 1) * PAGE_SIZE + 3);
    Store(mem, root, 256, (root + 1) * PAGE_SIZE + 3);
    LinkLow(mem, root);
    FillLow(mem, root);
    LinkKernel(mem, root);
  }

  // ----- what they establish -----

  /** Ownership after pmm_init: the boot tables, and every other taken frame. */
  function BootOwner(used: seq<bool>, root: nat): (owner: seq<Owner>)
    ensures |owner| == |used|
  {
    seq(|used|, n requires 0 <= n < |used| =>
      if n == root then Table(4, root, 0)
      else if n == root + 1 then Table(3, root, 0)
      else if root + 2 <= n < root + 6 then Table(2, root + 1, n - root - 2)
      else if n == root + 6 then Table(3, root, 511)
      else if n == root + 7 then Table(2, root + 6, 510)
      else if used[n] then Fixed else Unowned)
  }

  /** Pages the boot tables map with 2 MiB entries: low memory, its direct map, and the kernel window. */
  predicate InBootWindow(v: Word) {
    || ((Idx4(v) == 0 || Idx4(v) == 256) && Idx3(v) < 4)
    || (Idx4(v) == 511 && Idx3(v) == 510 && Idx2(v) < 64)
  }

  /** With the table frames reserved, the boot state satisfies the paging invariant. */
  lemma BootInv(s: Vm)
    requires Sized(s) && BootTables(s.mem, s.root) && Counted(s.frames)
    requires s.root + BOOT_TABLES <= |s.frames.used| && s.frames.used[0]
    requires forall n :: s.root <= n < s.root + BOOT_TABLES ==> s.frames.used[n]
    ensures Inv(s, BootOwner(s.frames.used, s.root))
  {
    var owner := BootOwner(s.frames.used, s.root);
    forall n: nat, i: Index | IsTable(owner, n) ensures ChildOk(s.mem, owner, n, i) {
      assert Entry(s.mem, n, i) == BootEntry(s.root, n, i);
      BootChild(s.root, n, i);
    }
  }

  lemma BootChild(root: nat, n: nat, i: Index)
    requires root <= n < root + BOOT_TABLES && root + BOOT_TABLES < HHDM_FRAMES
    ensures var e := BootEntry(root, n, i);
            if n == root then Present(e) <==> i == 0 || i == 256 || i == 511
            else if n == root + 1 then !Huge(e) && (Present(e) <==> i < 4)
            else if n < root + 6 then Present(e) && Huge(e)
            else if n == root + 6 then !Huge(e) && (Present(e) <==> i == 510)
            else (Present(e) <==> i < KERNEL_PDES) && (Huge(e) <==> i < KERNEL_PDES)
    ensures Present(BootEntry(root, n, i)) ==> WriteBit(BootEntry(root, n, i))
    ensures n == root && i in {0, 256} ==> FrameOf(BootEntry(root, n, i)) == root + 1
    ensures n == root && i == 511 ==> FrameOf(BootEntry(root, n, i)) == root + 6
    ensures n == root + 1 && i < 4 ==> FrameOf(BootEntry(root, n, i)) == root + 2 + i
    ensures n == root + 6 && i == 510 ==> FrameOf(BootEntry(root, n, i)) == root + 7
  {
    EntryFields(root + 1, 0, 0);
    EntryFields(root + 6, 0, 0);
    EntryFields(root + 7, 0, 0);
    if i < 4 { EntryFields(root + 2 + i, 0, 0); }
    if root + 2 <= n < root + 6 { LowEntryFields(n - root - 2, i); }
    if i < KERNEL_PDES { LowEntryFields(0, i + 1); assert KernelEntry(i) == LowEntry(0, i + 1); }
  }

  /** The kernel runs in the window of 128 MiB at KERNEL_VIRT_BASE, which shows physical memory from KERNEL_PHYS_BASE on. */
  lemma KernelWindow(m: Mem, root: nat, p: nat)
    requires BootTables(m, root) && p < 128 * 1024 * 1024
    ensures Translate(m, root, KERNEL_VIRT_BASE + p) == Some(KERNEL_PHYS_BASE + p)
    ensures Writable(m, root, KERNEL_VIRT_BASE + p)
    ensures Resolve(m, root, KERNEL_VIRT_BASE + p) == Large(LowEntry(0, p / 0x20_0000 + 1))
  {
    hide BootEntry, Entry, Present, WriteBit, Huge, FrameOf, LowEntry, Idx4, Idx3, Idx2, Idx1;
    var v, i := KERNEL_VIRT_BASE + p, p / 0x20_0000;
    KernelIndices(p);
    BootChild(root, root, 511);
    BootChild(root, root + 6, 510);
    KernelEntryIs(root, i);
    LowEntryFields(0, i + 1);
    assert Entry(m, root, 511) == BootEntry(root, root, 511);
    assert Entry(m, root + 6, 510) == BootEntry(root, root + 6, 510);
    assert Entry(m, root + 7, i) == BootEntry(root, root + 7, i);
  }

  lemma KernelEntryIs(root: nat, i: Index)
    requires root + BOOT_TABLES < HHDM_FRAMES && i < KERNEL_PDES
    ensures BootEntry(root, root + 7, i) == LowEntry(0, i + 1)
  {
  }

  lemma KernelIndices(p: nat)
    requires p < 128 * 1024 * 1024
    ensures var v := KERNEL_VIRT_BASE + p;
            Idx4(v) == 511 && Idx3(v) == 510 && Idx2(v) == p / 0x20_0000 < KERNEL_PDES && v % 0x20_0000 == p % 0x20_0000
  {
    var v := KERNEL_VIRT_BASE + p;
    assert v / 0x80_0000_0000 == 0x1FF_FFFF;
    assert v / 0x4000_0000 == 0x3_FFFF_FFFE;
    assert v / 0x20_0000 == 0x7FF_FFFF_FC00 + p / 0x20_0000;
  }

  /** At boot a path is free of huge pages exactly outside the boot windows. */
  lemma BootClearPath(m: Mem, root: nat, v: Word)
    requires BootTables(m, root)
    ensures ClearPath(m, root, v) <==> !InBootWindow(v)
    ensures ClearPath(m, root, v) ==> Translate(m, root, v) == None
  {
    hide BootEntry, Present, Huge, FrameOf, Idx4, Idx3, Idx2, Entry, LeafTarget;
    BootChild(root, root, Idx4(v));
    assert Entry(m, root, Idx4(v)) == BootEntry(root, root, Idx4(v));
    BootChild(root, root + 1, Idx3(v));
    assert Entry(m, root + 1, Idx3(v)) == BootEntry(root, root + 1, Idx3(v));
    BootChild(root, root + 6, Idx3(v));
    assert Entry(m, root + 6, Idx3(v)) == BootEntry(root, root + 6, Idx3(v));
    BootChild(root, root + 7, Idx2(v));
    assert Entry(m, root + 7, Idx2(v)) == BootEntry(root, root + 7, Idx2(v));
    if Idx3(v) < 4 {
      BootChild(root, root + 2 + Idx3(v), Idx2(v));
      assert Entry(m, root + 2 + Idx3(v), Idx2(v)) == BootEntry(root, root + 2 + Idx3(v), Idx2(v));
    }
  }

  /**
   * From boot, any run of maps and unmaps outside the boot windows keeps the
   * identity and direct map of all 4 GiB, writable, and the kernel window, and
   * never makes a page table free.
   */
  lemma BootRunSupportsItself(s: Vm, ops: seq<VmOp>, p: nat)
    requires Sized(s) && BootTables(s.mem, s.root) && Counted(s.frames)
    requires s.root + BOOT_TABLES <= |s.frames.used| && s.frames.used[0]
    requires forall n :: s.root <= n < s.root + BOOT_TABLES ==> s.frames.used[n]
    requires forall op :: op in ops ==> !InBootWindow(op.v)
    requires p < HHDM_FRAMES * PAGE_SIZE
    ensures var s' := VmRun(s, ops);
            && Translate(s'.mem, s.root, p) == Some(p)
            && Translate(s'.mem, s.root, HHDM_BASE + p) == Some(p)
            && Writable(s'.mem, s.root, p) && Writable(s'.mem, s.root, HHDM_BASE + p)
            && (p < 128 * 1024 * 1024 ==> Translate(s'.mem, s.root, KERNEL_VIRT_BASE + p) == Some(KERNEL_PHYS_BASE + p))
            && exists owner :: Inv(s', owner) && !IsTable(owner, Alloc(s'.frames).1)
  {
    hide Inv, BootTables, Resolve, Translate, Writable, ClearPath, SameHuge, VmRun, BootOwner, Counted;
    BootInv(s);
    forall op | op in ops ensures ClearPath(s.mem, s.root, op.v) {
      BootClearPath(s.mem, s.root, op.v);
    }
    WalkSupportsItself(s, BootOwner(s.frames.used, s.root), ops, p);
    if p < 128 * 1024 * 1024 {
      KernelWindow(s.mem, s.root, p);
      RunKeepsHuge(s, BootOwner(s.frames.used, s.root), ops);
      SameLarge(s.mem, VmRun(s, ops).mem, s.root, KERNEL_VIRT_BASE + p);
    }
  }

  lemma SameLarge(m: Mem, m': Mem, root: nat, v: Word)
    requires SameHuge(m, m', root) && Resolve(m, root, v).Large?
    ensures Translate(m', root, v) == Translate(m, root, v)
  {
    assert !ClearPath(m, root, v);
  }

  /**
   * From boot on, whatever run of maps and unmaps there is outside the boot windows,
   * with physical addresses of 52 bits, vmm_translate is the processor's translation.
   */
  lemma BootRunAsProcessor(s: Vm, ops: seq<VmOp>, v: Word)
    requires Sized(s) && BootTables(s.mem, s.root) && Counted(s.frames)
    requires s.root + BOOT_TABLES <= |s.frames.used| && s.frames.used[0]
    requires forall n :: s.root <= n < s.root + BOOT_TABLES ==> s.frames.used[n]
    requires forall op :: op in ops ==> !InBootWindow(op.v) && (op.Map? ==> op.phys < 0x10_0000_0000_0000)
    ensures var m := VmRun(s, ops).mem; ProcessorTranslate(m, s.root, v) == Translate(m, s.root, v)
  {
    hide Inv, BootTables, Resolve, Translate, ProcessorTranslate, HighBits, ClearPath, SmallTargets;
    BootInv(s);
    BootSmall(s.mem, s.root);
    forall op | op in ops ensures ClearPath(s.mem, s.root, op.v) {
      BootClearPath(s.mem, s.root, op.v);
    }
    RunKeepsHuge(s, BootOwner(s.frames.used, s.root), ops);
    RunKeepsSmall(s, BootOwner(s.frames.used, s.root), ops);
    AgreesThen(s.mem, VmRun(s, ops).mem, s.root, v);
  }

  lemma AgreesThen(m: Mem, m': Mem, root: nat, v: Word)
    requires BootTables(m, root) && SameHuge(m, m', root) && SmallTargets(m', root)
    ensures ProcessorTranslate(m', root, v) == Translate(m', root, v)
  {
    hide BootTables, Resolve, ProcessorTranslate, HighBits, Entry, Present;
    ProcessorAgrees(m', root, v);
    match Resolve(m', root, v)
    case Large(e) => BootHighBits(m, root, v);
    case Leaf(t) => LeafBits(Entry(m', t, Idx1(v)));
    case _ =>
  }

  lemma BootSmall(m: Mem, root: nat)
    requires BootTables(m, root)
    ensures SmallTargets(m, root)
  {
    hide BootTables, Translate, ClearPath;
    forall w | ClearPath(m, root, w) ensures Translate(m, root, w) == None { BootClearPath(m, root, w); }
  }

  /** The boot tables map no 2 MiB page beyond 48 bits. */
  lemma BootHighBits(m: Mem, root: nat, v: Word)
    requires BootTables(m, root) && Resolve(m, root, v).Large?
    ensures HighBits(Resolve(m, root, v).entry) == 0
  {
    hide BootEntry, Present, Huge, FrameOf, Idx4, Idx3, Idx2, Entry, HighBits;
    BootChild(root, root, Idx4(v));
    assert Entry(m, root, Idx4(v)) == BootEntry(root, root, Idx4(v));
    BootChild(root, root + 1, Idx3(v));
    assert Entry(m, root + 1, Idx3(v)) == BootEntry(root, root + 1, Idx3(v));
    BootChild(root, root + 6, Idx3(v));
    assert Entry(m, root + 6, Idx3(v)) == BootEntry(root, root + 6, Idx3(v));
    assert Entry(m, root + 7, Idx2(v)) == BootEntry(root, root + 7, Idx2(v));
    SmallEntry(root, root + 7, Idx2(v));
    if Idx3(v) < 4 {
      assert Entry(m, root + 2 + Idx3(v), Idx2(v)) == BootEntry(root, root + 2 + Idx3(v), Idx2(v));
      SmallEntry(root, root + 2 + Idx3(v), Idx2(v));
    }
  }

  lemma SmallEntry(root: nat, n: nat, i: Index)
    requires root <= n < root + BOOT_TABLES && root + BOOT_TABLES < HHDM_FRAMES
    ensures HighBits(BootEntry(root, n, i)) == 0
  {
    assert BootEntry(root, n, i) < 0x1_0000_0000_0000;
  }

  /** vmm_map_page of v in low memory: it stores into the first frame of the 2 MiB page that holds v, or fails for frame 0. */
  ghost predicate StoresInData(s: Vm, v: Word, phys: Word, flags: Word)
    requires Sized(s)
  {
    var base, (s', ok) := HugeBase(v), MapPage(s, v, phys, flags);
    && (ok <==> base != 0)
    && (ok ==> s' == s.(mem := Put(s.mem, base, Idx1(v), LeafEntry(phys, flags))))
  }

  /** First frame of the 2 MiB page that holds v. */
  function HugeBase(v: Word): nat {
    v / 0x20_0000 * 512
  }

  /**
   * The heap base the kernel ships with is the load address of the end of .bss
   * (src/lib/alloc.c:23, configs/linker.ld:81), an address below 4 GiB.  There,
   * in every state, vmm_map_page overwrites a word of the very memory that the
   * boot mapping shows at that address.  Unless that word belongs to a page table
   * the translation does not change.
   */
  lemma ShippedHeapBase(s: Vm, owner: seq<Owner>, v: Word, phys: Word, flags: Word)
    requires Inv(s, owner) && v < HHDM_FRAMES * PAGE_SIZE
    ensures !ClearPath(s.mem, s.root, v) && StoresInData(s, v, phys, flags)
    ensures !IsTable(owner, HugeBase(v)) ==> Translate(MapPage(s, v, phys, flags).0.mem, s.root, v) == Translate(s.mem, s.root, v)
  {
    var k := v / 0x4000_0000;
    var i := v / 0x20_0000 % 512;
    LowIndices(v);
    LowEntryFields(k, i);
    EntryFields(s.root + 1, 0, 0);
    EntryFields(s.root + 2 + k, 0, 0);
    assert Entry(s.mem, s.root + 2 + k, i) == LowEntry(k, i);
    assert Resolve(s.mem, s.root, v) == Large(LowEntry(k, i));
    HugePathCorrupts(s, owner, v, phys, flags);
    LowEntryFrame(k, i, v);
  }

  /** With page tables there it may: here the word is PML4[0], and all low addresses lose their translation. */
  lemma ShippedHeapBaseOnTables(s: Vm, owner: seq<Owner>, v: Word)
    requires Inv(s, owner) && s.root == 512 && !Present(Entry(s.mem, 0, 0)) && v == 0x20_0000
    ensures Translate(s.mem, s.root, v) == Some(v)
    ensures MapPage(s, v, 0, 0).1 && Translate(MapPage(s, v, 0, 0).0.mem, s.root, v) == None
  {
    hide MapPage, TablesOk, FramesOk;
    ShippedHeapBase(s, owner, v, 0, 0);
    DirectMapWalk(s.mem, s.root, v);
    LowIndices(v);
    InMemory(s, owner);
  }

  lemma InMemory(s: Vm, owner: seq<Owner>)
    requires Inv(s, owner)
    ensures s.root * WORDS_PER_PAGE + WORDS_PER_PAGE <= |s.mem|
  {
  }

  lemma LowEntryFrame(k: nat, i: Index, v: nat)
    requires k < 4 && v < HHDM_FRAMES * PAGE_SIZE && k == v / 0x4000_0000 && i == v / 0x20_0000 % 512
    ensures FrameOf(LowEntry(k, i)) == v / 0x20_0000 * 512
  {
    var q := v / 0x20_0000;
    assert q / 512 == k && q == 512 * k + i;
    assert LowEntry(k, i) == q * 0x20_0000 + 0x83;
  }
}
