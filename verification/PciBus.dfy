/** PCI bus enumeration of src/bus/pci.c over a configuration space that does not change. */
module PciBus {
  import opened Words

  const MAX_DEVICES := 256

  type Bus = b: nat | b < 256
  type Slot = d: nat | d < 32
  type Func = f: nat | f < 8
  type Dword = w: nat | w < 0x1_0000_0000

  datatype Loc = Loc(bus: Bus, dev: Slot, fn: Func)

  type Byte = b: nat | b < 256

  /** Byte `offset` of the configuration space of a function; where there is none, every byte is 0xFF. */
  type Config = (Loc, Byte) -> Byte

  // The header of section 6.1 of the PCI Local Bus Specification, revision 3.0.

  function VendorId(cfg: Config, l: Loc): nat { cfg(l, 0x00) + 0x100 * cfg(l, 0x01) }
  function DeviceId(cfg: Config, l: Loc): nat { cfg(l, 0x02) + 0x100 * cfg(l, 0x03) }
  function ProgIf(cfg: Config, l: Loc): Byte { cfg(l, 0x09) }
  function Subclass(cfg: Config, l: Loc): Byte { cfg(l, 0x0A) }
  function ClassCode(cfg: Config, l: Loc): Byte { cfg(l, 0x0B) }
  function HeaderType(cfg: Config, l: Loc): Byte { cfg(l, 0x0E) }
  function SecondaryBus(cfg: Config, l: Loc): Bus { cfg(l, 0x19) }

  /** The four bytes from an offset on, the first one lowest. */
  function Little(a: Byte, b: Byte, c: Byte, d: Byte): Dword {
    a + 0x100 * b + 0x1_0000 * c + 0x100_0000 * d
  }

  /**
   * What the data port at 0xCFC shows for a value of the address port at 0xCF8:
   * section 3.2.2.3.2 of the PCI Local Bus Specification, revision 3.0.
   */
  function DataPort(cfg: Config, address: Dword): Dword {
    if address < 0x8000_0000 then 0xFFFF_FFFF
    else
      var l := Loc(address / 0x1_0000 % 0x100, address / 0x800 % 0x20, address / 0x100 % 8);
      var r := address % 0x100 / 4 * 4;
      Little(cfg(l, r), cfg(l, r + 1), cfg(l, r + 2), cfg(l, r + 3))
  }

  /** Functions a slot can have: one, unless function 0 declares the device multifunction. */
  function FuncCount(cfg: Config, bus: Bus, dev: Slot): nat {
    if HeaderType(cfg, Loc(bus, dev, 0)) >= 0x80 then 8 else 1
  }

  /** There is a function at l, and its slot admits to it. */
  predicate Present(cfg: Config, l: Loc) {
    VendorId(cfg, Loc(l.bus, l.dev, 0)) != 0xFFFF && l.fn < FuncCount(cfg, l.bus, l.dev) && VendorId(cfg, l) != 0xFFFF
  }

  /** l is a PCI-to-PCI bridge onto bus s. */
  predicate Bridges(cfg: Config, l: Loc, s: Bus) {
    Present(cfg, l) && ClassCode(cfg, l) == 6 && Subclass(cfg, l) == 4 && SecondaryBus(cfg, l) == s && s != 0 && s != l.bus
  }

  /** The buses of p lead from bus 0 over bridges to b. */
  ghost predicate Path(cfg: Config, p: seq<Loc>, b: Bus) {
    if p == [] then b == 0
    else Bridges(cfg, p[|p| - 1], b) && Path(cfg, p[..|p| - 1], p[|p| - 1].bus)
  }

  ghost predicate Reachable(cfg: Config, b: Bus) {
    exists p :: Path(cfg, p, b)
  }

  lemma ReachStep(cfg: Config, l: Loc, s: Bus)
    requires Reachable(cfg, l.bus) && Bridges(cfg, l, s)
    ensures Reachable(cfg, s)
  {
    var p :| Path(cfg, p, l.bus);
    assert (p + [l])[..|p|] == p;
    assert Path(cfg, p + [l], s);
  }

  // ----- what has been found -----

  datatype Device = Device(loc: Loc, vendor: nat, device: nat, classCode: nat, subclass: nat, progIf: nat, headerType: nat)

  function Record(cfg: Config, l: Loc): Device {
    Device(l, VendorId(cfg, l), DeviceId(cfg, l), ClassCode(cfg, l), Subclass(cfg, l), ProgIf(cfg, l), HeaderType(cfg, Loc(l.bus, l.dev, 0)))
  }

  /** Every entry is the record of a present function on a scanned reachable bus, and no function is entered twice. */
  ghost predicate Sound(cfg: Config, found: seq<Device>, scanned: set<Bus>) {
    && (forall b :: b in scanned ==> Reachable(cfg, b))
    && (forall i :: 0 <= i < |found| ==> Present(cfg, found[i].loc) && found[i] == Record(cfg, found[i].loc) && found[i].loc.bus in scanned)
    && (forall i, j :: 0 <= i < j < |found| ==> found[i].loc != found[j].loc)
  }

  ghost predicate Entered(found: seq<Device>, l: Loc) {
    exists i :: 0 <= i < |found| && found[i].loc == l
  }

  /** l needs no more work. */
  ghost predicate Handled(cfg: Config, found: seq<Device>, scanned: set<Bus>, l: Loc) {
    Present(cfg, l) ==> Entered(found, l) && forall s :: Bridges(cfg, l, s) ==> s in scanned
  }

  ghost predicate Done(cfg: Config, found: seq<Device>, scanned: set<Bus>, b: Bus) {
    forall d: Slot, f: Func :: Handled(cfg, found, scanned, Loc(b, d, f))
  }

  /** Everything a later state keeps: entries and scanned buses only grow, and new entries lie on buses scanned since or in the given slot. */
  ghost predicate Grows(found: seq<Device>, scanned: set<Bus>, found': seq<Device>, scanned': set<Bus>, slot: Option<(Bus, Slot)>) {
    && scanned <= scanned' && |found| <= |found'| && found'[..|found|] == found
    && forall i :: |found| <= i < |found'| ==>
      found'[i].loc.bus in scanned' - scanned || slot == Some((found'[i].loc.bus, found'[i].loc.dev))
  }

  lemma StaysHandled(cfg: Config, found: seq<Device>, scanned: set<Bus>, found': seq<Device>, scanned': set<Bus>, l: Loc)
    requires Handled(cfg, found, scanned, l) && scanned <= scanned' && |found| <= |found'| && found'[..|found|] == found
    ensures Handled(cfg, found', scanned', l)
  {
    if Present(cfg, l) {
      var i :| 0 <= i < |found| && found[i].loc == l;
      assert found'[i] == found'[..|found|][i];
    }
  }

  lemma StaysDone(cfg: Config, found: seq<Device>, scanned: set<Bus>, found': seq<Device>, scanned': set<Bus>, b: Bus)
    requires Done(cfg, found, scanned, b) && scanned <= scanned' && |found| <= |found'| && found'[..|found|] == found
    ensures Done(cfg, found', scanned', b)
  {
    forall d: Slot, f: Func ensures Handled(cfg, found', scanned', Loc(b, d, f)) {
      StaysHandled(cfg, found, scanned, found', scanned', Loc(b, d, f));
    }
  }

  /** When every scanned bus is done, every reachable bus has been scanned. */
  lemma {:induction false} ScannedAll(cfg: Config, found: seq<Device>, scanned: set<Bus>, p: seq<Loc>, b: Bus)
    requires 0 in scanned && (forall c :: c in scanned ==> Done(cfg, found, scanned, c))
    requires Path(cfg, p, b)
    ensures b in scanned
  {
    if p != [] {
      var l := p[|p| - 1];
      ScannedAll(cfg, found, scanned, p[..|p| - 1], l.bus);
      assert Handled(cfg, found, scanned, Loc(l.bus, l.dev, l.fn));
    }
  }

  /** All functions there could be. */
  function AllLocs(): set<Loc> {
    set b: Bus, d: Slot, f: Func :: Loc(b, d, f)
  }

  lemma InAllLocs()
    ensures forall l: Loc :: l in AllLocs()
  {
    forall l: Loc ensures l in AllLocs() { assert l == Loc(l.bus, l.dev, l.fn); }
  }

  /** What may still be scanned: this set bounds the recursion. */
  ghost function Unscanned(scanned: set<Bus>): set<Loc> {
    set l | l in AllLocs() && l.bus !in scanned
  }

  /** What enumeration should find. */
  ghost function Target(cfg: Config): (s: set<Loc>)
    ensures forall l :: l in s <==> Present(cfg, l) && Reachable(cfg, l.bus)
  {
    InAllLocs();
    set l | l in AllLocs() && Present(cfg, l) && Reachable(cfg, l.bus)
  }

  ghost function Locs(found: seq<Device>): (s: set<Loc>)
    ensures forall l :: l in s <==> Entered(found, l)
  {
    set i | 0 <= i < |found| :: found[i].loc
  }

  lemma {:induction false} LocsCount(found: seq<Device>)
    requires forall i, j :: 0 <= i < j < |found| ==> found[i].loc != found[j].loc
    ensures |Locs(found)| == |found|
  {
    if found != [] {
      var n := |found| - 1;
      LocsCount(found[..n]);
      assert Locs(found) == Locs(found[..n]) + {found[n].loc};
      assert found[n].loc !in Locs(found[..n]);
    }
  }

  lemma SubsetCount(a: set<Loc>, b: set<Loc>)
    requires a <= b
    ensures |a| <= |b| && (|a| == |b| ==> a == b)
  {
    assert b == a + (b - a);
  }

  /** Enumeration is complete unless the table is full, and its length is the number of functions, cut to the table. */
  lemma Complete(cfg: Config, found: seq<Device>, scanned: set<Bus>)
    requires Sound(cfg, found, scanned) && |found| <= MAX_DEVICES
    requires |found| < MAX_DEVICES ==> 0 in scanned && forall c :: c in scanned ==> Done(cfg, found, scanned, c)
    ensures Locs(found) <= Target(cfg) && |Locs(found)| == |found|
    ensures |found| == if |Target(cfg)| < MAX_DEVICES then |Target(cfg)| else MAX_DEVICES
    ensures |found| < MAX_DEVICES ==> Locs(found) == Target(cfg) && forall b :: b in scanned <==> Reachable(cfg, b)
  {
    LocsCount(found);
    SubsetCount(Locs(found), Target(cfg));
    if |found| < MAX_DEVICES {
      forall b | Reachable(cfg, b) ensures b in scanned {
        var p :| Path(cfg, p, b);
        ScannedAll(cfg, found, scanned, p, b);
      }
      forall l | l in Target(cfg) ensures l in Locs(found) {
        assert Done(cfg, found, scanned, l.bus);
        assert Handled(cfg, found, scanned, Loc(l.bus, l.dev, l.fn));
      }
      assert Locs(found) == Target(cfg);
    }
  }

  class Pci {
    const cfg: Config
    const devices: array<Device>
    var deviceCount: nat
    const scannedBuses: array<bool>

    ghost predicate Shape()
      reads this
    {
      devices.Length == MAX_DEVICES && scannedBuses.Length == 256 && deviceCount <= MAX_DEVICES
    }

    ghost function Found(): seq<Device>
      requires Shape()
      reads this, devices
    {
      devices[..deviceCount]
    }

    ghost function Scanned(): (s: set<Bus>)
      requires Shape()
      reads this, scannedBuses
      ensures forall b: Bus :: b in s <==> scannedBuses[b]
    {
      set b: Bus | scannedBuses[b]
    }

    ghost predicate Valid()
      reads this, devices, scannedBuses
    {
      Shape() && Sound(cfg, Found(), Scanned())
    }

    constructor (cfg: Config)
      ensures Shape() && this.cfg == cfg && fresh(devices) && fresh(scannedBuses)
    {
      this.cfg := cfg;
      var none := Device(Loc(0, 0, 0), 0, 0, 0, 0, 0, 0);
      devices := new Device[MAX_DEVICES](_ => none);
      scannedBuses := new bool[256](_ => false);
      deviceCount := 0;
    }

    /** pci_config_read32 */
    method ReadDword(l: Loc, offset: Byte) returns (v: Dword)
      ensures var r := offset / 4 * 4; v == Little(cfg(l, r), cfg(l, r + 1), cfg(l, r + 2), cfg(l, r + 3))
    {
      AddressFields(l, offset / 4 * 4);
      v := DataPort(cfg, 0x8000_0000 + l.bus * 0x1_0000 + l.dev * 0x800 + l.fn * 0x100 + offset / 4 * 4);
    }

    /** pci_read8 and pci_read_config_byte */
    method ReadByte(l: Loc, offset: Byte) returns (v: Byte)
      ensures v == cfg(l, offset)
    {
      var d := ReadDword(l, offset / 4 * 4);
      var r := offset / 4 * 4;
      LittleBytes(cfg(l, r), cfg(l, r + 1), cfg(l, r + 2), cfg(l, r + 3));
      match offset % 4
      case 0 => v := d % 0x100;
      case 1 => v := d / 0x100 % 0x100;
      case 2 => v := d / 0x1_0000 % 0x100;
      case _ => v := d / 0x100_0000 % 0x100;
    }

    /** pci_read_vendor */
    method ReadVendor(l: Loc) returns (v: nat)
      ensures v == VendorId(cfg, l)
    {
      var d := ReadDword(l, 0);
      LittleHalves(cfg(l, 0), cfg(l, 1), cfg(l, 2), cfg(l, 3));
      v := d % 0x1_0000;
    }

    /** pci_read_device */
    method ReadDevice(l: Loc) returns (v: nat)
      ensures v == DeviceId(cfg, l)
    {
      var d := ReadDword(l, 0);
      LittleHalves(cfg(l, 0), cfg(l, 1), cfg(l, 2), cfg(l, 3));
      v := d / 0x1_0000 % 0x1_0000;
    }

    /** The fields of a table entry. */
    method ReadHeader(l: Loc, vendor: nat, header: Byte) returns (d: Device)
      requires vendor == VendorId(cfg, l) && header == HeaderType(cfg, Loc(l.bus, l.dev, 0))
      ensures d == Record(cfg, l)
    {
      var id := ReadDevice(l);
      var cls := ReadDword(l, 0x08);
      LittleBytes(cfg(l, 0x08), cfg(l, 0x09), cfg(l, 0x0A), cfg(l, 0x0B));
      d := Device(l, vendor, id, cls / 0x100_0000 % 0x100, cls / 0x1_0000 % 0x100, cls / 0x100 % 0x100, header);
    }

    /** Unless the table has filled up, nothing is left to do on the given buses. */
    ghost predicate Finished(buses: set<Bus>)
      requires Shape()
      reads this, devices, scannedBuses
    {
      deviceCount < MAX_DEVICES ==> AllDone(cfg, Found(), Scanned(), buses)
    }

    /** scan_bus */
    method ScanBus(bus: Bus)
      requires Valid() && deviceCount < MAX_DEVICES && Reachable(cfg, bus)
      modifies `deviceCount, devices, scannedBuses
      ensures Valid() && Grows(old(Found()), old(Scanned()), Found(), Scanned(), None)
      ensures bus in Scanned() && Finished(Scanned() - old(Scanned()))
      decreases Unscanned(Scanned()), 0
    {
      hide Present, Reachable, Record, Bridges, Handled, Done, SlotsHandled;
      ghost var found0, scanned0 := Found(), Scanned();
      if scannedBuses[bus] { return; }
      scannedBuses[bus] := true;
      assert Scanned() == scanned0 + {bus};
      InAllLocs();
      assert Loc(bus, 0, 0) in Unscanned(scanned0);
      NoSlotsYet(cfg, found0, scanned0, bus);
      var dev := 0;
      while dev < 32
        invariant dev <= 32 && Valid() && deviceCount < MAX_DEVICES
        invariant bus in Scanned() && Grows(found0, scanned0, Found(), Scanned(), None)
        invariant SlotsHandled(cfg, Found(), Scanned(), bus, dev) && Finished(Scanned() - scanned0 - {bus})
      {
        ghost var found1, scanned1 := Found(), Scanned();
        NextSlotFree(cfg, found1, scanned1, bus, dev);
        ScanSlot(bus, dev);
        GrowsThen(found0, scanned0, found1, scanned1, Found(), Scanned(), None, Some((bus, dev)));
        if deviceCount >= MAX_DEVICES { return; }
        DoneThen(cfg, found1, scanned1, Found(), Scanned(), Some((bus, dev)), scanned1 - scanned0 - {bus}, Scanned() - scanned1);
        assert scanned1 - scanned0 - {bus} + (Scanned() - scanned1) == Scanned() - scanned0 - {bus};
        SlotsNext(cfg, found1, scanned1, Found(), Scanned(), bus, dev);
        dev := dev + 1;
      }
      SlotsDone(cfg, Found(), Scanned(), bus);
    }

    /** One round of the device loop of scan_bus. */
    method ScanSlot(bus: Bus, dev: Slot)
      requires Valid() && deviceCount < MAX_DEVICES && bus in Scanned()
      requires forall f :: !Entered(Found(), Loc(bus, dev, f))
      modifies `deviceCount, devices, scannedBuses
      ensures Valid() && Grows(old(Found()), old(Scanned()), Found(), Scanned(), Some((bus, dev)))
      ensures deviceCount < MAX_DEVICES ==> FuncsHandled(cfg, Found(), Scanned(), bus, dev, 8)
      ensures Finished(Scanned() - old(Scanned()))
      decreases Unscanned(Scanned()), 2
    {
      hide Reachable, Record, Bridges, Handled, Done;
      ghost var found0, scanned0 := Found(), Scanned();
      AbsentHandled(cfg, found0, scanned0, bus, dev);
      var first := ReadVendor(Loc(bus, dev, 0));
      if first == 0xFFFF { return; }
      var header := ReadByte(Loc(bus, dev, 0), 0x0E);
      var maxFunc := if header / 0x80 % 2 == 1 then 8 else 1;
      var fn := 0;
      while fn < maxFunc
        invariant fn <= maxFunc && Valid() && deviceCount < MAX_DEVICES && bus in Scanned()
        invariant Grows(found0, scanned0, Found(), Scanned(), Some((bus, dev)))
        invariant FuncsHandled(cfg, Found(), Scanned(), bus, dev, fn) && Finished(Scanned() - scanned0)
        invariant forall f: Func :: fn <= f ==> !Entered(Found(), Loc(bus, dev, f))
      {
        ghost var found1, scanned1 := Found(), Scanned();
        var l := Loc(bus, dev, fn);
        var vendor := ReadVendor(l);
        if vendor != 0xFFFF {
          ScanFunction(l, vendor, header);
          GrowsThen(found0, scanned0, found1, scanned1, Found(), Scanned(), Some((bus, dev)), Some((bus, dev)));
          if deviceCount >= MAX_DEVICES { return; }
          DoneThen(cfg, found1, scanned1, Found(), Scanned(), Some((bus, dev)), scanned1 - scanned0, Scanned() - scanned1);
          assert scanned1 - scanned0 + (Scanned() - scanned1) == Scanned() - scanned0;
          FuncsStay(cfg, found1, scanned1, Found(), Scanned(), bus, dev, fn);
        }
        AbsentHandled(cfg, Found(), Scanned(), bus, dev);
        fn := fn + 1;
      }
      AbsentHandled(cfg, Found(), Scanned(), bus, dev);
    }

    /** One round of the function loop, for a function that is present. */
    method ScanFunction(l: Loc, vendor: nat, header: Byte)
      requires vendor == VendorId(cfg, l) && header == HeaderType(cfg, Loc(l.bus, l.dev, 0))
      requires Valid() && deviceCount < MAX_DEVICES && l.bus in Scanned() && Present(cfg, l) && !Entered(Found(), l)
      modifies `deviceCount, devices, scannedBuses
      ensures Valid() && Grows(old(Found()), old(Scanned()), Found(), Scanned(), Some((l.bus, l.dev)))
      ensures deviceCount < MAX_DEVICES ==> Handled(cfg, Found(), Scanned(), l)
      ensures forall k :: k != l && k.bus == l.bus && Entered(Found(), k) ==> Entered(old(Found()), k)
      ensures Finished(Scanned() - old(Scanned()))
      decreases Unscanned(Scanned()), 1
    {
      hide Present, Reachable, Done, Entered, VendorId, HeaderType;
      ghost var found0, scanned0 := Found(), Scanned();
      EnterSound(cfg, found0, scanned0, l);
      var d := ReadHeader(l, vendor, header);
      devices[deviceCount] := d;
      deviceCount := deviceCount + 1;
      ghost var found1 := Found();
      assert found1 == found0 + [Record(cfg, l)];
      assert Scanned() == scanned0;
      if deviceCount >= MAX_DEVICES { return; }
      if d.classCode == 6 && d.subclass == 4 {
        var sec := ReadByte(l, 0x19);
        if sec != 0 && sec != l.bus && !scannedBuses[sec] {
          ReachStep(cfg, l, sec);
          ScanBus(sec);
          OthersEntered(found1, scanned0, Found(), Scanned(), l.bus);
          StillEntered(found1, Found(), l);
        }
      }
    }

    /** pci_init finds exactly the present functions on reachable buses, each once, as far as the table goes. */
    method Init()
      requires Shape()
      modifies this, devices, scannedBuses
      ensures Valid()
      ensures Locs(Found()) <= Target(cfg) && |Locs(Found())| == deviceCount
      ensures deviceCount == if |Target(cfg)| < 256 then |Target(cfg)| else 256
      ensures deviceCount < 256 ==> Locs(Found()) == Target(cfg) && forall b :: b in Scanned() <==> Reachable(cfg, b)
    {
      hide Present, Reachable, Record, Bridges, Done;
      deviceCount := 0;
      forall i | 0 <= i < 256 { scannedBuses[i] := false; }
      RootReachable(cfg);
      assert Found() == [] && Scanned() == {};
      ScanBus(0);
      Complete(cfg, Found(), Scanned());
    }
  }

  lemma AddressFields(l: Loc, r: Byte)
    requires r % 4 == 0
    ensures var a := 0x8000_0000 + l.bus * 0x1_0000 + l.dev * 0x800 + l.fn * 0x100 + r;
            && 0x8000_0000 <= a < 0x1_0000_0000 && a / 0x1_0000 % 0x100 == l.bus && a / 0x800 % 0x20 == l.dev
            && a / 0x100 % 8 == l.fn && a % 0x100 / 4 * 4 == r
  {
    var a := 0x8000_0000 + l.bus * 0x1_0000 + l.dev * 0x800 + l.fn * 0x100 + r;
    assert a / 0x100 == 0x80_0000 + l.bus * 0x100 + l.dev * 8 + l.fn;
    assert a / 0x800 == 0x10_0000 + l.bus * 0x20 + l.dev;
    assert a / 0x1_0000 == 0x8000 + l.bus;
  }

  lemma LittleBytes(a: Byte, b: Byte, c: Byte, d: Byte)
    ensures var v := Little(a, b, c, d);
            v % 0x100 == a && v / 0x100 % 0x100 == b && v / 0x1_0000 % 0x100 == c && v / 0x100_0000 == v / 0x100_0000 % 0x100 == d
  {
    var v := Little(a, b, c, d);
    assert v / 0x100 == b + 0x100 * c + 0x1_0000 * d;
    assert v / 0x1_0000 == c + 0x100 * d;
  }

  lemma LittleHalves(a: Byte, b: Byte, c: Byte, d: Byte)
    ensures var v := Little(a, b, c, d); v % 0x1_0000 == a + 0x100 * b && v / 0x1_0000 == c + 0x100 * d
  {
  }

  /** The slots of the bus below dev are handled, and the others not yet touched. */
  ghost predicate SlotsHandled(cfg: Config, found: seq<Device>, scanned: set<Bus>, bus: Bus, dev: nat) {
    && (forall d: Slot, f: Func :: d < dev ==> Handled(cfg, found, scanned, Loc(bus, d, f)))
    && (forall d: Slot, f: Func :: dev <= d ==> !Entered(found, Loc(bus, d, f)))
  }

  ghost predicate FuncsHandled(cfg: Config, found: seq<Device>, scanned: set<Bus>, bus: Bus, dev: Slot, fn: nat) {
    forall f: Func :: f < fn ==> Handled(cfg, found, scanned, Loc(bus, dev, f))
  }

  lemma NoSlotsYet(cfg: Config, found: seq<Device>, scanned: set<Bus>, bus: Bus)
    requires Sound(cfg, found, scanned) && bus !in scanned
    ensures SlotsHandled(cfg, found, scanned + {bus}, bus, 0) && Sound(cfg, found, scanned)
  {
  }

  lemma NextSlotFree(cfg: Config, found: seq<Device>, scanned: set<Bus>, bus: Bus, dev: Slot)
    requires SlotsHandled(cfg, found, scanned, bus, dev)
    ensures forall f :: !Entered(found, Loc(bus, dev, f))
  {
  }

  lemma SlotsNext(cfg: Config, f1: seq<Device>, s1: set<Bus>, f2: seq<Device>, s2: set<Bus>, bus: Bus, dev: Slot)
    requires SlotsHandled(cfg, f1, s1, bus, dev) && bus in s1
    requires Grows(f1, s1, f2, s2, Some((bus, dev))) && FuncsHandled(cfg, f2, s2, bus, dev, 8)
    ensures SlotsHandled(cfg, f2, s2, bus, dev + 1)
  {
    hide Handled;
    forall d: Slot, f: Func | d < dev + 1 ensures Handled(cfg, f2, s2, Loc(bus, d, f)) {
      if d < dev { StaysHandled(cfg, f1, s1, f2, s2, Loc(bus, d, f)); }
    }
    forall d: Slot, f: Func | dev + 1 <= d ensures !Entered(f2, Loc(bus, d, f)) {
      assert !Entered(f1, Loc(bus, d, f));
      forall i | 0 <= i < |f2| ensures f2[i].loc != Loc(bus, d, f) {
        if i < |f1| { assert f2[i] == f2[..|f1|][i] == f1[i]; }
      }
    }
  }

  lemma SlotsDone(cfg: Config, found: seq<Device>, scanned: set<Bus>, bus: Bus)
    requires SlotsHandled(cfg, found, scanned, bus, 32)
    ensures Done(cfg, found, scanned, bus)
  {
  }

  lemma FuncsStay(cfg: Config, f1: seq<Device>, s1: set<Bus>, f2: seq<Device>, s2: set<Bus>, bus: Bus, dev: Slot, fn: Func)
    requires FuncsHandled(cfg, f1, s1, bus, dev, fn) && Grows(f1, s1, f2, s2, Some((bus, dev))) && Handled(cfg, f2, s2, Loc(bus, dev, fn))
    ensures FuncsHandled(cfg, f2, s2, bus, dev, fn + 1)
  {
    hide Handled;
    forall f: Func | f < fn + 1 ensures Handled(cfg, f2, s2, Loc(bus, dev, f)) {
      if f < fn { StaysHandled(cfg, f1, s1, f2, s2, Loc(bus, dev, f)); }
    }
  }

  lemma OthersEntered(f1: seq<Device>, s1: set<Bus>, f2: seq<Device>, s2: set<Bus>, bus: Bus)
    requires Grows(f1, s1, f2, s2, None) && bus in s1
    ensures forall k: Loc :: k.bus == bus && Entered(f2, k) ==> Entered(f1, k)
  {
    forall k: Loc | k.bus == bus && Entered(f2, k) ensures Entered(f1, k) {
      var i :| 0 <= i < |f2| && f2[i].loc == k;
      if i < |f1| { assert f2[i] == f2[..|f1|][i] == f1[i]; }
    }
  }

  lemma StillEntered(f1: seq<Device>, f2: seq<Device>, l: Loc)
    requires Entered(f1, l) && |f1| <= |f2| && f2[..|f1|] == f1
    ensures Entered(f2, l)
  {
    var i :| 0 <= i < |f1| && f1[i].loc == l;
    assert f2[i] == f2[..|f1|][i];
  }

  lemma RootReachable(cfg: Config)
    ensures Reachable(cfg, 0)
  {
    assert Path(cfg, [], 0);
  }

  ghost predicate AllDone(cfg: Config, found: seq<Device>, scanned: set<Bus>, buses: set<Bus>) {
    forall b :: b in buses ==> Done(cfg, found, scanned, b)
  }

  /** Growth of a slot's scan after growth of the slots before it. */
  lemma GrowsThen(f0: seq<Device>, s0: set<Bus>, f1: seq<Device>, s1: set<Bus>, f2: seq<Device>, s2: set<Bus>,
                  slot: Option<(Bus, Slot)>, last: Option<(Bus, Slot)>)
    requires Grows(f0, s0, f1, s1, slot) && Grows(f1, s1, f2, s2, last)
    requires last == None || last == slot || (last.value.0 in s1 - s0)
    ensures Grows(f0, s0, f2, s2, slot)
  {
    assert f2[..|f0|] == f2[..|f1|][..|f0|];
    forall i | |f0| <= i < |f2| ensures f2[i].loc.bus in s2 - s0 || slot == Some((f2[i].loc.bus, f2[i].loc.dev)) {
      if i < |f1| { assert f2[i] == f2[..|f1|][i] == f1[i]; }
    }
  }

  lemma DoneThen(cfg: Config, f1: seq<Device>, s1: set<Bus>, f2: seq<Device>, s2: set<Bus>, slot: Option<(Bus, Slot)>, a: set<Bus>, b: set<Bus>)
    requires AllDone(cfg, f1, s1, a) && Grows(f1, s1, f2, s2, slot) && AllDone(cfg, f2, s2, b)
    ensures AllDone(cfg, f2, s2, a + b)
  {
    forall c | c in a ensures Done(cfg, f2, s2, c) { StaysDone(cfg, f1, s1, f2, s2, c); }
  }

  lemma AbsentHandled(cfg: Config, found: seq<Device>, scanned: set<Bus>, bus: Bus, dev: Slot)
    ensures forall f: Func :: VendorId(cfg, Loc(bus, dev, 0)) == 0xFFFF || f >= FuncCount(cfg, bus, dev) || VendorId(cfg, Loc(bus, dev, f)) == 0xFFFF ==>
              Handled(cfg, found, scanned, Loc(bus, dev, f))
  {
  }

  lemma EnterSound(cfg: Config, found: seq<Device>, scanned: set<Bus>, l: Loc)
    requires Sound(cfg, found, scanned) && Present(cfg, l) && l.bus in scanned && !Entered(found, l)
    ensures Sound(cfg, found + [Record(cfg, l)], scanned)
    ensures forall k :: Entered(found + [Record(cfg, l)], k) <==> Entered(found, k) || k == l
  {
    hide Present, Reachable;
    var found' := found + [Record(cfg, l)];
    assert found'[|found|].loc == l;
    forall k | Entered(found, k) ensures Entered(found', k) {
      var i :| 0 <= i < |found| && found[i].loc == k;
      assert found'[i].loc == k;
    }
  }
}
