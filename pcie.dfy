/**
 * PCI Express configuration space: the enhanced configuration access
 * mechanism (ECAM) of section 7.2.2 of the PCI Express Base Specification,
 * the identification and class fields of a function's header, the
 * capability list of section 6.7 of the PCI Local Bus Specification 3.0,
 * MSI set-up, the brute-force enumeration and the MCFG table of segments.
 */
module Pcie {
  import opened Machine
  import Acpi
  import Interrupts
  import BootBoot

  type Dword = x: nat | x < 0x1_0000_0000

  /**
   * Configuration space as the processor sees it: the dword at each byte
   * address. An address no function answers reads as all ones.
   */
  type ConfigMemory = map<nat, Dword>

  function Load(memory: ConfigMemory, address: nat): Dword
  {
    if address in memory then memory[address] else 0xffff_ffff
  }

  /** A bus segment from the MCFG: where its configuration space starts, its group and its range of buses. */
  datatype Segment = Segment(address: nat, groupNumber: nat, start: nat, end: nat)

  /** One function on one device on one bus of a segment. */
  datatype Location = Location(segment: Segment, busNumber: nat, deviceNumber: nat, functionNumber: nat)

  /** Offsets from this one on are refused. */
  const ConfigLimit: nat := 0x1000 - 4

  /** The location is one the segment decodes. */
  predicate Located(l: Location)
  {
    l.segment.start <= l.busNumber <= l.segment.end && l.deviceNumber <= 31 && l.functionNumber <= 7
  }

  predicate InBounds(l: Location, offset: nat)
  {
    Located(l) && offset < ConfigLimit
  }

  /**
   * The dword an access goes to: the bus relative to the segment's first
   * bus in bits 27:20, the device in bits 19:15, the function in bits 14:12
   * (the fields are disjoint, so their bitwise or is their sum), then the
   * dword holding the offset.
   */
  function ConfigAddress(l: Location, offset: nat): nat
    requires l.segment.start <= l.busNumber
  {
    l.segment.address + ((l.busNumber - l.segment.start) * 0x10_0000 + l.deviceNumber * 0x8000 + l.functionNumber * 0x1000)
    + 4 * (offset / 4)
  }

  /** `PCIeBusSegment::read` (and `PCIDevice::read` for the device's own location). */
  function ConfigRead(memory: ConfigMemory, l: Location, offset: nat): Dword
  {
    if InBounds(l, offset) then Load(memory, ConfigAddress(l, offset)) else 0
  }

  /** `PCIeBusSegment::write` (and `PCIDevice::write`). */
  function ConfigWrite(memory: ConfigMemory, l: Location, offset: nat, value: Dword): ConfigMemory
  {
    if InBounds(l, offset) then memory[ConfigAddress(l, offset) := value] else memory
  }

  /* ---------------------------------------------------------------------- */
  /* The ECAM layout                                                        */
  /* ---------------------------------------------------------------------- */

  /** Functions of a segment in enumeration order: bus, then device, then function. */
  function Index(l: Location): nat
    requires l.segment.start <= l.busNumber
  {
    (l.busNumber - l.segment.start) * 0x100 + l.deviceNumber * 8 + l.functionNumber
  }

  /** Distinct functions of a segment have distinct indices. */
  lemma IndexInjective(l: Location, l': Location)
    requires Located(l) && Located(l') && l.segment == l'.segment && Index(l) == Index(l')
    ensures l == l'
  {
    IndexOfLocation(l);
    IndexOfLocation(l');
  }

  /** The functions a segment decodes. */
  function FunctionCount(s: Segment): nat
  {
    if s.start <= s.end then (s.end - s.start + 1) * 0x100 else 0
  }

  /** The `k`-th function of a segment. */
  function LocationOf(s: Segment, k: nat): Location
  {
    Location(s, s.start + k / 0x100, k / 8 % 32, k % 8)
  }

  /** The `k`-th function lies in the segment and has index `k`. */
  lemma LocationOfIndex(s: Segment, k: nat)
    requires k < FunctionCount(s)
    ensures Located(LocationOf(s, k)) && Index(LocationOf(s, k)) == k
  {
    assert k == 8 * (k / 8) + k % 8;
    assert k / 8 == 32 * (k / 8 / 32) + k / 8 % 32;
    DivModUnique(k, 0x100, k / 8 / 32, k / 8 % 32 * 8 + k % 8);
  }

  /** Every decoded location is the function of its own index. */
  lemma IndexOfLocation(l: Location)
    requires Located(l)
    ensures Index(l) < FunctionCount(l.segment) && LocationOf(l.segment, Index(l)) == l
  {
    var b, d, f := l.busNumber - l.segment.start, l.deviceNumber, l.functionNumber;
    var k := Index(l);
    DivModUnique(k, 8, b * 32 + d, f);
    DivModUnique(k / 8, 32, b, d);
    DivModUnique(k, 0x100, b, d * 8 + f);
  }

  /** Each function owns the 4 KiB window at its index; the offset picks a dword inside it. */
  lemma EcamWindow(l: Location, offset: nat)
    requires InBounds(l, offset)
    ensures ConfigAddress(l, offset) == l.segment.address + Index(l) * 0x1000 + 4 * (offset / 4)
    ensures 4 * (offset / 4) < 0x1000
  {
  }

  /** Two in-bounds accesses of one segment reach the same dword only for the same function and dword. */
  lemma EcamInjective(l: Location, offset: nat, l': Location, offset': nat)
    requires InBounds(l, offset) && InBounds(l', offset') && l.segment == l'.segment
    ensures ConfigAddress(l, offset) == ConfigAddress(l', offset') <==> l == l' && offset / 4 == offset' / 4
  {
    if ConfigAddress(l, offset) == ConfigAddress(l', offset') {
      var rel := Index(l) * 0x1000 + 4 * (offset / 4);
      DivModUnique(rel, 0x1000, Index(l), 4 * (offset / 4));
      DivModUnique(rel, 0x1000, Index(l'), 4 * (offset' / 4));
      IndexOfLocation(l);
      IndexOfLocation(l');
    }
  }

  /** A read sees the last in-bounds write to its dword, and a write elsewhere in the segment does not disturb it. */
  lemma ReadAfterWrite(memory: ConfigMemory, l: Location, offset: nat, value: Dword, l': Location, offset': nat)
    requires l.segment == l'.segment
    ensures ConfigRead(ConfigWrite(memory, l, offset, value), l', offset')
      == if InBounds(l, offset) && InBounds(l', offset') && l == l' && offset / 4 == offset' / 4 then value
         else ConfigRead(memory, l', offset')
  {
    if InBounds(l, offset) && InBounds(l', offset') {
      EcamInjective(l, offset, l', offset');
    }
  }

  /** Out of bounds a read gives 0 and a write changes nothing. */
  lemma OutOfBounds(memory: ConfigMemory, l: Location, offset: nat, value: Dword)
    requires !InBounds(l, offset)
    ensures ConfigRead(memory, l, offset) == 0 && ConfigWrite(memory, l, offset, value) == memory
  {
  }

  /* ---------------------------------------------------------------------- */
  /* The capability list                                                    */
  /* ---------------------------------------------------------------------- */

  datatype Capability = Capability(address: nat, kind: nat)

  const IdentificationOffset: nat := 0x00
  const StatusAndCommandOffset: nat := 0x04
  const ClassCodesOffset: nat := 0x08
  const MiscellaneousOffset: nat := 0x0c
  const BarOffset: nat := 0x10
  const CapabilityOffset: nat := 0x34
  const MsiCapabilityId: nat := 0x05
  /** Bit 20 of the status and command dword: the function has a capability list. */
  const CapabilitiesListBit: nat := 20

  /** A capability pointer: the low byte with its two lowest bits cleared. */
  function PointerField(x: nat): (p: nat)
    ensures p < 0x100 && p % 4 == 0
  {
    x % 0x100 / 4 * 4
  }

  /** The next pointer, in the second byte of a capability's header. */
  function NextPointer(header: nat): (p: nat)
    ensures p < 0x100 && p % 4 == 0
  {
    PointerField(header / 0x100)
  }

  /** The values a capability pointer can take. */
  const Pointers: set<nat> := set p: nat | p < 0x100

  /**
   * The walk of the capability list from `pointer`, with `visited` the
   * pointers already followed. The walk ends at a null pointer; when it
   * comes back to a pointer it has followed, it follows the same pointers
   * again and again and never ends.
   */
  function Chain(memory: ConfigMemory, l: Location, pointer: nat, visited: set<nat>): Outcome<seq<Capability>>
    requires pointer < 0x100 && visited <= Pointers
    decreases Pointers - visited
  {
    if pointer == 0 then Ok([])
    else if pointer in visited then Hang
    else
      var header := ConfigRead(memory, l, pointer);
      var rest := Chain(memory, l, NextPointer(header), visited + {pointer});
      if rest.Hang? then Hang else Ok([Capability(pointer, header % 0x100)] + rest.value)
  }

  /** The pointer after `n` steps of the list from `pointer`. */
  function Follow(memory: ConfigMemory, l: Location, pointer: nat, n: nat): nat
    decreases n
  {
    if n == 0 then pointer else Follow(memory, l, NextPointer(ConfigRead(memory, l, pointer)), n - 1)
  }

  lemma {:induction false} FollowAdd(memory: ConfigMemory, l: Location, pointer: nat, a: nat, b: nat)
    ensures Follow(memory, l, pointer, a + b) == Follow(memory, l, Follow(memory, l, pointer, a), b)
    decreases a
  {
    if a > 0 {
      FollowAdd(memory, l, NextPointer(ConfigRead(memory, l, pointer)), a - 1, b);
    }
  }

  /**
   * A finished walk lists capabilities at non-null pointers not followed
   * before, each with the identifier in its header's low byte; it is empty
   * exactly when it starts at a null pointer.
   */
  lemma {:induction false} ChainLists(memory: ConfigMemory, l: Location, pointer: nat, visited: set<nat>)
    requires pointer < 0x100 && visited <= Pointers
    ensures Chain(memory, l, pointer, visited).Ok? ==>
      var caps := Chain(memory, l, pointer, visited).value;
      (|caps| == 0 <==> pointer == 0) && (|caps| > 0 ==> caps[0].address == pointer)
      && (forall i :: 0 <= i < |caps| ==>
            caps[i].address != 0 && caps[i].address !in visited && caps[i].address < 0x100
            && caps[i].kind == ConfigRead(memory, l, caps[i].address) % 0x100)
    decreases Pointers - visited
  {
    if pointer != 0 && pointer !in visited {
      var header := ConfigRead(memory, l, pointer);
      ChainLists(memory, l, NextPointer(header), visited + {pointer});
    }
  }

  /** A finished walk lists each capability once: their pointers are distinct. */
  lemma {:induction false} ChainDistinct(memory: ConfigMemory, l: Location, pointer: nat, visited: set<nat>)
    requires pointer < 0x100 && visited <= Pointers
    ensures Chain(memory, l, pointer, visited).Ok? ==>
      var caps := Chain(memory, l, pointer, visited).value;
      forall i, j :: 0 <= i < j < |caps| ==> caps[i].address != caps[j].address
    decreases Pointers - visited
  {
    if pointer != 0 && pointer !in visited {
      var header := ConfigRead(memory, l, pointer);
      ChainDistinct(memory, l, NextPointer(header), visited + {pointer});
      ChainLists(memory, l, NextPointer(header), visited + {pointer});
    }
  }

  /**
   * A finished walk follows the list: each capability is the one its
   * predecessor's next pointer names, and the last one's next pointer is
   * null, as is the pointer after as many steps as there are capabilities.
   */
  lemma {:induction false} ChainLinks(memory: ConfigMemory, l: Location, pointer: nat, visited: set<nat>)
    requires pointer < 0x100 && visited <= Pointers
    ensures Chain(memory, l, pointer, visited).Ok? ==>
      var caps := Chain(memory, l, pointer, visited).value;
      (forall i :: 0 < i < |caps| ==> caps[i].address == NextPointer(ConfigRead(memory, l, caps[i - 1].address)))
      && (|caps| > 0 ==> NextPointer(ConfigRead(memory, l, caps[|caps| - 1].address)) == 0)
      && Follow(memory, l, pointer, |caps|) == 0
    decreases Pointers - visited
  {
    if pointer != 0 && pointer !in visited {
      var header := ConfigRead(memory, l, pointer);
      ChainLinks(memory, l, NextPointer(header), visited + {pointer});
      ChainLists(memory, l, NextPointer(header), visited + {pointer});
    }
  }

  /** `p` is one of the pointers before step `i` of the list from `start`. */
  ghost predicate Reached(memory: ConfigMemory, l: Location, start: nat, i: nat, p: nat)
  {
    exists m :: 0 <= m < i && Follow(memory, l, start, m) == p
  }

  /**
   * A walk that does not finish never reaches a null pointer: under the
   * pointers followed so far (those after `i` steps from `start`), every
   * further step is non-null.
   */
  lemma {:induction false} ChainHangs(memory: ConfigMemory, l: Location, start: nat, i: nat, visited: set<nat>)
    requires Follow(memory, l, start, i) < 0x100 && visited <= Pointers
    requires forall m :: 0 <= m < i ==> Follow(memory, l, start, m) != 0
    requires forall m :: 0 <= m < i ==> Follow(memory, l, start, m) in visited
    requires forall p :: p in visited ==> Reached(memory, l, start, i, p)
    requires Chain(memory, l, Follow(memory, l, start, i), visited).Hang?
    ensures forall n :: Follow(memory, l, start, n) != 0
    decreases Pointers - visited
  {
    var p := Follow(memory, l, start, i);
    if p in visited {
      var m :| 0 <= m < i && Follow(memory, l, start, m) == p;
      forall n ensures Follow(memory, l, start, n) != 0 {
        Periodic(memory, l, start, m, i, n);
      }
    } else {
      assert p != 0;
      var next := NextPointer(ConfigRead(memory, l, p));
      FollowAdd(memory, l, start, i, 1);
      assert Follow(memory, l, p, 1) == Follow(memory, l, next, 0) == next;
      var visited' := visited + {p};
      forall q | q in visited' ensures Reached(memory, l, start, i + 1, q) {
        if q == p {
          assert Follow(memory, l, start, i) == q;
        } else {
          var m :| 0 <= m < i && Follow(memory, l, start, m) == q;
          assert 0 <= m < i + 1;
        }
      }
      assert forall m :: 0 <= m < i + 1 ==> Follow(memory, l, start, m) in visited';
      ChainHangs(memory, l, start, i + 1, visited');
    }
  }

  /** Once the pointer after `i` steps repeats the one after `m`, every pointer is one of those up to step `i`. */
  lemma {:induction false} Periodic(memory: ConfigMemory, l: Location, start: nat, m: nat, i: nat, n: nat)
    requires m < i && Follow(memory, l, start, m) == Follow(memory, l, start, i)
    requires forall k :: 0 <= k < i ==> Follow(memory, l, start, k) != 0
    ensures Follow(memory, l, start, n) != 0
    decreases n
  {
    if n >= i {
      var back := n - (i - m);
      FollowAdd(memory, l, start, i, n - i);
      FollowAdd(memory, l, start, m, n - i);
      assert m + (n - i) == back;
      Periodic(memory, l, start, m, i, back);
    }
  }

  /** The walk from `start` hangs exactly when following the pointers never reaches a null one. */
  lemma ChainHangsExactly(memory: ConfigMemory, l: Location, start: nat)
    requires start < 0x100
    ensures Chain(memory, l, start, {}).Hang? <==> forall n :: Follow(memory, l, start, n) != 0
  {
    if Chain(memory, l, start, {}).Hang? {
      ChainHangs(memory, l, start, 0, {});
    } else {
      ChainLinks(memory, l, start, {});
    }
  }

  /** Where the MSI capability is kept: the last one with the MSI identifier, or -1. */
  function LastMsiIndex(caps: seq<Capability>): (i: int)
    ensures -1 <= i < |caps|
    ensures i == -1 <==> forall j :: 0 <= j < |caps| ==> caps[j].kind != MsiCapabilityId
    ensures i >= 0 ==> caps[i].kind == MsiCapabilityId && forall j :: i < j < |caps| ==> caps[j].kind != MsiCapabilityId
    decreases |caps|
  {
    if |caps| == 0 then -1
    else if caps[|caps| - 1].kind == MsiCapabilityId then |caps| - 1
    else
      var i := LastMsiIndex(caps[..|caps| - 1]);
      assert forall j :: 0 <= j < |caps| - 1 ==> caps[..|caps| - 1][j] == caps[j];
      i
  }

  /** The capability kept as the MSI capability. */
  function LastMsi(caps: seq<Capability>): Option<Capability>
  {
    var i := LastMsiIndex(caps);
    if i < 0 then None else Some(caps[i])
  }

  /* ---------------------------------------------------------------------- */
  /* Devices                                                                */
  /* ---------------------------------------------------------------------- */

  /** What the `PCIDevice` constructor reads about a function. */
  datatype Device = Device(location: Location, vendorID: nat, deviceID: nat, revisionID: nat,
                           programmingInterface: nat, subclassCode: nat, classCode: nat, headerType: nat,
                           capabilities: seq<Capability>, msi: Option<Capability>)

  const NoVendor: nat := 0xffff

  /** Something answers at the location: the vendor half of dword 0 is not all ones. */
  predicate Present(memory: ConfigMemory, l: Location)
  {
    ConfigRead(memory, l, IdentificationOffset) % 0x1_0000 != NoVendor
  }

  /** The header says there is a capability list to walk. */
  predicate HasCapabilities(memory: ConfigMemory, l: Location)
  {
    ConfigRead(memory, l, MiscellaneousOffset) / 0x1_0000 % 0x10 == 0
    && BitSet(ConfigRead(memory, l, StatusAndCommandOffset), CapabilitiesListBit)
  }

  /** The `PCIDevice` constructor: the identification, class and header fields, then the capability walk. */
  function Probe(memory: ConfigMemory, l: Location): (r: Outcome<Device>)
    ensures r.Ok? ==> r.value.location == l
  {
    var identification := ConfigRead(memory, l, IdentificationOffset);
    var classCodes := ConfigRead(memory, l, ClassCodesOffset);
    var chain := if HasCapabilities(memory, l)
                 then Chain(memory, l, PointerField(ConfigRead(memory, l, CapabilityOffset)), {})
                 else Ok([]);
    if chain.Hang? then Hang
    else Ok(Device(l, identification % 0x1_0000, identification / 0x1_0000,
                   classCodes % 0x100, classCodes / 0x100 % 0x100, classCodes / 0x1_0000 % 0x100, classCodes / 0x100_0000,
                   ConfigRead(memory, l, MiscellaneousOffset) / 0x1_0000 % 0x10, chain.value, LastMsi(chain.value)))
  }

  /**
   * The fields of a probed device put dword 0 and dword 8 back together
   * (vendor and device ids; revision, programming interface, subclass and
   * class), each fits its field, and the capabilities are the list's.
   */
  lemma ProbeFields(memory: ConfigMemory, l: Location)
    ensures Probe(memory, l).Ok? ==>
      var d := Probe(memory, l).value;
      d.location == l && IsU16(d.vendorID) && IsU16(d.deviceID)
      && d.vendorID + d.deviceID * 0x1_0000 == ConfigRead(memory, l, IdentificationOffset)
      && IsU8(d.revisionID) && IsU8(d.programmingInterface) && IsU8(d.subclassCode) && IsU8(d.classCode)
      && d.revisionID + d.programmingInterface * 0x100 + d.subclassCode * 0x1_0000 + d.classCode * 0x100_0000
         == ConfigRead(memory, l, ClassCodesOffset)
      && d.headerType < 0x10
      && (d.capabilities == [] <== !HasCapabilities(memory, l))
      && (HasCapabilities(memory, l) ==> Chain(memory, l, PointerField(ConfigRead(memory, l, CapabilityOffset)), {}) == Ok(d.capabilities))
      && d.msi == LastMsi(d.capabilities)
  {
    var c := ConfigRead(memory, l, ClassCodesOffset);
    assert c == c % 0x100 + 0x100 * (c / 0x100);
    assert c / 0x100 == c / 0x100 % 0x100 + 0x100 * (c / 0x100 / 0x100);
    assert c / 0x100 / 0x100 == c / 0x100 / 0x100 % 0x100 + 0x100 * (c / 0x100 / 0x100 / 0x100);
    DivModUnique(c, 0x1_0000, c / 0x100 / 0x100, c % 0x100 + 0x100 * (c / 0x100 % 0x100));
    DivModUnique(c, 0x100_0000, c / 0x100 / 0x100 / 0x100,
                 c % 0x100 + 0x100 * (c / 0x100 % 0x100) + 0x1_0000 * (c / 0x100 / 0x100 % 0x100));
  }

  /** `getBARValue`: 0 for a header other than the ordinary one or a BAR past the sixth; otherwise that BAR's dword. */
  function BarValue(memory: ConfigMemory, d: Device, bar: nat): Dword
  {
    if d.headerType != 0 || bar > 5 then 0 else ConfigRead(memory, d.location, BarOffset + bar * 4)
  }

  /** For a decoded device the BARs are the six dwords from 0x10 in its window. */
  lemma BarValueWindow(memory: ConfigMemory, d: Device, bar: nat)
    requires Located(d.location)
    ensures BarValue(memory, d, bar) == if d.headerType != 0 || bar > 5 then 0
      else Load(memory, d.location.segment.address + Index(d.location) * 0x1000 + BarOffset + bar * 4)
  {
    if d.headerType == 0 && bar <= 5 {
      EcamWindow(d.location, BarOffset + bar * 4);
    }
  }

  /** The MSI address word for the bootstrap processor. */
  function MsiAddressWord(bspID: nat): (r: nat)
    ensures IsU64(r)
  {
    Interrupts.MsiAddress(bspID) as nat
  }

  /** The MSI data word for a vector. */
  function MsiDataWord(vector: nat): (r: nat)
    requires IsU8(vector)
    ensures IsU16(r)
  {
    Interrupts.MsiData(vector as bv8) as nat
  }

  /** Bit 7 of the message control word (bits 31:16 of the capability's first dword): a 64-bit address. */
  predicate LongAddress(memory: ConfigMemory, l: Location, capability: nat)
  {
    BitSet(ConfigRead(memory, l, capability) / 0x1_0000, 7)
  }

  /** One dword written to configuration space, at an offset of a function. */
  datatype DwordWrite = DwordWrite(offset: nat, value: Dword)

  /** The writes, in order, to the function at `l`. */
  function WriteAll(memory: ConfigMemory, l: Location, writes: seq<DwordWrite>): ConfigMemory
    decreases |writes|
  {
    if |writes| == 0 then memory
    else
      var last := writes[|writes| - 1];
      ConfigWrite(WriteAll(memory, l, writes[..|writes| - 1]), l, last.offset, last.value)
  }

  /** The first `k + 1` writes are the first `k` and then write `k`. */
  lemma WriteAllSnoc(memory: ConfigMemory, l: Location, writes: seq<DwordWrite>, k: nat)
    requires k < |writes|
    ensures WriteAll(memory, l, writes[..k + 1]) == ConfigWrite(WriteAll(memory, l, writes[..k]), l, writes[k].offset, writes[k].value)
  {
    assert writes[..k + 1][..k] == writes[..k];
  }

  /** Writes to other dwords (of this or another function of the segment) leave a dword as it was. */
  lemma {:induction false} WriteAllElsewhere(memory: ConfigMemory, l: Location, writes: seq<DwordWrite>, l': Location, offset: nat)
    requires l.segment == l'.segment
    requires l' != l || forall i :: 0 <= i < |writes| ==> writes[i].offset / 4 != offset / 4
    ensures ConfigRead(WriteAll(memory, l, writes), l', offset) == ConfigRead(memory, l', offset)
    decreases |writes|
  {
    if |writes| > 0 {
      var init, last := writes[..|writes| - 1], writes[|writes| - 1];
      ReadAfterWrite(WriteAll(memory, l, init), l, last.offset, last.value, l', offset);
      WriteAllElsewhere(memory, l, init, l', offset);
    }
  }

  /** A dword no later write touches reads back as written. */
  lemma {:induction false} WriteAllReadsBack(memory: ConfigMemory, l: Location, writes: seq<DwordWrite>, i: nat)
    requires i < |writes| && InBounds(l, writes[i].offset)
    requires forall j :: i < j < |writes| ==> writes[j].offset / 4 != writes[i].offset / 4
    ensures ConfigRead(WriteAll(memory, l, writes), l, writes[i].offset) == writes[i].value
    decreases |writes|
  {
    var init, last := writes[..|writes| - 1], writes[|writes| - 1];
    ReadAfterWrite(WriteAll(memory, l, init), l, last.offset, last.value, l, writes[i].offset);
    if i < |writes| - 1 {
      assert init[i] == writes[i];
      WriteAllReadsBack(memory, l, init, i);
    }
  }

  /**
   * The writes of `enableMSI` for the capability at `a`: the address (low
   * then high dword for a 64-bit address) and the data after the header,
   * then a message control word with only bit 0, MSI enable, set.
   */
  function MsiWrites(long: bool, a: nat, address: nat, data: Dword): (r: seq<DwordWrite>)
    requires IsU64(address)
  {
    if long then
      [DwordWrite(a + 0x04, address % U32Modulus), DwordWrite(a + 0x08, address / U32Modulus % U32Modulus),
       DwordWrite(a + 0x0c, data), DwordWrite(a, 0x1_0000)]
    else
      [DwordWrite(a + 0x04, address % U32Modulus), DwordWrite(a + 0x08, data), DwordWrite(a, 0x1_0000)]
  }

  /** `enableMSI`: nothing without MSI, otherwise its writes to the MSI capability. */
  function EnableMsi(memory: ConfigMemory, d: Device, vector: nat, bspID: nat): ConfigMemory
    requires IsU8(vector)
  {
    if d.msi.None? then memory
    else
      var a := d.msi.value.address;
      WriteAll(memory, d.location, MsiWrites(LongAddress(memory, d.location, a), a, MsiAddressWord(bspID), MsiDataWord(vector)))
  }

  /**
   * After `enableMSI` on a decoded device whose MSI capability is at a
   * pointer: MSI is enabled and the address and data read back from their
   * fields; without MSI nothing is written.
   */
  lemma EnableMsiFields(memory: ConfigMemory, d: Device, vector: nat, bspID: nat)
    requires IsU8(vector) && Located(d.location)
    requires d.msi.Some? ==> d.msi.value.address < 0x100 && d.msi.value.address % 4 == 0
    ensures d.msi.None? ==> EnableMsi(memory, d, vector, bspID) == memory
    ensures d.msi.Some? ==>
      var l, a, r := d.location, d.msi.value.address, EnableMsi(memory, d, vector, bspID);
      var long := LongAddress(memory, l, a);
      ConfigRead(r, l, a) == 0x1_0000
      && ConfigRead(r, l, a + 4) == MsiAddressWord(bspID) % U32Modulus
      && (long ==> ConfigRead(r, l, a + 8) == MsiAddressWord(bspID) / U32Modulus % U32Modulus
                   && ConfigRead(r, l, a + 12) == MsiDataWord(vector))
      && (!long ==> ConfigRead(r, l, a + 8) == MsiDataWord(vector))
  {
    if d.msi.Some? {
      var l, a := d.location, d.msi.value.address;
      MsiWritesReadBack(memory, l, LongAddress(memory, l, a), a, MsiAddressWord(bspID), MsiDataWord(vector));
    }
  }

  /** The dwords `enableMSI` writes read back as written. */
  lemma MsiWritesReadBack(memory: ConfigMemory, l: Location, long: bool, a: nat, address: nat, data: Dword)
    requires Located(l) && a < 0x100 && a % 4 == 0 && IsU64(address)
    ensures var r := WriteAll(memory, l, MsiWrites(long, a, address, data));
      ConfigRead(r, l, a) == 0x1_0000
      && ConfigRead(r, l, a + 4) == address % U32Modulus
      && (long ==> ConfigRead(r, l, a + 8) == address / U32Modulus % U32Modulus && ConfigRead(r, l, a + 12) == data)
      && (!long ==> ConfigRead(r, l, a + 8) == data)
  {
    var writes := MsiWrites(long, a, address, data);
    assert (a + 4) / 4 == a / 4 + 1 && (a + 8) / 4 == a / 4 + 2 && (a + 12) / 4 == a / 4 + 3;
    WriteAllReadsBack(memory, l, writes, 0);
    WriteAllReadsBack(memory, l, writes, 1);
    WriteAllReadsBack(memory, l, writes, 2);
    if long {
      WriteAllReadsBack(memory, l, writes, 3);
    }
  }

  /**
   * `enableMSI` writes only the capability's first three dwords (four for
   * a 64-bit address): every other dword of the segment reads as before.
   */
  lemma EnableMsiFrame(memory: ConfigMemory, d: Device, vector: nat, bspID: nat, l': Location, offset: nat)
    requires IsU8(vector) && l'.segment == d.location.segment
    requires d.msi.Some? ==> d.msi.value.address % 4 == 0
    ensures d.msi.Some? ==>
      var l, a := d.location, d.msi.value.address;
      var last := if LongAddress(memory, l, a) then a / 4 + 3 else a / 4 + 2;
      (l' != l || offset / 4 < a / 4 || last < offset / 4)
        ==> ConfigRead(EnableMsi(memory, d, vector, bspID), l', offset) == ConfigRead(memory, l', offset)
  {
    if d.msi.Some? {
      var l, a := d.location, d.msi.value.address;
      var long := LongAddress(memory, l, a);
      var last := if long then a / 4 + 3 else a / 4 + 2;
      if l' != l || offset / 4 < a / 4 || last < offset / 4 {
        assert (a + 4) / 4 == a / 4 + 1 && (a + 8) / 4 == a / 4 + 2 && (a + 12) / 4 == a / 4 + 3;
        WriteAllElsewhere(memory, l, MsiWrites(long, a, MsiAddressWord(bspID), MsiDataWord(vector)), l', offset);
      }
    }
  }

  /* ---------------------------------------------------------------------- */
  /* Enumeration                                                            */
  /* ---------------------------------------------------------------------- */

  /** Presence as a function of the location alone. */
  function Presence(memory: ConfigMemory): (present: Location -> bool)
    ensures forall l :: present(l) == Present(memory, l)
  {
    l => Present(memory, l)
  }

  /** Probing as a function of the location alone, so that the scan can be stated for any prober. */
  function Prober(memory: ConfigMemory): (probe: Location -> Outcome<Device>)
    ensures forall l :: probe(l) == Probe(memory, l)
    ensures Locates(probe)
  {
    l => Probe(memory, l)
  }

  /** A prober that finds a device describes it at the location probed. */
  ghost predicate Locates(probe: Location -> Outcome<Device>)
  {
    forall l :: probe(l).Ok? ==> probe(l).value.location == l
  }

  /** Where the scan of a segment stands: functions in bus, device, function order from the segment's first bus. */
  function Position(s: Segment, bus: nat, device: nat, fn: nat): nat
    requires s.start <= bus
  {
    (bus - s.start) * 0x100 + device * 8 + fn
  }

  /**
   * The scan of a segment from `bus`, `device` and `fn`, after the devices
   * `found`, as the three nested loops of `enumerateDevices` run it: every
   * function `present` accepts (one whose vendor id is not all ones) is
   * probed with `probe` and appended; a probe that never ends stops the scan.
   */
  function ScanFrom(s: Segment, bus: nat, device: nat, fn: nat, found: seq<Device>,
                  present: Location -> bool, probe: Location -> Outcome<Device>): Outcome<seq<Device>>
    requires device <= 32 && fn <= 8
    decreases s.end + 1 - bus, 32 - device, 8 - fn
  {
    if bus > s.end then Ok(found)
    else if device == 32 then ScanFrom(s, bus + 1, 0, 0, found, present, probe)
    else if fn == 8 then ScanFrom(s, bus, device + 1, 0, found, present, probe)
    else
      var l := Location(s, bus, device, fn);
      if !present(l) then ScanFrom(s, bus, device, fn + 1, found, present, probe)
      else
        var probed := probe(l);
        if probed.Hang? then Hang else ScanFrom(s, bus, device, fn + 1, found + [probed.value], present, probe)
  }

  /** A finished scan keeps the devices found before it. */
  lemma {:induction false} ScanKeeps(s: Segment, bus: nat, device: nat, fn: nat, found: seq<Device>, present: Location -> bool, probe: Location -> Outcome<Device>)
    requires device <= 32 && fn <= 8
    ensures ScanFrom(s, bus, device, fn, found, present, probe).Ok? ==>
      |found| <= |ScanFrom(s, bus, device, fn, found, present, probe).value|
      && ScanFrom(s, bus, device, fn, found, present, probe).value[..|found|] == found
    decreases s.end + 1 - bus, 32 - device, 8 - fn
  {
    if bus > s.end {
    } else if device == 32 {
      ScanKeeps(s, bus + 1, 0, 0, found, present, probe);
    } else if fn == 8 {
      ScanKeeps(s, bus, device + 1, 0, found, present, probe);
    } else {
      var l := Location(s, bus, device, fn);
      if !present(l) {
        ScanKeeps(s, bus, device, fn + 1, found, present, probe);
      } else if probe(l).Ok? {
        var found' := found + [probe(l).value];
        ScanKeeps(s, bus, device, fn + 1, found', present, probe);
        if ScanFrom(s, bus, device, fn, found, present, probe).Ok? {
          var r := ScanFrom(s, bus, device, fn, found, present, probe).value;
          assert r[..|found'|][..|found|] == r[..|found|];
        }
      }
    }
  }

  /** What a scan appends: probed, present functions of the segment at or after where it starts, in strictly increasing order. */
  predicate Appended(s: Segment, from: nat, found: seq<Device>, r: seq<Device>,
                     present: Location -> bool, probe: Location -> Outcome<Device>)
  {
    |found| <= |r|
    && (forall i :: |found| <= i < |r| ==>
          r[i].location.segment == s && Located(r[i].location) && from <= Index(r[i].location)
          && present(r[i].location) && probe(r[i].location) == Ok(r[i]))
    && (forall i, j :: |found| <= i < j < |r| ==> Index(r[i].location) < Index(r[j].location))
  }

  /** A finished scan appends only probed, present functions of the segment, in the scan's order. */
  lemma {:induction false} ScanSound(s: Segment, bus: nat, device: nat, fn: nat, found: seq<Device>, present: Location -> bool, probe: Location -> Outcome<Device>)
    requires device <= 32 && fn <= 8 && (device < 32 || fn == 0) && s.start <= bus && Locates(probe)
    ensures ScanFrom(s, bus, device, fn, found, present, probe).Ok? ==>
      Appended(s, Position(s, bus, device, fn), found, ScanFrom(s, bus, device, fn, found, present, probe).value, present, probe)
    decreases s.end + 1 - bus, 32 - device, 8 - fn
  {
    if bus > s.end {
    } else if device == 32 {
      ScanSound(s, bus + 1, 0, 0, found, present, probe);
    } else if fn == 8 {
      ScanSound(s, bus, device + 1, 0, found, present, probe);
    } else {
      var l := Location(s, bus, device, fn);
      if !present(l) {
        ScanSound(s, bus, device, fn + 1, found, present, probe);
      } else if probe(l).Ok? {
        var found' := found + [probe(l).value];
        ScanSound(s, bus, device, fn + 1, found', present, probe);
        ScanKeeps(s, bus, device, fn + 1, found', present, probe);
        if ScanFrom(s, bus, device, fn, found, present, probe).Ok? {
          var r := ScanFrom(s, bus, device, fn, found, present, probe).value;
          assert r[|found|] == r[..|found'|][|found|];
          AppendedStep(s, Position(s, bus, device, fn), found, found', r, present, probe);
        }
      }
    }
  }

  /** One probed function in front of what the rest of the scan appends. */
  lemma AppendedStep(s: Segment, from: nat, found: seq<Device>, found': seq<Device>, r: seq<Device>,
                     present: Location -> bool, probe: Location -> Outcome<Device>)
    requires |found'| == |found| + 1 && |found'| <= |r| && r[|found|] == found'[|found|]
    requires Appended(s, from + 1, found', r, present, probe)
    requires found'[|found|].location.segment == s && Located(found'[|found|].location)
    requires Index(found'[|found|].location) == from && present(found'[|found|].location)
    requires probe(found'[|found|].location) == Ok(found'[|found|])
    ensures Appended(s, from, found, r, present, probe)
  {
  }

  /** A finished scan finds every present function of the segment at or after where it starts. */
  lemma {:induction false} ScanComplete(s: Segment, bus: nat, device: nat, fn: nat, found: seq<Device>, present: Location -> bool, probe: Location -> Outcome<Device>,
                                        l: Location)
    requires device <= 32 && fn <= 8 && s.start <= bus
    requires l.segment == s && Located(l) && Position(s, bus, device, fn) <= Index(l) && present(l)
    requires Locates(probe)
    ensures ScanFrom(s, bus, device, fn, found, present, probe).Ok? ==>
      exists i :: |found| <= i < |ScanFrom(s, bus, device, fn, found, present, probe).value|
        && ScanFrom(s, bus, device, fn, found, present, probe).value[i].location == l
    decreases s.end + 1 - bus, 32 - device, 8 - fn
  {
    if bus > s.end {
    } else if device == 32 {
      ScanComplete(s, bus + 1, 0, 0, found, present, probe, l);
    } else if fn == 8 {
      ScanComplete(s, bus, device + 1, 0, found, present, probe, l);
    } else {
      var here := Location(s, bus, device, fn);
      if here == l {
        if probe(l).Ok? {
          var found' := found + [probe(l).value];
          ScanKeeps(s, bus, device, fn + 1, found', present, probe);
          if ScanFrom(s, bus, device, fn, found, present, probe).Ok? {
            var r := ScanFrom(s, bus, device, fn + 1, found', present, probe).value;
            assert r[|found|] == r[..|found'|][|found|];
          }
        }
      } else {
        if Position(s, bus, device, fn) == Index(l) {
          IndexInjective(l, here);
        }
        if !present(here) {
          ScanComplete(s, bus, device, fn + 1, found, present, probe, l);
        } else if probe(here).Ok? {
          var found' := found + [probe(here).value];
          ScanComplete(s, bus, device, fn + 1, found', present, probe, l);
          if ScanFrom(s, bus, device, fn, found, present, probe).Ok? {
            var r := ScanFrom(s, bus, device, fn + 1, found', present, probe).value;
            var i :| |found'| <= i < |r| && r[i].location == l;
          }
        }
      }
    }
  }

  /** Some present function of the segment at or after `from` is one whose probe never ends. */
  ghost predicate HangsAfter(s: Segment, from: nat, present: Location -> bool, probe: Location -> Outcome<Device>)
  {
    exists l: Location :: l.segment == s && Located(l) && from <= Index(l) && present(l) && probe(l).Hang?
  }

  /** A scan stops exactly when probing a present function at or after where it starts never ends. */
  lemma {:induction false} ScanHangs(s: Segment, bus: nat, device: nat, fn: nat, found: seq<Device>, present: Location -> bool, probe: Location -> Outcome<Device>)
    requires device <= 32 && fn <= 8 && (device < 32 || fn == 0) && s.start <= bus
    ensures ScanFrom(s, bus, device, fn, found, present, probe).Hang? <==> HangsAfter(s, Position(s, bus, device, fn), present, probe)
    decreases s.end + 1 - bus, 32 - device, 8 - fn
  {
    var from := Position(s, bus, device, fn);
    if bus > s.end {
    } else if device == 32 {
      ScanHangs(s, bus + 1, 0, 0, found, present, probe);
    } else if fn == 8 {
      ScanHangs(s, bus, device + 1, 0, found, present, probe);
    } else {
      var here := Location(s, bus, device, fn);
      if !(present(here) && probe(here).Hang?) {
        if present(here) {
          ScanHangs(s, bus, device, fn + 1, found + [probe(here).value], present, probe);
        } else {
          ScanHangs(s, bus, device, fn + 1, found, present, probe);
        }
        HangsStep(s, here, present, probe);
      }
    }
  }

  /** A function whose probe ends does not decide whether a later one hangs. */
  lemma HangsStep(s: Segment, here: Location, present: Location -> bool, probe: Location -> Outcome<Device>)
    requires here.segment == s && Located(here) && !(present(here) && probe(here).Hang?)
    ensures HangsAfter(s, Index(here), present, probe) <==> HangsAfter(s, Index(here) + 1, present, probe)
  {
    if HangsAfter(s, Index(here), present, probe) {
      var l: Location :| l.segment == s && Located(l) && Index(here) <= Index(l) && present(l) && probe(l).Hang?;
      if Index(l) == Index(here) {
        IndexInjective(l, here);
      }
    }
  }

  /** `enumerateDevices` from the `i`-th segment on: each segment scanned in turn. */
  function EnumerateFrom(memory: ConfigMemory, segments: seq<Segment>, i: nat, found: seq<Device>): Outcome<seq<Device>>
    decreases |segments| - i
  {
    if i >= |segments| then Ok(found)
    else
      var scanned := ScanFrom(segments[i], segments[i].start, 0, 0, found, Presence(memory), Prober(memory));
      if scanned.Hang? then Hang else EnumerateFrom(memory, segments, i + 1, scanned.value)
  }

  /**
   * A finished enumeration keeps the devices found before it, and what it
   * adds are probed, present functions of the segments from the `i`-th on.
   */
  lemma {:induction false} EnumerateSound(memory: ConfigMemory, segments: seq<Segment>, i: nat, found: seq<Device>)
    ensures EnumerateFrom(memory, segments, i, found).Ok? ==>
      var r := EnumerateFrom(memory, segments, i, found).value;
      |found| <= |r| && r[..|found|] == found
      && (forall n :: |found| <= n < |r| ==>
            (exists g :: i <= g < |segments| && r[n].location.segment == segments[g])
            && Located(r[n].location) && Present(memory, r[n].location) && Probe(memory, r[n].location) == Ok(r[n]))
    decreases |segments| - i
  {
    if i < |segments| {
      var s := segments[i];
      var present, probe := Presence(memory), Prober(memory);
      if ScanFrom(s, s.start, 0, 0, found, present, probe).Ok? {
        var scanned := ScanFrom(s, s.start, 0, 0, found, present, probe).value;
        ScanKeeps(s, s.start, 0, 0, found, present, probe);
        ScanSound(s, s.start, 0, 0, found, present, probe);
        EnumerateSound(memory, segments, i + 1, scanned);
        if EnumerateFrom(memory, segments, i, found).Ok? {
          var r := EnumerateFrom(memory, segments, i, found).value;
          assert r[..|scanned|][..|found|] == r[..|found|];
          forall n | |found| <= n < |scanned|
            ensures r[n] == scanned[n]
          {
            assert r[..|scanned|][n] == r[n];
          }
        }
      }
    }
  }

  /** A finished enumeration finds every present function of the segments from the `i`-th on. */
  lemma {:induction false} EnumerateComplete(memory: ConfigMemory, segments: seq<Segment>, i: nat, found: seq<Device>,
                                             g: nat, l: Location)
    requires i <= g < |segments| && l.segment == segments[g] && Located(l) && Present(memory, l)
    ensures EnumerateFrom(memory, segments, i, found).Ok? ==>
      exists n :: |found| <= n < |EnumerateFrom(memory, segments, i, found).value|
        && EnumerateFrom(memory, segments, i, found).value[n].location == l
    decreases |segments| - i
  {
    var s := segments[i];
    var present, probe := Presence(memory), Prober(memory);
    if ScanFrom(s, s.start, 0, 0, found, present, probe).Ok? {
      var scanned := ScanFrom(s, s.start, 0, 0, found, present, probe).value;
      ScanKeeps(s, s.start, 0, 0, found, present, probe);
      if g == i {
        ScanComplete(s, s.start, 0, 0, found, present, probe, l);
        EnumerateSound(memory, segments, i + 1, scanned);
        if EnumerateFrom(memory, segments, i, found).Ok? {
          var r := EnumerateFrom(memory, segments, i, found).value;
          var n :| |found| <= n < |scanned| && scanned[n].location == l;
          assert r[..|scanned|][n] == r[n];
        }
      } else {
        EnumerateComplete(memory, segments, i + 1, scanned, g, l);
      }
    }
  }

  /** `getDevicesByClassCodes`'s test. */
  predicate Matches(d: Device, classCode: nat, subclassCode: nat, programmingInterface: nat)
  {
    d.classCode == classCode && d.subclassCode == subclassCode && d.programmingInterface == programmingInterface
  }

  /** The devices passing the test, in registration order. */
  function Matching(devices: seq<Device>, classCode: nat, subclassCode: nat, programmingInterface: nat): (r: seq<Device>)
    ensures forall d :: d in r <==> d in devices && Matches(d, classCode, subclassCode, programmingInterface)
    ensures |r| <= |devices|
    decreases |devices|
  {
    if |devices| == 0 then []
    else
      var last := devices[|devices| - 1];
      var init := devices[..|devices| - 1];
      assert devices == init + [last];
      Matching(init, classCode, subclassCode, programmingInterface)
      + if Matches(last, classCode, subclassCode, programmingInterface) then [last] else []
  }

  /** The matches of a concatenation are the concatenation of the matches: registration order is kept. */
  lemma {:induction false} MatchingAppend(a: seq<Device>, b: seq<Device>, classCode: nat, subclassCode: nat, programmingInterface: nat)
    ensures Matching(a + b, classCode, subclassCode, programmingInterface)
         == Matching(a, classCode, subclassCode, programmingInterface) + Matching(b, classCode, subclassCode, programmingInterface)
    decreases |b|
  {
    if |b| > 0 {
      var b' := b[..|b| - 1];
      assert (a + b)[..|a + b| - 1] == a + b';
      MatchingAppend(a, b', classCode, subclassCode, programmingInterface);
    } else {
      assert a + b == a;
    }
  }

  /* ---------------------------------------------------------------------- */
  /* The MCFG                                                               */
  /* ---------------------------------------------------------------------- */

  /** Where the segment descriptors start: after the header and 8 reserved bytes. */
  const DescriptorsOffset: nat := 44
  const DescriptorSize: nat := 16

  /** The number of descriptors, from the table's length with unsigned 64-bit arithmetic. */
  function EntryCount(m: Bytes, t: nat): nat
    requires Acpi.HeaderIn(m, t)
  {
    WrapU64(Acpi.TableLength(m, t) - Acpi.HeaderSize - 8) / DescriptorSize
  }

  /** Where the MCFG is long enough for its reserved field, its descriptors lie inside the table. */
  lemma EntriesInsideTable(m: Bytes, t: nat)
    requires Acpi.HeaderIn(m, t) && Acpi.TableLength(m, t) >= DescriptorsOffset
    ensures DescriptorsOffset + DescriptorSize * EntryCount(m, t) <= Acpi.TableLength(m, t)
  {
  }

  /** The MCFG's descriptors are in memory. */
  predicate McfgIn(m: Bytes, t: nat)
  {
    Acpi.HeaderIn(m, t) && t + DescriptorsOffset + DescriptorSize * EntryCount(m, t) <= |m|
  }

  /** The `i`-th descriptor: the 64-bit address, the 16-bit group, the first and last bus. */
  function Descriptor(m: Bytes, t: nat, i: nat): (s: Segment)
    requires t + DescriptorsOffset + DescriptorSize * (i + 1) <= |m|
    ensures IsU64(s.address) && IsU16(s.groupNumber) && IsU8(s.start) && IsU8(s.end)
  {
    var e := t + DescriptorsOffset + DescriptorSize * i;
    LoadLEBelow(m, e, 8);
    LoadLEBelow(m, e + 8, 2);
    Segment(LoadLE(m, e, 8), LoadLE(m, e + 8, 2), m[e + 10], m[e + 11])
  }

  /** The first `n` descriptors, in table order. */
  function Descriptors(m: Bytes, t: nat, n: nat): (r: seq<Segment>)
    requires t + DescriptorsOffset + DescriptorSize * n <= |m|
    ensures |r| == n && forall i :: 0 <= i < n ==> r[i] == Descriptor(m, t, i)
  {
    if n == 0 then [] else Descriptors(m, t, n - 1) + [Descriptor(m, t, n - 1)]
  }

  predicate McfgComplete(m: Bytes, tables: seq<nat>)
    requires Acpi.AllHeadersIn(m, tables)
  {
    var found := Acpi.FindTable(m, tables, "MCFG");
    found.Some? ==> McfgIn(m, found.value)
  }

  /**
   * `PCIe::initialize` without the mappings: no MCFG leaves no segments and
   * no devices; otherwise a segment per descriptor, then the enumeration.
   */
  function InitializeSpec(m: Bytes, tables: seq<nat>, memory: ConfigMemory): Outcome<(seq<Segment>, seq<Device>)>
    requires Acpi.AllHeadersIn(m, tables) && McfgComplete(m, tables)
  {
    var found := Acpi.FindTable(m, tables, "MCFG");
    if found.None? then Ok(([], []))
    else
      var segments := Descriptors(m, found.value, EntryCount(m, found.value));
      var devices := EnumerateFrom(memory, segments, 0, []);
      if devices.Hang? then Hang else Ok((segments, devices.value))
  }

  /**
   * `devices` are exactly the present functions of `segments`: each one
   * probed at a function of one of them, and every present function among them.
   */
  ghost predicate Enumerated(memory: ConfigMemory, segments: seq<Segment>, devices: seq<Device>)
  {
    (forall n :: 0 <= n < |devices| ==>
       devices[n].location.segment in segments && Located(devices[n].location)
       && Present(memory, devices[n].location) && Probe(memory, devices[n].location) == Ok(devices[n]))
    && (forall l: Location :: l.segment in segments && Located(l) && Present(memory, l) ==>
          exists n :: 0 <= n < |devices| && devices[n].location == l)
  }

  /** Without an MCFG there is nothing; otherwise a segment per descriptor and exactly their present functions. */
  lemma InitializeFinds(m: Bytes, tables: seq<nat>, memory: ConfigMemory)
    requires Acpi.AllHeadersIn(m, tables) && McfgComplete(m, tables)
    ensures Acpi.FindTable(m, tables, "MCFG").None? ==> InitializeSpec(m, tables, memory) == Ok(([], []))
    ensures Acpi.FindTable(m, tables, "MCFG").Some? && InitializeSpec(m, tables, memory).Ok? ==>
      var t := Acpi.FindTable(m, tables, "MCFG").value;
      |InitializeSpec(m, tables, memory).value.0| == EntryCount(m, t)
      && (forall i :: 0 <= i < EntryCount(m, t) ==> InitializeSpec(m, tables, memory).value.0[i] == Descriptor(m, t, i))
    ensures InitializeSpec(m, tables, memory).Ok? ==>
      Enumerated(memory, InitializeSpec(m, tables, memory).value.0, InitializeSpec(m, tables, memory).value.1)
  {
    var found := Acpi.FindTable(m, tables, "MCFG");
    if found.Some? {
      var segments := Descriptors(m, found.value, EntryCount(m, found.value));
      EnumerateSound(memory, segments, 0, []);
      if EnumerateFrom(memory, segments, 0, []).Ok? {
        var devices := EnumerateFrom(memory, segments, 0, []).value;
        forall n | 0 <= n < |devices| ensures devices[n].location.segment in segments {
          var g :| 0 <= g < |segments| && devices[n].location.segment == segments[g];
        }
        forall l: Location | l.segment in segments && Located(l) && Present(memory, l)
          ensures exists n :: 0 <= n < |devices| && devices[n].location == l
        {
          var g :| 0 <= g < |segments| && segments[g] == l.segment;
          EnumerateComplete(memory, segments, 0, [], g, l);
        }
      }
    }
  }

  /** The subsystem: the segments from the MCFG, the devices found, and the configuration space. */
  class PciExpress {
    var segments: seq<Segment>
    var devices: seq<Device>
    var memory: ConfigMemory

    constructor (memory: ConfigMemory)
      ensures segments == [] && devices == [] && this.memory == memory
    {
      segments, devices, this.memory := [], [], memory;
    }

    /** The constructor's capability loop: followed until a null pointer, with the MSI capability noted. */
    method WalkCapabilities(l: Location, start: nat) returns (r: Outcome<seq<Capability>>, msi: Option<Capability>)
      requires start < 0x100
      ensures r == Chain(memory, l, start, {})
      ensures r.Ok? ==> msi == LastMsi(r.value)
    {
      var pointer := start;
      var capabilities: seq<Capability> := [];
      var visited: set<nat> := {};
      msi := None;
      assert Chain(memory, l, start, {}).Ok? ==> [] + Chain(memory, l, start, {}).value == Chain(memory, l, start, {}).value;
      while pointer != 0
        invariant pointer < 0x100 && visited <= Pointers
        invariant Chain(memory, l, start, {}) == Extend(capabilities, Chain(memory, l, pointer, visited))
        invariant msi == LastMsi(capabilities)
        decreases Pointers - visited
      {
        if pointer in visited {
          // the list loops back: the source follows it forever
          return Hang, None;
        }
        var header := ConfigRead(memory, l, pointer);
        var capability := Capability(pointer, header % 0x100);
        WalkStep(memory, l, capabilities, pointer, visited);
        capabilities := capabilities + [capability];
        if capability.kind == MsiCapabilityId {
          msi := Some(capability);
        }
        visited := visited + {pointer};
        pointer := NextPointer(header);
      }
      assert capabilities + [] == capabilities;
      return Ok(capabilities), msi;
    }

    /** The `PCIDevice` constructor for the function at `l`. */
    method ProbeFunction(l: Location) returns (r: Outcome<Device>)
      ensures r == Probe(memory, l)
    {
      var identification := ConfigRead(memory, l, IdentificationOffset);
      var classCodes := ConfigRead(memory, l, ClassCodesOffset);
      var headerType := ConfigRead(memory, l, MiscellaneousOffset) / 0x1_0000 % 0x10;
      var statusAndCommand := ConfigRead(memory, l, StatusAndCommandOffset);
      var capabilities: seq<Capability> := [];
      var msi: Option<Capability> := None;
      if headerType == 0 && BitSet(statusAndCommand, CapabilitiesListBit) {
        var walked;
        walked, msi := WalkCapabilities(l, PointerField(ConfigRead(memory, l, CapabilityOffset)));
        if walked.Hang? {
          return Hang;
        }
        capabilities := walked.value;
      }
      return Ok(Device(l, identification % 0x1_0000, identification / 0x1_0000,
                       classCodes % 0x100, classCodes / 0x100 % 0x100, classCodes / 0x1_0000 % 0x100, classCodes / 0x100_0000,
                       headerType, capabilities, msi));
    }

    /** The functions of one device, in order. */
    method ScanDevice(s: Segment, bus: nat, device: nat, ghost present: Location -> bool, ghost probe: Location -> Outcome<Device>)
      returns (r: Outcome<()>)
      requires s.start <= bus <= s.end && device < 32
      requires present == Presence(memory) && probe == Prober(memory)
      modifies this
      ensures segments == old(segments) && memory == old(memory)
      ensures r.Hang? ==> ScanFrom(s, bus, device, 0, old(devices), present, probe).Hang?
      ensures r.Ok? ==> ScanFrom(s, bus, device, 0, old(devices), present, probe) == ScanFrom(s, bus, device + 1, 0, devices, present, probe)
    {
      ghost var whole := ScanFrom(s, bus, device, 0, devices, present, probe);
      for fn := 0 to 8
        invariant segments == old(segments) && memory == old(memory)
        invariant ScanFrom(s, bus, device, fn, devices, present, probe) == whole
      {
        var l := Location(s, bus, device, fn);
        var identification := ConfigRead(memory, l, IdentificationOffset);
        if identification % 0x1_0000 != NoVendor {
          var found := ProbeFunction(l);
          if found.Hang? {
            return Hang;
          }
          devices := devices + [found.value];
        }
      }
      return Ok(());
    }

    /** The devices of one bus, in order. */
    method ScanBus(s: Segment, bus: nat, ghost present: Location -> bool, ghost probe: Location -> Outcome<Device>)
      returns (r: Outcome<()>)
      requires s.start <= bus <= s.end
      requires present == Presence(memory) && probe == Prober(memory)
      modifies this
      ensures segments == old(segments) && memory == old(memory)
      ensures r.Hang? ==> ScanFrom(s, bus, 0, 0, old(devices), present, probe).Hang?
      ensures r.Ok? ==> ScanFrom(s, bus, 0, 0, old(devices), present, probe) == ScanFrom(s, bus + 1, 0, 0, devices, present, probe)
    {
      ghost var whole := ScanFrom(s, bus, 0, 0, devices, present, probe);
      for device := 0 to 32
        invariant segments == old(segments) && memory == old(memory)
        invariant ScanFrom(s, bus, device, 0, devices, present, probe) == whole
      {
        var scanned := ScanDevice(s, bus, device, present, probe);
        if scanned.Hang? {
          return Hang;
        }
      }
      return Ok(());
    }

    /** One segment of `enumerateDevices`: every bus from the first to the last. */
    method ScanSegment(s: Segment, ghost present: Location -> bool, ghost probe: Location -> Outcome<Device>)
      returns (r: Outcome<()>)
      requires present == Presence(memory) && probe == Prober(memory)
      modifies this
      ensures segments == old(segments) && memory == old(memory)
      ensures r.Hang? <==> ScanFrom(s, s.start, 0, 0, old(devices), present, probe).Hang?
      ensures r.Ok? ==> ScanFrom(s, s.start, 0, 0, old(devices), present, probe) == Ok(devices)
    {
      ghost var whole := ScanFrom(s, s.start, 0, 0, devices, present, probe);
      if s.end < s.start {
        return Ok(());
      }
      var bus := s.start;
      while bus <= s.end
        invariant s.start <= bus <= s.end + 1
        invariant segments == old(segments) && memory == old(memory)
        invariant ScanFrom(s, bus, 0, 0, devices, present, probe) == whole
      {
        var scanned := ScanBus(s, bus, present, probe);
        if scanned.Hang? {
          return Hang;
        }
        bus := bus + 1;
      }
      return Ok(());
    }

    /** `enumerateDevices`. */
    method EnumerateDevices() returns (r: Outcome<()>)
      modifies this
      ensures segments == old(segments) && memory == old(memory)
      ensures r.Hang? <==> EnumerateFrom(memory, segments, 0, old(devices)).Hang?
      ensures r.Ok? ==> EnumerateFrom(memory, segments, 0, old(devices)) == Ok(devices)
    {
      ghost var whole := EnumerateFrom(memory, segments, 0, devices);
      for i := 0 to |segments|
        invariant segments == old(segments) && memory == old(memory)
        invariant EnumerateFrom(memory, segments, i, devices) == whole
      {
        var scanned := ScanSegment(segments[i], Presence(memory), Prober(memory));
        if scanned.Hang? {
          return Hang;
        }
      }
      return Ok(());
    }

    /** `getDevicesByClassCodes`: the matching devices appended to `list`. */
    method GetDevicesByClassCodes(list: seq<Device>, classCode: nat, subclassCode: nat, programmingInterface: nat)
      returns (r: seq<Device>)
      ensures r == list + Matching(devices, classCode, subclassCode, programmingInterface)
    {
      r := list;
      for i := 0 to |devices|
        invariant r == list + Matching(devices[..i], classCode, subclassCode, programmingInterface)
      {
        assert devices[..i + 1][..i] == devices[..i];
        if Matches(devices[i], classCode, subclassCode, programmingInterface) {
          r := r + [devices[i]];
        }
      }
      assert devices[..|devices|] == devices;
    }

    /** `enableMSI`, with the address for the bootstrap processor. */
    method EnableMsiOn(d: Device, vector: nat, boot: BootBoot.Structure)
      requires IsU8(vector)
      modifies this
      ensures segments == old(segments) && devices == old(devices)
      ensures memory == EnableMsi(old(memory), d, vector, boot.bspID)
    {
      if d.msi.None? {
        return;
      }
      var a := d.msi.value.address;
      var longAddress := BitSet(ConfigRead(memory, d.location, a) / 0x1_0000, 7);
      var address := Interrupts.InterruptTable.GetMSIAddress(boot);
      var data := Interrupts.InterruptTable.GetMSIData(vector as bv8);
      var msiAddress, msiData := address as nat, data as nat;
      WriteMsi(d.location, a, longAddress, msiAddress, msiData);
    }

    /** `enableMSI`'s writes to the MSI capability at `a` of the function at `l`. */
    method WriteMsi(l: Location, a: nat, long: bool, address: nat, data: Dword)
      requires IsU64(address)
      modifies this
      ensures segments == old(segments) && devices == old(devices)
      ensures memory == WriteAll(old(memory), l, MsiWrites(long, a, address, data))
    {
      ghost var writes := MsiWrites(long, a, address, data);
      var m := memory;
      m := ConfigWrite(m, l, a + 0x04, address % U32Modulus);
      WriteAllSnoc(memory, l, writes, 0);
      if long {
        m := ConfigWrite(m, l, a + 0x08, address / U32Modulus % U32Modulus);
        WriteAllSnoc(memory, l, writes, 1);
        m := ConfigWrite(m, l, a + 0x0c, data);
        WriteAllSnoc(memory, l, writes, 2);
      } else {
        m := ConfigWrite(m, l, a + 0x08, data);
        WriteAllSnoc(memory, l, writes, 1);
      }
      m := ConfigWrite(m, l, a, 0x1_0000);
      WriteAllSnoc(memory, l, writes, |writes| - 1);
      assert writes[..|writes|] == writes;
      memory := m;
    }

    /** `PCIe::initialize` without the mappings. */
    method Initialize(directory: Acpi.Directory) returns (r: Outcome<()>)
      requires directory.Valid() && McfgComplete(directory.memory, directory.tables)
      modifies this
      ensures memory == old(memory)
      ensures r.Hang? <==> InitializeSpec(directory.memory, directory.tables, memory).Hang?
      ensures r.Ok? ==> InitializeSpec(directory.memory, directory.tables, memory) == Ok((segments, devices))
    {
      segments, devices := [], [];
      var found := directory.GetTableBySignature("MCFG");
      if found.None? {
        return Ok(());
      }
      var m, t := directory.memory, found.value;
      var entryCount := EntryCount(m, t);
      for i := 0 to entryCount
        invariant segments == Descriptors(m, t, i) && devices == [] && memory == old(memory)
      {
        segments := segments + [Descriptor(m, t, i)];
      }
      r := EnumerateDevices();
    }
  }

  /** One step of the capability loop: the capability at `pointer` noted, the walk continued from its next pointer. */
  lemma WalkStep(memory: ConfigMemory, l: Location, capabilities: seq<Capability>, pointer: nat, visited: set<nat>)
    requires 0 < pointer < 0x100 && visited <= Pointers && pointer !in visited
    ensures var header := ConfigRead(memory, l, pointer);
      var capability := Capability(pointer, header % 0x100);
      Extend(capabilities, Chain(memory, l, pointer, visited))
        == Extend(capabilities + [capability], Chain(memory, l, NextPointer(header), visited + {pointer}))
      && LastMsi(capabilities + [capability]) == if capability.kind == MsiCapabilityId then Some(capability) else LastMsi(capabilities)
  {
    var header := ConfigRead(memory, l, pointer);
    var capability := Capability(pointer, header % 0x100);
    var rest := Chain(memory, l, NextPointer(header), visited + {pointer});
    assert rest.Ok? ==> capabilities + ([capability] + rest.value) == (capabilities + [capability]) + rest.value;
    assert (capabilities + [capability])[..|capabilities|] == capabilities;
  }

  /** The walk state: the capabilities so far before what the rest of the walk gives. */
  function Extend(capabilities: seq<Capability>, rest: Outcome<seq<Capability>>): Outcome<seq<Capability>>
  {
    if rest.Hang? then Hang else Ok(capabilities + rest.value)
  }
}
