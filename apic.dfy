/**
 * The advanced programmable interrupt controllers: the local APIC of the
 * running core (its register page and the in-service registers), the I/O
 * APIC (its indirect register window, the redirection table and the pins
 * left for devices), and the walk over the Multiple APIC Description
 * Table that finds them (section 5.2.12 of the ACPI specification).
 */
module Apic {
  import opened Machine
  import Acpi
  import Interrupts
  import BootBoot

  /* ---------------------------------------------------------------------- */
  /* Local APIC                                                             */
  /* ---------------------------------------------------------------------- */

  const EoiOffset: nat := 0x0b0
  const SpuriousInterruptVectorOffset: nat := 0x0f0
  const InServiceOffset: nat := 0x100
  /** Offsets at or above this one are outside the registers the driver touches. */
  const LapicWindow: nat := 0x400

  /** `LAPIC::read`: the register at `offset`, or 0 outside the window. */
  function LapicRead(registers: seq<nat>, offset: nat): nat
    requires |registers| == LapicWindow
  {
    if offset >= LapicWindow then 0 else registers[offset]
  }

  /** `LAPIC::write`: the register at `offset` set, or nothing outside the window. */
  function LapicWrite(registers: seq<nat>, offset: nat, value: nat): (r: seq<nat>)
    requires |registers| == LapicWindow
    ensures |r| == LapicWindow
  {
    if offset >= LapicWindow then registers else registers[offset := value]
  }

  /** A read sees the last write to its offset inside the window and is unaffected by every other write. */
  lemma LapicReadWrite(registers: seq<nat>, offset: nat, value: nat, at: nat)
    requires |registers| == LapicWindow
    ensures LapicRead(LapicWrite(registers, offset, value), at)
      == if at == offset && offset < LapicWindow then value else LapicRead(registers, at)
    ensures offset >= LapicWindow ==> LapicWrite(registers, offset, value) == registers
  {
  }

  /** Bit `v` of the 256-bit in-service register: bit `v % 32` of the dword at 0x100 + 0x10 * (v / 32). */
  predicate InService(registers: seq<nat>, v: nat)
    requires |registers| == LapicWindow
  {
    BitSet(LapicRead(registers, InServiceOffset + 0x10 * (v / 32)), v % 32)
  }

  /** The lowest in-service vector at or above `v`, or 0 when there is none. */
  function LowestInService(registers: seq<nat>, v: nat): nat
    requires |registers| == LapicWindow && v <= 256
    decreases 256 - v
  {
    if v == 256 then 0
    else if InService(registers, v) then v
    else LowestInService(registers, v + 1)
  }

  /** `getServicedInterruptVector`. */
  function ServicedVector(registers: seq<nat>): nat
    requires |registers| == LapicWindow
  {
    LowestInService(registers, 0)
  }

  /** The search from `v` finds the first in-service vector at or above `v`. */
  lemma {:induction false} LowestInServiceMeaning(registers: seq<nat>, v: nat)
    requires |registers| == LapicWindow && v <= 256
    ensures LowestInService(registers, v) < 256
    ensures LowestInService(registers, v) != 0 ==>
      v <= LowestInService(registers, v) && InService(registers, LowestInService(registers, v))
      && forall u :: v <= u < LowestInService(registers, v) ==> !InService(registers, u)
    ensures LowestInService(registers, v) == 0 ==>
      (forall u :: v <= u < 256 ==> !InService(registers, u)) || (v == 0 && InService(registers, 0))
    decreases 256 - v
  {
    if v < 256 && !InService(registers, v) {
      LowestInServiceMeaning(registers, v + 1);
    }
  }

  /** Where nothing below `w` is in service and `w` is, the search from 0 stops at `w`. */
  lemma {:induction false} LowestInServiceAt(registers: seq<nat>, v: nat, w: nat)
    requires |registers| == LapicWindow && v <= w < 256 && InService(registers, w)
    requires forall u :: v <= u < w ==> !InService(registers, u)
    ensures LowestInService(registers, v) == w
    decreases w - v
  {
    if v < w {
      LowestInServiceAt(registers, v + 1, w);
    }
  }

  /** With nothing in service from `v` upward the search returns 0. */
  lemma {:induction false} NoneInService(registers: seq<nat>, v: nat)
    requires |registers| == LapicWindow && v <= 256
    requires forall u :: v <= u < 256 ==> !InService(registers, u)
    ensures LowestInService(registers, v) == 0
    decreases 256 - v
  {
    if v < 256 {
      NoneInService(registers, v + 1);
    }
  }

  /** Vector `32 * i + j` is bit `j` of dword `i`. */
  lemma VectorBit(i: nat, j: nat)
    requires j < 32
    ensures (32 * i + j) / 32 == i && (32 * i + j) % 32 == j
  {
  }

  class LocalApic {
    /** The register page below 0x400: the 32-bit register starting at each byte offset. */
    var registers: seq<nat>

    predicate Valid()
      reads this
    {
      |registers| == LapicWindow
    }

    constructor (registers: seq<nat>)
      requires |registers| == LapicWindow
      ensures Valid() && this.registers == registers
    {
      this.registers := registers;
    }

    /** `LAPIC::read`. */
    method Read(offset: nat) returns (value: nat)
      requires Valid()
      ensures value == LapicRead(registers, offset)
    {
      if offset >= LapicWindow {
        return 0;
      }
      value := registers[offset];
    }

    /** `LAPIC::write`. */
    method Write(offset: nat, value: nat)
      requires Valid()
      modifies this
      ensures Valid() && registers == LapicWrite(old(registers), offset, value)
    {
      if offset >= LapicWindow {
        return;
      }
      registers := registers[offset := value];
    }

    /** `sendEOI`: a write of 0 to the end-of-interrupt register. */
    method SendEoi()
      requires Valid()
      modifies this
      ensures Valid() && registers == LapicWrite(old(registers), EoiOffset, 0)
    {
      Write(EoiOffset, 0);
    }

    /** `initializeCoreLAPIC`: spurious vector 0xff with the APIC enabled, then an end of interrupt. */
    method InitializeCore()
      requires Valid()
      modifies this
      ensures Valid()
      ensures registers == LapicWrite(LapicWrite(old(registers), SpuriousInterruptVectorOffset, 0x1ff), EoiOffset, 0)
    {
      Write(SpuriousInterruptVectorOffset, 0x1ff);
      SendEoi();
    }

    /** `getServicedInterruptVector`: the eight in-service dwords scanned bit by bit from the lowest. */
    method ServicedInterruptVector() returns (vector: nat)
      requires Valid()
      ensures vector == ServicedVector(registers)
    {
      for i := 0 to 8
        invariant forall u :: 0 <= u < 32 * i ==> !InService(registers, u)
      {
        var bitfield := Read(InServiceOffset + i * 0x10);
        for j := 0 to 32
          invariant forall u :: 0 <= u < 32 * i + j ==> !InService(registers, u)
        {
          VectorBit(i, j);
          if BitSet(bitfield, j) {
            LowestInServiceAt(registers, 0, 32 * i + j);
            return i * 32 + j;
          }
        }
      }
      NoneInService(registers, 0);
      return 0;
    }
  }

  /* ---------------------------------------------------------------------- */
  /* I/O APIC                                                               */
  /* ---------------------------------------------------------------------- */

  const VersionIndex: nat := 0x01
  const RedirectionBaseIndex: nat := 0x10
  /** The internal registers an I/O APIC of 256 entries at most has: identification, version, arbitration and the redirection table. */
  const IoRegisterCount: nat := 0x210
  /** A masked entry: vector 0xff with the mask bit (bit 16) set. */
  const MaskedEntry: nat := 0x1_00ff
  /** The pins below this one stay with the legacy PIC. */
  const FirstDevicePin: nat := 16

  /**
   * The I/O APIC as the driver sees it: whether it is set up, where it
   * sits, its first global interrupt, the register select (IOREGSEL), the
   * internal registers behind the window, the number of redirection
   * entries, and the pins still free.
   */
  datatype IoApicState = IoApicState(initialized: bool, address: nat, globalSystemInterrupt: nat,
                                     select: nat, internal: seq<nat>, entryCount: nat, available: seq<nat>)

  /** Number of redirection entries: bits 23:16 of the version register, plus one. */
  function EntryCountOf(version: nat): (n: nat)
    ensures 1 <= n <= 256
  {
    version / 0x1_0000 % 0x100 + 1
  }

  /** The first `n` redirection entries masked: low dword `MaskedEntry`, high dword 0. */
  function Masked(internal: seq<nat>, n: nat): (r: seq<nat>)
    requires |internal| == IoRegisterCount && n <= 256
    ensures |r| == IoRegisterCount
  {
    if n == 0 then internal
    else Masked(internal, n - 1)[RedirectionBaseIndex + 2 * (n - 1) := MaskedEntry][RedirectionBaseIndex + 2 * (n - 1) + 1 := 0]
  }

  /** Every one of the first `n` entries is masked and every other register keeps its value. */
  lemma {:induction false} MaskedMeaning(internal: seq<nat>, n: nat)
    requires |internal| == IoRegisterCount && n <= 256
    ensures forall k :: 0 <= k < n ==>
      Masked(internal, n)[RedirectionBaseIndex + 2 * k] == MaskedEntry && Masked(internal, n)[RedirectionBaseIndex + 2 * k + 1] == 0
    ensures forall i :: 0 <= i < IoRegisterCount && (i < RedirectionBaseIndex || i >= RedirectionBaseIndex + 2 * n) ==>
      Masked(internal, n)[i] == internal[i]
  {
    if n > 0 {
      MaskedMeaning(internal, n - 1);
    }
  }

  /** The pins handed to devices: 16 up to the last entry, in ascending order. */
  function Pins(n: nat): (r: seq<nat>)
    ensures forall p :: p in r <==> FirstDevicePin <= p < n
    ensures Ascending(r)
  {
    if n <= FirstDevicePin then []
    else
      var r := Pins(n - 1);
      assert forall i :: 0 <= i < |r| ==> r[i] < n - 1 by {
        forall i | 0 <= i < |r| ensures r[i] < n - 1 {
          assert r[i] in r;
        }
      }
      r + [n - 1]
  }

  predicate Ascending(pins: seq<nat>)
  {
    forall i, j :: 0 <= i < j < |pins| ==> pins[i] < pins[j]
  }

  /** The I/O APIC between calls: its registers all there, the free pins ascending device pins. */
  predicate IoReady(s: IoApicState)
  {
    |s.internal| == IoRegisterCount && Ascending(s.available)
    && (forall p :: p in s.available ==> FirstDevicePin <= p < s.entryCount)
  }

  /**
   * `IOAPIC::initialize`: a second call halts; otherwise the entry count
   * read from the version register, every entry masked, and the pins from
   * 16 on made free.
   */
  function InitializeIo(s: IoApicState, address: nat, base: nat): Outcome<IoApicState>
    requires |s.internal| == IoRegisterCount
  {
    if s.initialized then Hang
    else
      var n := EntryCountOf(s.internal[VersionIndex]);
      Ok(IoApicState(true, address, base, RedirectionBaseIndex + 2 * (n - 1) + 1, Masked(s.internal, n), n, Pins(n)))
  }

  /** Initialization halts exactly on a second call and leaves a ready I/O APIC with every entry masked. */
  lemma InitializeIoMeaning(s: IoApicState, address: nat, base: nat)
    requires |s.internal| == IoRegisterCount
    ensures InitializeIo(s, address, base).Hang? <==> s.initialized
    ensures InitializeIo(s, address, base).Ok? ==>
      var s' := InitializeIo(s, address, base).value;
      IoReady(s') && s'.initialized && s'.entryCount == EntryCountOf(s.internal[VersionIndex])
      && (forall k :: 0 <= k < s'.entryCount ==>
            s'.internal[RedirectionBaseIndex + 2 * k] == MaskedEntry && s'.internal[RedirectionBaseIndex + 2 * k + 1] == 0)
      && (forall p :: p in s'.available <==> FirstDevicePin <= p < s'.entryCount)
  {
    if !s.initialized {
      MaskedMeaning(s.internal, EntryCountOf(s.internal[VersionIndex]));
    }
  }

  /** The free pins without the first occurrence of `pin`. */
  function RemovePin(pins: seq<nat>, pin: nat): (r: seq<nat>)
    decreases |pins|
  {
    if |pins| == 0 then []
    else if pins[0] == pin then pins[1..]
    else [pins[0]] + RemovePin(pins[1..], pin)
  }

  /** Removing the pin found at `i`, the first place it occurs. */
  lemma {:induction false} RemovePinAt(pins: seq<nat>, pin: nat, i: nat)
    requires i < |pins| && pins[i] == pin && forall j :: 0 <= j < i ==> pins[j] != pin
    ensures RemovePin(pins, pin) == pins[..i] + pins[i + 1..]
    decreases i
  {
    if i > 0 {
      RemovePinAt(pins[1..], pin, i - 1);
      assert [pins[0]] + pins[1..][..i - 1] == pins[..i];
      assert pins[1..][i..] == pins[i + 1..];
    }
  }

  /** Removing a pin that is not there changes nothing. */
  lemma {:induction false} RemovePinAbsent(pins: seq<nat>, pin: nat)
    requires pin !in pins
    ensures RemovePin(pins, pin) == pins
    decreases |pins|
  {
    if |pins| > 0 {
      RemovePinAbsent(pins[1..], pin);
      assert [pins[0]] + pins[1..] == pins;
    }
  }

  /** From ascending pins, removing one takes exactly that pin away and keeps the rest ascending. */
  lemma RemovePinExactly(pins: seq<nat>, pin: nat)
    requires Ascending(pins)
    ensures Ascending(RemovePin(pins, pin))
    ensures forall p :: p in RemovePin(pins, pin) <==> p in pins && p != pin
  {
    if pin in pins {
      var i :| 0 <= i < |pins| && pins[i] == pin;
      RemovePinAt(pins, pin, i);
      var r := pins[..i] + pins[i + 1..];
      forall k | 0 <= k < |r| ensures r[k] == pins[if k < i then k else k + 1] {
        if k < i {
          assert r[k] == pins[..i][k];
        } else {
          assert r[k] == pins[i + 1..][k - i];
        }
      }
      forall p | p in pins && p != pin ensures p in r {
        var k :| 0 <= k < |pins| && pins[k] == p;
        assert r[if k < i then k else k - 1] == p;
      }
    } else {
      RemovePinAbsent(pins, pin);
    }
  }

  /** The 64-bit redirection entry: the vector, fixed delivery, unmasked, to the bootstrap processor. */
  function RedirectionEntry(vector: nat, bspID: nat): nat
  {
    WrapU64(vector + bspID * 0x100_0000_0000_0000)
  }

  /** The low dword carries the vector, the high dword the low byte of the processor id in its top byte. */
  lemma RedirectionEntryLayout(vector: nat, bspID: nat)
    requires IsU8(vector)
    ensures RedirectionEntry(vector, bspID) % U32Modulus == vector
    ensures RedirectionEntry(vector, bspID) / U32Modulus % U32Modulus == bspID % 0x100 * 0x100_0000
  {
    var q, b := bspID / 0x100, bspID % 0x100;
    var low := vector + b * 0x100_0000_0000_0000;
    assert vector + bspID * 0x100_0000_0000_0000 == q * U64Modulus + low;
    DivModUnique(vector + bspID * 0x100_0000_0000_0000, U64Modulus, q, low);
    DivModUnique(low, U32Modulus, b * 0x100_0000, vector);
    DivModUnique(b * 0x100_0000, U32Modulus, 0, b * 0x100_0000);
  }

  /**
   * `tryRegisterEntry`: a pin that is not free gives false and changes
   * nothing; otherwise the pin leaves the free list, a vector is reserved
   * for the handler (running out of vectors halts), and the pin's
   * redirection entry is written, low dword first.
   */
  function Register(s: IoApicState, v: Interrupts.Vectors, pin: nat, handler: nat, data: nat, bspID: nat)
    : Outcome<(IoApicState, Interrupts.Vectors, bool)>
    requires |s.internal| == IoRegisterCount && v.WellFormed() && IsU8(pin)
  {
    if pin !in s.available then Ok((s, v, false))
    else
      var (v', vector) := Interrupts.Reserve(v, handler, data);
      if vector == 0 then Hang
      else
        var e := RedirectionEntry(vector, bspID);
        var low := RedirectionBaseIndex + 2 * pin;
        var internal := s.internal[low := e % U32Modulus][low + 1 := e / U32Modulus % U32Modulus];
        Ok((s.(select := low + 1, internal := internal, available := RemovePin(s.available, pin)), v', true))
  }

  /**
   * A registration succeeds exactly for a free pin, takes it off the free
   * list, keeps the I/O APIC ready, and routes the pin to the reserved
   * vector on the bootstrap processor; a second registration of the same
   * pin then fails without a change.
   */
  lemma RegisterOnce(s: IoApicState, v: Interrupts.Vectors, pin: nat, handler: nat, data: nat, bspID: nat,
                     handler2: nat, data2: nat)
    requires IoReady(s) && v.WellFormed() && IsU8(pin)
    ensures Register(s, v, pin, handler, data, bspID).Ok? ==>
      var (s', v', ok) := Register(s, v, pin, handler, data, bspID).value;
      (ok <==> pin in s.available) && IoReady(s') && pin !in s'.available
      && (forall p :: p in s'.available <==> p in s.available && p != pin)
      && (ok ==> v'.next == v.next + 1
                 && s'.internal[RedirectionBaseIndex + 2 * pin] == v.next
                 && s'.internal[RedirectionBaseIndex + 2 * pin + 1] == bspID % 0x100 * 0x100_0000)
      && Register(s', v', pin, handler2, data2, bspID) == Ok((s', v', false))
  {
    RemovePinExactly(s.available, pin);
    if pin in s.available {
      var (v', vector) := Interrupts.Reserve(v, handler, data);
      if vector != 0 {
        RedirectionEntryLayout(vector, bspID);
        Interrupts.ReserveThenFire(v, handler, data, 0);
      }
    }
  }

  class IoApic {
    var initialized: bool
    /** The physical address the MADT gives, standing for the mapped register window. */
    var address: nat
    var globalSystemInterrupt: nat
    /** IOREGSEL: the index most recently written to register 0. */
    var select: nat
    /** The registers behind the window (IOWIN), by index. */
    var internal: seq<nat>
    var entryCount: nat
    var available: seq<nat>

    function View(): IoApicState
      reads this
    {
      IoApicState(initialized, address, globalSystemInterrupt, select, internal, entryCount, available)
    }

    predicate Valid()
      reads this
    {
      |internal| == IoRegisterCount
    }

    /** The boot state: not yet set up, over the registers the hardware presents. */
    constructor (internal: seq<nat>)
      requires |internal| == IoRegisterCount
      ensures Valid() && View() == IoApicState(false, 0, 0, 0, internal, 0, [])
    {
      initialized, address, globalSystemInterrupt, select := false, 0, 0, 0;
      this.internal, entryCount, available := internal, 0, [];
    }

    /** `IOAPIC::read`: the index to register 0, then the value from register 4. */
    method Read(index: nat) returns (value: nat)
      requires Valid() && index < IoRegisterCount
      modifies this
      ensures Valid() && View() == old(View()).(select := index) && value == internal[index]
    {
      select := index;
      value := internal[index];
    }

    /** `IOAPIC::write`: the index to register 0, then the value to register 4. */
    method Write(index: nat, value: nat)
      requires Valid() && index < IoRegisterCount
      modifies this
      ensures Valid() && View() == old(View()).(select := index, internal := old(internal)[index := value])
    {
      select := index;
      internal := internal[index := value];
    }

    /** `IOAPIC::initialize`. */
    method Initialize(address: nat, base: nat) returns (r: Outcome<()>)
      requires Valid()
      modifies this
      ensures Valid()
      ensures r.Hang? <==> InitializeIo(old(View()), address, base).Hang?
      ensures r.Ok? ==> View() == InitializeIo(old(View()), address, base).value
    {
      if initialized {
        return Hang;
      }
      ghost var before := internal;
      available := [];
      this.address, globalSystemInterrupt := address, base;
      var version := Read(VersionIndex);
      entryCount := EntryCountOf(version);
      for i := 0 to entryCount
        invariant Valid() && internal == Masked(before, i) && available == Pins(i)
        invariant select == if i == 0 then VersionIndex else RedirectionBaseIndex + 2 * (i - 1) + 1
        invariant !initialized && this.address == address && globalSystemInterrupt == base
        invariant entryCount == EntryCountOf(before[VersionIndex])
      {
        Write(RedirectionBaseIndex + i * 2 + 0, MaskedEntry);
        Write(RedirectionBaseIndex + i * 2 + 1, 0);
        if i > 15 {
          available := available + [i];
        }
      }
      initialized := true;
      return Ok(());
    }

    /** `tryRegisterEntry(entry, handler, data)`, with the vector reserved from the interrupt table. */
    method TryRegisterEntry(entry: nat, handler: nat, data: nat, table: Interrupts.InterruptTable, boot: BootBoot.Structure)
      returns (r: Outcome<bool>)
      requires Valid() && table.Valid() && IsU8(entry)
      modifies this, table, table.handlers, table.handlersData
      ensures Valid() && table.Valid()
      ensures r.Hang? <==> Register(old(View()), old(table.View()), entry, handler, data, boot.bspID).Hang?
      ensures r.Ok? ==> Register(old(View()), old(table.View()), entry, handler, data, boot.bspID)
                        == Ok((View(), table.View(), r.value))
    {
      var found := false;
      var i := 0;
      while i < |available|
        invariant i <= |available| && forall j :: 0 <= j < i ==> available[j] != entry
        invariant View() == old(View())
      {
        if available[i] == entry {
          RemovePinAt(available, entry, i);
          available := available[..i] + available[i + 1..];
          found := true;
          break;
        }
        i := i + 1;
      }
      if !found {
        return Ok(false);
      }
      var vector := table.ReserveVector(handler, data);
      if vector == 0 {
        return Hang;
      }
      var redirectionEntry := RedirectionEntry(vector, boot.bspID);
      Write(RedirectionBaseIndex + entry * 2 + 0, redirectionEntry % U32Modulus);
      Write(RedirectionBaseIndex + entry * 2 + 1, redirectionEntry / U32Modulus % U32Modulus);
      return Ok(true);
    }
  }

  /* ---------------------------------------------------------------------- */
  /* The MADT walk                                                          */
  /* ---------------------------------------------------------------------- */

  /** The local APIC address field of the MADT, after the 36-byte header. */
  const LapicAddressOffset: nat := 36
  /** Where the MADT's entries start: after the header, the local APIC address and the flags. */
  const EntriesOffset: nat := 44
  const IoApicEntryType: nat := 1
  const LapicAddressOverrideType: nat := 5
  const LapicX2EntryType: nat := 9

  /** What the walk keeps: the local APIC address and whether an override has set it. */
  datatype MadtInfo = MadtInfo(lapicAddress: nat, overridden: bool)

  /**
   * The MADT and what lies just after it are in memory: the walk reads
   * entries up to 8 bytes past the table's end, each up to 12 bytes long.
   */
  predicate MadtIn(m: Bytes, t: nat)
  {
    Acpi.HeaderIn(m, t) && Acpi.TableLength(m, t) >= Acpi.HeaderSize && t + Acpi.TableLength(m, t) + 20 <= |m|
  }

  /**
   * The walk from `offset` while `offset < size`: an x2APIC entry halts, an
   * I/O APIC entry initializes the I/O APIC (a second one halts), only the
   * first local APIC address override takes effect, and the offset moves
   * on by the entry's length (a length of 0 repeats the entry forever).
   */
  function Walk(m: Bytes, t: nat, offset: nat, size: nat, info: MadtInfo, io: IoApicState): (r: Outcome<(MadtInfo, IoApicState)>)
    requires t + EntriesOffset + size + 12 <= |m| && |io.internal| == IoRegisterCount
    ensures r.Ok? ==> |r.value.1.internal| == IoRegisterCount
    decreases size - offset
  {
    if offset >= size then Ok((info, io))
    else
      var e := t + EntriesOffset + offset;
      var kind, length := m[e], m[e + 1];
      if kind == LapicX2EntryType || length == 0 then Hang
      else if kind == IoApicEntryType then
        var io' := InitializeIo(io, LoadLE(m, e + 4, 4), LoadLE(m, e + 8, 4));
        if io'.Hang? then Hang
        else Walk(m, t, offset + length, size, info, io'.value)
      else if kind == LapicAddressOverrideType && !info.overridden then
        Walk(m, t, offset + length, size, MadtInfo(LoadLE(m, e + 4, 8), true), io)
      else Walk(m, t, offset + length, size, info, io)
  }

  /** Once overridden, the local APIC address stays what the first override set. */
  lemma {:induction false} OverrideSticks(m: Bytes, t: nat, offset: nat, size: nat, info: MadtInfo, io: IoApicState)
    requires t + EntriesOffset + size + 12 <= |m| && |io.internal| == IoRegisterCount && info.overridden
    ensures Walk(m, t, offset, size, info, io).Ok? ==> Walk(m, t, offset, size, info, io).value.0 == info
    decreases size - offset
  {
    if offset < size {
      var e := t + EntriesOffset + offset;
      if m[e] != LapicX2EntryType && m[e + 1] != 0 {
        if m[e] == IoApicEntryType {
          var io' := InitializeIo(io, LoadLE(m, e + 4, 4), LoadLE(m, e + 8, 4));
          if io'.Ok? {
            OverrideSticks(m, t, offset + m[e + 1], size, info, io'.value);
          }
        } else {
          OverrideSticks(m, t, offset + m[e + 1], size, info, io);
        }
      }
    }
  }

  /** A walk that finishes has met at most one I/O APIC entry: the I/O APIC is then set up at most once. */
  lemma {:induction false} WalkKeepsIo(m: Bytes, t: nat, offset: nat, size: nat, info: MadtInfo, io: IoApicState)
    requires t + EntriesOffset + size + 12 <= |m| && |io.internal| == IoRegisterCount
    ensures Walk(m, t, offset, size, info, io).Ok? ==>
      var io' := Walk(m, t, offset, size, info, io).value.1;
      |io'.internal| == IoRegisterCount && (io'.initialized ==> io' == io || !io.initialized)
      && (!io'.initialized ==> io' == io)
    decreases size - offset
  {
    if offset < size {
      var e := t + EntriesOffset + offset;
      if m[e] != LapicX2EntryType && m[e + 1] != 0 {
        if m[e] == IoApicEntryType {
          var io' := InitializeIo(io, LoadLE(m, e + 4, 4), LoadLE(m, e + 8, 4));
          if io'.Ok? {
            WalkKeepsIo(m, t, offset + m[e + 1], size, info, io'.value);
          }
        } else if m[e] == LapicAddressOverrideType && !info.overridden {
          WalkKeepsIo(m, t, offset + m[e + 1], size, MadtInfo(LoadLE(m, e + 4, 8), true), io);
        } else {
          WalkKeepsIo(m, t, offset + m[e + 1], size, info, io);
        }
      }
    }
  }

  /** The size of the entry area as the walk bounds it: the table length less the header only. */
  function SizeAsWritten(m: Bytes, t: nat): (n: nat)
    requires Acpi.HeaderIn(m, t) && Acpi.TableLength(m, t) >= Acpi.HeaderSize
    ensures n == Acpi.TableLength(m, t) - Acpi.HeaderSize
  {
    WrapU64(Acpi.TableLength(m, t) - Acpi.HeaderSize)
  }

  /** The size of the entry area: the table length less the header, the address and the flags. */
  function EntriesSize(m: Bytes, t: nat): (n: nat)
    requires Acpi.HeaderIn(m, t)
    ensures EntriesOffset + n <= Acpi.TableLength(m, t) || n == 0
  {
    if Acpi.TableLength(m, t) >= EntriesOffset then Acpi.TableLength(m, t) - EntriesOffset else 0
  }

  /** The MADT, when the firmware provides one, is in memory with what follows it. */
  predicate MadtComplete(m: Bytes, tables: seq<nat>)
    requires Acpi.AllHeadersIn(m, tables)
  {
    var found := Acpi.FindTable(m, tables, "APIC");
    found.Some? ==> MadtIn(m, found.value)
  }

  /**
   * `APIC::initialize` as written, without the mapping: no MADT halts;
   * otherwise the local APIC address from the table, then the walk bounded
   * by `SizeAsWritten`, which runs 8 bytes past the table's end.
   */
  function InitializeSpec(m: Bytes, tables: seq<nat>, io: IoApicState): Outcome<(MadtInfo, IoApicState)>
    requires Acpi.AllHeadersIn(m, tables) && MadtComplete(m, tables) && |io.internal| == IoRegisterCount
  {
    var found := Acpi.FindTable(m, tables, "APIC");
    if found.None? then Hang
    else
      var t := found.value;
      Walk(m, t, 0, SizeAsWritten(m, t), MadtInfo(LoadLE(m, t + LapicAddressOffset, 4), false), io)
  }

  /** `APIC::initialize`, corrected: the walk over the entries inside the table only. */
  function FixedInitializeSpec(m: Bytes, tables: seq<nat>, io: IoApicState): Outcome<(MadtInfo, IoApicState)>
    requires Acpi.AllHeadersIn(m, tables) && MadtComplete(m, tables) && |io.internal| == IoRegisterCount
  {
    var found := Acpi.FindTable(m, tables, "APIC");
    if found.None? then Hang
    else
      var t := found.value;
      Walk(m, t, 0, EntriesSize(m, t), MadtInfo(LoadLE(m, t + LapicAddressOffset, 4), false), io)
  }

  /** Without a MADT the kernel halts; with one, a finished walk sets up the I/O APIC at most once. */
  lemma InitializeMeaning(m: Bytes, tables: seq<nat>, io: IoApicState)
    requires Acpi.AllHeadersIn(m, tables) && MadtComplete(m, tables) && |io.internal| == IoRegisterCount
    ensures Acpi.FindTable(m, tables, "APIC").None? ==> InitializeSpec(m, tables, io).Hang?
    ensures InitializeSpec(m, tables, io).Ok? ==>
      var (info, io') := InitializeSpec(m, tables, io).value;
      var t := Acpi.FindTable(m, tables, "APIC").value;
      (!info.overridden ==> info.lapicAddress == LoadLE(m, t + LapicAddressOffset, 4))
      && (!io'.initialized ==> io' == io) && (io.initialized ==> io' == io)
  {
    var found := Acpi.FindTable(m, tables, "APIC");
    if found.Some? {
      var t := found.value;
      var info := MadtInfo(LoadLE(m, t + LapicAddressOffset, 4), false);
      WalkKeepsIo(m, t, 0, SizeAsWritten(m, t), info, io);
      WalkNoOverride(m, t, 0, SizeAsWritten(m, t), info, io);
    }
  }

  /** The same for the corrected walk. */
  lemma FixedInitializeMeaning(m: Bytes, tables: seq<nat>, io: IoApicState)
    requires Acpi.AllHeadersIn(m, tables) && MadtComplete(m, tables) && |io.internal| == IoRegisterCount
    ensures Acpi.FindTable(m, tables, "APIC").None? ==> FixedInitializeSpec(m, tables, io).Hang?
    ensures FixedInitializeSpec(m, tables, io).Ok? ==>
      var (info, io') := FixedInitializeSpec(m, tables, io).value;
      var t := Acpi.FindTable(m, tables, "APIC").value;
      (!info.overridden ==> info.lapicAddress == LoadLE(m, t + LapicAddressOffset, 4))
      && (!io'.initialized ==> io' == io) && (io.initialized ==> io' == io)
  {
    var found := Acpi.FindTable(m, tables, "APIC");
    if found.Some? {
      var t := found.value;
      var info := MadtInfo(LoadLE(m, t + LapicAddressOffset, 4), false);
      WalkKeepsIo(m, t, 0, EntriesSize(m, t), info, io);
      WalkNoOverride(m, t, 0, EntriesSize(m, t), info, io);
    }
  }

  /** A walk that ends without an override keeps the address it started with. */
  lemma {:induction false} WalkNoOverride(m: Bytes, t: nat, offset: nat, size: nat, info: MadtInfo, io: IoApicState)
    requires t + EntriesOffset + size + 12 <= |m| && |io.internal| == IoRegisterCount
    ensures Walk(m, t, offset, size, info, io).Ok? && !Walk(m, t, offset, size, info, io).value.0.overridden ==>
      Walk(m, t, offset, size, info, io).value.0 == info
    decreases size - offset
  {
    if offset < size {
      var e := t + EntriesOffset + offset;
      if m[e] != LapicX2EntryType && m[e + 1] != 0 {
        if m[e] == IoApicEntryType {
          var io' := InitializeIo(io, LoadLE(m, e + 4, 4), LoadLE(m, e + 8, 4));
          if io'.Ok? {
            WalkNoOverride(m, t, offset + m[e + 1], size, info, io'.value);
          }
        } else if m[e] == LapicAddressOverrideType && !info.overridden {
          OverrideSticks(m, t, offset + m[e + 1], size, MadtInfo(LoadLE(m, e + 4, 8), true), io);
        } else {
          WalkNoOverride(m, t, offset + m[e + 1], size, info, io);
        }
      }
    }
  }

  class Apic {
    var lapicAddress: nat

    constructor ()
      ensures lapicAddress == 0
    {
      lapicAddress := 0;
    }

    /** `APIC::initialize` as written, without the mapping of the local APIC. */
    method Initialize(directory: Acpi.Directory, io: IoApic) returns (r: Outcome<()>)
      requires directory.Valid() && io.Valid()
      requires MadtComplete(directory.memory, directory.tables)
      modifies this, io
      ensures io.Valid()
      ensures r.Hang? <==> InitializeSpec(directory.memory, directory.tables, old(io.View())).Hang?
      ensures r.Ok? ==> exists overridden :: InitializeSpec(directory.memory, directory.tables, old(io.View()))
                                               == Ok((MadtInfo(lapicAddress, overridden), io.View()))
    {
      var found := directory.GetTableBySignature("APIC");
      if found.None? {
        return Hang;
      }
      var m, t := directory.memory, found.value;
      var size := SizeAsWritten(m, t);
      ghost var whole := Walk(m, t, 0, size, MadtInfo(LoadLE(m, t + LapicAddressOffset, 4), false), io.View());
      lapicAddress := LoadLE(m, t + LapicAddressOffset, 4);
      var overridden := false;
      var offset: nat := 0;
      while offset < size
        invariant io.Valid()
        invariant Walk(m, t, offset, size, MadtInfo(lapicAddress, overridden), io.View()) == whole
        decreases size - offset
      {
        var e := t + EntriesOffset + offset;
        var kind, length := m[e], m[e + 1];
        if kind == LapicX2EntryType || length == 0 {
          return Hang;
        }
        if kind == IoApicEntryType {
          var initialized := io.Initialize(LoadLE(m, e + 4, 4), LoadLE(m, e + 8, 4));
          if initialized.Hang? {
            return Hang;
          }
        } else if kind == LapicAddressOverrideType && !overridden {
          lapicAddress := LoadLE(m, e + 4, 8);
          overridden := true;
        }
        offset := offset + length;
      }
      return Ok(());
    }
  }

  /* ---------------------------------------------------------------------- */
  /* The walk bound as written                                              */
  /* ---------------------------------------------------------------------- */

  /**
   * The entries from `offset` step exactly onto `mid`: each entry before
   * `mid` has a nonzero length, and none of them jumps over `mid`.
   */
  predicate LandsOn(m: Bytes, t: nat, offset: nat, mid: nat)
    requires t + EntriesOffset + mid + 2 <= |m|
    decreases mid - offset
  {
    offset == mid
    || (offset < mid && m[t + EntriesOffset + offset + 1] != 0
        && LandsOn(m, t, offset + m[t + EntriesOffset + offset + 1], mid))
  }

  /**
   * A walk with the longer bound is the walk with the shorter one, then,
   * when that finishes, the walk on from where it stopped.
   */
  lemma {:induction false} WalkThrough(m: Bytes, t: nat, offset: nat, mid: nat, size: nat, info: MadtInfo, io: IoApicState)
    requires t + EntriesOffset + size + 12 <= |m| && |io.internal| == IoRegisterCount
    requires mid <= size && LandsOn(m, t, offset, mid)
    ensures Walk(m, t, offset, size, info, io)
         == (var w := Walk(m, t, offset, mid, info, io);
             if w.Hang? then Hang else Walk(m, t, mid, size, w.value.0, w.value.1))
    decreases mid - offset
  {
    if offset < mid {
      var e := t + EntriesOffset + offset;
      if m[e] != LapicX2EntryType {
        if m[e] == IoApicEntryType {
          var io' := InitializeIo(io, LoadLE(m, e + 4, 4), LoadLE(m, e + 8, 4));
          if io'.Ok? {
            WalkThrough(m, t, offset + m[e + 1], mid, size, info, io'.value);
          }
        } else if m[e] == LapicAddressOverrideType && !info.overridden {
          WalkThrough(m, t, offset + m[e + 1], mid, size, MadtInfo(LoadLE(m, e + 4, 8), true), io);
        } else {
          WalkThrough(m, t, offset + m[e + 1], mid, size, info, io);
        }
      }
    }
  }

  /**
   * When the entries fill the table exactly, the walk as written is the
   * corrected walk followed by a walk over the 8 bytes after the table's
   * end: whatever lies there is taken for entries.
   */
  lemma InitializeReadsPastTable(m: Bytes, tables: seq<nat>, io: IoApicState)
    requires Acpi.AllHeadersIn(m, tables) && MadtComplete(m, tables) && |io.internal| == IoRegisterCount
    requires Acpi.FindTable(m, tables, "APIC").Some?
    requires var t := Acpi.FindTable(m, tables, "APIC").value;
      Acpi.TableLength(m, t) >= EntriesOffset && LandsOn(m, t, 0, EntriesSize(m, t))
    ensures var t := Acpi.FindTable(m, tables, "APIC").value;
      SizeAsWritten(m, t) == EntriesSize(m, t) + 8
      && t + EntriesOffset + EntriesSize(m, t) == t + Acpi.TableLength(m, t)
      && InitializeSpec(m, tables, io)
         == (var w := FixedInitializeSpec(m, tables, io);
             if w.Hang? then Hang else Walk(m, t, EntriesSize(m, t), SizeAsWritten(m, t), w.value.0, w.value.1))
  {
    var t := Acpi.FindTable(m, tables, "APIC").value;
    var info := MadtInfo(LoadLE(m, t + LapicAddressOffset, 4), false);
    WalkThrough(m, t, 0, EntriesSize(m, t), SizeAsWritten(m, t), info, io);
  }

  /**
   * A table whose entries fill it exactly and which is followed by an
   * x2APIC entry type: the corrected walk may finish, the walk as written
   * then halts on the byte after the table.
   */
  lemma PastTableHalts(m: Bytes, tables: seq<nat>, io: IoApicState)
    requires Acpi.AllHeadersIn(m, tables) && MadtComplete(m, tables) && |io.internal| == IoRegisterCount
    requires Acpi.FindTable(m, tables, "APIC").Some?
    requires var t := Acpi.FindTable(m, tables, "APIC").value;
      Acpi.TableLength(m, t) >= EntriesOffset && LandsOn(m, t, 0, EntriesSize(m, t))
      && m[t + Acpi.TableLength(m, t)] == LapicX2EntryType
    ensures InitializeSpec(m, tables, io).Hang?
    ensures FixedInitializeSpec(m, tables, io) != InitializeSpec(m, tables, io) <==> FixedInitializeSpec(m, tables, io).Ok?
  {
    InitializeReadsPastTable(m, tables, io);
  }
}
