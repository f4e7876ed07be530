/**
 * The interrupt subsystem: the 256-entry interrupt descriptor table of
 * 16-byte gate descriptors (section 6.14.1 of the Intel SDM Vol. 3A), the
 * table of registered handlers with their data, the allocator of vectors
 * for message signalled and IOAPIC interrupts, and the MSI address and data
 * words (sections 10.11.1 and 10.11.2 of the Intel SDM Vol. 3A).
 */
module Interrupts {
  import opened Machine
  import Gdt
  import PhysAlloc
  import BootBoot

  /** Number of vectors, handler slots and gates. */
  const VectorCount: nat := 256
  /** The first vector handed out (the first 32 are processor exceptions). */
  const FirstVector: nat := 0x20
  /** Vectors below this bound are handed out; reaching it means none is left. */
  const MaxVector: nat := 0xfe
  /** The general protection fault vector. */
  const GeneralProtection: nat := 13
  /** The IDT page as 64-bit words: two per gate. */
  const TableWords: nat := 512
  /** The IDTR limit `initialize` loads. */
  const TableLimit: nat := 4095

  /** The fields of a gate descriptor, in the order of the source's packed struct. */
  datatype Gate = Gate(offsetLow: bv16, selector: bv16, ist: bv8, attributes: bv8,
                       offsetMedium: bv16, offsetHigh: bv32, zero: bv32)

  /** The first 64-bit word of a gate: offset 15:0, selector, IST, attributes and offset 31:16. */
  function EncodeLow(g: Gate): bv64
  {
    (g.offsetLow as bv64) | ((g.selector as bv64) << 16) | ((g.ist as bv64) << 32)
    | ((g.attributes as bv64) << 40) | ((g.offsetMedium as bv64) << 48)
  }

  /** The second 64-bit word of a gate: offset 63:32 and the reserved word. */
  function EncodeHigh(g: Gate): bv64
  {
    (g.offsetHigh as bv64) | ((g.zero as bv64) << 32)
  }

  function DecodeGate(low: bv64, high: bv64): Gate
  {
    Gate((low & 0xffff) as bv16, ((low >> 16) & 0xffff) as bv16, ((low >> 32) & 0xff) as bv8,
         ((low >> 40) & 0xff) as bv8, ((low >> 48) & 0xffff) as bv16,
         (high & 0xffff_ffff) as bv32, ((high >> 32) & 0xffff_ffff) as bv32)
  }

  lemma DecodeEncodeGate(g: Gate)
    ensures DecodeGate(EncodeLow(g), EncodeHigh(g)) == g
  {
  }

  /** The fields tile the two words: re-encoding a decoded gate gives the words back. */
  lemma {:induction false} EncodeDecodeGate(low: bv64, high: bv64)
    ensures EncodeLow(DecodeGate(low, high)) == low && EncodeHigh(DecodeGate(low, high)) == high
  {
    var g := DecodeGate(low, high);
    assert (g.offsetLow as bv64) == low & 0xffff;
    assert (g.selector as bv64) << 16 == low & 0xffff_0000;
    assert (g.ist as bv64) << 32 == low & 0xff_0000_0000;
    assert (g.attributes as bv64) << 40 == low & 0xff00_0000_0000;
    assert (g.offsetMedium as bv64) << 48 == low & 0xffff_0000_0000_0000;
    assert (g.offsetHigh as bv64) == high & 0xffff_ffff;
    assert (g.zero as bv64) << 32 == high & 0xffff_ffff_0000_0000;
  }

  /** The address of the routine a gate enters, spread over its three offset fields. */
  function Routine(g: Gate): bv64
  {
    (g.offsetLow as bv64) | ((g.offsetMedium as bv64) << 16) | ((g.offsetHigh as bv64) << 32)
  }

  /** Bit 7 of the attributes: the gate is present. */
  function Present(g: Gate): bool { g.attributes & 0x80 != 0 }

  /** Bits 6:5 of the attributes: the privilege level needed to use the gate from software. */
  function Privilege(g: Gate): bv8 { (g.attributes >> 5) & 3 }

  /** Bits 3:0 of the attributes: the gate type (0xE is a 64-bit interrupt gate). */
  function GateType(g: Gate): bv8 { g.attributes & 0xf }

  /** The gate of a table whose page words are `idt`: words 2v and 2v + 1. */
  function GateAt(idt: seq<bv64>, v: nat): Gate
    requires 2 * v + 1 < |idt|
  {
    DecodeGate(idt[2 * v], idt[2 * v + 1])
  }

  /** The link-time addresses of the three entry stubs; none is null. */
  datatype Routines = Routines(interrupt: bv64, exception: bv64, generalProtection: bv64)
  {
    predicate NonNull()
    {
      interrupt != 0 && exception != 0 && generalProtection != 0
    }
  }

  /** The routine `setEntry` installs: the given handler, or the stub for the kind of vector when it is null. */
  function RoutineFor(routines: Routines, errorCode: bool, handler: bv64): bv64
  {
    if handler != 0 then handler else if errorCode then routines.exception else routines.interrupt
  }

  /** Bits 15:0, 31:16 and 63:32 of a routine address, for the three offset fields. */
  function OffsetLow(routine: bv64): bv16 { (routine & 0xffff) as bv16 }
  function OffsetMedium(routine: bv64): bv16 { ((routine >> 16) & 0xffff) as bv16 }
  function OffsetHigh(routine: bv64): bv32 { ((routine >> 32) & 0xffff_ffff) as bv32 }

  /** 0x0e | (1 << 7): a present 64-bit interrupt gate of privilege 0. */
  const InterruptGate: bv8 := 0x0e | (1 << 7)

  /** The field assignments of `setEntry` on a gate: the selector, the routine's offset and the attributes. */
  function SetFields(g: Gate, routine: bv64, selector: bv16): Gate
  {
    g.(selector := selector, offsetLow := OffsetLow(routine), offsetMedium := OffsetMedium(routine),
       offsetHigh := OffsetHigh(routine), attributes := InterruptGate)
  }

  /**
   * A gate `setEntry` writes enters the routine at its full 64-bit address
   * through the selector, is a present 64-bit interrupt gate of privilege
   * 0 (attributes 0x8E), and keeps its IST and reserved fields.
   */
  lemma SetFieldsGate(g: Gate, routine: bv64, selector: bv16)
    ensures var r := SetFields(g, routine, selector);
      Routine(r) == routine && r.selector == selector && r.attributes == 0x8e
      && Present(r) && Privilege(r) == 0 && GateType(r) == 0xe
      && r.ist == g.ist && r.zero == g.zero
  {
    var r := SetFields(g, routine, selector);
    assert InterruptGate == 0x8e;
    assert (r.offsetLow as bv64) == routine & 0xffff;
    assert (r.offsetMedium as bv64) << 16 == routine & 0xffff_0000;
    assert (r.offsetHigh as bv64) << 32 == routine & 0xffff_ffff_0000_0000;
  }

  /** A cleared gate: all fields zero, so not present. */
  function ClearedGate(): Gate { DecodeGate(0, 0) }

  /** Gate v after `initialize`: the fault handler at 13, the generic stub at 32..255, cleared elsewhere. */
  function InitialGate(routines: Routines, v: nat): Gate
  {
    if v == GeneralProtection then
      SetFields(ClearedGate(), RoutineFor(routines, true, routines.generalProtection), Gdt.KernelCodeSelector as bv16)
    else if 32 <= v then SetFields(ClearedGate(), RoutineFor(routines, false, 0), Gdt.KernelCodeSelector as bv16)
    else ClearedGate()
  }

  /**
   * The table `initialize` builds: vector 13 enters the general protection
   * handler, vectors 32..255 the generic interrupt stub, both through the
   * kernel code selector as present interrupt gates; every other vector
   * (the exceptions besides 13) is not present.
   */
  lemma InitialGates(routines: Routines)
    requires routines.NonNull()
    ensures var g := InitialGate(routines, GeneralProtection);
      Routine(g) == routines.generalProtection && g.selector == 0x08 && g.attributes == 0x8e
    ensures forall v :: 32 <= v < VectorCount ==>
      var g := InitialGate(routines, v);
      Routine(g) == routines.interrupt && g.selector == 0x08 && g.attributes == 0x8e && Present(g)
    ensures forall v :: 0 <= v < 32 && v != GeneralProtection ==> !Present(InitialGate(routines, v))
  {
    SetFieldsGate(ClearedGate(), routines.generalProtection, 0x08);
    SetFieldsGate(ClearedGate(), routines.interrupt, 0x08);
  }

  /** A fired handler: the callback and the two arguments it receives. */
  datatype Call = Call(handler: nat, data: nat, code: nat)

  /**
   * The handler table: callback and data per vector (0 for a null
   * callback) and the next vector to hand out.
   */
  datatype Vectors = Vectors(handlers: seq<nat>, data: seq<nat>, next: nat)
  {
    predicate WellFormed()
    {
      |handlers| == VectorCount && |data| == VectorCount && FirstVector <= next <= MaxVector
    }
  }

  /**
   * `reserveMSIVector`: the next free vector with the callback and data
   * stored at its index, or 0 and no change once the vectors run out.
   */
  function Reserve(v: Vectors, handler: nat, data: nat): (Vectors, nat)
    requires v.WellFormed()
  {
    if MaxVector - v.next == 0 then (v, 0)
    else (Vectors(v.handlers[v.next := handler], v.data[v.next := data], v.next + 1), v.next)
  }

  /** `fireInterruptHandler`: the registered callback called with its data and 0, or None for a null callback. */
  function Fire(v: Vectors, vector: nat): Option<Call>
    requires v.WellFormed() && vector < VectorCount
  {
    if v.handlers[vector] == 0 then None else Some(Call(v.handlers[vector], v.data[vector], 0))
  }

  lemma ReservePreservesWellFormed(v: Vectors, handler: nat, data: nat)
    requires v.WellFormed()
    ensures Reserve(v, handler, data).0.WellFormed()
  {
  }

  /**
   * A reserved vector is one of 0x20 .. 0xfd and fires exactly the callback
   * and data just stored, with a second argument of 0; the other vectors
   * fire as before. A vector of 0 means nothing was registered.
   */
  lemma ReserveThenFire(v: Vectors, handler: nat, data: nat, u: nat)
    requires v.WellFormed() && u < VectorCount
    ensures var (v', vector) := Reserve(v, handler, data);
      (vector == 0 <==> v.next == MaxVector)
      && (vector != 0 ==> FirstVector <= vector < MaxVector && vector == v.next && v'.next == v.next + 1)
      && (vector != 0 ==> Fire(v', vector) == if handler == 0 then None else Some(Call(handler, data, 0)))
      && (u != vector || vector == 0 ==> Fire(v', u) == Fire(v, u))
  {
  }

  /** The vectors a run of reservations returns, one per (callback, data) request, in order. */
  function ReserveAll(v: Vectors, requests: seq<(nat, nat)>): (r: (Vectors, seq<nat>))
    requires v.WellFormed()
    ensures r.0.WellFormed() && |r.1| == |requests|
    decreases |requests|
  {
    if |requests| == 0 then (v, [])
    else
      var (v', vector) := Reserve(v, requests[0].0, requests[0].1);
      var (v'', rest) := ReserveAll(v', requests[1..]);
      (v'', [vector] + rest)
  }

  /**
   * Reservations hand out the vectors from `next` upwards in order, each
   * once: the k-th request gets next + k while that is below 0xfe, and 0
   * from then on.
   */
  lemma {:induction false} ReserveAllInOrder(v: Vectors, requests: seq<(nat, nat)>)
    requires v.WellFormed()
    ensures var vectors := ReserveAll(v, requests).1;
      forall k :: 0 <= k < |vectors| ==> vectors[k] == if v.next + k < MaxVector then v.next + k else 0
    decreases |requests|
  {
    if |requests| > 0 {
      var (v', vector) := Reserve(v, requests[0].0, requests[0].1);
      ReserveAllInOrder(v', requests[1..]);
      var vectors := ReserveAll(v, requests).1;
      forall k | 0 <= k < |vectors|
        ensures vectors[k] == if v.next + k < MaxVector then v.next + k else 0
      {
        if k > 0 {
          assert vectors[k] == ReserveAll(v', requests[1..]).1[k - 1];
          if v.next == MaxVector {
            assert v'.next == MaxVector;
          }
        }
      }
    }
  }

  /** From the boot state, distinct successful reservations get distinct vectors 0x20, 0x21, ... */
  lemma ReservationsDistinct(v: Vectors, requests: seq<(nat, nat)>, j: nat, k: nat)
    requires v.WellFormed() && v.next == FirstVector
    requires j < k < |requests|
    ensures var vectors := ReserveAll(v, requests).1;
      vectors[j] == (if j < MaxVector - FirstVector then FirstVector + j else 0)
      && (vectors[k] != 0 ==> vectors[j] != 0 && vectors[j] < vectors[k])
  {
    ReserveAllInOrder(v, requests);
  }

  /** The low byte of a 16-bit APIC id, as the source's u8 variable holds it. */
  function LowByte(id: nat): bv8
  {
    (id % U8Modulus) as bv8
  }

  /** The MSI address word for the bootstrap processor's local APIC id (its low byte). */
  function MsiAddress(bspID: nat): bv64
  {
    0xfee0_0000 | ((LowByte(bspID) as bv64) << 12)
  }

  /**
   * MSI address layout: bits 31:20 are 0xFEE, bits 19:12 the destination
   * APIC id, and the redirection hint and destination mode bits (3 and 2)
   * and everything above bit 31 are clear.
   */
  lemma MsiAddressLayout(bspID: nat)
    ensures var a := MsiAddress(bspID);
      (a >> 20) == 0xfee && ((a >> 12) & 0xff) as bv8 == LowByte(bspID) && a & 0xfff == 0
  {
    var id := LowByte(bspID);
    assert (id as bv64) < 0x100;
  }

  /** The MSI data word for a vector: edge triggered, fixed delivery. */
  function MsiData(vector: bv8): bv16
  {
    vector as bv16
  }

  /**
   * MSI data layout: bits 7:0 are the vector; the delivery mode (bits 10:8),
   * level (14) and trigger mode (15, edge) are all 0.
   */
  lemma MsiDataLayout(vector: bv8)
    ensures (MsiData(vector) & 0xff) as bv8 == vector && MsiData(vector) >> 8 == 0
  {
  }

  class InterruptTable {
    /** The entry stubs, fixed when the kernel is linked. */
    const routines: Routines
    var tablePhysicalAddress: nat
    /** The IDT page as 64-bit words. */
    var idt: array<bv64>
    var handlers: array<nat>
    var handlersData: array<nat>
    var minInterrupt: nat
    /** The IDTR image: limit and linear address. */
    var pointerSize: nat
    var pointerAddress: nat

    predicate InRange()
      reads this
    {
      FirstVector <= minInterrupt <= MaxVector
    }

    predicate Valid()
      reads this
    {
      InRange() && idt.Length == TableWords && handlers.Length == VectorCount
      && handlersData.Length == VectorCount && handlers != handlersData
    }

    ghost function View(): Vectors
      reads this, handlers, handlersData
    {
      Vectors(handlers[..], handlersData[..], minInterrupt)
    }

    /** The boot state before `initialize`: no tables, vectors from 0x20. */
    constructor (routines: Routines)
      ensures InRange() && minInterrupt == FirstVector && this.routines == routines
      ensures pointerSize == 0 && pointerAddress == 0
    {
      this.routines := routines;
      tablePhysicalAddress := 0;
      idt := new bv64[0];
      handlers := new nat[0];
      handlersData := new nat[0];
      minInterrupt := FirstVector;
      pointerSize := 0;
      pointerAddress := 0;
    }

    /** `setEntry`: the field assignments on gate `entry`; a null handler picks the stub for the kind of vector. */
    method SetEntry(entry: nat, errorCode: bool := false, handler: bv64 := 0)
      requires idt.Length == TableWords && entry < VectorCount
      modifies idt
      ensures GateAt(idt[..], entry)
           == SetFields(old(GateAt(idt[..], entry)), RoutineFor(routines, errorCode, handler), Gdt.KernelCodeSelector as bv16)
      ensures forall v :: 0 <= v < VectorCount && v != entry ==> GateAt(idt[..], v) == old(GateAt(idt[..], v))
    {
      var routineAddress := if errorCode then routines.exception else routines.interrupt;
      if handler != 0 {
        routineAddress := handler;
      }
      ghost var before := GateAt(idt[..], entry);
      var gate := DecodeGate(idt[2 * entry], idt[2 * entry + 1]);
      var selector := Gdt.DescriptorTable.GetKernelCodeSegment();
      gate := gate.(selector := selector as bv16);
      gate := gate.(offsetLow := OffsetLow(routineAddress));
      gate := gate.(offsetMedium := OffsetMedium(routineAddress));
      gate := gate.(offsetHigh := OffsetHigh(routineAddress));
      gate := gate.(attributes := InterruptGate);
      assert routineAddress == RoutineFor(routines, errorCode, handler);
      assert selector == Gdt.KernelCodeSelector;
      assert gate == SetFields(before, routineAddress, selector as bv16);
      DecodeEncodeGate(gate);
      idt[2 * entry] := EncodeLow(gate);
      idt[2 * entry + 1] := EncodeHigh(gate);
    }

    /** The two clearing loops of `initialize` over the handler and data tables. */
    method ClearHandlers()
      requires Valid()
      modifies handlers, handlersData
      ensures forall v :: 0 <= v < VectorCount ==> handlers[v] == 0 && handlersData[v] == 0
    {
      var i := 0;
      while i < VectorCount
        invariant i <= VectorCount
        invariant forall v :: 0 <= v < i ==> handlers[v] == 0
      {
        handlers[i] := 0;
        i := i + 1;
      }
      i := 0;
      while i < VectorCount
        invariant i <= VectorCount
        invariant forall v :: 0 <= v < VectorCount ==> handlers[v] == 0
        invariant forall v :: 0 <= v < i ==> handlersData[v] == 0
      {
        handlersData[i] := 0;
        i := i + 1;
      }
    }

    /** The zeroing loop of `initialize`: all 512 words of the IDT page, so every gate is cleared. */
    method ClearTable()
      requires idt.Length == TableWords
      modifies idt
      ensures forall v :: 0 <= v < VectorCount ==> GateAt(idt[..], v) == ClearedGate()
    {
      var i := 0;
      while i < TableWords
        invariant i <= TableWords
        invariant forall w :: 0 <= w < i ==> idt[w] == 0
      {
        idt[i] := 0;
        i := i + 1;
      }
    }

    /** The gates `initialize` installs on the cleared table: 13, then 32..255. */
    method FillGates()
      requires idt.Length == TableWords
      requires forall v :: 0 <= v < VectorCount ==> GateAt(idt[..], v) == ClearedGate()
      modifies idt
      ensures forall v :: 0 <= v < VectorCount ==> GateAt(idt[..], v) == InitialGate(routines, v)
    {
      SetEntry(GeneralProtection, true, routines.generalProtection);
      var i := 32;
      while i < VectorCount
        invariant 32 <= i <= VectorCount
        invariant forall v :: 0 <= v < VectorCount ==>
          GateAt(idt[..], v) == if v < i || v == GeneralProtection then InitialGate(routines, v) else ClearedGate()
      {
        SetEntry(i);
        i := i + 1;
      }
    }

    /** `initialize` after the allocation: the tables on the page at `address`, cleared and filled, and the IDTR image. */
    method Build(address: nat)
      requires InRange()
      modifies this
      ensures Valid() && minInterrupt == old(minInterrupt) && tablePhysicalAddress == address
      ensures fresh(idt) && fresh(handlers) && fresh(handlersData)
      ensures forall v :: 0 <= v < VectorCount ==>
        GateAt(idt[..], v) == InitialGate(routines, v) && handlers[v] == 0 && handlersData[v] == 0
      ensures pointerSize == TableLimit && pointerAddress == WrapU64(address + PagingBase)
    {
      tablePhysicalAddress := address;
      var tableAddress := WrapU64(address + PagingBase);
      idt := new bv64[TableWords];
      handlers := new nat[VectorCount];
      handlersData := new nat[VectorCount];
      ClearHandlers();
      ClearTable();
      FillGates();
      pointerSize := TableLimit;
      pointerAddress := tableAddress;
    }

    /**
     * `initialize`: a kernel page for the IDT, cleared handler and data
     * tables, the cleared and filled gates and the IDTR image; the call
     * halts when the allocator does. The vector counter is kept.
     */
    method Initialize(phys: PhysAlloc.PhysicalAllocator) returns (r: Outcome<()>)
      requires InRange() && phys.Valid()
      modifies this, phys, phys.briefBitmap, phys.largePageBitmap
      ensures phys.Valid() && phys.briefBitmap == old(phys.briefBitmap) && phys.largePageBitmap == old(phys.largePageBitmap)
      ensures (phys.View(), if r.Hang? then Hang else Ok(tablePhysicalAddress)) == PhysAlloc.Allocate(old(phys.View()), KernelPID, false)
      ensures minInterrupt == old(minInterrupt) && InRange()
      ensures r.Ok? ==> Valid() && fresh(idt) && fresh(handlers) && fresh(handlersData)
      ensures r.Ok? ==> forall v :: 0 <= v < VectorCount ==>
        GateAt(idt[..], v) == InitialGate(routines, v) && handlers[v] == 0 && handlersData[v] == 0
      ensures r.Ok? ==> pointerSize == TableLimit && pointerAddress == WrapU64(tablePhysicalAddress + PagingBase)
    {
      var page := phys.AllocatePage(KernelPID, false);
      if page.Hang? {
        return Hang;
      }
      Build(page.value);
      r := Ok(());
    }

    /** `reserveMSIVector`. */
    method ReserveMSIVector(handler: nat, data: nat) returns (vector: nat)
      requires Valid()
      modifies this, handlers, handlersData
      ensures Valid() && idt == old(idt) && handlers == old(handlers) && handlersData == old(handlersData)
      ensures (View(), vector) == Reserve(old(View()), handler, data)
    {
      if MaxVector - minInterrupt == 0 {
        return 0;
      }
      handlers[minInterrupt] := handler;
      handlersData[minInterrupt] := data;
      vector := minInterrupt % U8Modulus;
      minInterrupt := minInterrupt + 1;
    }

    /** `reserveVector`: the same as `reserveMSIVector`. */
    method ReserveVector(handler: nat, data: nat) returns (vector: nat)
      requires Valid()
      modifies this, handlers, handlersData
      ensures Valid() && idt == old(idt) && handlers == old(handlers) && handlersData == old(handlersData)
      ensures (View(), vector) == Reserve(old(View()), handler, data)
    {
      vector := ReserveMSIVector(handler, data);
    }

    /** `fireInterruptHandler`: the call made, or None where the source would call a null pointer. */
    method FireInterruptHandler(vector: bv8) returns (call: Option<Call>)
      requires Valid()
      ensures call == Fire(View(), vector as nat)
    {
      if handlers[vector] == 0 {
        return None;
      }
      call := Some(Call(handlers[vector], handlersData[vector], 0));
    }

    /** `getMSIAddress`: every MSI goes to the bootstrap processor. */
    static method GetMSIAddress(boot: BootBoot.Structure) returns (address: bv64)
      ensures address == MsiAddress(boot.bspID)
    {
      address := 0xfee0_0000;
      var bspLAPICID := LowByte(boot.bspID);
      address := address | ((bspLAPICID as bv64) << 12);
    }

    /** `getMSIData`. */
    static method GetMSIData(vector: bv8) returns (data: bv16)
      ensures data == MsiData(vector)
    {
      data := vector as bv16;
    }
  }
}
