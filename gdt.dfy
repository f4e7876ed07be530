/**
 * The global descriptor table: one 4 KiB page of 64-bit segment
 * descriptors (section 3.4.5 of the Intel SDM Vol. 3A) holding the null
 * descriptor and four flat segments, kernel and user code and data.
 */
module Gdt {
  import opened Machine
  import PhysAlloc

  /** The fields of a segment descriptor, in the order of the source's packed struct. */
  datatype Descriptor = Descriptor(limitLow: bv16, baseLow: bv16, baseMedium: bv8, segmentType: bv4,
                                   system: bool, dpl: bv2, present: bool, limitHigh: bv4,
                                   available: bool, longSegment: bool, operationSize: bool,
                                   granularity: bool, baseHigh: bv8)

  function Bit(b: bool): bv64 { if b then 1 else 0 }

  function Test(v: bv64, n: bv64): bool
    requires n < 64
  {
    (v >> n) & 1 == 1
  }

  function Encode(d: Descriptor): bv64
  {
    (d.limitLow as bv64) | ((d.baseLow as bv64) << 16) | ((d.baseMedium as bv64) << 32)
    | ((d.segmentType as bv64) << 40) | (Bit(d.system) << 44) | ((d.dpl as bv64) << 45)
    | (Bit(d.present) << 47) | ((d.limitHigh as bv64) << 48) | (Bit(d.available) << 52)
    | (Bit(d.longSegment) << 53) | (Bit(d.operationSize) << 54) | (Bit(d.granularity) << 55)
    | ((d.baseHigh as bv64) << 56)
  }

  function Decode(v: bv64): Descriptor
  {
    Descriptor((v & 0xffff) as bv16, ((v >> 16) & 0xffff) as bv16, ((v >> 32) & 0xff) as bv8,
               ((v >> 40) & 0xf) as bv4, Test(v, 44), ((v >> 45) & 3) as bv2, Test(v, 47),
               ((v >> 48) & 0xf) as bv4, Test(v, 52), Test(v, 53), Test(v, 54), Test(v, 55),
               ((v >> 56) & 0xff) as bv8)
  }

  lemma DecodeEncode(d: Descriptor)
    ensures Decode(Encode(d)) == d
  {
  }

  /** The one-bit fields sit at single bit positions, so their decoded flag re-encodes to that bit of the word. */
  lemma BitOfTest(v: bv64, n: bv64)
    requires n == 44 || n == 47 || 52 <= n <= 55
    ensures Bit(Test(v, n)) << n == v & (1 << n)
  {
    if n == 44 {
      assert Bit(Test(v, 44)) << 44 == v & (1 << 44);
    } else if n == 47 {
      assert Bit(Test(v, 47)) << 47 == v & (1 << 47);
    } else if n == 52 {
      assert Bit(Test(v, 52)) << 52 == v & (1 << 52);
    } else if n == 53 {
      assert Bit(Test(v, 53)) << 53 == v & (1 << 53);
    } else if n == 54 {
      assert Bit(Test(v, 54)) << 54 == v & (1 << 54);
    } else {
      assert Bit(Test(v, 55)) << 55 == v & (1 << 55);
    }
  }

  /** The fields tile the 64 bits: re-encoding a decoded word gives it back. */
  lemma {:induction false} EncodeDecode(v: bv64)
    ensures Encode(Decode(v)) == v
  {
    var d := Decode(v);
    BitOfTest(v, 44); BitOfTest(v, 47); BitOfTest(v, 52); BitOfTest(v, 53); BitOfTest(v, 54); BitOfTest(v, 55);
    assert (d.limitLow as bv64) == v & 0xffff;
    assert (d.baseLow as bv64) << 16 == v & 0xffff_0000;
    assert (d.baseMedium as bv64) << 32 == v & 0xff_0000_0000;
    assert (d.segmentType as bv64) << 40 == v & 0xf00_0000_0000;
    assert (d.dpl as bv64) << 45 == v & 0x6000_0000_0000;
    assert (d.limitHigh as bv64) << 48 == v & 0xf_0000_0000_0000;
    assert (d.baseHigh as bv64) << 56 == v & 0xff00_0000_0000_0000;
  }

  /** The 32-bit base address the descriptor spells out in its three base fields. */
  function Base(d: Descriptor): bv32
  {
    (d.baseLow as bv32) | ((d.baseMedium as bv32) << 16) | ((d.baseHigh as bv32) << 24)
  }

  /** The 20-bit segment limit, in units of 4 KiB when granularity is set. */
  function Limit(d: Descriptor): bv32
  {
    (d.limitLow as bv32) | ((d.limitHigh as bv32) << 16)
  }

  /**
   * `setGDTEntry` on one descriptor: the bit fields it assigns change and
   * the others (`available`, and the size bit of the other segment kind)
   * keep their previous value.
   */
  function SetFields(d: Descriptor, dpl: bv8, segmentType: bv8, code: bool): (r: Descriptor)
    ensures r.present && r.system && r.granularity
    ensures Base(r) == 0 && Limit(r) == 0xfffff
    ensures r.segmentType as bv8 == segmentType & 0xf && r.dpl as bv8 == dpl & 3
    ensures code ==> r.longSegment && r.operationSize == d.operationSize
    ensures !code ==> r.operationSize && r.longSegment == d.longSegment
    ensures r.available == d.available
  {
    var r := d.(present := true, system := true, baseLow := 0, baseMedium := 0, baseHigh := 0,
                limitLow := 0xffff, limitHigh := 0xf,
                segmentType := (segmentType & 0xf) as bv4, dpl := (dpl & 3) as bv2, granularity := true);
    if code then r.(longSegment := true) else r.(operationSize := true)
  }

  /** On a cleared descriptor a code entry gets the L bit and a data entry the D/B bit, never both. */
  lemma SizeBitsExclusive(dpl: bv8, segmentType: bv8, code: bool)
    ensures var r := SetFields(Decode(0), dpl, segmentType, code);
      r.longSegment == code && r.operationSize == !code && !r.available
  {
  }

  /** Words of the table page. */
  const PageWords: nat := 512
  /** The GDTR limit `initialize` loads: the table's size in bytes minus one, for eight descriptors. */
  const PointerLimit: nat := 63
  /** Selectors `switchKernelSegments` loads into CS and the data segment registers. */
  const KernelCodeSelector: nat := 0x08
  const KernelDataSelector: nat := 0x10

  /** A selector for descriptor `index` of the GDT at privilege level 0. */
  function Selector(index: nat): nat { index * 8 }

  /** The descriptor `initialize` writes at `index`, or the null word. */
  function InitialEntry(index: nat): (v: bv64)
    ensures index == 0 || index > 4 ==> v == 0
  {
    if index == 1 then Encode(SetFields(Decode(0), 0, 0x0a, true))
    else if index == 2 then Encode(SetFields(Decode(0), 0, 0x02, false))
    else if index == 3 then Encode(SetFields(Decode(0), 3, 0x0a, true))
    else if index == 4 then Encode(SetFields(Decode(0), 3, 0x02, false))
    else 0
  }

  /**
   * The four segments of `initialize`: kernel code and data at privilege
   * 0, user code and data at privilege 3, code of type 0xA (execute/read)
   * and data of type 0x2 (read/write), all flat (base 0, limit 0xFFFFF in
   * 4 KiB units, present, non-system).
   */
  lemma InitialSegments()
    ensures forall index :: 1 <= index <= 4 ==>
      var d := Decode(InitialEntry(index));
      d.present && d.system && d.granularity && Base(d) == 0 && Limit(d) == 0xfffff && !d.available
      && d.dpl == (if index <= 2 then 0 else 3)
      && d.segmentType == (if index % 2 == 1 then 0xa else 0x2)
      && d.longSegment == (index % 2 == 1) && d.operationSize == (index % 2 == 0)
    ensures Decode(InitialEntry(0)) == Decode(0) && !Decode(0).present
  {
    forall index | 1 <= index <= 4
      ensures var d := Decode(InitialEntry(index));
        d.present && d.system && d.granularity && Base(d) == 0 && Limit(d) == 0xfffff && !d.available
        && d.dpl == (if index <= 2 then 0 else 3)
        && d.segmentType == (if index % 2 == 1 then 0xa else 0x2)
        && d.longSegment == (index % 2 == 1) && d.operationSize == (index % 2 == 0)
    {
      var code := index % 2 == 1;
      var dpl: bv8 := if index <= 2 then 0 else 3;
      var t: bv8 := if code then 0x0a else 0x02;
      assert InitialEntry(index) == Encode(SetFields(Decode(0), dpl, t, code));
      DecodeEncode(SetFields(Decode(0), dpl, t, code));
      SizeBitsExclusive(dpl, t, code);
    }
  }

  /**
   * The selectors: 0x08 picks descriptor 1 (kernel code) and 0x10
   * descriptor 2 (kernel data), and the GDTR limit covers descriptors 0-7.
   */
  lemma SelectorsNameKernelSegments()
    ensures KernelCodeSelector == Selector(1) && KernelDataSelector == Selector(2)
    ensures PointerLimit + 1 == Selector(8)
    ensures Decode(InitialEntry(KernelCodeSelector / 8)).longSegment
    ensures Decode(InitialEntry(KernelDataSelector / 8)).operationSize
  {
    InitialSegments();
  }

  class DescriptorTable {
    /** The page holding the table, as a physical address; its words are `entries`. */
    var physicalAddress: nat
    var entries: array<bv64>
    /** The GDTR image: limit and linear address. */
    var pointerSize: nat
    var pointerAddress: nat

    ghost predicate Valid()
      reads this
    {
      entries.Length == PageWords
    }

    /** The table before `initialize`: no page. */
    constructor ()
      ensures Valid() && physicalAddress == 0 && pointerSize == 0 && pointerAddress == 0
    {
      physicalAddress := 0;
      entries := new bv64[PageWords](_ => 0);
      pointerSize := 0;
      pointerAddress := 0;
    }

    /** `getKernelCodeSegment`. */
    static method GetKernelCodeSegment() returns (selector: nat)
      ensures selector == Selector(1)
    {
      return KernelCodeSelector;
    }

    /** `setGDTEntry`: the bit-field assignments on descriptor `entry`. */
    method SetEntry(entry: bv8, dpl: bv8, segmentType: bv8, code: bool := false)
      requires Valid()
      modifies entries
      ensures entries[..] == old(entries[..])[entry as nat := Encode(SetFields(Decode(old(entries[entry])), dpl, segmentType, code))]
    {
      entries[entry] := Encode(SetFields(Decode(entries[entry]), dpl, segmentType, code));
    }

    /** The clearing loop of `initialize`: all 512 words of the page become zero. */
    method ClearTable()
      requires Valid()
      modifies entries
      ensures forall j :: 0 <= j < PageWords ==> entries[j] == 0
    {
      var i := 0;
      while i < PageWords
        invariant i <= PageWords
        invariant forall j :: 0 <= j < i ==> entries[j] == 0
      {
        entries[i] := 0;
        i := i + 1;
      }
    }

    /** The four `setGDTEntry` calls of `initialize` on the cleared table. */
    method FillSegments()
      requires Valid() && forall j :: 0 <= j < PageWords ==> entries[j] == 0
      modifies entries
      ensures forall index :: 0 <= index < PageWords ==> entries[index] == InitialEntry(index)
    {
      SetEntry(1, 0, 0x0a, true);
      SetEntry(2, 0, 0x02);
      SetEntry(3, 3, 0x0a, true);
      SetEntry(4, 3, 0x02);
    }

    /** `initialize` after the allocation: the table on the page at `address`, cleared and filled, and the GDTR image. */
    method Build(address: nat)
      modifies this
      ensures Valid() && physicalAddress == address && fresh(entries)
      ensures pointerSize == PointerLimit && pointerAddress == WrapU64(address + PagingBase)
      ensures forall index :: 0 <= index < PageWords ==> entries[index] == InitialEntry(index)
    {
      physicalAddress := address;
      entries := new bv64[PageWords];
      ClearTable();
      FillSegments();
      pointerSize := PointerLimit;
      pointerAddress := WrapU64(address + PagingBase);
    }

    /**
     * `initialize`: a kernel page for the table, cleared, the four
     * segments written and the GDTR image filled; the call halts when the
     * allocator does.
     */
    method Initialize(phys: PhysAlloc.PhysicalAllocator) returns (r: Outcome<()>)
      requires Valid() && phys.Valid()
      modifies this, phys, phys.briefBitmap, phys.largePageBitmap
      ensures Valid() && phys.Valid()
      ensures phys.briefBitmap == old(phys.briefBitmap) && phys.largePageBitmap == old(phys.largePageBitmap)
      ensures (phys.View(), if r.Hang? then Hang else Ok(physicalAddress)) == PhysAlloc.Allocate(old(phys.View()), KernelPID, false)
      ensures r.Ok? ==> pointerSize == PointerLimit && pointerAddress == WrapU64(physicalAddress + PagingBase)
                        && forall index :: 0 <= index < PageWords ==> entries[index] == InitialEntry(index)
    {
      var page := phys.AllocatePage(KernelPID, false);
      if page.Hang? {
        return Hang;
      }
      Build(page.value);
      r := Ok(());
    }
  }
}
