/**
 * A virtual address space: its 4-level paging structures in physical
 * memory, the walk that finds (and on request builds) the entry for an
 * address, the filling of leaf entries for a memory object's pages, and
 * `mapObject`, which places an object in the allocation list and maps it.
 *
 * Physical memory is a map from byte addresses to 64-bit words; the
 * kernel reaches a physical address through the direct map at the paging
 * base, which the model leaves out by addressing memory physically. The
 * state the operations thread is the memory together with the frame
 * allocator's bookkeeping, because building a table allocates a page.
 */
module AddressSpaces {
  import opened Machine
  import PhysAlloc
  import MemoryObjects
  import opened PagingEntries
  import opened VirtualRegions
  import LinkedList

  /** The frame number of a 4 KiB page, as the 40-bit address field of an entry holds it. */
  datatype Frame = Frame(number: bv40)

  /** The frame of the physical address `p`: the source's `p >> 12`, truncated to the 40-bit field. */
  function FrameOf(p: nat): Frame
  {
    Frame(((p / 0x1000) % 0x100_0000_0000) as bv40)
  }

  /** The number of 64-bit entries in a paging structure (a 4 KiB page). */
  const TableEntries: nat := 512

  /** An empty paging structure: 512 zero words. */
  function ZeroTable(): (t: seq<bv64>)
    ensures |t| == TableEntries && forall i :: 0 <= i < |t| ==> t[i] == 0
  {
    seq(TableEntries, i => 0)
  }

  /**
   * The paging structures in physical memory: the 512 words of each
   * frame that has been written; a frame never written reads as zero.
   */
  type Memory = map<Frame, seq<bv64>>

  function Table(m: Memory, f: Frame): (t: seq<bv64>)
    ensures |t| == TableEntries
  {
    if f in m && |m[f]| == TableEntries then m[f] else ZeroTable()
  }

  function Word(m: Memory, f: Frame, i: nat): bv64
    requires i < TableEntries
  {
    Table(m, f)[i]
  }

  function Write(m: Memory, f: Frame, i: nat, v: bv64): (m': Memory)
    requires i < TableEntries
    ensures Word(m', f, i) == v
    ensures forall g, j :: 0 <= j < TableEntries && (g != f || j != i) ==> Word(m', g, j) == Word(m, g, j)
  {
    var m' := m[f := Table(m, f)[i := v]];
    assert forall g :: g != f ==> Table(m', g) == Table(m, g);
    assert Table(m', f) == Table(m, f)[i := v];
    m'
  }

  /** Physical memory and the frame allocator's state. */
  datatype Hardware = Hardware(memory: Memory, frames: PhysAlloc.Frames)

  /** Memory with the frame of `p` cleared: the loop of `allocateZeroedPage` over the page's 512 words. */
  function Zeroed(m: Memory, p: nat): (m': Memory)
    ensures Table(m', FrameOf(p)) == ZeroTable()
    ensures forall g, j :: 0 <= j < TableEntries && g != FrameOf(p) ==> Word(m', g, j) == Word(m, g, j)
  {
    var m' := m[FrameOf(p) := ZeroTable()];
    assert forall g :: g != FrameOf(p) ==> Table(m', g) == Table(m, g);
    m'
  }

  /**
   * `allocateZeroedPage`: a 4 KiB page for the kernel, all of whose 512
   * words are cleared; hangs when the allocator does.
   */
  function AllocateZeroed(h: Hardware): (res: (Hardware, Outcome<nat>))
    requires PhysAlloc.WellFormed(h.frames)
    ensures PhysAlloc.WellFormed(res.0.frames)
  {
    PhysAlloc.AllocatePreservesWellFormed(h.frames, KernelPID, false);
    var (frames, page) := PhysAlloc.Allocate(h.frames, KernelPID, false);
    if page.Hang? then (Hardware(h.memory, frames), Hang)
    else (Hardware(Zeroed(h.memory, page.value), frames), Ok(page.value))
  }

  /** `allocateZeroedPage` in terms of the allocator's step from `h.frames` to `frames'`. */
  lemma AllocateZeroedSteps(h: Hardware, frames': PhysAlloc.Frames, page: Outcome<nat>)
    requires PhysAlloc.WellFormed(h.frames) && (frames', page) == PhysAlloc.Allocate(h.frames, KernelPID, false)
    ensures AllocateZeroed(h) == if page.Hang? then (Hardware(h.memory, frames'), Hang)
                                 else (Hardware(Zeroed(h.memory, page.value), frames'), page)
  {
  }

  // ---------------------------------------------------------------------
  // The walk through the paging structures

  /** The 9-bit table indices of an address, from the PT up to the PML4, as the walk's shifts compute them. */
  function PTIndex(a: nat): (i: nat) ensures i < TableEntries { (a / 0x1000) % 512 }
  function PDIndex(a: nat): (i: nat) ensures i < TableEntries { (a / 0x1000 / 512) % 512 }
  function PDPTIndex(a: nat): (i: nat) ensures i < TableEntries { (a / 0x1000 / 512 / 512) % 512 }
  function PML4Index(a: nat): (i: nat) ensures i < TableEntries { (a / 0x1000 / 512 / 512 / 512) % 512 }

  /**
   * Within the 48-bit address range the four indices and the page offset
   * are the digits of the address, so the walk reaches a different leaf
   * entry for every 4 KiB page.
   */
  lemma {:induction false} IndicesAreDigits(a: nat)
    requires a < 0x1_0000_0000_0000
    ensures a == (((PML4Index(a) * 512 + PDPTIndex(a)) * 512 + PDIndex(a)) * 512 + PTIndex(a)) * 0x1000 + a % 0x1000
  {
    var q1 := a / 0x1000;
    var q2 := q1 / 512;
    var q3 := q2 / 512;
    var q4 := q3 / 512;
    assert a == q1 * 0x1000 + a % 0x1000;
    assert q1 == q2 * 512 + q1 % 512;
    assert q2 == q3 * 512 + q2 % 512;
    assert q3 == q4 * 512 + q3 % 512;
    assert q4 < 512 by {
      assert q1 < 0x10_0000_0000;
      assert q2 < 0x800_0000;
      assert q3 < 0x4_0000;
    }
    assert q4 % 512 == q4;
  }

  /** Two addresses of the 48-bit range with the same indices lie in the same 4 KiB page. */
  lemma {:induction false} IndicesDeterminePage(a: nat, b: nat)
    requires a < 0x1_0000_0000_0000 && b < 0x1_0000_0000_0000
    requires PML4Index(a) == PML4Index(b) && PDPTIndex(a) == PDPTIndex(b)
    requires PDIndex(a) == PDIndex(b) && PTIndex(a) == PTIndex(b)
    ensures a / 0x1000 == b / 0x1000
  {
    IndicesAreDigits(a);
    IndicesAreDigits(b);
    var d := ((PML4Index(a) * 512 + PDPTIndex(a)) * 512 + PDIndex(a)) * 512 + PTIndex(a);
    assert a == d * 0x1000 + a % 0x1000;
    assert b == d * 0x1000 + b % 0x1000;
  }

  /** A word of a paging structure. */
  datatype EntryRef = EntryRef(frame: Frame, index: nat)

  predicate ValidRef(e: EntryRef) { e.index < TableEntries }

  function Read(m: Memory, e: EntryRef): bv64
    requires ValidRef(e)
  {
    Word(m, e.frame, e.index)
  }

  /** The entry `v` made to reference the table in frame `f`, present and writeable; its other bits are kept. */
  function LinkEntry(v: bv64, f: Frame): (link: bv64)
    ensures var e, e' := DecodeTable(v), DecodeTable(link);
      e'.present && e'.writeEnable && e'.address == f.number
      && e'.userAccessible == e.userAccessible && e'.writeThrough == e.writeThrough
      && e'.cacheDisable == e.cacheDisable && e'.accessed == e.accessed
      && e'.reserved == e.reserved && e'.ignored == e.ignored && e'.executionDisable == e.executionDisable
  {
    var e := DecodeTable(v).(address := f.number, present := true, writeEnable := true);
    DecodeEncodeTable(e);
    EncodeTable(e)
  }

  /**
   * One level of `getMappingEntry`: the table that the entry `at`
   * references. An entry that is not present gives `None` when `create`
   * is off; otherwise a zeroed page becomes the table and the entry is
   * linked to it. Afterwards the entry is present and references the
   * table returned.
   */
  function Descend(h: Hardware, at: EntryRef, create: bool): (res: (Hardware, Outcome<Option<Frame>>))
    requires PhysAlloc.WellFormed(h.frames) && ValidRef(at)
    ensures PhysAlloc.WellFormed(res.0.frames)
    ensures create && res.1.Ok? ==> res.1.value.Some?
    ensures res.1.Ok? && res.1.value.Some? ==>
      Test(Read(res.0.memory, at), 0) && res.1.value.value == Frame(DecodeTable(Read(res.0.memory, at)).address)
  {
    var v := Read(h.memory, at);
    if Test(v, 0) then (h, Ok(Some(Frame(DecodeTable(v).address))))
    else if !create then (h, Ok(None))
    else
      var (h', page) := AllocateZeroed(h);
      if page.Hang? then (h', Hang)
      else
        var link := LinkEntry(Read(h'.memory, at), FrameOf(page.value));
        (h'.(memory := Write(h'.memory, at.frame, at.index, link)), Ok(Some(FrameOf(page.value))))
  }

  /** A present entry is followed without any change, whether or not `create` is on. */
  lemma {:induction false} DescendPresent(h: Hardware, at: EntryRef, create: bool)
    requires PhysAlloc.WellFormed(h.frames) && ValidRef(at) && Test(Read(h.memory, at), 0)
    ensures Descend(h, at, create) == (h, Ok(Some(Frame(DecodeTable(Read(h.memory, at)).address))))
  {
  }

  /** Without `create` nothing changes and nothing hangs; a missing table gives `None`. */
  lemma {:induction false} DescendLookup(h: Hardware, at: EntryRef)
    requires PhysAlloc.WellFormed(h.frames) && ValidRef(at)
    ensures Descend(h, at, false).0 == h && Descend(h, at, false).1.Ok?
    ensures Descend(h, at, false).1.value.None? <==> !Test(Read(h.memory, at), 0)
  {
  }

  /**
   * A table created for a missing entry is an empty table: every word of
   * it reads zero apart from the linking entry itself, should the
   * allocator have handed out the entry's own frame; every word outside
   * the new table and the entry is unchanged.
   */
  lemma {:induction false} DescendCreatesEmptyTable(h: Hardware, at: EntryRef)
    requires PhysAlloc.WellFormed(h.frames) && ValidRef(at) && !Test(Read(h.memory, at), 0)
    ensures var (h', r) := Descend(h, at, true);
      r.Ok? ==>
        (forall j :: 0 <= j < TableEntries && (r.value.value != at.frame || j != at.index) ==> Word(h'.memory, r.value.value, j) == 0)
        && (forall g, j :: 0 <= j < TableEntries && g != r.value.value && (g != at.frame || j != at.index) ==>
              Word(h'.memory, g, j) == Word(h.memory, g, j))
  {
  }

  /**
   * `getMappingEntry`: the PT entry for `a`, or its PD entry when
   * `large`, walking from the PML4 in frame `root`; `None` (a null
   * pointer) when a table on the way is missing and `create` is off.
   */
  function MappingEntry(h: Hardware, root: Frame, a: nat, large: bool, create: bool): (res: (Hardware, Outcome<Option<EntryRef>>))
    requires PhysAlloc.WellFormed(h.frames)
    ensures PhysAlloc.WellFormed(res.0.frames)
    ensures create && res.1.Ok? ==> res.1.value.Some?
    ensures res.1.Ok? && res.1.value.Some? ==> ValidRef(res.1.value.value)
  {
    var (h1, pdpt) := Descend(h, EntryRef(root, PML4Index(a)), create);
    if pdpt.Hang? then (h1, Hang)
    else if pdpt.value.None? then (h1, Ok(None))
    else
      var (h2, pd) := Descend(h1, EntryRef(pdpt.value.value, PDPTIndex(a)), create);
      if pd.Hang? then (h2, Hang)
      else if pd.value.None? then (h2, Ok(None))
      else
        var pdEntry := EntryRef(pd.value.value, PDIndex(a));
        if large then (h2, Ok(Some(pdEntry)))
        else
          var (h3, pt) := Descend(h2, pdEntry, create);
          if pt.Hang? then (h3, Hang)
          else if pt.value.None? then (h3, Ok(None))
          else (h3, Ok(Some(EntryRef(pt.value.value, PTIndex(a)))))
  }

  /** The entry a lookup through present tables finds, as it reads the tables of `m`. */
  function Lookup(m: Memory, root: Frame, a: nat, large: bool): Option<EntryRef>
  {
    var pml4 := Word(m, root, PML4Index(a));
    if !Test(pml4, 0) then None
    else
      var pdpt := Word(m, Frame(DecodeTable(pml4).address), PDPTIndex(a));
      if !Test(pdpt, 0) then None
      else
        var pdEntry := EntryRef(Frame(DecodeTable(pdpt).address), PDIndex(a));
        if large then Some(pdEntry)
        else
          var pd := Read(m, pdEntry);
          if !Test(pd, 0) then None
          else Some(EntryRef(Frame(DecodeTable(pd).address), PTIndex(a)))
  }

  /** With `create` off the walk is the lookup: it changes nothing and never hangs. */
  lemma {:induction false} WalkWithoutCreateIsLookup(h: Hardware, root: Frame, a: nat, large: bool)
    requires PhysAlloc.WellFormed(h.frames)
    ensures MappingEntry(h, root, a, large, false) == (h, Ok(Lookup(h.memory, root, a, large)))
  {
    var at1 := EntryRef(root, PML4Index(a));
    DescendLookup(h, at1);
    if Test(Read(h.memory, at1), 0) {
      var at2 := EntryRef(Frame(DecodeTable(Read(h.memory, at1)).address), PDPTIndex(a));
      DescendLookup(h, at2);
      if Test(Read(h.memory, at2), 0) && !large {
        DescendLookup(h, EntryRef(Frame(DecodeTable(Read(h.memory, at2)).address), PDIndex(a)));
      }
    }
  }

  /** When the lookup finds the entry, the walk with `create` finds the same one and changes nothing. */
  lemma {:induction false} PresentWalkAgrees(h: Hardware, root: Frame, a: nat, large: bool)
    requires PhysAlloc.WellFormed(h.frames) && Lookup(h.memory, root, a, large).Some?
    ensures MappingEntry(h, root, a, large, true) == (h, Ok(Lookup(h.memory, root, a, large)))
  {
    var at1 := EntryRef(root, PML4Index(a));
    DescendPresent(h, at1, true);
    var at2 := EntryRef(Frame(DecodeTable(Read(h.memory, at1)).address), PDPTIndex(a));
    DescendPresent(h, at2, true);
    if !large {
      DescendPresent(h, EntryRef(Frame(DecodeTable(Read(h.memory, at2)).address), PDIndex(a)), true);
    }
  }

  /**
   * Writing a leaf entry the lookup found keeps the lookup finding it,
   * provided the entry lies in none of the tables above it on the path.
   */
  lemma {:induction false} LeafWriteKeepsLookup(m: Memory, root: Frame, a: nat, large: bool, v: bv64)
    requires Lookup(m, root, a, large).Some?
    requires var e := Lookup(m, root, a, large).value;
      var pdpt := Frame(DecodeTable(Word(m, root, PML4Index(a))).address);
      e.frame != root && e.frame != pdpt
      && (!large ==> e.frame != Frame(DecodeTable(Word(m, pdpt, PDPTIndex(a))).address))
    ensures var e := Lookup(m, root, a, large).value;
      ValidRef(e) && Lookup(Write(m, e.frame, e.index, v), root, a, large) == Some(e)
      && Read(Write(m, e.frame, e.index, v), e) == v
  {
  }

  // ---------------------------------------------------------------------
  // Leaf entries

  /**
   * `doMapping` on a PD entry: present, 2 MiB page size, writeable,
   * execution disable and cache disable set from the object's flags, and
   * the page address or-ed into the value with its low 17 bits cleared.
   */
  function FillLarge(v: bv64, flags: bv8, page: bv64): bv64
  {
    EncodeLarge(DecodeLarge(v).(present := true, pageSize := true, writeEnable := flags & Writeable != 0,
                                executionDisable := flags & Executable == 0, cacheDisable := flags & Cacheable == 0))
    | (page & !0x1ffff)
  }

  /** `doMapping` on a PT entry: the same flags and the page address with its low 12 bits cleared. */
  function FillPage(v: bv64, flags: bv8, page: bv64): bv64
  {
    EncodePage(DecodePage(v).(present := true, writeEnable := flags & Writeable != 0,
                              executionDisable := flags & Executable == 0, cacheDisable := flags & Cacheable == 0))
    | (page & !0xfff)
  }

  /** Or-ing in bits above `mask` and below bit 52 keeps the bits of `mask` and the top bit. */
  lemma LowBitsKept(w: bv64, f: bv64, mask: bv64)
    requires f & mask == 0 && f < 0x10_0000_0000_0000
    ensures (w | f) & mask == w & mask && (w | f) >> 63 == w >> 63
  {
  }

  /** A decoded entry's flags depend only on the bits that or-ing in a page frame keeps. */
  lemma LargeFlagsFromLowBits(x: bv64, y: bv64)
    requires x & 0x1ffff == y & 0x1ffff && x >> 63 == y >> 63
    ensures var e, d := DecodeLarge(x), DecodeLarge(y);
      e.present == d.present && e.pageSize == d.pageSize && e.writeEnable == d.writeEnable
      && e.executionDisable == d.executionDisable && e.cacheDisable == d.cacheDisable
  {
    assert Test(x, 0) == Test(y, 0) && Test(x, 1) == Test(y, 1) && Test(x, 4) == Test(y, 4) && Test(x, 7) == Test(y, 7);
    assert Test(x, 63) == Test(y, 63);
  }

  lemma PageFlagsFromLowBits(x: bv64, y: bv64)
    requires x & 0xfff == y & 0xfff && x >> 63 == y >> 63
    ensures var e, d := DecodePage(x), DecodePage(y);
      e.present == d.present && e.writeEnable == d.writeEnable
      && e.executionDisable == d.executionDisable && e.cacheDisable == d.cacheDisable
  {
    assert Test(x, 0) == Test(y, 0);
    assert Test(x, 1) == Test(y, 1);
    assert Test(x, 4) == Test(y, 4);
    assert Test(x, 63) == Test(y, 63);
  }

  /**
   * Filled into an empty entry with a 2 MiB aligned page below 2^52, a
   * 2 MiB entry references exactly that page and sets no bit beyond the
   * ones `doMapping` sets.
   */
  lemma {:induction false} FillLargeIntoEmpty(flags: bv8, page: bv64)
    requires page < 0x10_0000_0000_0000 && page & 0x1f_ffff == 0
    ensures var e := DecodeLarge(FillLarge(0, flags, page));
      (e.address as bv64) << 21 == page && e.reserved == 0 && e.ignored == 0
      && !e.userAccessible && !e.writeThrough && !e.accessed && !e.dirty && !e.global
  {
    var w := EncodeLarge(LargePageEntry(true, flags & Writeable != 0, false, false, flags & Cacheable == 0, false,
                                        false, true, false, 0, 0, 0, flags & Executable == 0));
    FillLargeEmptyValue(flags, page);
    DecodeLargeOr(w, page);
  }

  /** The record `doMapping` fills into an empty PD entry. */
  lemma EmptyRecordLarge(flags: bv8)
    ensures DecodeLarge(0).(present := true, pageSize := true, writeEnable := flags & Writeable != 0,
                            executionDisable := flags & Executable == 0, cacheDisable := flags & Cacheable == 0)
         == LargePageEntry(true, flags & Writeable != 0, false, false, flags & Cacheable == 0, false,
                           false, true, false, 0, 0, 0, flags & Executable == 0)
  {
    DecodeZero();
  }

  lemma {:induction false} FillLargeEmptyValue(flags: bv8, page: bv64)
    requires page & 0x1f_ffff == 0
    ensures FillLarge(0, flags, page)
      == EncodeLarge(LargePageEntry(true, flags & Writeable != 0, false, false, flags & Cacheable == 0, false,
                                    false, true, false, 0, 0, 0, flags & Executable == 0)) | page
  {
    EmptyRecordLarge(flags);
    assert page & !0x1ffff == page;
  }

  /** An empty entry decodes to all flags clear and all fields zero, in every view. */
  lemma DecodeZero()
    ensures DecodeLarge(0) == LargePageEntry(false, false, false, false, false, false, false, false, false, 0, 0, 0, false)
    ensures DecodePage(0) == PageEntry(false, false, false, false, false, false, false, false, false, 0, 0, 0, false)
  {
  }

  /** Decoding a value whose bits 9-62 are clear, or-ed with an aligned page below 2^52. */
  lemma DecodeLargeOr(w: bv64, page: bv64)
    requires w & 0x7fff_ffff_ffff_fe00 == 0 && page < 0x10_0000_0000_0000 && page & 0x1f_ffff == 0
    ensures var e, d := DecodeLarge(w | page), DecodeLarge(w);
      (e.address as bv64) << 21 == page && e.reserved == 0 && e.ignored == 0
      && e.userAccessible == d.userAccessible && e.writeThrough == d.writeThrough && e.accessed == d.accessed
      && e.dirty == d.dirty && e.global == d.global
  {
  }

  /**
   * A filled 2 MiB entry is present, maps a large page and carries the
   * object's access flags, whatever the entry held before.
   */
  lemma {:induction false} FillLargeFlags(v: bv64, flags: bv8, page: bv64)
    requires page < 0x10_0000_0000_0000
    ensures var e := DecodeLarge(FillLarge(v, flags, page));
      e.present && e.pageSize && (e.writeEnable <==> flags & Writeable != 0)
      && (e.executionDisable <==> flags & Executable == 0) && (e.cacheDisable <==> flags & Cacheable == 0)
  {
    var e := DecodeLarge(v).(present := true, pageSize := true, writeEnable := flags & Writeable != 0,
                             executionDisable := flags & Executable == 0, cacheDisable := flags & Cacheable == 0);
    DecodeEncodeLarge(e);
    var w := EncodeLarge(e);
    var f := page & !0x1ffff;
    LowBitsKept(w, f, 0x1ffff);
    LargeFlagsFromLowBits(w | f, w);
  }

  /** The same for a 4 KiB entry, with a 4 KiB aligned page. */
  lemma {:induction false} FillPageIntoEmpty(flags: bv8, page: bv64)
    requires page < 0x10_0000_0000_0000 && page & 0xfff == 0
    ensures var e := DecodePage(FillPage(0, flags, page));
      (e.address as bv64) << 12 == page && e.reserved == 0 && e.ignored == 0
      && !e.userAccessible && !e.writeThrough && !e.accessed && !e.dirty && !e.global
  {
    var w := EncodePage(PageEntry(true, flags & Writeable != 0, false, false, flags & Cacheable == 0, false,
                                  false, false, false, 0, 0, 0, flags & Executable == 0));
    FillPageEmptyValue(flags, page);
    DecodePageOr(w, page);
  }

  /** The record `doMapping` fills into an empty PT entry. */
  lemma EmptyRecordPage(flags: bv8)
    ensures DecodePage(0).(present := true, writeEnable := flags & Writeable != 0,
                           executionDisable := flags & Executable == 0, cacheDisable := flags & Cacheable == 0)
         == PageEntry(true, flags & Writeable != 0, false, false, flags & Cacheable == 0, false,
                      false, false, false, 0, 0, 0, flags & Executable == 0)
  {
    DecodeZero();
  }

  lemma {:induction false} FillPageEmptyValue(flags: bv8, page: bv64)
    requires page & 0xfff == 0
    ensures FillPage(0, flags, page)
      == EncodePage(PageEntry(true, flags & Writeable != 0, false, false, flags & Cacheable == 0, false,
                              false, false, false, 0, 0, 0, flags & Executable == 0)) | page
  {
    EmptyRecordPage(flags);
    assert page & !0xfff == page;
  }

  lemma DecodePageOr(w: bv64, page: bv64)
    requires w & 0x7fff_ffff_ffff_fe00 == 0 && page < 0x10_0000_0000_0000 && page & 0xfff == 0
    ensures var e, d := DecodePage(w | page), DecodePage(w);
      (e.address as bv64) << 12 == page && e.reserved == 0 && e.ignored == 0
      && e.userAccessible == d.userAccessible && e.writeThrough == d.writeThrough && e.accessed == d.accessed
      && e.dirty == d.dirty && e.global == d.global
  {
  }

  /** A filled 4 KiB entry is present and carries the object's access flags, whatever it held before. */
  lemma {:induction false} FillPageFlags(v: bv64, flags: bv8, page: bv64)
    requires page < 0x10_0000_0000_0000
    ensures var e := DecodePage(FillPage(v, flags, page));
      e.present && (e.writeEnable <==> flags & Writeable != 0)
      && (e.executionDisable <==> flags & Executable == 0) && (e.cacheDisable <==> flags & Cacheable == 0)
  {
    var e := DecodePage(v).(present := true, writeEnable := flags & Writeable != 0,
                            executionDisable := flags & Executable == 0, cacheDisable := flags & Cacheable == 0);
    DecodeEncodePage(e);
    var w := EncodePage(e);
    var f := page & !0xfff;
    LowBitsKept(w, f, 0xfff);
    PageFlagsFromLowBits(w | f, w);
  }

  // ---------------------------------------------------------------------
  // doMapping

  /** Where `doMapping` maps page `i` of a region: `i` pages above its start, in 64-bit arithmetic. */
  function PageAddress(start: nat, ps: nat, i: nat): nat
  {
    WrapU64(start + i * ps)
  }

  /** The leaf value `doMapping` writes for `page` over the entry's old value `v`. */
  function Filled(v: bv64, o: MemoryObjects.ObjectState, page: nat): bv64
  {
    var frame := WrapU64(page) as bv64;
    if o.largePageAligned then FillLarge(v, o.flags, frame) else FillPage(v, o.flags, frame)
  }

  /**
   * One iteration of the loop of `doMapping`: walk to the entry of page
   * `i`, creating tables as needed, and fill it.
   */
  function MapStep(h: Hardware, root: Frame, start: nat, o: MemoryObjects.ObjectState, i: nat): (res: (Hardware, Outcome<()>))
    requires PhysAlloc.WellFormed(h.frames) && i < |o.pages|
    ensures PhysAlloc.WellFormed(res.0.frames)
  {
    var large := o.largePageAligned;
    var (h', entry) := MappingEntry(h, root, PageAddress(start, MemoryObjects.PageSizeFor(large), i), large, true);
    if entry.Hang? then (h', Hang)
    else
      var at := entry.value.value;
      (h'.(memory := Write(h'.memory, at.frame, at.index, Filled(Read(h'.memory, at), o, o.pages[i]))), Ok(()))
  }

  /**
   * The loop of `doMapping` from page `i` on; the first walk that hangs
   * ends it, with the state the hang left.
   */
  function MapPages(h: Hardware, root: Frame, start: nat, o: MemoryObjects.ObjectState, i: nat): (res: (Hardware, Outcome<()>))
    requires PhysAlloc.WellFormed(h.frames) && i <= |o.pages|
    ensures PhysAlloc.WellFormed(res.0.frames)
    decreases |o.pages| - i
  {
    if i == |o.pages| then (h, Ok(()))
    else
      var (h', r) := MapStep(h, root, start, o, i);
      if r.Hang? then (h', Hang) else MapPages(h', root, start, o, i + 1)
  }

  /** The loop from page `i` in terms of the step from `h` to `h'` that page `i` takes. */
  lemma MapPagesUnfold(h: Hardware, root: Frame, start: nat, o: MemoryObjects.ObjectState, i: nat, h': Hardware, r: Outcome<()>)
    requires PhysAlloc.WellFormed(h.frames) && i < |o.pages| && (h', r) == MapStep(h, root, start, o, i)
    ensures PhysAlloc.WellFormed(h'.frames)
    ensures MapPages(h, root, start, o, i) == if r.Hang? then (h', Hang) else MapPages(h', root, start, o, i + 1)
  {
  }

  /**
   * `doMapping`: hangs when the object's page list is not as long as the
   * region holds pages; otherwise maps the pages in order.
   */
  function DoMappingSpec(h: Hardware, root: Frame, r: Region): (res: (Hardware, Outcome<()>))
    requires PhysAlloc.WellFormed(h.frames) && r.mapped.Some?
    ensures PhysAlloc.WellFormed(res.0.frames)
  {
    var o := r.mapped.value;
    if |o.pages| != r.size / MemoryObjects.PageSizeFor(o.largePageAligned) then (h, Hang)
    else MapPages(h, root, r.address, o, 0)
  }

  /**
   * An object whose size is its page count times its page size, as every
   * object constructor makes it, passes the count check: mapping its
   * region is the page loop.
   */
  lemma {:induction false} ObjectRegionPassesCount(h: Hardware, root: Frame, o: MemoryObjects.ObjectState, address: nat)
    requires PhysAlloc.WellFormed(h.frames)
    requires o.size == |o.pages| * MemoryObjects.PageSizeFor(o.largePageAligned)
    ensures DoMappingSpec(h, root, Region(Allocated, Some(o), o.size, address)) == MapPages(h, root, address, o, 0)
  {
    var n := |o.pages|;
    if o.largePageAligned {
      assert (n * PhysAlloc.LargePageSize) / PhysAlloc.LargePageSize == n;
    } else {
      assert (n * PhysAlloc.PageSize) / PhysAlloc.PageSize == n;
    }
  }

  /** A region whose size does not hold exactly the object's pages hangs before anything changes. */
  lemma {:induction false} CountMismatchHangs(h: Hardware, root: Frame, r: Region)
    requires PhysAlloc.WellFormed(h.frames) && r.mapped.Some?
    requires |r.mapped.value.pages| * MemoryObjects.PageSizeFor(r.mapped.value.largePageAligned) > r.size
    ensures DoMappingSpec(h, root, r) == (h, Hang)
  {
    var o := r.mapped.value;
    var ps := MemoryObjects.PageSizeFor(o.largePageAligned);
    assert r.size / ps < |o.pages| by {
      assert (r.size / ps) * ps <= r.size;
    }
  }

  /**
   * Where the tables for page `i` already exist, the step allocates
   * nothing and writes only that page's entry, which the lookup still
   * finds afterwards and which holds the filled value.
   */
  lemma {:induction false} MapPageThroughPresentTables(h: Hardware, root: Frame, start: nat, o: MemoryObjects.ObjectState, i: nat)
    requires PhysAlloc.WellFormed(h.frames) && i < |o.pages|
    requires var a := PageAddress(start, MemoryObjects.PageSizeFor(o.largePageAligned), i);
      Lookup(h.memory, root, a, o.largePageAligned).Some?
    ensures var a := PageAddress(start, MemoryObjects.PageSizeFor(o.largePageAligned), i);
      var e := Lookup(h.memory, root, a, o.largePageAligned).value;
      ValidRef(e)
      && MapStep(h, root, start, o, i) == (h.(memory := Write(h.memory, e.frame, e.index, Filled(Read(h.memory, e), o, o.pages[i]))), Ok(()))
  {
    var a := PageAddress(start, MemoryObjects.PageSizeFor(o.largePageAligned), i);
    PresentWalkAgrees(h, root, a, o.largePageAligned);
  }

  // ---------------------------------------------------------------------
  // mapObject

  /** What an address space keeps: the PML4 frame (from `cr3Value`) and the allocation list. */
  datatype SpaceState = SpaceState(cr3: nat, regions: seq<Region>)

  function Root(s: SpaceState): Frame { FrameOf(s.cr3) }

  /**
   * `mapObject`: place the object in the allocation list and map its
   * region; `None` (a null pointer) when it cannot be placed, in which
   * case nothing changes. The list keeps the new regions even when the
   * mapping hangs.
   */
  function MapObjectSpec(s: SpaceState, h: Hardware, o: MemoryObjects.ObjectState): (res: (SpaceState, Hardware, Outcome<Option<nat>>))
    requires PhysAlloc.WellFormed(h.frames)
    ensures PhysAlloc.WellFormed(res.1.frames)
  {
    var p := Place(s.regions, o);
    if p.None? then (s, h, Ok(None))
    else
      PlaceHoldsObject(s.regions, o, true);
      var (h', r) := DoMappingSpec(h, Root(s), p.value.regions[p.value.index]);
      (s.(regions := p.value.regions), h', if r.Hang? then Hang else Ok(Some(p.value.address)))
  }

  /** `mapObject` in terms of the step `doMapping` takes from `h` to `h'` on the object's new region. */
  lemma MapObjectSteps(s: SpaceState, h: Hardware, o: MemoryObjects.ObjectState, h': Hardware, m: Outcome<()>)
    requires PhysAlloc.WellFormed(h.frames) && Place(s.regions, o).Some?
    requires (h', m) == DoMappingSpec(h, Root(s), Region(Allocated, Some(o), o.size, Place(s.regions, o).value.address))
    ensures var p := Place(s.regions, o).value;
      MapObjectSpec(s, h, o) == (s.(regions := p.regions), h', if m.Hang? then Hang else Ok(Some(p.address)))
  {
    PlaceHoldsObject(s.regions, o, true);
  }

  /**
   * `mapObject` either returns a null pointer and changes nothing, exactly
   * when the object has a preferred address or no Free region fits it, or
   * places the object in the allocation list, which keeps tiling the
   * space's range with every Free region ending on a 2 MiB boundary, at
   * the returned address (2 MiB aligned for large pages), and maps its
   * region. On such a list the source's wrapping subtraction never wraps.
   */
  lemma {:induction false} MapObjectPlaces(s: SpaceState, h: Hardware, o: MemoryObjects.ObjectState, lo: nat, hi: nat)
    requires PhysAlloc.WellFormed(h.frames) && Tiles(s.regions, lo, hi) && EndsAligned(s.regions) && hi < U64Modulus
    ensures var (s', h', r) := MapObjectSpec(s, h, o);
      ((r == Ok(None)) <==> o.preferredAddress != 0 || forall j :: 0 <= j < |s.regions| ==> !Fits(s.regions[j], o, false))
      && (r == Ok(None) ==> s' == s && h' == h)
      && s'.cr3 == s.cr3 && Tiles(s'.regions, lo, hi) && EndsAligned(s'.regions)
      && (r.Ok? && r.value.Some? ==>
            var p := Place(s.regions, o).value;
            r.value.value == p.address && s'.regions[p.index] == Region(Allocated, Some(o), o.size, p.address)
            && (o.largePageAligned ==> p.address % PhysAlloc.LargePageSize == 0))
  {
    AlignedEndsNotShort(s.regions, o);
    PlaceAgrees(s.regions, lo, hi, o);
    FixedPlaceFirstFit(s.regions, o);
    if FixedPlace(s.regions, o).Some? {
      FixedPlaceKeepsTiling(s.regions, lo, hi, o);
      FixedPlaceAligns(s.regions, o);
      FixedPlaceKeepsEndsAligned(s.regions, o);
    }
  }

  /** For an object sized by its pages, `mapObject` hangs only when a walk of the page loop hangs. */
  lemma {:induction false} MapObjectMapsPages(s: SpaceState, h: Hardware, o: MemoryObjects.ObjectState)
    requires PhysAlloc.WellFormed(h.frames) && Place(s.regions, o).Some?
    requires o.size == |o.pages| * MemoryObjects.PageSizeFor(o.largePageAligned)
    ensures var p := Place(s.regions, o).value;
      var (s', h', r) := MapObjectSpec(s, h, o);
      (h', r.Ok?) == (MapPages(h, Root(s), p.address, o, 0).0, MapPages(h, Root(s), p.address, o, 0).1.Ok?)
  {
    PlaceHoldsObject(s.regions, o, true);
    var p := Place(s.regions, o).value;
    ObjectRegionPassesCount(h, Root(s), o, p.address);
  }

  // ---------------------------------------------------------------------
  // Creating address spaces

  /** The first PML4 entry of the higher half; entries 256 to 511 map the kernel. */
  const KernelHalf: nat := 256

  /**
   * The copy loop of the user-space constructor from entry `i` on: every
   * present PML4 entry of the kernel's table `from` is copied into `to`.
   */
  function CopyKernelHalf(m: Memory, from: Frame, to: Frame, i: nat): (m': Memory)
    requires KernelHalf <= i <= TableEntries
    decreases TableEntries - i
  {
    if i == TableEntries then m
    else
      var v := Word(m, from, i);
      CopyKernelHalf(if Test(v, 0) then Write(m, to, i, v) else m, from, to, i + 1)
  }

  /**
   * Copying into a table other than the kernel's sets each entry from `i`
   * on to the kernel's entry where that is present and leaves every other
   * word of memory as it was.
   */
  lemma {:induction false} CopyKernelHalfContents(m: Memory, from: Frame, to: Frame, i: nat)
    requires KernelHalf <= i <= TableEntries && from != to
    ensures var m' := CopyKernelHalf(m, from, to, i);
      (forall j :: i <= j < TableEntries ==>
         Word(m', to, j) == if Test(Word(m, from, j), 0) then Word(m, from, j) else Word(m, to, j))
      && (forall g, j :: 0 <= j < TableEntries && (g != to || j < i) ==> Word(m', g, j) == Word(m, g, j))
    decreases TableEntries - i
  {
    if i < TableEntries {
      var v := Word(m, from, i);
      var n := if Test(v, 0) then Write(m, to, i, v) else m;
      CopyKernelHalfContents(n, from, to, i + 1);
      assert forall j :: i < j < TableEntries ==> Word(n, from, j) == Word(m, from, j) && Word(n, to, j) == Word(m, to, j);
    }
  }

  /**
   * The kernel-space constructor: the PML4 is the one `cr3` names; the
   * first kernel entry gets execution disable set, and the allocation
   * list covers the kernel's range.
   */
  function NewKernelSpace(m: Memory, cr3: nat): (res: (Memory, SpaceState))
  {
    var root := FrameOf(cr3);
    var v := Word(m, root, KernelHalf);
    (Write(m, root, KernelHalf, EncodeTable(DecodeTable(v).(executionDisable := true))),
     SpaceState(cr3, InitialRegions(KernelStart, KernelEnd)))
  }

  /**
   * The kernel-space constructor sets only the execution-disable bit of
   * PML4 entry 256, every other word of memory and every other bit of
   * that entry stay, and the list is one Free region tiling the kernel's
   * range.
   */
  lemma {:induction false} NewKernelSpaceMarksNoExecute(m: Memory, cr3: nat)
    ensures var (m', s) := NewKernelSpace(m, cr3);
      var root := FrameOf(cr3);
      Word(m', root, KernelHalf) == Word(m, root, KernelHalf) | (1 << 63)
      && DecodeTable(Word(m', root, KernelHalf)) == DecodeTable(Word(m, root, KernelHalf)).(executionDisable := true)
      && (forall g, j :: 0 <= j < TableEntries && (g != root || j != KernelHalf) ==> Word(m', g, j) == Word(m, g, j))
      && s.cr3 == cr3 && Tiles(s.regions, KernelStart, KernelEnd) && |s.regions| == 1 && s.regions[0].kind == Free
  {
    var root := FrameOf(cr3);
    var v := Word(m, root, KernelHalf);
    var e := DecodeTable(v).(executionDisable := true);
    DecodeEncodeTable(e);
    SetExecutionDisable(v);
  }

  /** Setting the execution-disable field of a table entry sets bit 63 of its value. */
  lemma {:induction false} SetExecutionDisable(v: bv64)
    ensures EncodeTable(DecodeTable(v).(executionDisable := true)) == v | (1 << 63)
  {
    EncodeDecodeTable(v);
    EncodeDecodeTable(v | (1 << 63));
    assert DecodeTable(v | (1 << 63)) == DecodeTable(v).(executionDisable := true);
  }

  /**
   * The user-space constructor: a zeroed page for the PML4 (hanging when
   * the allocator does), into which the kernel's present higher-half
   * entries are copied, and an allocation list covering the user range.
   */
  function NewUserSpace(kernel: SpaceState, h: Hardware): (res: (Hardware, Outcome<SpaceState>))
    requires PhysAlloc.WellFormed(h.frames)
    ensures PhysAlloc.WellFormed(res.0.frames)
  {
    var (h', page) := AllocateZeroed(h);
    if page.Hang? then (h', Hang)
    else
      var m := CopyKernelHalf(h'.memory, Root(kernel), FrameOf(page.value), KernelHalf);
      (h'.(memory := m), Ok(SpaceState(page.value, InitialRegions(UserStart, UserEnd))))
  }

  /** The user-space constructor in terms of the step `allocateZeroedPage` takes from `h` to `h1`. */
  lemma NewUserSpaceSteps(kernel: SpaceState, h: Hardware, h1: Hardware, page: Outcome<nat>)
    requires PhysAlloc.WellFormed(h.frames) && (h1, page) == AllocateZeroed(h)
    ensures NewUserSpace(kernel, h)
            == if page.Hang? then (h1, Hang)
               else (h1.(memory := CopyKernelHalf(h1.memory, Root(kernel), FrameOf(page.value), KernelHalf)),
                     Ok(SpaceState(page.value, InitialRegions(UserStart, UserEnd))))
  {
  }

  /** Copying the kernel half into an empty table leaves the lower half empty. */
  lemma {:induction false} CopyIntoEmptyTable(m: Memory, from: Frame, to: Frame)
    requires from != to && Table(m, to) == ZeroTable()
    ensures var m' := CopyKernelHalf(m, from, to, KernelHalf);
      (forall j :: 0 <= j < TableEntries ==>
         Word(m', to, j) == if j >= KernelHalf && Test(Word(m, from, j), 0) then Word(m, from, j) else 0)
      && (forall g, j :: 0 <= j < TableEntries && g != to ==> Word(m', g, j) == Word(m, g, j))
  {
    CopyKernelHalfContents(m, from, to, KernelHalf);
  }

  /**
   * A new user space's PML4 is empty in the lower half and shares the
   * kernel's present entries in the higher half; no other table changes,
   * and its list is one Free region tiling the user range.
   */
  lemma {:induction false} NewUserSpaceSharesKernel(kernel: SpaceState, h: Hardware)
    requires PhysAlloc.WellFormed(h.frames)
    ensures var (h', r) := NewUserSpace(kernel, h);
      r.Ok? && Root(r.value) != Root(kernel) ==>
        var s, k := r.value, Root(kernel);
        (forall j :: 0 <= j < TableEntries ==>
           Word(h'.memory, Root(s), j)
           == if j >= KernelHalf && Test(Word(h.memory, k, j), 0) then Word(h.memory, k, j) else 0)
        && (forall g, j :: 0 <= j < TableEntries && g != Root(s) ==> Word(h'.memory, g, j) == Word(h.memory, g, j))
        && Tiles(s.regions, UserStart, UserEnd) && |s.regions| == 1 && s.regions[0].kind == Free
  {
    var (h1, page) := AllocateZeroed(h);
    if page.Ok? {
      var to := FrameOf(page.value);
      if to != Root(kernel) {
        CopyIntoEmptyTable(h1.memory, Root(kernel), to);
      }
    }
  }

  // ---------------------------------------------------------------------
  // The objects

  /** The physical memory holding the paging structures, reached through the direct map. */
  class PhysicalMemory {
    var tables: Memory

    constructor (m: Memory)
      ensures tables == m
    {
      tables := m;
    }
  }

  /** `VirtualAddressSpace`: the PML4 (through `cr3Value`) and the allocation list. */
  class AddressSpace {
    var cr3Value: nat
    var allocationList: seq<Region>
    /** The range the allocation list covers. */
    ghost var low: nat
    ghost var high: nat

    ghost function View(): SpaceState
      reads this
    {
      SpaceState(cr3Value, allocationList)
    }

    /**
     * The allocation list tiles the space's range, so no two regions
     * overlap, and every Free region ends on a 2 MiB boundary.
     */
    ghost predicate Valid()
      reads this
    {
      Tiles(allocationList, low, high) && EndsAligned(allocationList) && high < U64Modulus
    }

    /** The kernel space, over the PML4 that `cr3` (the CPU's CR3 register) names. */
    constructor Kernel(cr3: nat, mem: PhysicalMemory)
      modifies mem
      ensures Valid() && low == KernelStart && high == KernelEnd
      ensures (mem.tables, View()) == NewKernelSpace(old(mem.tables), cr3)
    {
      var root := FrameOf(cr3);
      var v := Word(mem.tables, root, KernelHalf);
      mem.tables := Write(mem.tables, root, KernelHalf, EncodeTable(DecodeTable(v).(executionDisable := true)));
      cr3Value := cr3;
      allocationList := InitialRegions(KernelStart, KernelEnd);
      low, high := KernelStart, KernelEnd;
    }

    /** A user space whose PML4 is the page `cr3`, with an empty allocation list over the user range. */
    constructor User(cr3: nat)
      ensures Valid() && low == UserStart && high == UserEnd
      ensures View() == SpaceState(cr3, InitialRegions(UserStart, UserEnd))
    {
      cr3Value := cr3;
      allocationList := InitialRegions(UserStart, UserEnd);
      low, high := UserStart, UserEnd;
    }

    /**
     * The user-space constructor: a zeroed PML4 into which the kernel's
     * present higher-half entries are copied.
     */
    static method CreateUser(kernel: AddressSpace, mem: PhysicalMemory, phys: PhysAlloc.PhysicalAllocator)
      returns (r: Outcome<AddressSpace>)
      requires phys.Valid()
      modifies mem, phys, phys.briefBitmap, phys.largePageBitmap
      ensures phys.Valid() && phys.briefBitmap == old(phys.briefBitmap) && phys.largePageBitmap == old(phys.largePageBitmap)
      ensures r.Ok? ==> fresh(r.value) && r.value.Valid() && r.value.low == UserStart && r.value.high == UserEnd
      ensures (Hardware(mem.tables, phys.View()), if r.Ok? then Ok(r.value.View()) else Hang)
              == NewUserSpace(kernel.View(), old(Hardware(mem.tables, phys.View())))
    {
      ghost var h0 := Hardware(mem.tables, phys.View());
      var page := AllocateZeroedPage(mem, phys);
      NewUserSpaceSteps(kernel.View(), h0, Hardware(mem.tables, phys.View()), page);
      if page.Hang? {
        return Hang;
      }
      CopyKernelEntries(mem, FrameOf(kernel.cr3Value), FrameOf(page.value));
      var space := new AddressSpace.User(page.value);
      return Ok(space);
    }

    /** The copy loop of the user-space constructor over PML4 entries 256 to 511. */
    static method CopyKernelEntries(mem: PhysicalMemory, from: Frame, to: Frame)
      modifies mem
      ensures mem.tables == CopyKernelHalf(old(mem.tables), from, to, KernelHalf)
    {
      var i := KernelHalf;
      while i < TableEntries
        invariant KernelHalf <= i <= TableEntries
        invariant CopyKernelHalf(mem.tables, from, to, i) == CopyKernelHalf(old(mem.tables), from, to, KernelHalf)
      {
        var v := Word(mem.tables, from, i);
        if Test(v, 0) {
          mem.tables := Write(mem.tables, to, i, v);
        }
        i := i + 1;
      }
    }

    /** `getCR3`. */
    method GetCR3() returns (c: nat)
      ensures c == cr3Value
    {
      return cr3Value;
    }

    /** `allocateZeroedPage`: a kernel page from the allocator, cleared word by word. */
    static method AllocateZeroedPage(mem: PhysicalMemory, phys: PhysAlloc.PhysicalAllocator) returns (r: Outcome<nat>)
      requires phys.Valid()
      modifies mem, phys, phys.briefBitmap, phys.largePageBitmap
      ensures phys.Valid() && phys.briefBitmap == old(phys.briefBitmap) && phys.largePageBitmap == old(phys.largePageBitmap)
      ensures (Hardware(mem.tables, phys.View()), r) == AllocateZeroed(old(Hardware(mem.tables, phys.View())))
    {
      ghost var h0 := Hardware(mem.tables, phys.View());
      r := phys.AllocatePage(KernelPID, false);
      AllocateZeroedSteps(h0, phys.View(), r);
      if r.Ok? {
        ZeroPage(mem, r.value);
      }
    }

    /** The clearing loop of `allocateZeroedPage`: the 512 words of the page become zero. */
    static method ZeroPage(mem: PhysicalMemory, page: nat)
      modifies mem
      ensures mem.tables == Zeroed(old(mem.tables), page)
    {
      var f := FrameOf(page);
      ghost var m0 := mem.tables;
      var i := 0;
      while i < TableEntries
        invariant i <= TableEntries
        invariant (i == 0 && mem.tables == m0)
                  || (f in mem.tables && |mem.tables[f]| == TableEntries && mem.tables == m0[f := mem.tables[f]]
                      && forall j :: 0 <= j < i ==> mem.tables[f][j] == 0)
      {
        mem.tables := Write(mem.tables, f, i, 0);
        i := i + 1;
      }
      assert mem.tables[f] == ZeroTable();
    }

    /** One level of `getMappingEntry`: follow the entry `at`, creating the next table if asked to. */
    static method NextTable(mem: PhysicalMemory, phys: PhysAlloc.PhysicalAllocator, at: EntryRef, create: bool)
      returns (r: Outcome<Option<Frame>>)
      requires phys.Valid() && ValidRef(at)
      modifies mem, phys, phys.briefBitmap, phys.largePageBitmap
      ensures phys.Valid() && phys.briefBitmap == old(phys.briefBitmap) && phys.largePageBitmap == old(phys.largePageBitmap)
      ensures (Hardware(mem.tables, phys.View()), r) == Descend(old(Hardware(mem.tables, phys.View())), at, create)
    {
      var v := Read(mem.tables, at);
      if Test(v, 0) {
        return Ok(Some(Frame(DecodeTable(v).address)));
      }
      if !create {
        return Ok(None);
      }
      var page := AllocateZeroedPage(mem, phys);
      if page.Hang? {
        return Hang;
      }
      var link := LinkEntry(Read(mem.tables, at), FrameOf(page.value));
      mem.tables := Write(mem.tables, at.frame, at.index, link);
      return Ok(Some(FrameOf(page.value)));
    }

    /** `getMappingEntry`: the entry that maps `a`, walking (and with `create`, building) the tables. */
    method GetMappingEntry(mem: PhysicalMemory, phys: PhysAlloc.PhysicalAllocator, a: nat, large: bool, create: bool)
      returns (r: Outcome<Option<EntryRef>>)
      requires phys.Valid()
      modifies mem, phys, phys.briefBitmap, phys.largePageBitmap
      ensures phys.Valid() && phys.briefBitmap == old(phys.briefBitmap) && phys.largePageBitmap == old(phys.largePageBitmap)
      ensures (Hardware(mem.tables, phys.View()), r)
              == MappingEntry(old(Hardware(mem.tables, phys.View())), Root(View()), a, large, create)
    {
      var pdpt := NextTable(mem, phys, EntryRef(FrameOf(cr3Value), PML4Index(a)), create);
      if pdpt.Hang? {
        return Hang;
      } else if pdpt.value.None? {
        return Ok(None);
      }
      var pd := NextTable(mem, phys, EntryRef(pdpt.value.value, PDPTIndex(a)), create);
      if pd.Hang? {
        return Hang;
      } else if pd.value.None? {
        return Ok(None);
      }
      var pdEntry := EntryRef(pd.value.value, PDIndex(a));
      if large {
        return Ok(Some(pdEntry));
      }
      var pt := NextTable(mem, phys, pdEntry, create);
      if pt.Hang? {
        return Hang;
      } else if pt.value.None? {
        return Ok(None);
      }
      return Ok(Some(EntryRef(pt.value.value, PTIndex(a))));
    }

    /** `doMapping`: map the pages of the region's object at the region's address. */
    method DoMapping(mem: PhysicalMemory, phys: PhysAlloc.PhysicalAllocator, region: Region) returns (r: Outcome<()>)
      requires phys.Valid() && region.mapped.Some?
      modifies mem, phys, phys.briefBitmap, phys.largePageBitmap
      ensures phys.Valid() && phys.briefBitmap == old(phys.briefBitmap) && phys.largePageBitmap == old(phys.largePageBitmap)
      ensures (Hardware(mem.tables, phys.View()), r)
              == DoMappingSpec(old(Hardware(mem.tables, phys.View())), Root(View()), region)
    {
      var o := region.mapped.value;
      var large := o.largePageAligned;
      var pageSize := MemoryObjects.PageSizeFor(large);
      var pageCount := region.size / pageSize;
      if |o.pages| != pageCount {
        return Hang;
      }
      r := MapPagesFrom(mem, phys, region.address, o);
    }

    /** The loop of `doMapping` over the object's pages. */
    method MapPagesFrom(mem: PhysicalMemory, phys: PhysAlloc.PhysicalAllocator, start: nat, o: MemoryObjects.ObjectState)
      returns (r: Outcome<()>)
      requires phys.Valid()
      modifies mem, phys, phys.briefBitmap, phys.largePageBitmap
      ensures phys.Valid() && phys.briefBitmap == old(phys.briefBitmap) && phys.largePageBitmap == old(phys.largePageBitmap)
      ensures (Hardware(mem.tables, phys.View()), r) == MapPages(old(Hardware(mem.tables, phys.View())), Root(View()), start, o, 0)
    {
      ghost var result := MapPages(Hardware(mem.tables, phys.View()), Root(View()), start, o, 0);
      var i := 0;
      while i < |o.pages|
        invariant i <= |o.pages| && phys.Valid()
        invariant phys.briefBitmap == old(phys.briefBitmap) && phys.largePageBitmap == old(phys.largePageBitmap)
        invariant MapPages(Hardware(mem.tables, phys.View()), Root(View()), start, o, i) == result
      {
        ghost var before := Hardware(mem.tables, phys.View());
        r := MapPageAt(mem, phys, start, o, i);
        MapPagesUnfold(before, Root(View()), start, o, i, Hardware(mem.tables, phys.View()), r);
        if r.Hang? {
          return;
        }
        i := i + 1;
      }
      return Ok(());
    }

    /** One iteration of the loop of `doMapping`: walk to the entry of page `i` and fill it. */
    method MapPageAt(mem: PhysicalMemory, phys: PhysAlloc.PhysicalAllocator, start: nat, o: MemoryObjects.ObjectState, i: nat)
      returns (r: Outcome<()>)
      requires phys.Valid() && i < |o.pages|
      modifies mem, phys, phys.briefBitmap, phys.largePageBitmap
      ensures phys.Valid() && phys.briefBitmap == old(phys.briefBitmap) && phys.largePageBitmap == old(phys.largePageBitmap)
      ensures (Hardware(mem.tables, phys.View()), r) == MapStep(old(Hardware(mem.tables, phys.View())), Root(View()), start, o, i)
    {
      var large := o.largePageAligned;
      var entry := GetMappingEntry(mem, phys, PageAddress(start, MemoryObjects.PageSizeFor(large), i), large, true);
      if entry.Hang? {
        return Hang;
      }
      var at := entry.value.value;
      mem.tables := Write(mem.tables, at.frame, at.index, Filled(Read(mem.tables, at), o, o.pages[i]));
      return Ok(());
    }

    /**
     * The split of `mapObject` at region `i`, the first that fits, in the
     * source's 64-bit arithmetic: the region becomes the object's, the
     * rest after it and the alignment gap before it are inserted as Free
     * regions.
     */
    static method SplitRegion(regions: seq<Region>, i: nat, o: MemoryObjects.ObjectState)
      returns (list: seq<Region>, index: nat, start: nat)
      requires o.preferredAddress == 0 && i < |regions| && Fits(regions[i], o, true)
      requires forall j :: 0 <= j < i ==> !Fits(regions[j], o, true)
      ensures Place(regions, o) == Some(Placement(list, index, start))
    {
      PlaceAt(regions, o, true, i);
      var current := regions[i];
      start := Start(current, o, true);
      var available := Available(current, o, true);
      list := regions[i := Region(Allocated, Some(o), o.size, start)];
      assert list == regions[i := Allocation(current, o, true)];
      if available > o.size {
        list := LinkedList.InsertedAt(list, Region(Free, None, available - o.size, WrapU64(start + o.size)), i + 1);
      }
      assert list == InsertOptional(regions[i := Allocation(current, o, true)], RestPart(current, o, true), i + 1);
      index := i;
      if NeedsAlignment(current, o) {
        list := LinkedList.InsertedAt(list, Region(Free, None, Gap(current), current.address), i);
        index := i + 1;
      }
      assert index == i + |GapPart(current, o)|;
    }

    /** `mapObject`: place the object in the first Free region that holds it and map it there. */
    method MapObject(mem: PhysicalMemory, phys: PhysAlloc.PhysicalAllocator, vmObject: MemoryObjects.MemoryObject)
      returns (r: Outcome<Option<nat>>)
      requires Valid() && phys.Valid()
      modifies this, mem, phys, phys.briefBitmap, phys.largePageBitmap
      ensures Valid() && low == old(low) && high == old(high)
      ensures phys.Valid() && phys.briefBitmap == old(phys.briefBitmap) && phys.largePageBitmap == old(phys.largePageBitmap)
      ensures (View(), Hardware(mem.tables, phys.View()), r)
              == MapObjectSpec(old(View()), old(Hardware(mem.tables, phys.View())), old(vmObject.View()))
    {
      var o := MemoryObjects.ObjectState(vmObject.kind, vmObject.ObjectPages(), vmObject.ObjectFlags(), vmObject.ObjectSize(),
                                         vmObject.ObjectAddress(), vmObject.LargePageAligned());
      assert o == vmObject.View();
      ghost var s0, h0 := View(), Hardware(mem.tables, phys.View());
      if o.preferredAddress != 0 {
        return Ok(None);
      }
      var i := 0;
      while i < |allocationList| && !Fits(allocationList[i], o, true)
        invariant i <= |allocationList|
        invariant forall j :: 0 <= j < i ==> !Fits(allocationList[j], o, true)
      {
        i := i + 1;
      }
      FirstFitIs(allocationList, o, true, i);
      if i == |allocationList| {
        assert Place(allocationList, o).None?;
        return Ok(None);
      }
      ghost var before := allocationList;
      var list, index, start := SplitRegion(allocationList, i, o);
      PlaceKeepsList(before, low, high, o);
      PlaceHoldsObject(before, o, true);
      assert list[index] == Region(Allocated, Some(o), o.size, start);
      allocationList := list;
      var mapped := DoMapping(mem, phys, list[index]);
      MapObjectSteps(s0, h0, o, Hardware(mem.tables, phys.View()), mapped);
      if mapped.Hang? {
        return Hang;
      }
      return Ok(Some(start));
    }
  }
}
