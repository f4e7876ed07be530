/**
 * The physical page allocator.
 *
 * Physical memory below 16 GiB is divided into 8192 large (2 MiB) pages.
 * A brief bitmap keeps a 2-bit type per large page, four to a byte; a large
 * page bitmap keeps an owner/flags entry per large page; and a large page
 * that is carved into 4 KiB pages keeps, in its own first 4 KiB frame, a
 * count of free small pages and one entry per remaining frame (511).
 *
 * The pure functions below give the allocator's transitions on a snapshot
 * of that state (`Frames`); the class holds the state in arrays and fields
 * like the source and its methods are proved to perform those transitions.
 */
module PhysAlloc {
  import opened Machine
  import BootBoot

  const PageSize: nat := 4096
  const LargePageSize: nat := 0x20_0000
  const BriefBitmapPages: nat := 1
  const LargePageBitmapPages: nat := 16
  const MaxLargePage: nat := 8192
  const ReservedProcessID: nat := 0xff_ffff
  /** Bytes the two bitmaps take from the first suitable memory-map region. */
  const NeededSize: nat := (BriefBitmapPages + LargePageBitmapPages) * PageSize
  const BriefBytes: nat := BriefBitmapPages * PageSize
  /** Small frames tracked by the bitmap in a large page's first frame. */
  const SmallEntries: nat := 511
  /** Memory below 1 MiB is never handed out. */
  const LowMemoryLimit: nat := 0x10_0000
  /** The 24-bit process-id field of an allocation entry. */
  const ProcessIDModulus: nat := 0x100_0000

  const Allocated: bv8 := 0x01
  const Reserved: bv8 := 0x02

  datatype BriefType = FullyFree | FullySingleAllocated | PartiallyFree | FullyPageAllocated

  /** The 2-bit encoding of a brief type. */
  function BriefCode(t: BriefType): (c: bv8)
    ensures c < 4 && BriefOfCode(c) == t
  {
    match t
    case FullyFree => 0
    case FullySingleAllocated => 1
    case PartiallyFree => 2
    case FullyPageAllocated => 3
  }

  function BriefOfCode(c: bv8): BriefType
    requires c < 4
  {
    if c == 0 then FullyFree
    else if c == 1 then FullySingleAllocated
    else if c == 2 then PartiallyFree
    else FullyPageAllocated
  }

  /** A large page whose first frame holds a small-page bitmap. */
  predicate Subdivided(t: BriefType) { t == PartiallyFree || t == FullyPageAllocated }

  /** A 24-bit owner and 8 bits of flags. */
  datatype AllocationEntry = AllocationEntry(processID: nat, flags: bv8)

  const FreeEntry := AllocationEntry(0, 0)

  /** The entry the source stores: the owner is cut to the 24-bit field. */
  function Entry(pid: nat, flags: bv8): (e: AllocationEntry)
    ensures e.processID < ProcessIDModulus && e.flags == flags
    ensures pid < ProcessIDModulus ==> e.processID == pid
    ensures (pid - e.processID) % ProcessIDModulus == 0
  {
    AllocationEntry(pid % ProcessIDModulus, flags)
  }

  predicate IsAllocated(e: AllocationEntry) { e.flags & Allocated != 0 }

  /** The bitmap in the first frame of a subdivided large page. */
  datatype SmallBitmap = SmallBitmap(freePages: nat, entries: seq<AllocationEntry>)

  /** A snapshot of all allocator state. */
  datatype Frames = Frames(brief: seq<bv8>, large: seq<AllocationEntry>,
                           small: map<nat, SmallBitmap>, freePages: nat, freeLarge: nat)

  // ---------------------------------------------------------------------
  // Brief bitmap: four 2-bit fields per byte

  /** The 2-bit field number `slot` of a byte. */
  function GetField(b: bv8, slot: nat): (c: bv8)
    requires slot < 4
    ensures c < 4
  {
    if slot == 0 then b & 3
    else if slot == 1 then (b >> 2) & 3
    else if slot == 2 then (b >> 4) & 3
    else (b >> 6) & 3
  }

  /** Clears field `slot` and stores `c` in it; the other three fields keep their value. */
  function SetField(b: bv8, slot: nat, c: bv8): (r: bv8)
    requires slot < 4 && c < 4
    ensures GetField(r, slot) == c
    ensures forall other :: 0 <= other < 4 && other != slot ==> GetField(r, other) == GetField(b, other)
  {
    if slot == 0 then (b & 0xfc) | c
    else if slot == 1 then (b & 0xf3) | (c << 2)
    else if slot == 2 then (b & 0xcf) | (c << 4)
    else (b & 0x3f) | (c << 6)
  }

  function BriefAt(brief: seq<bv8>, page: nat): BriefType
    requires |brief| == BriefBytes && page < MaxLargePage
  {
    BriefOfCode(GetField(brief[page / 4], page % 4))
  }

  /** The brief bitmap after setting one large page's type. */
  function SetBrief(brief: seq<bv8>, page: nat, t: BriefType): (r: seq<bv8>)
    requires |brief| == BriefBytes && page < MaxLargePage
    ensures |r| == BriefBytes && BriefAt(r, page) == t
    ensures forall q :: 0 <= q < MaxLargePage && q != page ==> BriefAt(r, q) == BriefAt(brief, q)
    ensures forall n :: 0 <= n < |brief| && n != page / 4 ==> r[n] == brief[n]
  {
    var r := brief[page / 4 := SetField(brief[page / 4], page % 4, BriefCode(t))];
    assert forall q :: 0 <= q < MaxLargePage && q != page && q / 4 == page / 4 ==> q % 4 != page % 4;
    r
  }

  /** Setting a field back to the value it had undoes the first write. */
  lemma SetFieldRestore(b: bv8, slot: nat, c: bv8)
    requires slot < 4 && c < 4
    ensures SetField(SetField(b, slot, c), slot, GetField(b, slot)) == b
  {
  }

  /** Setting a large page's type back to the type it had gives the original bitmap. */
  lemma {:induction false} SetBriefRestore(brief: seq<bv8>, page: nat, t: BriefType)
    requires |brief| == BriefBytes && page < MaxLargePage
    ensures SetBrief(SetBrief(brief, page, t), page, BriefAt(brief, page)) == brief
  {
    var x := brief[page / 4];
    var c := GetField(x, page % 4);
    assert BriefCode(BriefOfCode(c)) == c;
    SetFieldRestore(x, page % 4, BriefCode(t));
  }

  /** The lowest large page at or above `lo` of type `t`, or `MaxLargePage` if there is none. */
  function FirstBrief(brief: seq<bv8>, lo: nat, t: BriefType): (p: nat)
    requires |brief| == BriefBytes && lo <= MaxLargePage
    ensures lo <= p <= MaxLargePage
    ensures p < MaxLargePage ==> BriefAt(brief, p) == t
    ensures forall q :: lo <= q < p ==> BriefAt(brief, q) != t
    decreases MaxLargePage - lo
  {
    if lo == MaxLargePage then MaxLargePage
    else if BriefAt(brief, lo) == t then lo
    else FirstBrief(brief, lo + 1, t)
  }

  /** The lowest small-bitmap entry at or above `lo` whose Allocated flag is clear, or 511. */
  function FirstClear(entries: seq<AllocationEntry>, lo: nat): (k: nat)
    requires |entries| == SmallEntries && lo <= SmallEntries
    ensures lo <= k <= SmallEntries
    ensures k < SmallEntries ==> !IsAllocated(entries[k])
    ensures forall j :: lo <= j < k ==> IsAllocated(entries[j])
    decreases SmallEntries - lo
  {
    if lo == SmallEntries then SmallEntries
    else if !IsAllocated(entries[lo]) then lo
    else FirstClear(entries, lo + 1)
  }

  // ---------------------------------------------------------------------
  // Well-formed state and the addresses handed out

  ghost predicate WellFormed(s: Frames)
  {
    |s.brief| == BriefBytes && |s.large| == MaxLargePage
    && (forall p :: p in s.small ==> |s.small[p].entries| == SmallEntries && IsU32(s.small[p].freePages))
    && (forall p :: 0 <= p < MaxLargePage && Subdivided(BriefAt(s.brief, p)) ==> p in s.small)
    && IsU64(s.freePages) && IsU64(s.freeLarge)
  }

  /** Address of the small page tracked by entry `k` of large page `page`: frame `k + 1`. */
  function SmallPageAddress(page: nat, k: nat): (a: nat)
    requires page < MaxLargePage && k < SmallEntries
    ensures a / LargePageSize == page && a % LargePageSize != 0
    ensures a % PageSize == 0 && a < MaxLargePage * LargePageSize
  {
    page * LargePageSize + (k + 1) * PageSize
  }

  /** The small-bitmap entry that tracks the frame containing `address` (frame 0 holds the bitmap). */
  function EntryIndexOf(address: nat): (k: int)
    ensures k == (address % LargePageSize) / PageSize - 1
    ensures -1 <= k < SmallEntries
  {
    (address % LargePageSize) / PageSize - 1
  }

  lemma {:induction false} EntryIndexOfSmallPage(page: nat, k: nat)
    requires page < MaxLargePage && k < SmallEntries
    ensures EntryIndexOf(SmallPageAddress(page, k)) == k
  {
    var a := SmallPageAddress(page, k);
    assert a == page * LargePageSize + (k + 1) * PageSize;
    assert (k + 1) * PageSize < LargePageSize;
    assert a % LargePageSize == (k + 1) * PageSize;
  }

  // ---------------------------------------------------------------------
  // Allocation

  /** The owner a large page's entry records once it is handed out as a whole. */
  function AllocateLarge(s: Frames, pid: nat): (res: (Frames, Outcome<nat>))
    requires WellFormed(s)
  {
    if s.freeLarge == 0 then (s, Hang)
    else
      var i := FirstBrief(s.brief, 1, FullyFree);
      if i == MaxLargePage then (s, Hang)
      else
        (s.(brief := SetBrief(s.brief, i, FullySingleAllocated),
            large := s.large[i := Entry(pid, Allocated)],
            freeLarge := s.freeLarge - 1),
         Ok(i * LargePageSize))
  }

  /** The bitmap a newly subdivided large page gets: frame 1 is taken by `pid`, 510 are free. */
  function NewSmallBitmap(previous: seq<AllocationEntry>, pid: nat): (b: SmallBitmap)
    requires |previous| == SmallEntries
    ensures |b.entries| == SmallEntries && b.freePages == SmallEntries - 1
    ensures b.entries[0] == Entry(pid, Allocated)
    ensures forall k :: 1 <= k < SmallEntries ==> b.entries[k].flags == 0
  {
    SmallBitmap(SmallEntries - 1,
      [Entry(pid, Allocated)] + seq(SmallEntries - 1, k requires 0 <= k < SmallEntries - 1 =>
                                      previous[k + 1].(flags := 0)))
  }

  /** What a large page's first frame held before it was ever subdivided (its contents are not tracked). */
  function PreviousEntries(s: Frames, page: nat): (e: seq<AllocationEntry>)
    requires WellFormed(s)
    ensures |e| == SmallEntries
  {
    if page in s.small then s.small[page].entries else seq(SmallEntries, _ => FreeEntry)
  }

  /** Takes the lowest clear entry of partially free large page `p`. */
  function AllocateInPartial(s: Frames, pid: nat, p: nat): (res: (Frames, Outcome<nat>))
    requires WellFormed(s) && 1 <= p < MaxLargePage && BriefAt(s.brief, p) == PartiallyFree
    requires s.freePages > 0
  {
    var bm := s.small[p];
    var k := FirstClear(bm.entries, 0);
    if k == SmallEntries then (s, Hang)
    else
      var bm' := SmallBitmap(WrapU32(bm.freePages - 1), bm.entries[k := Entry(pid, Allocated)]);
      var brief' := if bm'.freePages == 0 then SetBrief(s.brief, p, FullyPageAllocated) else s.brief;
      (s.(brief := brief', small := s.small[p := bm'], freePages := s.freePages - 1),
       Ok(SmallPageAddress(p, k)))
  }

  /**
   * Subdivides fully free large page `f` and records `pid` in its entry 0.
   * The address handed out is computed from `partiallyFreePage`, which is
   * still 0 on this path, so it is 0x1000 whatever `f` is; the corrected
   * twin is `FixedAllocateInNew`.
   */
  function AllocateInNew(s: Frames, pid: nat, f: nat): (res: (Frames, Outcome<nat>))
    requires WellFormed(s) && 1 <= f < MaxLargePage && s.freePages > 0
    ensures res.1 == Ok(PageSize)
  {
    var partiallyFreePage := 0;
    (s.(brief := SetBrief(s.brief, f, PartiallyFree),
        small := s.small[f := NewSmallBitmap(PreviousEntries(s, f), pid)],
        freePages := s.freePages - 1,
        freeLarge := WrapU64(s.freeLarge - 1)),
     Ok(partiallyFreePage * LargePageSize + PageSize))
  }

  /** The same subdivision, handing out the first small page of `f` itself. */
  function FixedAllocateInNew(s: Frames, pid: nat, f: nat): (res: (Frames, Outcome<nat>))
    requires WellFormed(s) && 1 <= f < MaxLargePage && s.freePages > 0
    ensures res.0 == AllocateInNew(s, pid, f).0
    ensures res.1.Ok? && res.1.value / LargePageSize == f && EntryIndexOf(res.1.value) == 0
  {
    EntryIndexOfSmallPage(f, 0);
    (AllocateInNew(s, pid, f).0, Ok(SmallPageAddress(f, 0)))
  }

  function AllocateSmall(s: Frames, pid: nat): (res: (Frames, Outcome<nat>))
    requires WellFormed(s)
  {
    if s.freePages == 0 then (s, Hang)
    else
      var p := FirstBrief(s.brief, 1, PartiallyFree);
      if p < MaxLargePage then AllocateInPartial(s, pid, p)
      else
        var f := FirstBrief(s.brief, 1, FullyFree);
        if f == MaxLargePage then (s, Hang)
        else AllocateInNew(s, pid, f)
  }

  function FixedAllocateSmall(s: Frames, pid: nat): (res: (Frames, Outcome<nat>))
    requires WellFormed(s)
  {
    if s.freePages == 0 then (s, Hang)
    else
      var p := FirstBrief(s.brief, 1, PartiallyFree);
      if p < MaxLargePage then AllocateInPartial(s, pid, p)
      else
        var f := FirstBrief(s.brief, 1, FullyFree);
        if f == MaxLargePage then (s, Hang)
        else FixedAllocateInNew(s, pid, f)
  }

  function Allocate(s: Frames, pid: nat, large: bool): (res: (Frames, Outcome<nat>))
    requires WellFormed(s)
  {
    if large then AllocateLarge(s, pid) else AllocateSmall(s, pid)
  }

  function FixedAllocate(s: Frames, pid: nat, large: bool): (res: (Frames, Outcome<nat>))
    requires WellFormed(s)
  {
    if large then AllocateLarge(s, pid) else FixedAllocateSmall(s, pid)
  }

  // ---------------------------------------------------------------------
  // Freeing

  /** Frees large page `index` if it is singly allocated and not reserved. */
  function FreeLarge(s: Frames, index: nat): (s': Frames)
    requires WellFormed(s) && index < MaxLargePage
  {
    var flags := s.large[index].flags;
    if flags & Allocated != 0 && flags & Reserved == 0 && BriefAt(s.brief, index) == FullySingleAllocated then
      s.(brief := SetBrief(s.brief, index, FullyFree),
         large := s.large[index := FreeEntry],
         freeLarge := WrapU64(s.freeLarge + 1))
    else s
  }

  /**
   * Frees the small page at `address` inside large page `index` if that
   * page is subdivided. The entry cleared is the frame number of the
   * address, one past the entry that tracks that frame: the last frame
   * selects index 511, one past the 511 entries, and that write lands
   * outside the entries the model tracks. The corrected twin is `FixedFreeSmall`.
   */
  function FreeSmall(s: Frames, address: nat, index: nat): (s': Frames)
    requires WellFormed(s) && index < MaxLargePage
  {
    var offset := EntryIndexAsWritten(address);
    if !Subdivided(BriefAt(s.brief, index)) then s
    else
      var bm := s.small[index];
      var entries := if offset < SmallEntries then bm.entries[offset := FreeEntry] else bm.entries;
      var bm' := SmallBitmap(WrapU32(bm.freePages + 1), entries);
      var s1 := s.(small := s.small[index := bm'], freePages := WrapU64(s.freePages + 1));
      if bm'.freePages == 1 then s1.(brief := SetBrief(s.brief, index, PartiallyFree))
      else if bm'.freePages == SmallEntries then
        s1.(brief := SetBrief(s.brief, index, FullyFree), freeLarge := WrapU64(s.freeLarge + 1))
      else s1
  }

  /** Frees the entry that tracks the frame of `address`; an address in the bitmap's own frame is ignored. */
  function FixedFreeSmall(s: Frames, address: nat, index: nat): (s': Frames)
    requires WellFormed(s) && index < MaxLargePage
  {
    var k := EntryIndexOf(address);
    if !Subdivided(BriefAt(s.brief, index)) || k < 0 then s
    else
      var bm := s.small[index];
      var bm' := SmallBitmap(WrapU32(bm.freePages + 1), bm.entries[k := FreeEntry]);
      var s1 := s.(small := s.small[index := bm'], freePages := WrapU64(s.freePages + 1));
      if bm'.freePages == 1 then s1.(brief := SetBrief(s.brief, index, PartiallyFree))
      else if bm'.freePages == SmallEntries then
        s1.(brief := SetBrief(s.brief, index, FullyFree), freeLarge := WrapU64(s.freeLarge + 1))
      else s1
  }

  function Free(s: Frames, address: nat): (s': Frames)
    requires WellFormed(s)
  {
    if address >= MaxLargePage * LargePageSize then s
    else if address % LargePageSize == 0 then FreeLarge(s, address / LargePageSize)
    else FreeSmall(s, address, address / LargePageSize)
  }

  function FixedFree(s: Frames, address: nat): (s': Frames)
    requires WellFormed(s)
  {
    if address >= MaxLargePage * LargePageSize then s
    else if address % LargePageSize == 0 then FreeLarge(s, address / LargePageSize)
    else FixedFreeSmall(s, address, address / LargePageSize)
  }

  /** The frame number of `address` within its large page, which `freePage` uses as the entry index. */
  function EntryIndexAsWritten(address: nat): (k: nat)
    ensures k <= SmallEntries
  {
    (address % LargePageSize) / PageSize
  }

  // ---------------------------------------------------------------------
  // Properties of the transitions

  lemma {:induction false} AllocateInPartialWellFormed(s: Frames, pid: nat, p: nat)
    requires WellFormed(s) && 1 <= p < MaxLargePage && BriefAt(s.brief, p) == PartiallyFree
    requires s.freePages > 0
    ensures WellFormed(AllocateInPartial(s, pid, p).0)
  {
    var s' := AllocateInPartial(s, pid, p).0;
    assert |s'.brief| == BriefBytes;
    forall q | 0 <= q < MaxLargePage && Subdivided(BriefAt(s'.brief, q)) ensures q in s'.small {
      if q != p { assert BriefAt(s'.brief, q) == BriefAt(s.brief, q); }
    }
  }

  lemma {:induction false} AllocateInNewWellFormed(s: Frames, pid: nat, f: nat)
    requires WellFormed(s) && 1 <= f < MaxLargePage && s.freePages > 0
    ensures WellFormed(AllocateInNew(s, pid, f).0)
  {
    var s' := AllocateInNew(s, pid, f).0;
    assert s'.brief == SetBrief(s.brief, f, PartiallyFree);
    forall q | 0 <= q < MaxLargePage && Subdivided(BriefAt(s'.brief, q)) ensures q in s'.small {
      if q != f { assert BriefAt(s'.brief, q) == BriefAt(s.brief, q); }
    }
  }

  lemma {:induction false} AllocatePreservesWellFormed(s: Frames, pid: nat, large: bool)
    requires WellFormed(s)
    ensures WellFormed(Allocate(s, pid, large).0)
  {
    if large {
      var i := FirstBrief(s.brief, 1, FullyFree);
      if s.freeLarge != 0 && i < MaxLargePage {
        var s' := AllocateLarge(s, pid).0;
        forall q | 0 <= q < MaxLargePage && Subdivided(BriefAt(s'.brief, q)) ensures q in s'.small {
          if q != i { assert BriefAt(s'.brief, q) == BriefAt(s.brief, q); }
        }
      }
    } else if s.freePages != 0 {
      var p := FirstBrief(s.brief, 1, PartiallyFree);
      if p < MaxLargePage {
        AllocateInPartialWellFormed(s, pid, p);
      } else {
        var f := FirstBrief(s.brief, 1, FullyFree);
        if f < MaxLargePage {
          AllocateInNewWellFormed(s, pid, f);
        }
      }
    }
  }

  lemma {:induction false} FreePreservesWellFormed(s: Frames, address: nat)
    requires WellFormed(s)
    ensures WellFormed(Free(s, address))
  {
    var s' := Free(s, address);
    if address < MaxLargePage * LargePageSize {
      var index := address / LargePageSize;
      forall q | 0 <= q < MaxLargePage && Subdivided(BriefAt(s'.brief, q)) ensures q in s'.small {
        if q != index { assert BriefAt(s'.brief, q) == BriefAt(s.brief, q); }
      }
    }
  }

  lemma {:induction false} FixedFreePreservesWellFormed(s: Frames, address: nat)
    requires WellFormed(s)
    ensures WellFormed(FixedFree(s, address))
  {
    var s' := FixedFree(s, address);
    if address < MaxLargePage * LargePageSize {
      var index := address / LargePageSize;
      forall q | 0 <= q < MaxLargePage && Subdivided(BriefAt(s'.brief, q)) ensures q in s'.small {
        if q != index { assert BriefAt(s'.brief, q) == BriefAt(s.brief, q); }
      }
    }
  }

  /**
   * A large allocation takes the lowest fully free large page above page 0,
   * marks it singly allocated and owned by `pid`, and leaves every other
   * page's type alone; it fails only when no large page is free.
   */
  lemma {:induction false} AllocateLargeTakesLowestFree(s: Frames, pid: nat)
    requires WellFormed(s)
    ensures var (s', r) := AllocateLarge(s, pid);
      (r.Hang? <==> s.freeLarge == 0 || forall q :: 1 <= q < MaxLargePage ==> BriefAt(s.brief, q) != FullyFree)
      && (r.Ok? ==>
            var i := r.value / LargePageSize;
            r.value % LargePageSize == 0 && 1 <= i < MaxLargePage
            && BriefAt(s.brief, i) == FullyFree
            && (forall q :: 1 <= q < i ==> BriefAt(s.brief, q) != FullyFree)
            && BriefAt(s'.brief, i) == FullySingleAllocated
            && s'.large[i] == Entry(pid, Allocated)
            && s'.freeLarge == s.freeLarge - 1
            && (forall q :: 0 <= q < MaxLargePage && q != i ==> BriefAt(s'.brief, q) == BriefAt(s.brief, q)))
  {
    var (s', r) := AllocateLarge(s, pid);
    if s.freeLarge != 0 {
      var i := FirstBrief(s.brief, 1, FullyFree);
      if i < MaxLargePage {
        assert r.value == i * LargePageSize;
        assert r.value / LargePageSize == i;
      }
    }
  }

  /** Freeing a large page right after allocating it restores its type, its entry and the count. */
  lemma {:induction false} AllocateLargeThenFree(s: Frames, pid: nat)
    requires WellFormed(s)
    requires AllocateLarge(s, pid).1.Ok?
    requires s.large[FirstBrief(s.brief, 1, FullyFree)] == FreeEntry
    ensures var (s', r) := AllocateLarge(s, pid);
      var s'' := Free(s', r.value);
      s''.brief == s.brief && s''.large == s.large && s''.freeLarge == s.freeLarge
      && s''.freePages == s.freePages && s''.small == s.small
  {
    var (s', r) := AllocateLarge(s, pid);
    var i := FirstBrief(s.brief, 1, FullyFree);
    assert r.value == i * LargePageSize;
    assert r.value / LargePageSize == i && r.value % LargePageSize == 0;
    assert s'.large[i].flags == Allocated;
    SetBriefRestore(s.brief, i, FullySingleAllocated);
    assert Free(s', r.value) == FreeLarge(s', i);
  }

  /** Two brief bitmaps that give every large page the same type are equal. */
  lemma {:induction false} BriefPagesDetermineBitmap(a: seq<bv8>, b: seq<bv8>)
    requires |a| == BriefBytes && |b| == BriefBytes
    requires forall q :: 0 <= q < MaxLargePage ==> BriefAt(a, q) == BriefAt(b, q)
    requires forall n :: MaxLargePage / 4 <= n < BriefBytes ==> a[n] == b[n]
    ensures a == b
  {
    forall n | 0 <= n < BriefBytes ensures a[n] == b[n] {
      if n < MaxLargePage / 4 {
        forall slot | 0 <= slot < 4 ensures GetField(a[n], slot) == GetField(b[n], slot) {
          var q := 4 * n + slot;
          assert q / 4 == n && q % 4 == slot;
          assert BriefAt(a, q) == BriefAt(b, q);
          CodeDeterminesBrief(GetField(a[n], slot), GetField(b[n], slot));
        }
        FieldsDetermineByte(a[n], b[n]);
      }
    }
  }

  lemma CodeDeterminesBrief(c: bv8, d: bv8)
    requires c < 4 && d < 4 && BriefOfCode(c) == BriefOfCode(d)
    ensures c == d
  {
  }

  lemma FieldsDetermineByte(x: bv8, y: bv8)
    requires forall slot :: 0 <= slot < 4 ==> GetField(x, slot) == GetField(y, slot)
    ensures x == y
  {
    assert GetField(x, 0) == GetField(y, 0);
    assert GetField(x, 1) == GetField(y, 1);
    assert GetField(x, 2) == GetField(y, 2);
    assert GetField(x, 3) == GetField(y, 3);
  }

  /** Allocation in a partially free large page records `pid` in its lowest clear entry. */
  lemma {:induction false} AllocateInPartialPlacement(s: Frames, pid: nat, p: nat)
    requires WellFormed(s) && 1 <= p < MaxLargePage && BriefAt(s.brief, p) == PartiallyFree
    requires s.freePages > 0
    ensures var (s', r) := AllocateInPartial(s, pid, p);
      r.Ok? ==>
        var k := EntryIndexOf(r.value);
        r.value / LargePageSize == p && 0 <= k < SmallEntries
        && !IsAllocated(s.small[p].entries[k])
        && (forall j :: 0 <= j < k ==> IsAllocated(s.small[p].entries[j]))
        && s'.small[p].entries == s.small[p].entries[k := Entry(pid, Allocated)]
        && s'.freePages == s.freePages - 1
  {
    var (s', r) := AllocateInPartial(s, pid, p);
    if r.Ok? {
      var k := FirstClear(s.small[p].entries, 0);
      EntryIndexOfSmallPage(p, k);
    }
  }

  /** Subdividing a fully free large page hands out its first small page. */
  lemma {:induction false} AllocateInNewPlacement(s: Frames, pid: nat, f: nat)
    requires WellFormed(s) && 1 <= f < MaxLargePage && s.freePages > 0
    ensures var (s', r) := FixedAllocateInNew(s, pid, f);
      r.Ok? && r.value / LargePageSize == f && EntryIndexOf(r.value) == 0
      && BriefAt(s'.brief, f) == PartiallyFree
      && s'.small[f].freePages == SmallEntries - 1
      && s'.small[f].entries[0] == Entry(pid, Allocated)
      && (forall j :: 1 <= j < SmallEntries ==> !IsAllocated(s'.small[f].entries[j]))
      && s'.freePages == s.freePages - 1
  {
    EntryIndexOfSmallPage(f, 0);
  }

  /**
   * A small allocation prefers the lowest partially free large page and
   * only when there is none subdivides the lowest fully free one; it halts
   * when the free count is zero or neither kind of page exists.
   */
  lemma {:induction false} AllocateSmallChoosesPage(s: Frames, pid: nat)
    requires WellFormed(s)
    ensures var p := FirstBrief(s.brief, 1, PartiallyFree);
      var f := FirstBrief(s.brief, 1, FullyFree);
      (s.freePages == 0 ==> AllocateSmall(s, pid) == (s, Hang))
      && (s.freePages > 0 && p < MaxLargePage ==>
            AllocateSmall(s, pid) == AllocateInPartial(s, pid, p)
            && forall q :: 1 <= q < p ==> BriefAt(s.brief, q) != PartiallyFree)
      && (s.freePages > 0 && p == MaxLargePage && f < MaxLargePage ==>
            AllocateSmall(s, pid) == AllocateInNew(s, pid, f)
            && (forall q :: 1 <= q < MaxLargePage ==> BriefAt(s.brief, q) != PartiallyFree)
            && (forall q :: 1 <= q < f ==> BriefAt(s.brief, q) != FullyFree))
      && (p == MaxLargePage && f == MaxLargePage ==> AllocateSmall(s, pid).1.Hang?)
  {
    var p := FirstBrief(s.brief, 1, PartiallyFree);
    var f := FirstBrief(s.brief, 1, FullyFree);
    if s.freePages > 0 && p == MaxLargePage && f < MaxLargePage {
      assert AllocateSmall(s, pid) == AllocateInNew(s, pid, f);
    }
  }

  /**
   * Freeing a small page right after allocating it from a partially free
   * large page clears its entry and gives the page's count, its brief type
   * and the global counts their old values back.
   */
  lemma {:induction false} AllocateSmallThenFree(s: Frames, pid: nat)
    requires WellFormed(s)
    requires FixedAllocateSmall(s, pid).1.Ok?
    requires var p := FirstBrief(s.brief, 1, PartiallyFree);
      p < MaxLargePage && 1 <= s.small[p].freePages <= SmallEntries - 1
    ensures var (s', r) := FixedAllocateSmall(s, pid);
      var s'' := FixedFree(s', r.value);
      var p := r.value / LargePageSize;
      var k := EntryIndexOf(r.value);
      0 <= k < SmallEntries
      && s''.brief == s.brief && s''.freePages == s.freePages && s''.freeLarge == s.freeLarge
      && s''.small[p].freePages == s.small[p].freePages
      && s''.small[p].entries == s.small[p].entries[k := FreeEntry]
  {
    var (s', r) := FixedAllocateSmall(s, pid);
    var p := FirstBrief(s.brief, 1, PartiallyFree);
    var k := FirstClear(s.small[p].entries, 0);
    EntryIndexOfSmallPage(p, k);
    assert r.value == SmallPageAddress(p, k);
    assert r.value / LargePageSize == p;
    var s'' := FixedFree(s', r.value);
    var n := s.small[p].freePages;
    assert s'.small[p].freePages == n - 1;
    assert s''.small[p].freePages == n;
    if n == 1 {
      BriefPagesDetermineBitmap(s''.brief, s.brief);
    }
  }

  /** Freeing a page that was subdivided moments ago makes the large page fully free again. */
  lemma {:induction false} AllocateNewSmallThenFree(s: Frames, pid: nat)
    requires WellFormed(s)
    requires FixedAllocateSmall(s, pid).1.Ok?
    requires FirstBrief(s.brief, 1, PartiallyFree) == MaxLargePage
    requires 0 < s.freeLarge
    ensures var (s', r) := FixedAllocateSmall(s, pid);
      var s'' := FixedFree(s', r.value);
      s''.brief == s.brief && s''.freePages == s.freePages && s''.freeLarge == s.freeLarge
  {
    var f := FirstBrief(s.brief, 1, FullyFree);
    var (s', r) := FixedAllocateInNew(s, pid, f);
    assert (s', r) == FixedAllocateSmall(s, pid);
    EntryIndexOfSmallPage(f, 0);
    assert r.value == SmallPageAddress(f, 0);
    assert r.value / LargePageSize == f;
    assert FixedFree(s', r.value) == FixedFreeSmall(s', r.value, f);
    assert s'.small[f].freePages == SmallEntries - 1;
    SetBriefRestore(s.brief, f, PartiallyFree);
  }

  /** Addresses at or above 16 GiB, reserved pages and free pages are ignored by `Free`. */
  lemma {:induction false} FreeIgnoresForeignAddresses(s: Frames, address: nat)
    requires WellFormed(s)
    requires address >= MaxLargePage * LargePageSize
             || (address % LargePageSize == 0 && s.large[address / LargePageSize].flags & Reserved != 0)
             || (address % LargePageSize != 0 && !Subdivided(BriefAt(s.brief, address / LargePageSize)))
    ensures Free(s, address) == s && FixedFree(s, address) == s
  {
  }

  // ---------------------------------------------------------------------
  // Initialisation from the memory map

  /** A region `Initialize` may keep the bitmaps in: free, above 1 MiB, at least 17 pages long. */
  predicate SuitableForBitmaps(e: BootBoot.MemoryMapEntry)
  {
    e.Address() >= LowMemoryLimit && e.IsFree() && e.Size() >= NeededSize
  }

  /** The first region at or after `i` (among the first `n`) that can hold the bitmaps, or `n`. */
  function FirstSuitable(m: seq<BootBoot.MemoryMapEntry>, n: nat, i: nat): (k: nat)
    requires n <= |m| && i <= n
    ensures i <= k <= n
    ensures k < n ==> SuitableForBitmaps(m[k])
    ensures forall j :: i <= j < k ==> !SuitableForBitmaps(m[j])
    decreases n - i
  {
    if i == n then n
    else if SuitableForBitmaps(m[i]) then i
    else FirstSuitable(m, n, i + 1)
  }

  /** The region left after the bitmaps are carved from its start. */
  function ShrinkForBitmaps(e: BootBoot.MemoryMapEntry): (e': BootBoot.MemoryMapEntry)
    requires e.Size() >= NeededSize
    ensures e.Size() == NeededSize ==> e'.Type() == BootBoot.TypeUsed && e'.Address() == e.Address()
    ensures e.Size() > NeededSize ==>
              e'.Type() == e.Type() && e'.Size() == e.Size() - NeededSize
              && e'.Address() == WrapU64(e.Address() + NeededSize)
  {
    if e.Size() == NeededSize then e.WithType(BootBoot.TypeUsed)
    else e.WithAddress(WrapU64(e.Address() + NeededSize)).WithSize(e.Size() - NeededSize)
  }

  /** The aligned run of large pages an entry frees, and the byte size it is credited with. */
  datatype FreedRun = FreedRun(firstPage: nat, pageCount: nat, size: nat)

  function RunOf(e: BootBoot.MemoryMapEntry): (r: Option<FreedRun>)
    ensures r.Some? ==> r.value.pageCount == r.value.size / LargePageSize
  {
    if e.Type() != BootBoot.TypeFree || e.Address() < LowMemoryLimit || e.Size() < LargePageSize then None
    else
      var toAlign := LargePageSize - e.Address() % LargePageSize;
      if toAlign != LargePageSize then
        var size := e.Size() - toAlign;
        if size < LargePageSize then None
        else
          var size' := size - size % LargePageSize;
          var address := WrapU64(e.Address() + toAlign);
          Some(FreedRun(address / LargePageSize, size' / LargePageSize, size'))
      else
        Some(FreedRun(e.Address() / LargePageSize, e.Size() / LargePageSize, e.Size()))
  }

  predicate FreesPage(e: BootBoot.MemoryMapEntry, page: nat)
  {
    var r := RunOf(e);
    r.Some? && r.value.firstPage <= page < r.value.firstPage + r.value.pageCount
  }

  /** Whether one of the first `n` entries frees large page `page`. */
  predicate FreedByMap(m: seq<BootBoot.MemoryMapEntry>, n: nat, page: nat)
    requires n <= |m|
  {
    n > 0 && (FreedByMap(m, n - 1, page) || FreesPage(m[n - 1], page))
  }

  /** Small pages a region credits to the free count: its 4 KiB frames minus one per large page. */
  function SmallContribution(e: BootBoot.MemoryMapEntry): nat
  {
    match RunOf(e)
    case None => 0
    case Some(r) => r.size / PageSize - r.pageCount
  }

  function LargeContribution(e: BootBoot.MemoryMapEntry): nat
  {
    match RunOf(e)
    case None => 0
    case Some(r) => r.pageCount
  }

  /** Small pages the first `n` entries credit to the free count. */
  function SmallCredit(m: seq<BootBoot.MemoryMapEntry>, n: nat): nat
    requires n <= |m|
  {
    if n == 0 then 0 else SmallCredit(m, n - 1) + SmallContribution(m[n - 1])
  }

  function LargeCredit(m: seq<BootBoot.MemoryMapEntry>, n: nat): nat
    requires n <= |m|
  {
    if n == 0 then 0 else LargeCredit(m, n - 1) + LargeContribution(m[n - 1])
  }

  /** Crediting one more region with wrap-around keeps the counts equal to the wrapped totals. */
  lemma {:induction false} CreditStep(x: nat, y: nat, m: seq<BootBoot.MemoryMapEntry>, i: nat)
    requires i < |m|
    ensures WrapU64(WrapU64(x + SmallCredit(m, i)) + SmallContribution(m[i])) == WrapU64(x + SmallCredit(m, i + 1))
    ensures WrapU64(WrapU64(y + LargeCredit(m, i)) + LargeContribution(m[i])) == WrapU64(y + LargeCredit(m, i + 1))
  {
    WrapU64Add(x + SmallCredit(m, i), SmallContribution(m[i]));
    WrapU64Add(y + LargeCredit(m, i), LargeContribution(m[i]));
  }

  const ReservedEntry := AllocationEntry(ReservedProcessID, Allocated | Reserved)

  /**
   * The frames that hold the bitmaps are never marked free by the region
   * they were carved from: that region now starts after them, and the
   * first large page it frees starts at or after its new start.
   */
  lemma {:induction false} BitmapFramesStayReserved(e: BootBoot.MemoryMapEntry, page: nat)
    requires e.WellFormed() && SuitableForBitmaps(e)
    requires e.Address() + e.Size() <= U64Modulus
    requires FreesPage(ShrinkForBitmaps(e), page)
    ensures page * LargePageSize >= e.Address() + NeededSize
  {
    var e' := ShrinkForBitmaps(e);
    assert e.Size() != NeededSize;
    assert e'.Address() == e.Address() + NeededSize;
    var a := e'.Address();
    var toAlign := LargePageSize - a % LargePageSize;
    var r := RunOf(e');
    if toAlign != LargePageSize {
      assert (a + toAlign) % LargePageSize == 0;
      assert a + e'.Size() <= U64Modulus;
      assert e'.Size() - toAlign >= LargePageSize;
      assert r.value.firstPage * LargePageSize == a + toAlign;
    } else {
      assert r.value.firstPage * LargePageSize == a;
    }
  }

  /** After marking the first `n` regions, a large page is free exactly when one of them frees it. */
  ghost predicate Marked(brief: seq<bv8>, large: seq<AllocationEntry>, m: seq<BootBoot.MemoryMapEntry>, n: nat)
    requires |brief| == BriefBytes && |large| == MaxLargePage && n <= |m|
  {
    forall p :: 0 <= p < MaxLargePage ==>
      BriefAt(brief, p) == (if FreedByMap(m, n, p) then FullyFree else FullySingleAllocated)
      && large[p] == (if FreedByMap(m, n, p) then FreeEntry else ReservedEntry)
  }

  /** A region that frees no large page leaves the marking as it was. */
  lemma {:induction false} MarkedSkipsRegion(brief: seq<bv8>, large: seq<AllocationEntry>,
                                             m: seq<BootBoot.MemoryMapEntry>, n: nat)
    requires |brief| == BriefBytes && |large| == MaxLargePage && n < |m| && RunOf(m[n]).None?
    requires Marked(brief, large, m, n)
    ensures Marked(brief, large, m, n + 1)
  {
    forall p | 0 <= p < MaxLargePage ensures FreedByMap(m, n + 1, p) == FreedByMap(m, n, p) {
      assert !FreesPage(m[n], p);
    }
  }

  /** Right after initialisation no large page is subdivided, so the state is well formed. */
  lemma {:induction false} MarkedIsWellFormed(s: Frames, m: seq<BootBoot.MemoryMapEntry>, n: nat)
    requires |s.brief| == BriefBytes && |s.large| == MaxLargePage && n <= |m|
    requires Marked(s.brief, s.large, m, n)
    requires forall p :: p in s.small ==> |s.small[p].entries| == SmallEntries && IsU32(s.small[p].freePages)
    requires IsU64(s.freePages) && IsU64(s.freeLarge)
    ensures WellFormed(s)
  {
    forall p | 0 <= p < MaxLargePage ensures !Subdivided(BriefAt(s.brief, p)) {
      assert BriefAt(s.brief, p) == (if FreedByMap(m, n, p) then FullyFree else FullySingleAllocated);
    }
  }

  // ---------------------------------------------------------------------
  // Two discrepancies in the source and their corrected twins

  /** The corrected allocation differs from the source only in the address it returns. */
  lemma {:induction false} FixedAllocateSameState(s: Frames, pid: nat, large: bool)
    requires WellFormed(s)
    ensures FixedAllocate(s, pid, large).0 == Allocate(s, pid, large).0
    ensures FixedAllocate(s, pid, large).1.Hang? == Allocate(s, pid, large).1.Hang?
    ensures FirstBrief(s.brief, 1, PartiallyFree) < MaxLargePage || large ==> FixedAllocate(s, pid, large) == Allocate(s, pid, large)
  {
    if !large && s.freePages != 0 && FirstBrief(s.brief, 1, PartiallyFree) == MaxLargePage {
      var f := FirstBrief(s.brief, 1, FullyFree);
      if f < MaxLargePage {
        assert FixedAllocate(s, pid, large) == FixedAllocateInNew(s, pid, f);
      }
    }
  }

  /**
   * As written, subdividing large page `f` hands out address 0x1000, which
   * lies in large page 0, so freeing it can never release the entry that
   * was recorded in page `f`.
   */
  lemma {:induction false} NewPageAddressAsWrittenMissesPage(s: Frames, pid: nat, f: nat)
    requires WellFormed(s) && 1 <= f < MaxLargePage && s.freePages > 0
    ensures var (s', r) := AllocateInNew(s, pid, f);
      r == Ok(0x1000) && r.value / LargePageSize == 0 && r.value / LargePageSize != f
      && f in s'.small && IsAllocated(s'.small[f].entries[0])
      && Free(s', r.value).small[f] == s'.small[f]
  {
    var (s', r) := AllocateInNew(s, pid, f);
    assert r.value / LargePageSize == 0;
    assert Free(s', r.value) == FreeSmall(s', r.value, 0);
  }

  /**
   * As written, freeing the small page handed out for entry `k` leaves entry
   * `k` allocated and clears entry `k + 1` instead (nothing at all for the
   * last entry, 510), while the page's free count still goes up; the
   * corrected `FixedFree` clears entry `k`.
   */
  lemma {:induction false} FreeSmallAsWrittenIsOneOff(s: Frames, page: nat, k: nat)
    requires WellFormed(s) && page < MaxLargePage && k < SmallEntries
    requires Subdivided(BriefAt(s.brief, page))
    ensures var a := SmallPageAddress(page, k);
      var s' := Free(s, a);
      var s'' := FixedFree(s, a);
      var bm := s.small[page];
      s'.small[page].entries[k] == bm.entries[k]
      && (k + 1 < SmallEntries ==> s'.small[page].entries == bm.entries[k + 1 := FreeEntry])
      && (k + 1 == SmallEntries ==> s'.small[page].entries == bm.entries)
      && s'.small[page].freePages == WrapU32(bm.freePages + 1)
      && s''.small[page].entries == bm.entries[k := FreeEntry]
      && s''.small[page].freePages == s'.small[page].freePages
  {
    var a := SmallPageAddress(page, k);
    EntryIndexOfSmallPage(page, k);
    assert a / LargePageSize == page;
    assert EntryIndexAsWritten(a) == k + 1;
    assert Free(s, a) == FreeSmall(s, a, page);
    assert FixedFree(s, a) == FixedFreeSmall(s, a, page);
  }

  // ---------------------------------------------------------------------
  // The allocator object

  class PhysicalAllocator {
    var briefBitmap: array<bv8>
    var largePageBitmap: array<AllocationEntry>
    var smallBitmaps: map<nat, SmallBitmap>
    var freePagesCount: nat
    var freeLargePagesCount: nat
    /** Physical address of the brief bitmap (the large page bitmap follows one frame later). */
    var bitmapAddress: nat

    ghost function View(): Frames
      reads this, briefBitmap, largePageBitmap
    {
      Frames(briefBitmap[..], largePageBitmap[..], smallBitmaps, freePagesCount, freeLargePagesCount)
    }

    ghost predicate Valid()
      reads this, briefBitmap, largePageBitmap
    {
      WellFormed(View())
    }

    constructor ()
      ensures Valid() && fresh(briefBitmap) && fresh(largePageBitmap)
      ensures freePagesCount == 0 && freeLargePagesCount == 0 && smallBitmaps == map[]
    {
      briefBitmap := new bv8[BriefBytes](_ => 0);
      largePageBitmap := new AllocationEntry[MaxLargePage](_ => FreeEntry);
      smallBitmaps := map[];
      freePagesCount := 0;
      freeLargePagesCount := 0;
      bitmapAddress := 0;
      new;
      assert forall p :: 0 <= p < MaxLargePage ==> BriefAt(briefBitmap[..], p) == FullyFree;
    }

    /** The type of large page `pageIndex`; an index past the bitmap halts. */
    function GetBriefBitmapEntry(pageIndex: nat): (r: Outcome<BriefType>)
      reads this, briefBitmap
      requires briefBitmap.Length == BriefBytes
      ensures r.Hang? <==> pageIndex >= MaxLargePage
      ensures r.Ok? ==> r.value == BriefAt(briefBitmap[..], pageIndex)
    {
      if pageIndex >= MaxLargePage then Hang else Ok(BriefAt(briefBitmap[..], pageIndex))
    }

    /** The owner/flags entry of large page `pageIndex`; an index past the bitmap halts. */
    function GetLargePageBitmapEntry(pageIndex: nat): (r: Outcome<AllocationEntry>)
      reads this, largePageBitmap
      requires largePageBitmap.Length == MaxLargePage
      ensures r.Hang? <==> pageIndex >= MaxLargePage
      ensures r.Ok? ==> r.value == largePageBitmap[pageIndex]
    {
      if pageIndex >= MaxLargePage then Hang else Ok(largePageBitmap[pageIndex])
    }

    /** Sets the type of large page `pageIndex`, touching only its two bits; an index past the bitmap halts. */
    method SetBriefBitmapEntry(pageIndex: nat, t: BriefType) returns (r: Outcome<()>)
      requires briefBitmap.Length == BriefBytes
      modifies briefBitmap
      ensures r.Hang? <==> pageIndex >= MaxLargePage
      ensures r.Hang? ==> briefBitmap[..] == old(briefBitmap[..])
      ensures r.Ok? ==> briefBitmap[..] == SetBrief(old(briefBitmap[..]), pageIndex, t)
    {
      if pageIndex >= MaxLargePage {
        return Hang;
      }
      var index := pageIndex / 4;
      var slot := pageIndex % 4;
      briefBitmap[index] := SetField(briefBitmap[index], slot, BriefCode(t));
      r := Ok(());
    }

    /** Records owner and flags of large page `pageIndex`; an index past the bitmap halts. */
    method SetLargePageBitmapEntry(pageIndex: nat, pid: nat, flags: bv8) returns (r: Outcome<()>)
      requires largePageBitmap.Length == MaxLargePage
      modifies largePageBitmap
      ensures r.Hang? <==> pageIndex >= MaxLargePage
      ensures r.Hang? ==> largePageBitmap[..] == old(largePageBitmap[..])
      ensures r.Ok? ==> largePageBitmap[..] == old(largePageBitmap[..])[pageIndex := Entry(pid, flags)]
    {
      if pageIndex >= MaxLargePage {
        return Hang;
      }
      largePageBitmap[pageIndex] := Entry(pid, flags);
      r := Ok(());
    }

    /** The search `initialize` runs for the first region that can hold the bitmaps. */
    static method FindBitmapChunk(memoryMap: array<BootBoot.MemoryMapEntry>, n: nat) returns (k: nat)
      requires n <= memoryMap.Length
      ensures k == FirstSuitable(memoryMap[..], n, 0)
      ensures k < n ==> SuitableForBitmaps(memoryMap[k])
    {
      k := 0;
      while k < n
        invariant 0 <= k <= n
        invariant FirstSuitable(memoryMap[..], n, k) == FirstSuitable(memoryMap[..], n, 0)
      {
        if memoryMap[k].Address() >= LowMemoryLimit && memoryMap[k].IsFree() && memoryMap[k].Size() >= NeededSize {
          return;
        }
        k := k + 1;
      }
    }

    /** Marks every large page singly allocated and reserved. */
    method ResetBitmaps()
      requires briefBitmap.Length == BriefBytes && largePageBitmap.Length == MaxLargePage
      modifies briefBitmap, largePageBitmap
      ensures forall p :: 0 <= p < MaxLargePage ==>
        BriefAt(briefBitmap[..], p) == FullySingleAllocated && largePageBitmap[p] == ReservedEntry
    {
      var i := 0;
      while i < MaxLargePage
        invariant 0 <= i <= MaxLargePage
        invariant forall p :: 0 <= p < i ==> BriefAt(briefBitmap[..], p) == FullySingleAllocated
      {
        var _ := SetBriefBitmapEntry(i, FullySingleAllocated);
        i := i + 1;
      }
      i := 0;
      while i < MaxLargePage
        invariant 0 <= i <= MaxLargePage
        invariant forall p :: 0 <= p < MaxLargePage ==> BriefAt(briefBitmap[..], p) == FullySingleAllocated
        invariant forall p :: 0 <= p < i ==> largePageBitmap[p] == ReservedEntry
      {
        var _ := SetLargePageBitmapEntry(i, ReservedProcessID, Allocated | Reserved);
        i := i + 1;
      }
    }

    /** Marks the run of large pages that region `n` of `m` frees, stopping at the end of the bitmap. */
    method MarkRun(run: FreedRun, ghost m: seq<BootBoot.MemoryMapEntry>, ghost n: nat)
      requires briefBitmap.Length == BriefBytes && largePageBitmap.Length == MaxLargePage
      requires n < |m| && RunOf(m[n]) == Some(run)
      requires Marked(briefBitmap[..], largePageBitmap[..], m, n)
      modifies briefBitmap, largePageBitmap
      ensures Marked(briefBitmap[..], largePageBitmap[..], m, n + 1)
    {
      var j := 0;
      while j < run.pageCount
        invariant 0 <= j <= run.pageCount
        invariant forall p :: 0 <= p < MaxLargePage ==>
          var freed := FreedByMap(m, n, p) || run.firstPage <= p < run.firstPage + j;
          BriefAt(briefBitmap[..], p) == (if freed then FullyFree else FullySingleAllocated)
          && largePageBitmap[p] == (if freed then FreeEntry else ReservedEntry)
      {
        if run.firstPage + j >= MaxLargePage {
          break;
        }
        var _ := SetBriefBitmapEntry(run.firstPage + j, FullyFree);
        var _ := SetLargePageBitmapEntry(run.firstPage + j, 0, 0);
        j := j + 1;
      }
      assert j == run.pageCount || run.firstPage + j >= MaxLargePage;
      forall p | 0 <= p < MaxLargePage
        ensures FreedByMap(m, n + 1, p) <==> FreedByMap(m, n, p) || run.firstPage <= p < run.firstPage + j
      {
        assert FreedByMap(m, n + 1, p) == (FreedByMap(m, n, p) || FreesPage(m[n], p));
      }
    }

    /** Credits a freed run to the two free counts (64-bit additions). */
    method CreditRun(run: FreedRun)
      requires run.pageCount <= run.size / PageSize
      modifies this
      ensures freePagesCount == WrapU64(old(freePagesCount) + (run.size / PageSize - run.pageCount))
      ensures freeLargePagesCount == WrapU64(old(freeLargePagesCount) + run.pageCount)
      ensures briefBitmap == old(briefBitmap) && largePageBitmap == old(largePageBitmap)
      ensures smallBitmaps == old(smallBitmaps) && bitmapAddress == old(bitmapAddress)
    {
      freePagesCount := WrapU64(freePagesCount + (run.size / PageSize - run.pageCount));
      freeLargePagesCount := WrapU64(freeLargePagesCount + run.pageCount);
    }

    /** Frees the aligned large pages of the first `n` regions and credits the counts. */
    method MarkFreeRegions(memoryMap: array<BootBoot.MemoryMapEntry>, n: nat)
      requires briefBitmap.Length == BriefBytes && largePageBitmap.Length == MaxLargePage
      requires n <= memoryMap.Length && IsU64(freePagesCount) && IsU64(freeLargePagesCount)
      requires memoryMap as object != briefBitmap && memoryMap as object != largePageBitmap
      requires Marked(briefBitmap[..], largePageBitmap[..], memoryMap[..], 0)
      modifies this, briefBitmap, largePageBitmap
      ensures briefBitmap == old(briefBitmap) && largePageBitmap == old(largePageBitmap)
      ensures smallBitmaps == old(smallBitmaps) && bitmapAddress == old(bitmapAddress)
      ensures Marked(briefBitmap[..], largePageBitmap[..], memoryMap[..], n)
      ensures freePagesCount == WrapU64(old(freePagesCount) + SmallCredit(memoryMap[..], n))
      ensures freeLargePagesCount == WrapU64(old(freeLargePagesCount) + LargeCredit(memoryMap[..], n))
    {
      ghost var m := memoryMap[..];
      var i := 0;
      while i < n
        invariant 0 <= i <= n && memoryMap[..] == m
        invariant briefBitmap == old(briefBitmap) && largePageBitmap == old(largePageBitmap)
        invariant smallBitmaps == old(smallBitmaps) && bitmapAddress == old(bitmapAddress)
        invariant Marked(briefBitmap[..], largePageBitmap[..], m, i)
        invariant freePagesCount == WrapU64(old(freePagesCount) + SmallCredit(m, i))
        invariant freeLargePagesCount == WrapU64(old(freeLargePagesCount) + LargeCredit(m, i))
      {
        MarkRegion(memoryMap[i], m, i, old(freePagesCount), old(freeLargePagesCount));
        i := i + 1;
      }
    }

    /**
     * Frees the aligned large pages of region `i` and credits them to
     * counts that started at `x` and `y` before region 0.
     */
    method MarkRegion(e: BootBoot.MemoryMapEntry, ghost m: seq<BootBoot.MemoryMapEntry>, ghost i: nat,
                      ghost x: nat, ghost y: nat)
      requires briefBitmap.Length == BriefBytes && largePageBitmap.Length == MaxLargePage
      requires i < |m| && m[i] == e
      requires Marked(briefBitmap[..], largePageBitmap[..], m, i)
      requires freePagesCount == WrapU64(x + SmallCredit(m, i))
      requires freeLargePagesCount == WrapU64(y + LargeCredit(m, i))
      modifies this, briefBitmap, largePageBitmap
      ensures briefBitmap == old(briefBitmap) && largePageBitmap == old(largePageBitmap)
      ensures smallBitmaps == old(smallBitmaps) && bitmapAddress == old(bitmapAddress)
      ensures Marked(briefBitmap[..], largePageBitmap[..], m, i + 1)
      ensures freePagesCount == WrapU64(x + SmallCredit(m, i + 1))
      ensures freeLargePagesCount == WrapU64(y + LargeCredit(m, i + 1))
    {
      CreditStep(x, y, m, i);
      var run := RunOf(e);
      if run.Some? {
        MarkRun(run.value, m, i);
        CreditRun(run.value);
      } else {
        MarkedSkipsRegion(briefBitmap[..], largePageBitmap[..], m, i);
        freePagesCount := WrapU64(freePagesCount);
        freeLargePagesCount := WrapU64(freeLargePagesCount);
      }
    }

    /**
     * Sets the allocator up from the boot loader's memory map: carves the
     * bitmaps from the first suitable region, marks every large page used,
     * then frees the aligned large pages of every free region above 1 MiB
     * and credits the counts. Halts when no region can hold the bitmaps.
     */
    method Initialize(boot: BootBoot.Structure) returns (r: Outcome<()>)
      requires Valid() && boot.Valid()
      requires boot.memoryMap as object != briefBitmap && boot.memoryMap as object != largePageBitmap
      modifies this, briefBitmap, largePageBitmap, boot.memoryMap
      ensures Valid() && briefBitmap == old(briefBitmap) && largePageBitmap == old(largePageBitmap)
      ensures smallBitmaps == old(smallBitmaps)
      ensures var n := BootBoot.EntryCount(boot.size);
        var k := FirstSuitable(old(boot.memoryMap[..]), n, 0);
        (r.Hang? <==> k == n)
        && (r.Hang? ==> View() == old(View()) && boot.memoryMap[..] == old(boot.memoryMap[..]))
        && (r.Ok? ==>
              boot.memoryMap[..] == old(boot.memoryMap[..])[k := ShrinkForBitmaps(old(boot.memoryMap[k]))]
              && bitmapAddress == old(boot.memoryMap[k]).Address()
              && Marked(briefBitmap[..], largePageBitmap[..], boot.memoryMap[..], n)
              && freePagesCount == WrapU64(old(freePagesCount) + SmallCredit(boot.memoryMap[..], n))
              && freeLargePagesCount == WrapU64(old(freeLargePagesCount) + LargeCredit(boot.memoryMap[..], n)))
    {
      var memoryMap := boot.memoryMap;
      var entryCount := BootBoot.EntryCount(boot.size);
      var found := FindBitmapChunk(memoryMap, entryCount);
      if found == entryCount {
        return Hang;
      }
      bitmapAddress := memoryMap[found].Address();
      memoryMap[found] := ShrinkForBitmaps(memoryMap[found]);
      ResetBitmaps();
      MarkFreeRegions(memoryMap, entryCount);
      MarkedIsWellFormed(View(), memoryMap[..], entryCount);
      r := Ok(());
    }

    /** The scan `allocatePage` runs over the brief bitmap from page 1 up. */
    method FindFirstBrief(t: BriefType) returns (p: nat)
      requires briefBitmap.Length == BriefBytes
      ensures p == FirstBrief(briefBitmap[..], 1, t)
    {
      p := 1;
      while p < MaxLargePage
        invariant 1 <= p <= MaxLargePage
        invariant FirstBrief(briefBitmap[..], p, t) == FirstBrief(briefBitmap[..], 1, t)
      {
        if BriefAt(briefBitmap[..], p) == t {
          return;
        }
        p := p + 1;
      }
    }

    method AllocateLargePage(pid: nat) returns (r: Outcome<nat>)
      requires Valid()
      modifies this, briefBitmap, largePageBitmap
      ensures briefBitmap == old(briefBitmap) && largePageBitmap == old(largePageBitmap)
      ensures bitmapAddress == old(bitmapAddress)
      ensures (View(), r) == AllocateLarge(old(View()), pid)
    {
      if freeLargePagesCount == 0 {
        return Hang;
      }
      var i := FindFirstBrief(FullyFree);
      if i == MaxLargePage {
        return Hang;
      }
      ghost var s := View();
      var _ := SetBriefBitmapEntry(i, FullySingleAllocated);
      var _ := SetLargePageBitmapEntry(i, pid, Allocated);
      freeLargePagesCount := freeLargePagesCount - 1;
      assert View() == s.(brief := SetBrief(s.brief, i, FullySingleAllocated), large := s.large[i := Entry(pid, Allocated)],
                          freeLarge := s.freeLarge - 1);
      return Ok(i * LargePageSize);
    }

    /** The scan of a partially free page's bitmap for its lowest clear entry. */
    method FindClearEntry(p: nat) returns (k: nat)
      requires Valid() && p in smallBitmaps
      ensures k == FirstClear(smallBitmaps[p].entries, 0)
    {
      var entries := smallBitmaps[p].entries;
      k := 0;
      while k < SmallEntries
        invariant 0 <= k <= SmallEntries
        invariant FirstClear(entries, k) == FirstClear(entries, 0)
      {
        if !IsAllocated(entries[k]) {
          return;
        }
        k := k + 1;
      }
    }

    method AllocateInPartiallyFree(pid: nat, p: nat) returns (r: Outcome<nat>)
      requires Valid() && 1 <= p < MaxLargePage && BriefAt(briefBitmap[..], p) == PartiallyFree
      requires freePagesCount > 0
      modifies this, briefBitmap
      ensures briefBitmap == old(briefBitmap) && largePageBitmap == old(largePageBitmap)
      ensures bitmapAddress == old(bitmapAddress)
      ensures (View(), r) == AllocateInPartial(old(View()), pid, p)
    {
      ghost var s := View();
      var k := FindClearEntry(p);
      if k == SmallEntries {
        return Hang;
      }
      var bitmap := smallBitmaps[p];
      var bitmap' := SmallBitmap(WrapU32(bitmap.freePages - 1), bitmap.entries[k := Entry(pid, Allocated)]);
      smallBitmaps := smallBitmaps[p := bitmap'];
      freePagesCount := freePagesCount - 1;
      if bitmap'.freePages == 0 {
        var _ := SetBriefBitmapEntry(p, FullyPageAllocated);
      }
      r := Ok(SmallPageAddress(p, k));
      assert briefBitmap[..] == (if bitmap'.freePages == 0 then SetBrief(s.brief, p, FullyPageAllocated) else s.brief);
      assert View() == s.(brief := briefBitmap[..], small := s.small[p := bitmap'], freePages := s.freePages - 1);
    }

    method AllocateInNewPage(pid: nat, f: nat) returns (r: Outcome<nat>)
      requires Valid() && 1 <= f < MaxLargePage && freePagesCount > 0
      modifies this, briefBitmap
      ensures briefBitmap == old(briefBitmap) && largePageBitmap == old(largePageBitmap)
      ensures bitmapAddress == old(bitmapAddress)
      ensures (View(), r) == AllocateInNew(old(View()), pid, f)
    {
      ghost var s := View();
      var previous := if f in smallBitmaps then smallBitmaps[f].entries else seq(SmallEntries, _ => FreeEntry);
      assert previous == PreviousEntries(s, f);
      smallBitmaps := smallBitmaps[f := NewSmallBitmap(previous, pid)];
      var _ := SetBriefBitmapEntry(f, PartiallyFree);
      freePagesCount := freePagesCount - 1;
      freeLargePagesCount := WrapU64(freeLargePagesCount - 1);
      var partiallyFreePage := 0;
      r := Ok(partiallyFreePage * LargePageSize + PageSize);
    }

    method AllocateSmallPage(pid: nat) returns (r: Outcome<nat>)
      requires Valid()
      modifies this, briefBitmap
      ensures briefBitmap == old(briefBitmap) && largePageBitmap == old(largePageBitmap)
      ensures bitmapAddress == old(bitmapAddress)
      ensures (View(), r) == AllocateSmall(old(View()), pid)
    {
      if freePagesCount == 0 {
        return Hang;
      }
      var partiallyFreePage := FindFirstBrief(PartiallyFree);
      if partiallyFreePage < MaxLargePage {
        r := AllocateInPartiallyFree(pid, partiallyFreePage);
        return;
      }
      var firstFreePage := FindFirstBrief(FullyFree);
      if firstFreePage == MaxLargePage {
        return Hang;
      }
      r := AllocateInNewPage(pid, firstFreePage);
    }

    /** Hands out a 2 MiB page (`large`) or a 4 KiB page owned by `pid`. */
    method AllocatePage(pid: nat, large: bool) returns (r: Outcome<nat>)
      requires Valid()
      modifies this, briefBitmap, largePageBitmap
      ensures Valid() && briefBitmap == old(briefBitmap) && largePageBitmap == old(largePageBitmap)
      ensures bitmapAddress == old(bitmapAddress)
      ensures (View(), r) == Allocate(old(View()), pid, large)
    {
      AllocatePreservesWellFormed(View(), pid, large);
      if large {
        r := AllocateLargePage(pid);
      } else {
        r := AllocateSmallPage(pid);
      }
    }

    method FreeLargePage(index: nat)
      requires Valid() && index < MaxLargePage
      modifies this, briefBitmap, largePageBitmap
      ensures briefBitmap == old(briefBitmap) && largePageBitmap == old(largePageBitmap)
      ensures bitmapAddress == old(bitmapAddress)
      ensures View() == FreeLarge(old(View()), index)
    {
      var flags := largePageBitmap[index].flags;
      if flags & Allocated != 0 && flags & Reserved == 0 {
        if BriefAt(briefBitmap[..], index) != FullySingleAllocated {
          return;
        }
        var _ := SetBriefBitmapEntry(index, FullyFree);
        var _ := SetLargePageBitmapEntry(index, 0, 0);
        freeLargePagesCount := WrapU64(freeLargePagesCount + 1);
      }
    }

    method FreeSmallPage(address: nat, index: nat)
      requires Valid() && index < MaxLargePage
      modifies this, briefBitmap
      ensures briefBitmap == old(briefBitmap) && largePageBitmap == old(largePageBitmap)
      ensures bitmapAddress == old(bitmapAddress)
      ensures View() == FreeSmall(old(View()), address, index)
    {
      var t := BriefAt(briefBitmap[..], index);
      if !Subdivided(t) {
        return;
      }
      var offset := EntryIndexAsWritten(address);
      var bitmap := smallBitmaps[index];
      var entries := bitmap.entries;
      if offset < SmallEntries {
        entries := entries[offset := FreeEntry];
      }
      var bitmap' := SmallBitmap(WrapU32(bitmap.freePages + 1), entries);
      smallBitmaps := smallBitmaps[index := bitmap'];
      freePagesCount := WrapU64(freePagesCount + 1);
      if bitmap'.freePages == 1 {
        var _ := SetBriefBitmapEntry(index, PartiallyFree);
      } else if bitmap'.freePages == SmallEntries {
        var _ := SetBriefBitmapEntry(index, FullyFree);
        freeLargePagesCount := WrapU64(freeLargePagesCount + 1);
      }
    }

    /** Returns a page to the allocator; addresses it does not manage are ignored. */
    method FreePage(address: nat)
      requires Valid()
      modifies this, briefBitmap, largePageBitmap
      ensures Valid() && briefBitmap == old(briefBitmap) && largePageBitmap == old(largePageBitmap)
      ensures bitmapAddress == old(bitmapAddress)
      ensures View() == Free(old(View()), address)
    {
      FreePreservesWellFormed(View(), address);
      if address >= MaxLargePage * LargePageSize {
        return;
      }
      var index := address / LargePageSize;
      if address % LargePageSize == 0 {
        FreeLargePage(index);
      } else {
        FreeSmallPage(address, index);
      }
    }
  }
}
