/**
 * Virtual memory objects: the page lists an address space maps.
 *
 * An MMIO object lists consecutive physical pages of a device region and
 * never touches the physical allocator; a memory-backed object allocates
 * all its pages eagerly; an uncacheable object holds one page. The source's
 * subclasses become one class with a `kind` field that selects the
 * destructor, and the constructors that allocate become factory methods
 * whose result is `Hang` when the allocator gives up.
 */
module MemoryObjects {
  import opened Machine
  import PhysAlloc
  import opened PagingEntries

  datatype ObjectKind = MMIO | MemoryBacked | Uncacheable

  /** What the base class stores: pages, access flags, size in bytes, preferred address (0 for none), large-page mapping. */
  datatype ObjectState = ObjectState(kind: ObjectKind, pages: seq<nat>, flags: bv8, size: nat,
                                     preferredAddress: nat, largePageAligned: bool)

  /** Pages needed for `length` bytes, rounding up in the source's 64-bit arithmetic. */
  function PageCount(length: nat, pageSize: nat): nat
    requires pageSize > 0
  {
    WrapU64(length + (pageSize - 1)) / pageSize
  }

  /** When no wrap-around occurs, the count is the ceiling of `length / pageSize`. */
  lemma {:induction false} PageCountCovers(length: nat, pageSize: nat)
    requires pageSize > 0 && IsU64(length + (pageSize - 1))
    ensures PageCount(length, pageSize) * pageSize >= length
    ensures PageCount(length, pageSize) == 0 || (PageCount(length, pageSize) - 1) * pageSize < length
  {
    var n := PageCount(length, pageSize);
    var t := length + (pageSize - 1);
    assert n == t / pageSize;
    assert t == n * pageSize + t % pageSize;
  }

  function PageSizeFor(large: bool): (ps: nat)
    ensures ps > 0
  {
    if large then PhysAlloc.LargePageSize else PhysAlloc.PageSize
  }

  /** `MMIOVirtualMemoryObject`: pages at `physicalAddress + i * pageSize`, 2 MiB pages for regions over 2 MiB. */
  function MMIOState(physicalAddress: nat, length: nat, mappingAddress: nat): ObjectState
  {
    var large := length > PhysAlloc.LargePageSize;
    var ps := PageSizeFor(large);
    var n := PageCount(length, ps);
    ObjectState(MMIO, seq(n, i => WrapU64(physicalAddress + i * ps)), Writeable, n * ps, mappingAddress, large)
  }

  /**
   * An MMIO object is writeable, uncached and not executable, uses large
   * pages exactly for regions over 2 MiB, and (without wrap-around) lists
   * consecutive pages from the physical address that cover the region.
   */
  lemma {:induction false} MMIOObjectLayout(physicalAddress: nat, length: nat, mappingAddress: nat)
    requires IsU64(length + (PageSizeFor(length > PhysAlloc.LargePageSize) - 1))
    ensures var o := MMIOState(physicalAddress, length, mappingAddress);
      (o.largePageAligned <==> length > PhysAlloc.LargePageSize)
      && o.flags & Writeable != 0 && o.flags & Executable == 0 && o.flags & Cacheable == 0
      && o.preferredAddress == mappingAddress
    ensures var o := MMIOState(physicalAddress, length, mappingAddress);
      var ps := PageSizeFor(o.largePageAligned);
      o.size == |o.pages| * ps && o.size >= length && (|o.pages| == 0 || o.size - ps < length)
    ensures var o := MMIOState(physicalAddress, length, mappingAddress);
      var ps := PageSizeFor(o.largePageAligned);
      forall i :: 0 <= i < |o.pages| && IsU64(physicalAddress + i * ps) ==> o.pages[i] == physicalAddress + i * ps
  {
    var o := MMIOState(physicalAddress, length, mappingAddress);
    var ps := PageSizeFor(o.largePageAligned);
    PageCountCovers(length, ps);
    assert (|o.pages| - 1) * ps == |o.pages| * ps - ps;
    forall i | 0 <= i < |o.pages| && IsU64(physicalAddress + i * ps)
      ensures o.pages[i] == physicalAddress + i * ps
    {
      assert o.pages[i] == WrapU64(physicalAddress + i * ps);
    }
  }

  /** Whether a memory-backed object uses 2 MiB pages. */
  function LargePagesUsed(length: nat, disallowLargePages: bool, mappingAddress: nat): bool
  {
    var allowed := !disallowLargePages;
    var aligned := if mappingAddress != 0 && mappingAddress % PhysAlloc.LargePageSize != 0 then false else allowed;
    if length < PhysAlloc.LargePageSize then false else aligned
  }

  /** Large pages are used exactly when allowed, the mapping address is null or 2 MiB aligned, and the object is at least 2 MiB. */
  lemma LargePagesUsedExactly(length: nat, disallowLargePages: bool, mappingAddress: nat)
    ensures LargePagesUsed(length, disallowLargePages, mappingAddress)
            <==> !disallowLargePages && (mappingAddress == 0 || mappingAddress % PhysAlloc.LargePageSize == 0)
                 && length >= PhysAlloc.LargePageSize
  {
  }

  /** The access flags of a memory-backed object. */
  function AccessFlags(write: bool, execute: bool, cache: bool): (f: bv8)
    ensures (f & Writeable != 0 <==> write) && (f & Executable != 0 <==> execute)
    ensures (f & Cacheable != 0 <==> cache) && f & UserMappable == 0
  {
    (if write then Writeable else 0) | (if execute then Executable else 0) | (if cache then Cacheable else 0)
  }

  /**
   * Allocations for `pid` until `n` pages are gathered, after the pages
   * `acc` already gathered, in order; the first allocation that hangs
   * hangs the whole.
   */
  function AllocatePages(frames: PhysAlloc.Frames, pid: nat, large: bool, n: nat, acc: seq<nat>)
    : (res: (PhysAlloc.Frames, Outcome<seq<nat>>))
    requires PhysAlloc.WellFormed(frames) && |acc| <= n
    ensures PhysAlloc.WellFormed(res.0)
    ensures res.1.Ok? ==> |res.1.value| == n && res.1.value[..|acc|] == acc
    decreases n - |acc|, 1
  {
    if |acc| == n then (frames, Ok(acc)) else AllocateNext(frames, pid, large, n, acc)
  }

  /** The next allocation, then the others. */
  function AllocateNext(frames: PhysAlloc.Frames, pid: nat, large: bool, n: nat, acc: seq<nat>)
    : (res: (PhysAlloc.Frames, Outcome<seq<nat>>))
    requires PhysAlloc.WellFormed(frames) && |acc| < n
    ensures PhysAlloc.WellFormed(res.0)
    ensures res.1.Ok? ==> |res.1.value| == n && res.1.value[..|acc|] == acc
    decreases n - |acc|, 0
  {
    PhysAlloc.AllocatePreservesWellFormed(frames, pid, large);
    var step := PhysAlloc.Allocate(frames, pid, large);
    if step.1.Hang? then (step.0, Hang)
    else
      var res := AllocatePages(step.0, pid, large, n, acc + [step.1.value]);
      assert res.1.Ok? ==> res.1.value[..|acc|] == (acc + [step.1.value])[..|acc|];
      res
  }

  /** An allocation that hangs hangs `AllocatePages` and leaves the allocator as it left it. */
  lemma AllocatePagesHang(frames: PhysAlloc.Frames, pid: nat, large: bool, n: nat, acc: seq<nat>, after: PhysAlloc.Frames)
    requires PhysAlloc.WellFormed(frames) && |acc| < n
    requires (after, Hang) == PhysAlloc.Allocate(frames, pid, large)
    ensures AllocatePages(frames, pid, large, n, acc) == (after, Hang)
  {
    assert AllocatePages(frames, pid, large, n, acc) == AllocateNext(frames, pid, large, n, acc);
  }

  /** An allocation that yields `page` and leaves `after` is the next one of `AllocatePages`. */
  lemma AllocatePagesOk(frames: PhysAlloc.Frames, pid: nat, large: bool, n: nat, acc: seq<nat>,
                        after: PhysAlloc.Frames, page: nat)
    requires PhysAlloc.WellFormed(frames) && |acc| < n
    requires (after, Ok(page)) == PhysAlloc.Allocate(frames, pid, large)
    ensures PhysAlloc.WellFormed(after)
    ensures AllocatePages(frames, pid, large, n, acc) == AllocatePages(after, pid, large, n, acc + [page])
  {
    PhysAlloc.AllocatePreservesWellFormed(frames, pid, large);
    assert AllocatePages(frames, pid, large, n, acc) == AllocateNext(frames, pid, large, n, acc);
  }

  /** `MemoryBackedVirtualMemoryObject`: allocates every page up front. */
  function MemoryBackedState(frames: PhysAlloc.Frames, length: nat, disallowLargePages: bool, mappingAddress: nat,
                              write: bool, execute: bool, cache: bool, pid: nat): (res: (PhysAlloc.Frames, Outcome<ObjectState>))
    requires PhysAlloc.WellFormed(frames)
    ensures PhysAlloc.WellFormed(res.0)
  {
    var large := LargePagesUsed(length, disallowLargePages, mappingAddress);
    var ps := PageSizeFor(large);
    var n := PageCount(length, ps);
    var (frames', pages) := AllocatePages(frames, pid, large, n, []);
    if pages.Hang? then (frames', Hang)
    else (frames', Ok(ObjectState(MemoryBacked, pages.value, AccessFlags(write, execute, cache), n * ps, mappingAddress, large)))
  }

  /**
   * A memory-backed object holds exactly the pages the allocator handed
   * out for `pid`, in order, enough of them to cover the object, and its
   * flags are those requested.
   */
  lemma {:induction false} MemoryBackedLayout(frames: PhysAlloc.Frames, length: nat, disallowLargePages: bool,
                                              mappingAddress: nat, write: bool, execute: bool, cache: bool, pid: nat)
    requires PhysAlloc.WellFormed(frames)
    requires IsU64(length + (PageSizeFor(LargePagesUsed(length, disallowLargePages, mappingAddress)) - 1))
    ensures var (frames', o) := MemoryBackedState(frames, length, disallowLargePages, mappingAddress, write, execute, cache, pid);
      var large := LargePagesUsed(length, disallowLargePages, mappingAddress);
      var n := PageCount(length, PageSizeFor(large));
      (o.Ok? <==> AllocatePages(frames, pid, large, n, []).1.Ok?)
      && (o.Ok? ==>
            o.value.pages == AllocatePages(frames, pid, large, n, []).1.value
            && o.value.largePageAligned == large
            && o.value.size == |o.value.pages| * PageSizeFor(large) >= length
            && o.value.flags == AccessFlags(write, execute, cache)
            && o.value.preferredAddress == mappingAddress)
  {
    var large := LargePagesUsed(length, disallowLargePages, mappingAddress);
    PageCountCovers(length, PageSizeFor(large));
  }

  /** `UncacheablePageVirtualMemoryObject`: one 4 KiB or 2 MiB page from the allocator. */
  function UncacheableState(frames: PhysAlloc.Frames, large: bool, mappingAddress: nat): (res: (PhysAlloc.Frames, Outcome<ObjectState>))
    requires PhysAlloc.WellFormed(frames)
    ensures PhysAlloc.WellFormed(res.0)
    ensures res.1.Ok? ==> |res.1.value.pages| == 1 && res.1.value.size == PageSizeFor(large)
    ensures res.1.Ok? ==> res.1.value.flags == Writeable && res.1.value.largePageAligned == large
  {
    PhysAlloc.AllocatePreservesWellFormed(frames, KernelPID, large);
    var (frames', page) := PhysAlloc.Allocate(frames, KernelPID, large);
    if page.Hang? then (frames', Hang)
    else (frames', Ok(ObjectState(Uncacheable, [page.value], Writeable, PageSizeFor(large), mappingAddress, large)))
  }

  /** The uncacheable object's one page is the page the allocator handed out. */
  lemma UncacheableHoldsAllocatedPage(frames: PhysAlloc.Frames, large: bool, mappingAddress: nat)
    requires PhysAlloc.WellFormed(frames)
    ensures var (frames', o) := UncacheableState(frames, large, mappingAddress);
      var (after, page) := PhysAlloc.Allocate(frames, KernelPID, large);
      frames' == after && (o.Ok? <==> page.Ok?) && (o.Ok? ==> o.value.pages[0] == page.value)
  {
  }

  /** Returns the pages `ps` to the allocator one after another. */
  function FreePages(frames: PhysAlloc.Frames, ps: seq<nat>): (frames': PhysAlloc.Frames)
    requires PhysAlloc.WellFormed(frames)
    ensures PhysAlloc.WellFormed(frames')
    decreases |ps|
  {
    if |ps| == 0 then frames
    else
      PhysAlloc.FreePreservesWellFormed(frames, ps[0]);
      FreePages(PhysAlloc.Free(frames, ps[0]), ps[1..])
  }

  /** What the destructor gives back: every page of a memory-backed object, the one page of an uncacheable one, nothing for MMIO. */
  function DestroySpec(frames: PhysAlloc.Frames, o: ObjectState): (res: (PhysAlloc.Frames, Outcome<()>))
    requires PhysAlloc.WellFormed(frames)
    ensures PhysAlloc.WellFormed(res.0)
  {
    match o.kind
    case MMIO => (frames, Ok(()))
    case MemoryBacked => (FreePages(frames, o.pages), Ok(()))
    case Uncacheable =>
      if |o.pages| == 0 then (frames, Hang)
      else
        PhysAlloc.FreePreservesWellFormed(frames, o.pages[0]);
        (PhysAlloc.Free(frames, o.pages[0]), Ok(()))
  }

  /** Freeing a list of pages frees the first part and then the rest. */
  lemma {:induction false} FreePagesSplit(frames: PhysAlloc.Frames, ps: seq<nat>, k: nat)
    requires PhysAlloc.WellFormed(frames) && k <= |ps|
    ensures FreePages(frames, ps) == FreePages(FreePages(frames, ps[..k]), ps[k..])
    decreases k
  {
    if k > 0 {
      PhysAlloc.FreePreservesWellFormed(frames, ps[0]);
      FreePagesSplit(PhysAlloc.Free(frames, ps[0]), ps[1..], k - 1);
      assert ps[..k][1..] == ps[1..][..k - 1];
      assert ps[1..][k - 1..] == ps[k..];
    }
  }

  class MemoryObject {
    var kind: ObjectKind
    var pages: seq<nat>
    var flags: bv8
    var size: nat
    var preferredAddress: nat
    var largePageAlignmentNeeded: bool

    ghost function View(): ObjectState
      reads this
    {
      ObjectState(kind, pages, flags, size, preferredAddress, largePageAlignmentNeeded)
    }

    /** The base constructor: an empty page list with the given flags and preferred address. */
    constructor Base(k: ObjectKind, accessParameters: bv8, mappingAddress: nat)
      ensures View() == ObjectState(k, [], accessParameters, 0, mappingAddress, false)
    {
      kind := k;
      pages := [];
      flags := accessParameters;
      size := 0;
      preferredAddress := mappingAddress;
      largePageAlignmentNeeded := false;
    }

    constructor NewMMIO(physicalAddress: nat, length: nat, mappingAddress: nat)
      ensures View() == MMIOState(physicalAddress, length, mappingAddress)
    {
      var large := length > PhysAlloc.LargePageSize;
      var ps := PageSizeFor(large);
      var n := PageCount(length, ps);
      var list: seq<nat> := [];
      var total := 0;
      var i := 0;
      while i < n
        invariant 0 <= i <= n
        invariant |list| == i && total == i * ps
        invariant forall j :: 0 <= j < i ==> list[j] == WrapU64(physicalAddress + j * ps)
      {
        list := list + [WrapU64(physicalAddress + i * ps)];
        total := total + ps;
        i := i + 1;
      }
      assert list == MMIOState(physicalAddress, length, mappingAddress).pages;
      kind := MMIO;
      pages := list;
      flags := Writeable;
      size := total;
      preferredAddress := mappingAddress;
      largePageAlignmentNeeded := large;
    }

    /** The allocation loop of `MemoryBackedVirtualMemoryObject`: `n` pages for `pid`, in order. */
    static method AllocateEach(pid: nat, large: bool, n: nat, phys: PhysAlloc.PhysicalAllocator)
      returns (r: Outcome<seq<nat>>)
      requires phys.Valid()
      modifies phys, phys.briefBitmap, phys.largePageBitmap
      ensures phys.Valid() && phys.briefBitmap == old(phys.briefBitmap) && phys.largePageBitmap == old(phys.largePageBitmap)
      ensures (phys.View(), r) == AllocatePages(old(phys.View()), pid, large, n, [])
    {
      var list: seq<nat> := [];
      var i := 0;
      while i < n
        invariant 0 <= i <= n && |list| == i && phys.Valid()
        invariant phys.briefBitmap == old(phys.briefBitmap) && phys.largePageBitmap == old(phys.largePageBitmap)
        invariant AllocatePages(phys.View(), pid, large, n, list) == AllocatePages(old(phys.View()), pid, large, n, [])
      {
        ghost var before := phys.View();
        var page := phys.AllocatePage(pid, large);
        if page.Hang? {
          AllocatePagesHang(before, pid, large, n, list, phys.View());
          return Hang;
        }
        AllocatePagesOk(before, pid, large, n, list, phys.View(), page.value);
        list := list + [page.value];
        i := i + 1;
      }
      return Ok(list);
    }

    static method CreateMemoryBacked(length: nat, disallowLargePages: bool, mappingAddress: nat, write: bool,
                                     execute: bool, cache: bool, pid: nat, phys: PhysAlloc.PhysicalAllocator)
      returns (r: Outcome<MemoryObject>)
      requires phys.Valid()
      modifies phys, phys.briefBitmap, phys.largePageBitmap
      ensures phys.Valid() && phys.briefBitmap == old(phys.briefBitmap) && phys.largePageBitmap == old(phys.largePageBitmap)
      ensures var res := MemoryBackedState(old(phys.View()), length, disallowLargePages, mappingAddress, write, execute, cache, pid);
        phys.View() == res.0 && r.Ok? == res.1.Ok?
        && (r.Ok? ==> fresh(r.value) && r.value.View() == res.1.value)
    {
      var large := LargePagesUsed(length, disallowLargePages, mappingAddress);
      var ps := PageSizeFor(large);
      var n := PageCount(length, ps);
      var pages := AllocateEach(pid, large, n, phys);
      if pages.Hang? {
        return Hang;
      }
      var o := new MemoryObject.Base(MemoryBacked, AccessFlags(write, execute, cache), mappingAddress);
      o.pages := pages.value;
      o.size := n * ps;
      o.largePageAlignmentNeeded := large;
      return Ok(o);
    }

    static method CreateUncacheable(large: bool, mappingAddress: nat, phys: PhysAlloc.PhysicalAllocator)
      returns (r: Outcome<MemoryObject>)
      requires phys.Valid()
      modifies phys, phys.briefBitmap, phys.largePageBitmap
      ensures phys.Valid() && phys.briefBitmap == old(phys.briefBitmap) && phys.largePageBitmap == old(phys.largePageBitmap)
      ensures var res := UncacheableState(old(phys.View()), large, mappingAddress);
        phys.View() == res.0 && r.Ok? == res.1.Ok?
        && (r.Ok? ==> fresh(r.value) && r.value.View() == res.1.value)
    {
      var o := new MemoryObject.Base(Uncacheable, Writeable, mappingAddress);
      var page := phys.AllocatePage(KernelPID, large);
      if page.Hang? {
        return Hang;
      }
      o.pages := [page.value];
      o.largePageAlignmentNeeded := large;
      o.size := PageSizeFor(large);
      return Ok(o);
    }

    /** The destructor of the object's kind. */
    method Destroy(phys: PhysAlloc.PhysicalAllocator) returns (r: Outcome<()>)
      requires phys.Valid()
      modifies phys, phys.briefBitmap, phys.largePageBitmap
      ensures phys.Valid() && phys.briefBitmap == old(phys.briefBitmap) && phys.largePageBitmap == old(phys.largePageBitmap)
      ensures (phys.View(), r) == DestroySpec(old(phys.View()), View())
    {
      match kind
      case MMIO =>
        return Ok(());
      case MemoryBacked =>
        var i := 0;
        while i < |pages|
          invariant 0 <= i <= |pages| && phys.Valid()
          invariant phys.briefBitmap == old(phys.briefBitmap) && phys.largePageBitmap == old(phys.largePageBitmap)
          invariant FreePages(phys.View(), pages[i..]) == FreePages(old(phys.View()), pages)
        {
          assert pages[i..][1..] == pages[i + 1..];
          phys.FreePage(pages[i]);
          i := i + 1;
        }
        return Ok(());
      case Uncacheable =>
        if |pages| == 0 {
          return Hang;
        }
        phys.FreePage(pages[0]);
        return Ok(());
    }

    /** `getPhysicalAddress` of an uncacheable object: its page; an empty list halts. */
    method GetPhysicalAddress() returns (r: Outcome<nat>)
      ensures r.Ok? <==> |pages| > 0
      ensures r.Ok? ==> r.value == pages[0]
    {
      if |pages| == 0 {
        return Hang;
      }
      return Ok(pages[0]);
    }

    /** The base accessors: size, alignment flag, preferred address, flags and page list as stored. */
    function ObjectSize(): nat reads this { size }
    function LargePageAligned(): bool reads this { largePageAlignmentNeeded }
    function ObjectAddress(): nat reads this { preferredAddress }
    function ObjectFlags(): bv8 reads this { flags }
    function ObjectPages(): seq<nat> reads this { pages }
  }
}
