/**
 * The allocation list of a virtual address space and the placement rule of
 * `mapObject`.
 *
 * An address space hands out virtual addresses from a list of regions that
 * tiles its allocation range: each region is Free or Allocated and starts
 * where the one before it ends. `mapObject` takes the first Free region the
 * object fits into, possibly after rounding its start up to the next 2 MiB
 * boundary, and splits it into an alignment gap, the object and a remainder.
 */
module VirtualRegions {
  import opened Machine
  import PhysAlloc
  import MemoryObjects
  import LinkedList

  datatype RegionKind = Free | Allocated

  /** `VirtualMemoryRegion`: an Allocated region records the object mapped there. */
  datatype Region = Region(kind: RegionKind, mapped: Option<MemoryObjects.ObjectState>, size: nat, address: nat)

  /** The allocation range of a user space: from 2 MiB to the top of the lower half. */
  const UserStart: nat := 0x20_0000
  const UserEnd: nat := 0x8000_0000_0000

  /** The allocation range of the kernel space: 512 GiB above the direct map up to the last 512 GiB. */
  const KernelStart: nat := PagingBase + 0x80_0000_0000
  const KernelEnd: nat := 0xffff_ff80_0000_0000

  /** The initial list of a space: one Free region covering its range. */
  function InitialRegions(lo: nat, hi: nat): (rs: seq<Region>)
    requires lo <= hi
    ensures Tiles(rs, lo, hi) && |rs| == 1 && rs[0].kind == Free
    ensures lo < hi && hi % PhysAlloc.LargePageSize == 0 ==> EndsAligned(rs)
  {
    var rs := [Region(Free, None, hi - lo, lo)];
    assert rs[1..] == [];
    rs
  }

  // ---------------------------------------------------------------------
  // Tiling

  /** The regions cover `[lo, hi)` in address order, each starting where the previous one ends. */
  predicate Tiles(rs: seq<Region>, lo: nat, hi: nat)
    decreases |rs|
  {
    if |rs| == 0 then lo == hi else rs[0].address == lo && Tiles(rs[1..], lo + rs[0].size, hi)
  }

  /** Two tilings of adjacent ranges tile the union. */
  lemma {:induction false} TilesJoin(a: seq<Region>, b: seq<Region>, lo: nat, mid: nat, hi: nat)
    requires Tiles(a, lo, mid) && Tiles(b, mid, hi)
    ensures Tiles(a + b, lo, hi)
    decreases |a|
  {
    if |a| > 0 {
      TilesJoin(a[1..], b, lo + a[0].size, mid, hi);
      assert (a + b)[1..] == a[1..] + b;
    } else {
      assert a + b == b;
    }
  }

  /** A tiling splits at region `k` into a tiling up to that region's start and one from it. */
  lemma {:induction false} TilesSplit(rs: seq<Region>, lo: nat, hi: nat, k: nat)
    requires Tiles(rs, lo, hi) && k < |rs|
    ensures Tiles(rs[..k], lo, rs[k].address) && Tiles(rs[k..], rs[k].address, hi)
    decreases k
  {
    if k > 0 {
      TilesSplit(rs[1..], lo + rs[0].size, hi, k - 1);
      assert rs[1..][..k - 1] == rs[..k][1..];
      assert rs[1..][k - 1..] == rs[k..];
    } else {
      assert rs[..0] == [];
    }
  }

  /** In a tiling every region lies between `lo` and `hi`, and a later region starts no earlier than an earlier one ends. */
  lemma {:induction false} TilesOrdered(rs: seq<Region>, lo: nat, hi: nat, i: nat, j: nat)
    requires Tiles(rs, lo, hi) && i < j < |rs|
    ensures lo <= rs[i].address && rs[i].address + rs[i].size <= rs[j].address
    ensures rs[j].address + rs[j].size <= hi
    decreases i
  {
    if i == 0 {
      TilesBounds(rs[1..], lo + rs[0].size, hi, j - 1);
    } else {
      TilesOrdered(rs[1..], lo + rs[0].size, hi, i - 1, j - 1);
    }
  }

  /** Every region of a tiling of `[lo, hi)` lies inside it. */
  lemma {:induction false} TilesBounds(rs: seq<Region>, lo: nat, hi: nat, j: nat)
    requires Tiles(rs, lo, hi) && j < |rs|
    ensures lo <= rs[j].address && rs[j].address + rs[j].size <= hi
    decreases j
  {
    if j == 0 {
      TilesEnd(rs[1..], lo + rs[0].size, hi);
    } else {
      TilesBounds(rs[1..], lo + rs[0].size, hi, j - 1);
    }
  }

  /** A tiling ends no earlier than it starts. */
  lemma {:induction false} TilesEnd(rs: seq<Region>, lo: nat, hi: nat)
    requires Tiles(rs, lo, hi)
    ensures lo <= hi
    decreases |rs|
  {
    if |rs| > 0 {
      TilesEnd(rs[1..], lo + rs[0].size, hi);
    }
  }

  // ---------------------------------------------------------------------
  // Placement

  /** The first fit is the index before which nothing fits and at which, unless it is the end, the region fits. */
  lemma FirstFitIs(rs: seq<Region>, o: MemoryObjects.ObjectState, wrap: bool, k: nat)
    requires k <= |rs| && (forall j :: 0 <= j < k ==> !Fits(rs[j], o, wrap)) && (k < |rs| ==> Fits(rs[k], o, wrap))
    ensures FirstFit(rs, o, wrap, 0) == k
  {
  }

  /** The region's start is not 2 MiB aligned although the object needs large pages. */
  predicate NeedsAlignment(r: Region, o: MemoryObjects.ObjectState)
  {
    o.largePageAligned && r.address % PhysAlloc.LargePageSize != 0
  }

  /** Bytes from the region's start to the next 2 MiB boundary. */
  function Gap(r: Region): (g: nat)
    ensures 0 < g <= PhysAlloc.LargePageSize
  {
    PhysAlloc.LargePageSize - r.address % PhysAlloc.LargePageSize
  }

  /**
   * Bytes left for the object, and where it would start, after the
   * alignment gap; `wrap` selects the source's 64-bit arithmetic, in which
   * the subtraction wraps around when the region is shorter than the gap.
   */
  function Available(r: Region, o: MemoryObjects.ObjectState, wrap: bool): int
  {
    var avail := if NeedsAlignment(r, o) then r.size - Gap(r) else r.size;
    if wrap then WrapU64(avail) else avail
  }

  function Start(r: Region, o: MemoryObjects.ObjectState, wrap: bool): nat
  {
    var start := if NeedsAlignment(r, o) then r.address + Gap(r) else r.address;
    if wrap then WrapU64(start) else start
  }

  /** The test of `mapObject`: a Free region whose available bytes hold the object. */
  predicate Fits(r: Region, o: MemoryObjects.ObjectState, wrap: bool)
  {
    r.kind == Free && Available(r, o, wrap) >= o.size
  }

  /** The index of the first region from `i` on that fits, or `|rs|` when none does. */
  function FirstFit(rs: seq<Region>, o: MemoryObjects.ObjectState, wrap: bool, i: nat): (k: nat)
    requires i <= |rs|
    ensures i <= k <= |rs| && (k < |rs| ==> Fits(rs[k], o, wrap))
    ensures forall j :: i <= j < k ==> !Fits(rs[j], o, wrap)
    decreases |rs| - i
  {
    if i == |rs| then i else if Fits(rs[i], o, wrap) then i else FirstFit(rs, o, wrap, i + 1)
  }

  /** The Free region left before the object by rounding its start up, if any. */
  function GapPart(r: Region, o: MemoryObjects.ObjectState): (g: seq<Region>)
    ensures |g| <= 1
  {
    if NeedsAlignment(r, o) then [Region(Free, None, Gap(r), r.address)] else []
  }

  /** The Allocated region holding the object. */
  function Allocation(r: Region, o: MemoryObjects.ObjectState, wrap: bool): Region
  {
    Region(Allocated, Some(o), o.size, Start(r, o, wrap))
  }

  /** The Free region left after the object, if the region is longer than needed. */
  function RestPart(r: Region, o: MemoryObjects.ObjectState, wrap: bool): (rest: seq<Region>)
    ensures |rest| <= 1
  {
    var start := Start(r, o, wrap);
    var avail := Available(r, o, wrap);
    if avail > o.size then [Region(Free, None, avail - o.size, if wrap then WrapU64(start + o.size) else start + o.size)] else []
  }

  /** What replaces a fitting region: the alignment gap if any, the object, and the remainder if any. */
  function Carve(r: Region, o: MemoryObjects.ObjectState, wrap: bool): seq<Region>
  {
    GapPart(r, o) + [Allocation(r, o, wrap)] + RestPart(r, o, wrap)
  }

  /** The new list, the index of the object's region in it, and the address returned. */
  datatype Placement = Placement(regions: seq<Region>, index: nat, address: nat)

  /**
   * `mapObject` on the list: `None` (a null pointer) when the object asks
   * for a fixed address or no Free region fits; otherwise the chosen region
   * becomes the object's, the additional region is inserted after it and
   * then the gap before it. `wrap` selects the source's 64-bit arithmetic.
   */
  function PlaceBy(rs: seq<Region>, o: MemoryObjects.ObjectState, wrap: bool): Option<Placement>
  {
    if o.preferredAddress != 0 then None
    else
      var k := FirstFit(rs, o, wrap, 0);
      if k == |rs| then None
      else
        var r := rs[k];
        var gap, rest := GapPart(r, o), RestPart(r, o, wrap);
        var withObject := rs[k := Allocation(r, o, wrap)];
        var regions := InsertOptional(InsertOptional(withObject, rest, k + 1), gap, k);
        Some(Placement(regions, k + |gap|, Start(r, o, wrap)))
  }

  /** `s` with the element of `opt`, if there is one, inserted at `index`. */
  function InsertOptional<T>(s: seq<T>, opt: seq<T>, index: nat): seq<T>
    requires |opt| <= 1
  {
    if |opt| == 1 then LinkedList.InsertedAt(s, opt[0], index) else s
  }

  /** The placement of `mapObject` as written, in 64-bit arithmetic. */
  function Place(rs: seq<Region>, o: MemoryObjects.ObjectState): Option<Placement>
  {
    PlaceBy(rs, o, true)
  }

  /** The placement with exact arithmetic, which skips a region shorter than its alignment gap. */
  function FixedPlace(rs: seq<Region>, o: MemoryObjects.ObjectState): Option<Placement>
  {
    PlaceBy(rs, o, false)
  }

  /** Inserting at position `|pre|` of `pre + post` puts the element between the two. */
  lemma InsertBetween<T>(pre: seq<T>, post: seq<T>, x: T)
    ensures LinkedList.InsertedAt(pre + post, x, |pre|) == pre + [x] + post
  {
    var s := pre + post;
    assert s[..|pre|] == pre && s[|pre|..] == post;
  }

  /** Inserting the optional element at position `|pre|` of `pre + post` puts it between the two. */
  lemma {:induction false} InsertOptionalBetween<T>(pre: seq<T>, post: seq<T>, opt: seq<T>)
    requires |opt| <= 1
    ensures InsertOptional(pre + post, opt, |pre|) == pre + opt + post
  {
    if |opt| == 1 {
      InsertBetween(pre, post, opt[0]);
      assert [opt[0]] == opt;
    } else {
      assert opt == [];
      assert pre + post == pre + opt + post;
    }
  }

  /** Replacing element `k` is splicing the new element in between the two halves. */
  lemma ReplaceAsSplice<T>(s: seq<T>, k: nat, c: T)
    requires k < |s|
    ensures s[k := c] == s[..k] + [c] + s[k + 1..]
  {
  }

  /**
   * Replacing element `k` by `c`, inserting the optional `rest` after it
   * and then the optional `gap` before it splices `gap + [c] + rest` in.
   */
  lemma {:induction false} ReplaceThenInsert<T>(s: seq<T>, k: nat, c: T, gap: seq<T>, rest: seq<T>)
    requires k < |s| && |gap| <= 1 && |rest| <= 1
    ensures InsertOptional(InsertOptional(s[k := c], rest, k + 1), gap, k) == s[..k] + gap + [c] + rest + s[k + 1..]
  {
    var pre, post := s[..k], s[k + 1..];
    ReplaceAsSplice(s, k, c);
    InsertOptionalBetween(pre + [c], post, rest);
    var tail := [c] + rest + post;
    assert pre + [c] + rest + post == pre + tail;
    InsertOptionalBetween(pre, tail, gap);
    assert pre + gap + tail == pre + gap + [c] + rest + post;
  }

  /** The two insertions of `mapObject` put `Carve` in place of the chosen region. */
  lemma {:induction false} PlaceSplices(rs: seq<Region>, o: MemoryObjects.ObjectState, wrap: bool)
    requires PlaceBy(rs, o, wrap).Some?
    ensures var k := FirstFit(rs, o, wrap, 0);
      k < |rs| && PlaceBy(rs, o, wrap).value.regions == rs[..k] + Carve(rs[k], o, wrap) + rs[k + 1..]
      && PlaceBy(rs, o, wrap).value.index == k + |GapPart(rs[k], o)|
  {
    var k := FirstFit(rs, o, wrap, 0);
    var r := rs[k];
    ReplaceThenInsert(rs, k, Allocation(r, o, wrap), GapPart(r, o), RestPart(r, o, wrap));
    Regroup(rs[..k], GapPart(r, o), Allocation(r, o, wrap), RestPart(r, o, wrap), rs[k + 1..]);
  }

  lemma Regroup<T>(pre: seq<T>, gap: seq<T>, c: T, rest: seq<T>, post: seq<T>)
    ensures pre + gap + [c] + rest + post == pre + (gap + [c] + rest) + post
  {
  }

  /** With exact arithmetic the carved regions tile the region they replace. */
  lemma {:induction false} CarveTiles(r: Region, o: MemoryObjects.ObjectState)
    requires Fits(r, o, false)
    ensures Tiles(Carve(r, o, false), r.address, r.address + r.size)
  {
    var start := Start(r, o, false);
    var avail := Available(r, o, false);
    assert start + avail == r.address + r.size;
    var rest := if avail > o.size then [Region(Free, None, avail - o.size, start + o.size)] else [];
    assert Tiles(rest, start + o.size, r.address + r.size) by {
      if avail > o.size { assert rest[1..] == []; }
    }
    var middle := [Region(Allocated, Some(o), o.size, start)] + rest;
    assert middle[1..] == rest;
    if NeedsAlignment(r, o) {
      var gap := [Region(Free, None, Gap(r), r.address)];
      assert gap[1..] == [];
      TilesJoin(gap, middle, r.address, start, r.address + r.size);
      assert Carve(r, o, false) == gap + middle;
    } else {
      assert Carve(r, o, false) == [] + middle;
    }
  }

  /** Replacing one region of a tiling by a tiling of the same range keeps the tiling. */
  lemma {:induction false} SpliceTiles(rs: seq<Region>, lo: nat, hi: nat, k: nat, c: seq<Region>)
    requires Tiles(rs, lo, hi) && k < |rs| && Tiles(c, rs[k].address, rs[k].address + rs[k].size)
    ensures Tiles(rs[..k] + c + rs[k + 1..], lo, hi)
  {
    TilesSplit(rs, lo, hi, k);
    var r := rs[k];
    assert rs[k..][1..] == rs[k + 1..];
    TilesJoin(c, rs[k + 1..], r.address, r.address + r.size, hi);
    TilesJoin(rs[..k], c + rs[k + 1..], lo, r.address, hi);
    assert rs[..k] + (c + rs[k + 1..]) == rs[..k] + c + rs[k + 1..];
  }

  /** Placing an object keeps the list a tiling of the same range, so regions never overlap. */
  lemma {:induction false} FixedPlaceKeepsTiling(rs: seq<Region>, lo: nat, hi: nat, o: MemoryObjects.ObjectState)
    requires Tiles(rs, lo, hi) && FixedPlace(rs, o).Some?
    ensures Tiles(FixedPlace(rs, o).value.regions, lo, hi)
  {
    var k := FirstFit(rs, o, false, 0);
    PlaceSplices(rs, o, false);
    CarveTiles(rs[k], o);
    SpliceTiles(rs, lo, hi, k, Carve(rs[k], o, false));
  }

  /** The placement at `k`, the first region that fits, step by step as `mapObject` performs it. */
  lemma PlaceAt(rs: seq<Region>, o: MemoryObjects.ObjectState, wrap: bool, k: nat)
    requires o.preferredAddress == 0 && k < |rs| && Fits(rs[k], o, wrap)
    requires forall j :: 0 <= j < k ==> !Fits(rs[j], o, wrap)
    ensures var r := rs[k];
      PlaceBy(rs, o, wrap) == Some(Placement(InsertOptional(InsertOptional(rs[k := Allocation(r, o, wrap)], RestPart(r, o, wrap), k + 1),
                                                            GapPart(r, o), k),
                                             k + |GapPart(r, o)|, Start(r, o, wrap)))
  {
  }

  /**
   * What the source's list makes of the placement of `mapObject`: when the
   * first fitting region `k` is not the last, needs no alignment gap and
   * leaves a rest, `List::insertAt` links the rest into the list `Place`
   * describes but keeps the count, so from then on `get` reads one region
   * fewer than the list holds and skips the one at position `|rs| / 2 + 1`.
   */
  lemma PlaceHidesRegion(rs: seq<Region>, o: MemoryObjects.ObjectState, k: nat)
    requires o.preferredAddress == 0 && k + 1 < |rs| && Fits(rs[k], o, true)
    requires forall j :: 0 <= j < k ==> !Fits(rs[j], o, true)
    requires !NeedsAlignment(rs[k], o) && |RestPart(rs[k], o, true)| == 1
    ensures var list := rs[k := Allocation(rs[k], o, true)];
      var r := LinkedList.InsertAtState(LinkedList.ListState(list, |list|), RestPart(rs[k], o, true)[0], k + 1);
      var h := |rs| / 2 + 1;
      Place(rs, o).Some?
      && var c := Place(rs, o).value.regions;
         r.chain == c && r.count == |rs| && h < |c| && LinkedList.View(r) == c[..h] + c[h + 1..]
  {
    PlaceAt(rs, o, true, k);
    var list := rs[k := Allocation(rs[k], o, true)];
    LinkedList.InsertAtHidesOne(LinkedList.ListState(list, |list|), RestPart(rs[k], o, true)[0], k + 1);
  }

  /** Whichever arithmetic is used, the placement's index is the object's own Allocated region. */
  lemma {:induction false} PlaceHoldsObject(rs: seq<Region>, o: MemoryObjects.ObjectState, wrap: bool)
    requires PlaceBy(rs, o, wrap).Some?
    ensures var p := PlaceBy(rs, o, wrap).value;
      p.index < |p.regions| && p.regions[p.index] == Region(Allocated, Some(o), o.size, p.address)
  {
    var k := FirstFit(rs, o, wrap, 0);
    PlaceSplices(rs, o, wrap);
    var p := PlaceBy(rs, o, wrap).value;
    if NeedsAlignment(rs[k], o) {
      assert p.regions[k + 1] == Carve(rs[k], o, wrap)[1];
    } else {
      assert p.regions[k] == Carve(rs[k], o, wrap)[0];
    }
  }

  /**
   * `mapObject` fails exactly when the object has a preferred address or no
   * Free region fits; otherwise the first fitting region, which is Free,
   * becomes an Allocated region of exactly the object's size holding the
   * object, at the returned address, and every region before it stays.
   */
  lemma {:induction false} FixedPlaceFirstFit(rs: seq<Region>, o: MemoryObjects.ObjectState)
    ensures FixedPlace(rs, o).None? <==> o.preferredAddress != 0 || forall j :: 0 <= j < |rs| ==> !Fits(rs[j], o, false)
    ensures FixedPlace(rs, o).Some? ==>
      var p := FixedPlace(rs, o).value;
      var k := FirstFit(rs, o, false, 0);
      k < |rs| && rs[k].kind == Free
      && (forall j :: 0 <= j < k ==> rs[j].kind == Allocated || !Fits(rs[j], o, false))
      && p.index < |p.regions| && p.regions[p.index] == Region(Allocated, Some(o), o.size, p.address)
      && p.regions[..k] == rs[..k]
      && p.address == (if NeedsAlignment(rs[k], o) then rs[k].address + Gap(rs[k]) else rs[k].address)
  {
    var k := FirstFit(rs, o, false, 0);
    if o.preferredAddress == 0 && k < |rs| {
      PlaceSplices(rs, o, false);
      var p := FixedPlace(rs, o).value;
      assert p.regions[..k] == rs[..k];
      if NeedsAlignment(rs[k], o) {
        assert p.regions[k + 1] == Carve(rs[k], o, false)[1];
      } else {
        assert p.regions[k] == Carve(rs[k], o, false)[0];
      }
    }
  }

  /**
   * With large pages and an unaligned region the object starts at the next
   * 2 MiB boundary, less than 2 MiB above the region's start, and the gap
   * before it is a Free region; a large-page object always gets a 2 MiB
   * aligned address.
   */
  lemma {:induction false} FixedPlaceAligns(rs: seq<Region>, o: MemoryObjects.ObjectState)
    requires FixedPlace(rs, o).Some?
    ensures var p := FixedPlace(rs, o).value;
      var r := rs[FirstFit(rs, o, false, 0)];
      (o.largePageAligned ==> p.address % PhysAlloc.LargePageSize == 0)
      && (NeedsAlignment(r, o) ==>
            r.address < p.address < r.address + PhysAlloc.LargePageSize
            && p.index > 0 && p.regions[p.index - 1] == Region(Free, None, p.address - r.address, r.address))
  {
    var k := FirstFit(rs, o, false, 0);
    var r := rs[k];
    PlaceSplices(rs, o, false);
    var p := FixedPlace(rs, o).value;
    if NeedsAlignment(r, o) {
      assert p.regions[k] == Carve(r, o, false)[0];
      var q := r.address / PhysAlloc.LargePageSize;
      assert r.address == q * PhysAlloc.LargePageSize + r.address % PhysAlloc.LargePageSize;
      assert p.address == (q + 1) * PhysAlloc.LargePageSize;
    }
  }

  // ---------------------------------------------------------------------
  // The wrapping subtraction

  /** A Free region too short to reach the next 2 MiB boundary, for an object that needs one. */
  predicate ShortForAlignment(r: Region, o: MemoryObjects.ObjectState)
  {
    r.kind == Free && NeedsAlignment(r, o) && r.size < Gap(r)
  }

  /**
   * As written, the size left after the alignment gap wraps around for a
   * short region, so the region passes the size test for any object up to
   * nearly 2^64 bytes; exact arithmetic rejects it.
   */
  lemma ShortFitsAsWritten(r: Region, o: MemoryObjects.ObjectState)
    requires ShortForAlignment(r, o) && o.size <= U64Modulus - (Gap(r) - r.size)
    ensures Available(r, o, true) == U64Modulus - (Gap(r) - r.size)
    ensures Fits(r, o, true) && !Fits(r, o, false)
  {
    var d := r.size - Gap(r);
    assert -(U64Modulus as int) < d < 0;
    assert WrapU64(d) == d + U64Modulus by {
      assert (d - (d + U64Modulus)) % U64Modulus == 0;
    }
  }

  /**
   * Choosing a short region breaks the list: the alignment region alone is
   * longer than the region it was cut from, so it runs into the next region
   * (or past the end of the range) and the list no longer tiles.
   */
  lemma {:induction false} ShortRegionOverruns(rs: seq<Region>, lo: nat, hi: nat, o: MemoryObjects.ObjectState)
    requires Tiles(rs, lo, hi) && o.preferredAddress == 0
    requires FirstFit(rs, o, true, 0) < |rs| && ShortForAlignment(rs[FirstFit(rs, o, true, 0)], o)
    ensures Place(rs, o).Some?
    ensures var k := FirstFit(rs, o, true, 0);
      var p := Place(rs, o).value;
      k < |p.regions| && p.regions[k] == Region(Free, None, Gap(rs[k]), rs[k].address) && Gap(rs[k]) > rs[k].size
      && !Tiles(p.regions, lo, hi)
  {
    var k := FirstFit(rs, o, true, 0);
    var r := rs[k];
    PlaceSplices(rs, o, true);
    var p := Place(rs, o).value;
    var c := Carve(r, o, true);
    assert p.regions[k] == c[0];
    if Tiles(p.regions, lo, hi) {
      TilesSplit(rs, lo, hi, k);
      assert rs[k..][1..] == rs[k + 1..];
      if k + 1 < |rs| {
        var j := k + |c|;
        assert p.regions[j] == rs[k + 1];
        TilesOrdered(p.regions, lo, hi, k, j);
      } else {
        assert rs[k + 1..] == [];
        TilesBounds(p.regions, lo, hi, k);
      }
      assert false;
    }
  }

  /** Away from the wrap-around, a region that is not short fits, starts and ends alike in both arithmetics. */
  lemma RegionAgrees(r: Region, o: MemoryObjects.ObjectState)
    requires r.address + r.size < U64Modulus && !ShortForAlignment(r, o)
    ensures Fits(r, o, true) == Fits(r, o, false)
    ensures Fits(r, o, false) ==> Start(r, o, true) == Start(r, o, false) && RestPart(r, o, true) == RestPart(r, o, false)
  {
  }

  /** The first fit is the same in both arithmetics when every region from `i` on fits alike. */
  lemma {:induction false} FirstFitAgrees(rs: seq<Region>, o: MemoryObjects.ObjectState, i: nat)
    requires i <= |rs| && forall j :: i <= j < |rs| ==> Fits(rs[j], o, true) == Fits(rs[j], o, false)
    ensures FirstFit(rs, o, true, i) == FirstFit(rs, o, false, i)
    decreases |rs| - i
  {
    if i < |rs| && !Fits(rs[i], o, false) {
      FirstFitAgrees(rs, o, i + 1);
    }
  }

  /**
   * Without a short region, in a range below 2^64, the source's placement
   * is the exact one.
   */
  lemma {:induction false} PlaceAgrees(rs: seq<Region>, lo: nat, hi: nat, o: MemoryObjects.ObjectState)
    requires Tiles(rs, lo, hi) && hi < U64Modulus
    requires forall j :: 0 <= j < |rs| ==> !ShortForAlignment(rs[j], o)
    ensures Place(rs, o) == FixedPlace(rs, o)
  {
    forall j | 0 <= j < |rs| ensures Fits(rs[j], o, true) == Fits(rs[j], o, false) {
      TilesBounds(rs, lo, hi, j);
      RegionAgrees(rs[j], o);
    }
    FirstFitAgrees(rs, o, 0);
    var k := FirstFit(rs, o, false, 0);
    if k < |rs| {
      TilesBounds(rs, lo, hi, k);
      RegionAgrees(rs[k], o);
    }
  }

  /** Every Free region is non-empty and ends on a 2 MiB boundary. */
  predicate EndsAligned(rs: seq<Region>)
  {
    forall j :: 0 <= j < |rs| && rs[j].kind == Free ==>
      rs[j].size > 0 && (rs[j].address + rs[j].size) % PhysAlloc.LargePageSize == 0
  }

  /** A non-empty region that ends on a 2 MiB boundary reaches the boundary after its start, so it is never short. */
  lemma {:induction false} AlignedEndsNotShort(rs: seq<Region>, o: MemoryObjects.ObjectState)
    requires EndsAligned(rs)
    ensures forall j :: 0 <= j < |rs| ==> !ShortForAlignment(rs[j], o)
  {
    forall j | 0 <= j < |rs| && rs[j].kind == Free && NeedsAlignment(rs[j], o) ensures rs[j].size >= Gap(rs[j]) {
      var r := rs[j];
      var q, e := r.address / PhysAlloc.LargePageSize, r.address + r.size;
      assert r.address == q * PhysAlloc.LargePageSize + r.address % PhysAlloc.LargePageSize;
      var m := e / PhysAlloc.LargePageSize;
      assert e == m * PhysAlloc.LargePageSize;
      assert q * PhysAlloc.LargePageSize < e;
      assert q < m;
    }
  }

  /** Carving a Free region that ends on a boundary leaves Free parts that end on boundaries. */
  lemma {:induction false} CarveEndsAligned(r: Region, o: MemoryObjects.ObjectState)
    requires Fits(r, o, false) && r.size > 0 && (r.address + r.size) % PhysAlloc.LargePageSize == 0
    ensures EndsAligned(Carve(r, o, false))
  {
    var c := Carve(r, o, false);
    assert Start(r, o, false) + Available(r, o, false) == r.address + r.size;
    if NeedsAlignment(r, o) {
      var q := r.address / PhysAlloc.LargePageSize;
      assert r.address == q * PhysAlloc.LargePageSize + r.address % PhysAlloc.LargePageSize;
      assert r.address + Gap(r) == (q + 1) * PhysAlloc.LargePageSize;
    }
  }

  /** Replacing a region by parts whose Free regions end on boundaries keeps the property. */
  lemma SpliceEndsAligned(rs: seq<Region>, k: nat, c: seq<Region>)
    requires k < |rs| && EndsAligned(rs) && EndsAligned(c)
    ensures EndsAligned(rs[..k] + c + rs[k + 1..])
  {
    var regions := rs[..k] + c + rs[k + 1..];
    forall j | 0 <= j < |regions| && regions[j].kind == Free
      ensures regions[j].size > 0 && (regions[j].address + regions[j].size) % PhysAlloc.LargePageSize == 0
    {
      if j < k {
        assert regions[j] == rs[j];
      } else if j < k + |c| {
        assert regions[j] == c[j - k];
      } else {
        assert regions[j] == rs[j - |c| + 1];
      }
    }
  }

  /** The exact placement keeps every Free region non-empty and ending on a 2 MiB boundary. */
  lemma {:induction false} FixedPlaceKeepsEndsAligned(rs: seq<Region>, o: MemoryObjects.ObjectState)
    requires EndsAligned(rs) && FixedPlace(rs, o).Some?
    ensures EndsAligned(FixedPlace(rs, o).value.regions)
  {
    var k := FirstFit(rs, o, false, 0);
    PlaceSplices(rs, o, false);
    CarveEndsAligned(rs[k], o);
    SpliceEndsAligned(rs, k, Carve(rs[k], o, false));
  }

  /**
   * On a list whose Free regions end on 2 MiB boundaries the source's
   * placement keeps the tiling and that property, so it holds for every
   * list `mapObject` builds from the initial one.
   */
  lemma {:induction false} PlaceKeepsList(rs: seq<Region>, lo: nat, hi: nat, o: MemoryObjects.ObjectState)
    requires Tiles(rs, lo, hi) && EndsAligned(rs) && hi < U64Modulus && Place(rs, o).Some?
    ensures Tiles(Place(rs, o).value.regions, lo, hi) && EndsAligned(Place(rs, o).value.regions)
  {
    AlignedEndsNotShort(rs, o);
    PlaceAgrees(rs, lo, hi, o);
    FixedPlaceKeepsTiling(rs, lo, hi, o);
    FixedPlaceKeepsEndsAligned(rs, o);
  }
}
