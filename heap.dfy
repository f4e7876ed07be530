/**
 * The kernel heap.
 *
 * The heap is a list of 2 MiB chunks, each a large physical page reached
 * through the direct map. A chunk starts with a 32-byte chunk header and
 * is then tiled by allocation blocks, each a 32-byte descriptor followed by
 * its payload. Allocation is first-fit over the chunks in list order and
 * over the blocks of a chunk in address order; freeing coalesces a block
 * with free neighbours and gives a chunk that became entirely free back to
 * the physical allocator.
 *
 * A chunk is modelled by the sequence of its blocks in address order, which
 * is what the descriptors' `next` links thread (the pointer surgery itself
 * is modelled in `HeapLinks`); the chunk list is the sequence of chunk
 * addresses in list order.
 */
module KernelHeap {
  import opened Machine
  import PhysAlloc

  const DescriptorSize: nat := 32
  const ChunkHeaderSize: nat := 32
  /** Requests are rounded up to a multiple of the descriptor size. */
  const AllocationAlignment: nat := DescriptorSize
  /** Payload of the single block that spans a whole chunk. */
  const FullPageAllocationSize: nat := PhysAlloc.LargePageSize - ChunkHeaderSize - DescriptorSize

  datatype Kind = Free | Allocated

  /** One allocation descriptor: its type and its payload size in bytes. */
  datatype Block = Block(kind: Kind, size: nat)

  // ---------------------------------------------------------------------
  // Request sizes

  /**
   * The request rounded up to the allocation alignment in 64-bit
   * arithmetic: a request within 31 bytes of 2^64 wraps to a rounded size
   * of 0. `FixedAdjusted` is the rounding without the wrap-around.
   */
  function Adjusted(size: nat): (r: nat)
    requires IsU64(size)
    ensures r % AllocationAlignment == 0
    ensures size + (AllocationAlignment - 1) < U64Modulus ==> size <= r < size + AllocationAlignment
    ensures size + (AllocationAlignment - 1) >= U64Modulus ==> r == 0
  {
    WrapU64(size + (AllocationAlignment - 1)) / AllocationAlignment * AllocationAlignment
  }

  /** The rounding in unbounded arithmetic: never below the request. */
  function FixedAdjusted(size: nat): (r: nat)
    ensures r % AllocationAlignment == 0
    ensures size <= r < size + AllocationAlignment
  {
    (size + (AllocationAlignment - 1)) / AllocationAlignment * AllocationAlignment
  }

  /** Below the wrap-around the two roundings agree. */
  lemma FixedAdjustedAgrees(size: nat)
    requires size + (AllocationAlignment - 1) < U64Modulus
    ensures Adjusted(size) == FixedAdjusted(size)
  {
  }

  // ---------------------------------------------------------------------
  // Layout of a chunk

  /** Bytes a run of blocks occupies: each block's descriptor and payload. */
  function Footprint(b: seq<Block>): nat
  {
    if |b| == 0 then 0 else Footprint(b[..|b| - 1]) + DescriptorSize + b[|b| - 1].size
  }

  /** Offset from the chunk start of block `i`'s descriptor. */
  function DescriptorOffset(b: seq<Block>, i: nat): nat
    requires i <= |b|
  {
    ChunkHeaderSize + Footprint(b[..i])
  }

  /** The pointer handed out for block `i` of the chunk at `base`: just past its descriptor. */
  function PayloadAddress(base: nat, b: seq<Block>, i: nat): nat
    requires i <= |b|
  {
    base + DescriptorOffset(b, i) + DescriptorSize
  }

  predicate Coalesced(b: seq<Block>)
  {
    forall i :: 0 <= i < |b| - 1 ==> b[i].kind == Allocated || b[i + 1].kind == Allocated
  }

  /**
   * A chunk's blocks tile its 2 MiB after the header exactly, every
   * payload size is a multiple of the alignment, no two free blocks are
   * adjacent and the last block is not empty (so every payload pointer
   * lies inside its chunk).
   */
  ghost predicate ChunkWellFormed(b: seq<Block>)
  {
    |b| > 0
    && Footprint(b) == PhysAlloc.LargePageSize - ChunkHeaderSize
    && (forall i :: 0 <= i < |b| ==> b[i].size % AllocationAlignment == 0)
    && Coalesced(b)
    && b[|b| - 1].size > 0
  }

  lemma {:induction false} FootprintAppend(a: seq<Block>, b: seq<Block>)
    ensures Footprint(a + b) == Footprint(a) + Footprint(b)
    decreases |b|
  {
    if |b| == 0 {
      assert a + b == a;
    } else {
      var b' := b[..|b| - 1];
      assert (a + b)[..|a + b| - 1] == a + b';
      FootprintAppend(a, b');
    }
  }

  lemma FootprintPair(x: Block, y: Block)
    ensures Footprint([x]) == DescriptorSize + x.size
    ensures Footprint([x, y]) == 2 * DescriptorSize + x.size + y.size
  {
    assert [x][..0] == [];
    assert [x, y][..1] == [x];
  }

  /** Replacing the blocks `lo..hi` by `mid` changes the footprint by the difference. */
  lemma {:induction false} FootprintSplice(b: seq<Block>, lo: nat, hi: nat, mid: seq<Block>)
    requires lo <= hi <= |b|
    ensures Footprint(b[..lo] + mid + b[hi..]) + Footprint(b[lo..hi]) == Footprint(b) + Footprint(mid)
  {
    assert b == b[..lo] + b[lo..hi] + b[hi..];
    FootprintAppend(b[..lo] + mid, b[hi..]);
    FootprintAppend(b[..lo], mid);
    FootprintAppend(b[..lo] + b[lo..hi], b[hi..]);
    FootprintAppend(b[..lo], b[lo..hi]);
  }

  /** Each descriptor starts where the previous block's payload ends. */
  lemma {:induction false} OffsetStep(b: seq<Block>, i: nat)
    requires i < |b|
    ensures DescriptorOffset(b, i + 1) == DescriptorOffset(b, i) + DescriptorSize + b[i].size
  {
    assert b[..i + 1][..i] == b[..i];
  }

  /** Block `i` (descriptor and payload) ends at or before every later descriptor and the chunk end. */
  lemma {:induction false} OffsetsIncrease(b: seq<Block>, i: nat, j: nat)
    requires i < j <= |b|
    ensures DescriptorOffset(b, i) + DescriptorSize + b[i].size <= DescriptorOffset(b, j)
  {
    assert b[..j] == b[..i + 1] + b[i + 1..j];
    FootprintAppend(b[..i + 1], b[i + 1..j]);
    OffsetStep(b, i);
  }

  /**
   * The payload handed out for block `i` lies inside its chunk and ends
   * exactly where the next descriptor (or the chunk) begins, so payloads
   * never overlap descriptors or each other.
   */
  lemma {:induction false} PayloadWithinChunk(b: seq<Block>, i: nat)
    requires ChunkWellFormed(b) && i < |b|
    ensures DescriptorOffset(b, i) + DescriptorSize + b[i].size == DescriptorOffset(b, i + 1)
    ensures DescriptorOffset(b, i + 1) <= PhysAlloc.LargePageSize
    ensures ChunkHeaderSize <= DescriptorOffset(b, i)
  {
    OffsetStep(b, i);
    if i + 1 < |b| {
      OffsetsIncrease(b, i + 1, |b|);
    }
    assert b[..|b|] == b;
  }

  /** The lowest block at or above `i` whose descriptor sits at `offset`, or `|b|`. */
  function IndexFrom(b: seq<Block>, offset: int, i: nat): (r: nat)
    requires i <= |b|
    ensures i <= r <= |b|
    ensures r < |b| ==> DescriptorOffset(b, r) == offset
    ensures forall j :: i <= j < r ==> DescriptorOffset(b, j) != offset
    decreases |b| - i
  {
    if i == |b| then |b|
    else if DescriptorOffset(b, i) == offset then i
    else IndexFrom(b, offset, i + 1)
  }

  /** The descriptor at a block's offset is that block's. */
  lemma {:induction false} IndexOfOffset(b: seq<Block>, i: nat)
    requires i < |b|
    ensures IndexFrom(b, DescriptorOffset(b, i), 0) == i
  {
    var r := IndexFrom(b, DescriptorOffset(b, i), 0);
    if r < i {
      OffsetsIncrease(b, r, i);
    }
  }

  /** The chunk a heap pointer belongs to: the pointer with its low 21 bits cleared. */
  function ChunkBase(address: nat): (base: nat)
    ensures base <= address < base + PhysAlloc.LargePageSize && base % PhysAlloc.LargePageSize == 0
  {
    address - address % PhysAlloc.LargePageSize
  }

  // ---------------------------------------------------------------------
  // Allocation inside one chunk

  predicate FitsIn(x: Block, size: nat)
  {
    x.kind == Free && x.size >= size
  }

  /** The lowest block at or above `lo` that is free and large enough, or `|b|`. */
  function FirstFit(b: seq<Block>, size: nat, lo: nat): (i: nat)
    requires lo <= |b|
    ensures lo <= i <= |b|
    ensures i < |b| ==> FitsIn(b[i], size)
    ensures forall j :: lo <= j < i ==> !FitsIn(b[j], size)
    decreases |b| - lo
  {
    if lo == |b| then |b|
    else if FitsIn(b[lo], size) then lo
    else FirstFit(b, size, lo + 1)
  }

  /**
   * Block `i` is taken for a request of `size` bytes: it is split when
   * the leftover can hold a descriptor and one aligned unit, and handed
   * out whole otherwise.
   */
  function Place(b: seq<Block>, i: nat, size: nat): (r: seq<Block>)
    requires i < |b| && FitsIn(b[i], size)
  {
    if b[i].size - size >= DescriptorSize + AllocationAlignment then
      b[..i] + [Block(Allocated, size), Block(Free, b[i].size - DescriptorSize - size)] + b[i + 1..]
    else
      b[i := Block(Allocated, b[i].size)]
  }

  /** `b` with the blocks `lo..hi` replaced by `mid`. */
  function Splice(b: seq<Block>, lo: nat, hi: nat, mid: seq<Block>): (r: seq<Block>)
    requires lo <= hi <= |b|
    ensures |r| == |b| - (hi - lo) + |mid|
  {
    b[..lo] + mid + b[hi..]
  }

  /** Block `j` of a splice: from before the run, from `mid`, or from after the run. */
  lemma SpliceAt(b: seq<Block>, lo: nat, hi: nat, mid: seq<Block>, j: nat)
    requires lo <= hi <= |b| && j < |b| - (hi - lo) + |mid|
    ensures Splice(b, lo, hi, mid)[j] == (if j < lo then b[j] else if j < lo + |mid| then mid[j - lo]
                                          else b[j - lo - |mid| + hi])
  {
  }

  /** A splice whose boundary blocks are not both free leaves no two free blocks adjacent. */
  lemma {:induction false} SpliceCoalesced(b: seq<Block>, lo: nat, hi: nat, mid: seq<Block>)
    requires lo < hi <= |b| && |mid| > 0 && Coalesced(b) && Coalesced(mid)
    requires lo > 0 ==> b[lo - 1].kind == Allocated || mid[0].kind == Allocated
    requires hi < |b| ==> mid[|mid| - 1].kind == Allocated || b[hi].kind == Allocated
    ensures Coalesced(Splice(b, lo, hi, mid))
  {
    var r := Splice(b, lo, hi, mid);
    var m := |mid|;
    forall j | 0 <= j < |r| - 1 ensures r[j].kind == Allocated || r[j + 1].kind == Allocated {
      SpliceAt(b, lo, hi, mid, j);
      SpliceAt(b, lo, hi, mid, j + 1);
      if j + 1 < lo {
        assert r[j] == b[j] && r[j + 1] == b[j + 1];
      } else if j + 1 == lo {
        assert r[j] == b[lo - 1] && r[j + 1] == mid[0];
      } else if j + 1 < lo + m {
        assert r[j] == mid[j - lo] && r[j + 1] == mid[j + 1 - lo];
      } else if j + 1 == lo + m {
        assert r[j] == mid[m - 1] && r[j + 1] == b[hi];
      } else {
        var k := j - lo - m + hi;
        assert r[j] == b[k] && r[j + 1] == b[k + 1];
      }
    }
  }

  lemma {:induction false} SpliceAligned(b: seq<Block>, lo: nat, hi: nat, mid: seq<Block>)
    requires lo <= hi <= |b|
    requires forall j :: 0 <= j < |b| ==> b[j].size % AllocationAlignment == 0
    requires forall j :: 0 <= j < |mid| ==> mid[j].size % AllocationAlignment == 0
    ensures var r := Splice(b, lo, hi, mid);
      forall j :: 0 <= j < |r| ==> r[j].size % AllocationAlignment == 0
  {
    var r := Splice(b, lo, hi, mid);
    forall j | 0 <= j < |r| ensures r[j].size % AllocationAlignment == 0 {
      SpliceAt(b, lo, hi, mid, j);
      if j < lo {
        assert r[j] == b[j];
      } else if j < lo + |mid| {
        assert r[j] == mid[j - lo];
      } else {
        assert r[j] == b[j - lo - |mid| + hi];
      }
    }
  }

  /**
   * Replacing a run of blocks by blocks of the same footprint, aligned,
   * coalesced and not free next to a free neighbour keeps a chunk well
   * formed.
   */
  lemma {:induction false} SpliceWellFormed(b: seq<Block>, lo: nat, hi: nat, mid: seq<Block>)
    requires ChunkWellFormed(b) && lo < hi <= |b| && |mid| > 0
    requires Footprint(mid) == Footprint(b[lo..hi])
    requires forall j :: 0 <= j < |mid| ==> mid[j].size % AllocationAlignment == 0
    requires Coalesced(mid)
    requires lo > 0 ==> b[lo - 1].kind == Allocated || mid[0].kind == Allocated
    requires hi < |b| ==> mid[|mid| - 1].kind == Allocated || b[hi].kind == Allocated
    requires hi == |b| ==> mid[|mid| - 1].size > 0
    ensures ChunkWellFormed(Splice(b, lo, hi, mid))
  {
    var r := Splice(b, lo, hi, mid);
    SpliceAt(b, lo, hi, mid, |r| - 1);
    FootprintSplice(b, lo, hi, mid);
    SpliceCoalesced(b, lo, hi, mid);
    SpliceAligned(b, lo, hi, mid);
  }

  lemma FootprintOne(x: Block)
    ensures Footprint([x]) == DescriptorSize + x.size
  {
    assert [x][..0] == [];
  }

  lemma {:induction false} FootprintRun(b: seq<Block>, lo: nat)
    requires lo < |b|
    ensures Footprint(b[lo..lo + 1]) == DescriptorSize + b[lo].size
    ensures lo + 1 < |b| ==> Footprint(b[lo..lo + 2]) == 2 * DescriptorSize + b[lo].size + b[lo + 1].size
    ensures lo + 2 < |b| ==> Footprint(b[lo..lo + 3]) == 3 * DescriptorSize + b[lo].size + b[lo + 1].size + b[lo + 2].size
  {
    assert b[lo..lo + 1] == [b[lo]];
    FootprintOne(b[lo]);
    if lo + 1 < |b| {
      assert b[lo..lo + 2] == b[lo..lo + 1] + [b[lo + 1]];
      FootprintAppend(b[lo..lo + 1], [b[lo + 1]]);
      FootprintOne(b[lo + 1]);
    }
    if lo + 2 < |b| {
      assert b[lo..lo + 3] == b[lo..lo + 2] + [b[lo + 2]];
      FootprintAppend(b[lo..lo + 2], [b[lo + 2]]);
      FootprintOne(b[lo + 2]);
    }
  }

  /** Whether taking block `i` for `size` bytes splits it. */
  predicate Splits(x: Block, size: nat)
    requires x.size >= size
  {
    x.size - size >= DescriptorSize + AllocationAlignment
  }

  /**
   * Taking a block keeps the chunk well formed and puts an allocated block
   * of at least the requested size at the same position (so at the same
   * descriptor address); a split adds exactly one free block after it.
   */
  lemma {:induction false} PlaceWellFormed(b: seq<Block>, i: nat, size: nat)
    requires ChunkWellFormed(b) && i < |b| && FitsIn(b[i], size) && size % AllocationAlignment == 0
    ensures var r := Place(b, i, size);
      ChunkWellFormed(r) && r[..i] == b[..i]
      && r[i].kind == Allocated && size <= r[i].size
      && (Splits(b[i], size) ==>
            r == Splice(b, i, i + 1, [Block(Allocated, size), Block(Free, b[i].size - DescriptorSize - size)]))
      && (!Splits(b[i], size) ==> r == Splice(b, i, i + 1, [Block(Allocated, b[i].size)]))
  {
    FootprintRun(b, i);
    if Splits(b[i], size) {
      var mid := [Block(Allocated, size), Block(Free, b[i].size - DescriptorSize - size)];
      FootprintRun(mid, 0);
      assert mid[0..2] == mid;
      SpliceWellFormed(b, i, i + 1, mid);
    } else {
      var mid := [Block(Allocated, b[i].size)];
      FootprintOne(mid[0]);
      SpliceWellFormed(b, i, i + 1, mid);
      assert Place(b, i, size) == Splice(b, i, i + 1, mid);
    }
  }

  // ---------------------------------------------------------------------
  // Freeing inside one chunk

  /** Block `j` absorbs its successor: one free block covering both and the successor's descriptor. */
  function Absorb(b: seq<Block>, j: nat): (r: seq<Block>)
    requires j + 1 < |b|
  {
    b[..j] + [Block(Free, b[j].size + DescriptorSize + b[j + 1].size)] + b[j + 2..]
  }

  /** Block `i` becomes free and merges with a free predecessor, then with a free successor. */
  function FreeBlock(b: seq<Block>, i: nat): (r: seq<Block>)
    requires i < |b|
  {
    var f := b[i := Block(Free, b[i].size)];
    var mergePrevious := i > 0 && f[i - 1].kind == Free;
    var g := if mergePrevious then Absorb(f, i - 1) else f;
    var d := if mergePrevious then i - 1 else i;
    if d + 1 < |g| && g[d + 1].kind == Free then Absorb(g, d) else g
  }

  /** First block of the run `FreeBlock` merges block `i` into. */
  function RunStart(b: seq<Block>, i: nat): nat
    requires i < |b|
  {
    if i > 0 && b[i - 1].kind == Free then i - 1 else i
  }

  /** End (exclusive) of the run `FreeBlock` merges block `i` into. */
  function RunEnd(b: seq<Block>, i: nat): nat
    requires i < |b|
  {
    if i + 1 < |b| && b[i + 1].kind == Free then i + 2 else i + 1
  }

  /**
   * Freeing block `i` replaces it and its free neighbours by one free
   * block spanning all their bytes, descriptors included.
   */
  lemma {:induction false} FreeBlockMergesRun(b: seq<Block>, i: nat)
    requires i < |b|
    ensures var lo, hi := RunStart(b, i), RunEnd(b, i);
      FreeBlock(b, i) == Splice(b, lo, hi, [Block(Free, Footprint(b[lo..hi]) - DescriptorSize)])
  {
    if RunStart(b, i) < i {
      MergesWithPrevious(b, i);
    } else {
      MergesWithoutPrevious(b, i);
    }
  }

  lemma {:induction false} MergesWithPrevious(b: seq<Block>, i: nat)
    requires 0 < i < |b| && b[i - 1].kind == Free
    ensures var hi := RunEnd(b, i);
      FreeBlock(b, i) == Splice(b, i - 1, hi, [Block(Free, Footprint(b[i - 1..hi]) - DescriptorSize)])
  {
    FootprintRun(b, i - 1);
    var x := Block(Free, b[i].size);
    var y := Block(Free, b[i - 1].size + DescriptorSize + b[i].size);
    var g := Absorb(b[i := x], i - 1);
    AbsorbUpdated(b, i, x, y);
    assert g == b[..i - 1] + [y] + b[i + 1..];
    if RunEnd(b, i) == i + 2 {
      MergesWithBoth(b, i, g, y);
    }
  }

  lemma AbsorbUpdated(b: seq<Block>, i: nat, x: Block, y: Block)
    requires 0 < i < |b| && x == Block(Free, b[i].size) && y == Block(Free, b[i - 1].size + DescriptorSize + b[i].size)
    ensures Absorb(b[i := x], i - 1) == b[..i - 1] + [y] + b[i + 1..]
  {
    UpdateThenReplace(b, i, x, i - 1, i + 1, y);
  }

  lemma MergesWithBoth(b: seq<Block>, i: nat, g: seq<Block>, y: Block)
    requires 0 < i && i + 1 < |b| && g == b[..i - 1] + [y] + b[i + 1..]
    ensures Absorb(g, i - 1) == b[..i - 1] + [Block(Free, y.size + DescriptorSize + b[i + 1].size)] + b[i + 2..]
  {
    ReplaceTwice(b, i - 1, i + 1, y, Block(Free, y.size + DescriptorSize + b[i + 1].size));
  }

  lemma {:induction false} MergesWithoutPrevious(b: seq<Block>, i: nat)
    requires i < |b| && !(i > 0 && b[i - 1].kind == Free)
    ensures var hi := RunEnd(b, i);
      FreeBlock(b, i) == Splice(b, i, hi, [Block(Free, Footprint(b[i..hi]) - DescriptorSize)])
  {
    FootprintRun(b, i);
    UpdateAsSplice(b, i, Block(Free, b[i].size));
    if RunEnd(b, i) == i + 2 {
      UpdateThenReplace(b, i, Block(Free, b[i].size), i, i + 2, Block(Free, b[i].size + DescriptorSize + b[i + 1].size));
    }
  }

  lemma UpdateAsSplice<T>(b: seq<T>, i: nat, x: T)
    requires i < |b|
    ensures b[i := x] == b[..i] + [x] + b[i + 1..]
  {
  }

  /** Replacing a run that covers an updated position forgets the update. */
  lemma UpdateThenReplace<T>(b: seq<T>, i: nat, x: T, lo: nat, hi: nat, y: T)
    requires lo <= i < hi <= |b|
    ensures b[i := x][..lo] + [y] + b[i := x][hi..] == b[..lo] + [y] + b[hi..]
  {
    assert b[i := x][..lo] == b[..lo];
    assert b[i := x][hi..] == b[hi..];
  }

  /** Replacing a run by `y` and then `y` and its successor by `z`. */
  lemma ReplaceTwice<T>(b: seq<T>, lo: nat, hi: nat, y: T, z: T)
    requires lo < hi < |b|
    ensures var g := b[..lo] + [y] + b[hi..];
      g[lo + 1] == b[hi] && g[..lo] + [z] + g[lo + 2..] == b[..lo] + [z] + b[hi + 1..]
  {
    var g := b[..lo] + [y] + b[hi..];
    assert g[..lo] == b[..lo];
    assert g[lo + 2..] == b[hi + 1..];
  }

  /**
   * Freeing keeps the chunk well formed: the bytes are conserved and the
   * merges leave no two free blocks adjacent.
   */
  lemma {:induction false} FreeBlockWellFormed(b: seq<Block>, i: nat)
    requires ChunkWellFormed(b) && i < |b|
    ensures ChunkWellFormed(FreeBlock(b, i))
  {
    var lo, hi := RunStart(b, i), RunEnd(b, i);
    var m := Splice(b, lo, hi, [Block(Free, Footprint(b[lo..hi]) - DescriptorSize)]);
    FreeBlockMergesRun(b, i);
    assert FreeBlock(b, i) == m;
    MergedRunWellFormed(b, i);
    assert ChunkWellFormed(m);
  }

  /** A run of at most three aligned blocks spans a positive multiple of the alignment. */
  lemma {:induction false} RunTotalAligned(b: seq<Block>, lo: nat, hi: nat)
    requires lo < hi <= lo + 3 && hi <= |b|
    requires forall j :: 0 <= j < |b| ==> b[j].size % AllocationAlignment == 0
    ensures Footprint(b[lo..hi]) >= DescriptorSize && Footprint(b[lo..hi]) % AllocationAlignment == 0
  {
    FootprintRun(b, lo);
    var q0 := b[lo].size / AllocationAlignment;
    assert b[lo].size == AllocationAlignment * q0;
    if hi == lo + 1 {
      assert Footprint(b[lo..hi]) == AllocationAlignment * (q0 + 1);
    } else {
      var q1 := b[lo + 1].size / AllocationAlignment;
      assert b[lo + 1].size == AllocationAlignment * q1;
      if hi == lo + 2 {
        assert Footprint(b[lo..hi]) == AllocationAlignment * (q0 + q1 + 2);
      } else {
        var q2 := b[lo + 2].size / AllocationAlignment;
        assert b[lo + 2].size == AllocationAlignment * q2;
        assert Footprint(b[lo..hi]) == AllocationAlignment * (q0 + q1 + q2 + 3);
      }
    }
  }

  /** The single free block replacing the run around block `i` fits a well-formed chunk. */
  lemma {:induction false} MergedRunWellFormed(b: seq<Block>, i: nat)
    requires ChunkWellFormed(b) && i < |b|
    ensures var lo, hi := RunStart(b, i), RunEnd(b, i);
      ChunkWellFormed(Splice(b, lo, hi, [Block(Free, Footprint(b[lo..hi]) - DescriptorSize)]))
  {
    var lo, hi := RunStart(b, i), RunEnd(b, i);
    var total := Footprint(b[lo..hi]);
    FootprintRun(b, lo);
    RunTotalAligned(b, lo, hi);
    var mid := [Block(Free, total - DescriptorSize)];
    FootprintOne(mid[0]);
    assert Footprint(mid) == total;
    var q := total / AllocationAlignment;
    assert total - DescriptorSize == AllocationAlignment * (q - 1);
    assert mid[0].size % AllocationAlignment == 0;
    assert hi == |b| ==> total - DescriptorSize >= b[hi - 1].size;
    assert lo > 0 ==> b[lo - 1].kind == Allocated by {
      if lo > 0 && lo < i {
        assert b[lo].kind == Free;
      }
    }
    assert hi < |b| ==> b[hi].kind == Allocated by {
      if hi < |b| && hi == i + 2 {
        assert b[i + 1].kind == Free;
      }
    }
    SpliceWellFormed(b, lo, hi, mid);
  }

  /** Freeing the block just taken gives the chunk back exactly as it was. */
  lemma {:induction false} PlaceThenFree(b: seq<Block>, i: nat, size: nat)
    requires ChunkWellFormed(b) && i < |b| && FitsIn(b[i], size) && size % AllocationAlignment == 0
    ensures FreeBlock(Place(b, i, size), i) == b
  {
    assert i > 0 ==> b[i - 1].kind == Allocated;
    assert i + 1 < |b| ==> b[i + 1].kind == Allocated;
    if Splits(b[i], size) {
      PlaceThenFreeSplit(b, i, size);
    } else {
      PlaceThenFreeWhole(b, i, size);
    }
  }

  lemma {:induction false} PlaceThenFreeSplit(b: seq<Block>, i: nat, size: nat)
    requires i < |b| && FitsIn(b[i], size) && Splits(b[i], size)
    requires i > 0 ==> b[i - 1].kind == Allocated
    ensures FreeBlock(Place(b, i, size), i) == b
  {
    var u, v := Block(Allocated, size), Block(Free, b[i].size - DescriptorSize - size);
    var r := Place(b, i, size);
    assert r == b[..i] + [u, v] + b[i + 1..];
    assert r[i] == u && r[i + 1] == v && (i > 0 ==> r[i - 1] == b[i - 1]);
    MergesWithoutPrevious(r, i);
    FootprintRun(r, i);
    ReplacePair(b, i, u, v, b[i]);
  }

  /** Replacing the pair that replaced block `i` by one block `x` is updating block `i` to `x`. */
  lemma ReplacePair<T>(b: seq<T>, i: nat, u: T, v: T, x: T)
    requires i < |b|
    ensures var r := b[..i] + [u, v] + b[i + 1..];
      |r| == |b| + 1 && r[..i] + [x] + r[i + 2..] == b[i := x]
  {
    var r := b[..i] + [u, v] + b[i + 1..];
    assert r[..i] == b[..i];
    assert r[i + 2..] == b[i + 1..];
  }

  lemma {:induction false} PlaceThenFreeWhole(b: seq<Block>, i: nat, size: nat)
    requires i < |b| && FitsIn(b[i], size) && !Splits(b[i], size)
    requires i > 0 ==> b[i - 1].kind == Allocated
    requires i + 1 < |b| ==> b[i + 1].kind == Allocated
    ensures FreeBlock(Place(b, i, size), i) == b
  {
    var r := Place(b, i, size);
    assert r == b[i := Block(Allocated, b[i].size)];
    assert r[i := Block(Free, r[i].size)] == b;
  }

  /**
   * A chunk's first descriptor is free with the full payload exactly when
   * the chunk is one free block, i.e. nothing in it is allocated.
   */
  lemma {:induction false} WholeChunkFree(b: seq<Block>)
    requires ChunkWellFormed(b)
    ensures (b[0].kind == Free && b[0].size == FullPageAllocationSize) <==> b == [Block(Free, FullPageAllocationSize)]
  {
    if |b| > 1 {
      OffsetsIncrease(b, 0, 1);
      OffsetsIncrease(b, 1, |b|);
      assert b[..|b|] == b;
      assert b[..0] == [];
    } else {
      FootprintPair(b[0], b[0]);
      assert b == [b[0]];
    }
  }

  // ---------------------------------------------------------------------
  // The whole heap

  /** The chunk list (chunk addresses in list order) and each chunk's blocks. */
  datatype HeapState = HeapState(order: seq<nat>, chunks: map<nat, seq<Block>>)

  ghost predicate HeapWellFormed(h: HeapState)
  {
    (forall i, j :: 0 <= i < j < |h.order| ==> h.order[i] != h.order[j])
    && (forall a :: a in h.chunks <==> a in h.order)
    && (forall a :: a in h.chunks ==> ChunkWellFormed(h.chunks[a]) && a % PhysAlloc.LargePageSize == 0)
  }

  /** The physical large page behind a chunk address. */
  function ChunkPage(base: nat): (address: nat)
  {
    WrapU64(base - PagingBase)
  }

  /**
   * Every chunk is a large physical page reached through the direct map,
   * handed to the kernel as a whole and still recorded so by the physical
   * allocator.
   */
  ghost predicate Backed(h: HeapState, frames: PhysAlloc.Frames)
    requires PhysAlloc.WellFormed(frames)
  {
    forall a :: a in h.chunks ==>
      PagingBase <= a
      && var page := (a - PagingBase) / PhysAlloc.LargePageSize;
      1 <= page < PhysAlloc.MaxLargePage
      && a - PagingBase == page * PhysAlloc.LargePageSize
      && PhysAlloc.BriefAt(frames.brief, page) == PhysAlloc.FullySingleAllocated
      && frames.large[page] == PhysAlloc.Entry(KernelPID, PhysAlloc.Allocated)
  }

  /** The first chunk at or after position `k` of the list that has a block for `size`, or the list length. */
  function FittingChunk(h: HeapState, size: nat, k: nat): (c: nat)
    requires HeapWellFormed(h) && k <= |h.order|
    ensures k <= c <= |h.order|
    ensures c < |h.order| ==> FirstFit(h.chunks[h.order[c]], size, 0) < |h.chunks[h.order[c]]|
    ensures forall j :: k <= j < c ==> FirstFit(h.chunks[h.order[j]], size, 0) == |h.chunks[h.order[j]]|
    decreases |h.order| - k
  {
    if k == |h.order| then k
    else if FirstFit(h.chunks[h.order[k]], size, 0) < |h.chunks[h.order[k]]| then k
    else FittingChunk(h, size, k + 1)
  }

  /** `findAllocation` on the chunk at `base`: the first fitting block is taken and its payload address returned. */
  function FindAllocationSpec(h: HeapState, base: nat, size: nat): (res: (HeapState, Option<nat>))
    requires HeapWellFormed(h) && base in h.chunks
  {
    var b := h.chunks[base];
    var i := FirstFit(b, size, 0);
    if i == |b| then (h, None)
    else (h.(chunks := h.chunks[base := Place(b, i, size)]), Some(PayloadAddress(base, b, i)))
  }

  /** The block `findAllocation` takes is the first that fits, and its payload address is returned. */
  lemma FindAllocationFound(h: HeapState, base: nat, size: nat, i: nat)
    requires HeapWellFormed(h) && base in h.chunks && i < |h.chunks[base]| && FitsIn(h.chunks[base][i], size)
    requires FirstFit(h.chunks[base], size, i) == FirstFit(h.chunks[base], size, 0)
    requires size % AllocationAlignment == 0
    ensures HeapWellFormed(h.(chunks := h.chunks[base := Place(h.chunks[base], i, size)]))
    ensures FindAllocationSpec(h, base, size)
      == (h.(chunks := h.chunks[base := Place(h.chunks[base], i, size)]), Some(PayloadAddress(base, h.chunks[base], i)))
  {
    PlaceWellFormed(h.chunks[base], i, size);
    UpdateKeepsHeapWellFormed(h, base, Place(h.chunks[base], i, size));
  }

  /** `allocateAndAppendNewChunk`: a large page from the physical allocator becomes a chunk with one free block. */
  function AppendChunkSpec(h: HeapState, frames: PhysAlloc.Frames): (res: (HeapState, PhysAlloc.Frames, Outcome<nat>))
    requires PhysAlloc.WellFormed(frames)
  {
    var (frames', page) := PhysAlloc.AllocateLarge(frames, KernelPID);
    if page.Hang? then (h, frames', Hang)
    else
      var base := page.value + PagingBase;
      (HeapState(h.order + [base], h.chunks[base := [Block(Free, FullPageAllocationSize)]]), frames', Ok(base))
  }

  /** The two outcomes of `allocateAndAppendNewChunk`, by the outcome of the large page request. */
  lemma AppendChunkCases(h: HeapState, frames: PhysAlloc.Frames, frames': PhysAlloc.Frames, page: Outcome<nat>)
    requires PhysAlloc.WellFormed(frames) && PhysAlloc.Allocate(frames, KernelPID, true) == (frames', page)
    ensures page.Hang? ==> AppendChunkSpec(h, frames) == (h, frames', Hang)
    ensures page.Ok? ==>
      var base: nat := page.value + PagingBase;
      AppendChunkSpec(h, frames) == (HeapState(h.order + [base], h.chunks[base := [Block(Free, FullPageAllocationSize)]]), frames', Ok(base))
  {
  }

  /** `allocate`: first fit over the chunks in list order, else a new chunk at the end of the list. */
  function AllocateSpec(h: HeapState, frames: PhysAlloc.Frames, size: nat): (res: (HeapState, PhysAlloc.Frames, Outcome<nat>))
    requires HeapWellFormed(h) && PhysAlloc.WellFormed(frames) && Backed(h, frames) && IsU64(size)
  {
    var adjusted := Adjusted(size);
    if adjusted > FullPageAllocationSize then (h, frames, Hang)
    else
      var k := FittingChunk(h, adjusted, 0);
      if k < |h.order| then
        var (h', address) := FindAllocationSpec(h, h.order[k], adjusted);
        (h', frames, Ok(address.value))
      else
        var (h1, frames', chunk) := AppendChunkSpec(h, frames);
        if chunk.Hang? then (h, frames', Hang)
        else
          AppendChunkWellFormed(h, frames);
          var (h', address) := FindAllocationSpec(h1, chunk.value, adjusted);
          (h', frames', Ok(address.value))
  }

  /** `s` without its first occurrence of `x`. */
  function Erase(s: seq<nat>, x: nat): (r: seq<nat>)
    ensures forall y :: y in r ==> y in s
    ensures forall y :: y in s && y != x ==> y in r
  {
    if |s| == 0 then []
    else if s[0] == x then s[1..]
    else [s[0]] + Erase(s[1..], x)
  }

  /** Whether `address` is a pointer the heap handed out: past a descriptor of one of its chunks. */
  predicate IsHeapPointer(h: HeapState, address: nat)
  {
    var base := ChunkBase(address);
    base in h.chunks
    && IndexFrom(h.chunks[base], address - base - DescriptorSize, 0) < |h.chunks[base]|
  }

  /** The block a heap pointer's descriptor belongs to. */
  function BlockIndex(h: HeapState, address: nat): (i: nat)
    requires IsHeapPointer(h, address)
    ensures i < |h.chunks[ChunkBase(address)]|
    ensures PayloadAddress(ChunkBase(address), h.chunks[ChunkBase(address)], i) == address
  {
    var base := ChunkBase(address);
    IndexFrom(h.chunks[base], address - base - DescriptorSize, 0)
  }

  /**
   * `free`: the block becomes free and coalesces; a chunk left entirely
   * free is unlinked and `freeAndRemoveChunk` hands the chunk pointer
   * itself, a direct-map address, to the physical allocator (see
   * `FreeLeaksEmptyChunk`). The corrected twin is `FixedFreeSpec`.
   */
  function FreeSpec(h: HeapState, frames: PhysAlloc.Frames, address: nat): (res: (HeapState, PhysAlloc.Frames))
    requires HeapWellFormed(h) && PhysAlloc.WellFormed(frames) && IsHeapPointer(h, address)
  {
    var base := ChunkBase(address);
    var b := FreeBlock(h.chunks[base], BlockIndex(h, address));
    if b[0].kind == Free && b[0].size == FullPageAllocationSize then
      (HeapState(Erase(h.order, base), h.chunks - {base}), PhysAlloc.Free(frames, base))
    else
      (h.(chunks := h.chunks[base := b]), frames)
  }

  /** `free` returning the physical page behind the chunk instead. */
  function FixedFreeSpec(h: HeapState, frames: PhysAlloc.Frames, address: nat): (res: (HeapState, PhysAlloc.Frames))
    requires HeapWellFormed(h) && PhysAlloc.WellFormed(frames) && IsHeapPointer(h, address)
  {
    var base := ChunkBase(address);
    var b := FreeBlock(h.chunks[base], BlockIndex(h, address));
    if b[0].kind == Free && b[0].size == FullPageAllocationSize then
      (HeapState(Erase(h.order, base), h.chunks - {base}), PhysAlloc.Free(frames, ChunkPage(base)))
    else
      (h.(chunks := h.chunks[base := b]), frames)
  }

  /** The two outcomes of `free`: the chunk is removed when left entirely free, else it keeps its merged blocks. */
  lemma FreeCases(h: HeapState, frames: PhysAlloc.Frames, address: nat, base: nat, b: seq<Block>)
    requires HeapWellFormed(h) && PhysAlloc.WellFormed(frames) && IsHeapPointer(h, address)
    requires base == ChunkBase(address) && b == FreeBlock(h.chunks[base], BlockIndex(h, address))
    requires ChunkWellFormed(b)
    ensures HeapWellFormed(h.(chunks := h.chunks[base := b]))
    ensures b[0].kind == Free && b[0].size == FullPageAllocationSize ==>
      FreeSpec(h, frames, address) == (HeapState(Erase(h.order, base), h.chunks - {base}), PhysAlloc.Free(frames, base))
    ensures !(b[0].kind == Free && b[0].size == FullPageAllocationSize) ==>
      FreeSpec(h, frames, address) == (h.(chunks := h.chunks[base := b]), frames)
  {
    UpdateKeepsHeapWellFormed(h, base, b);
  }

  // ---------------------------------------------------------------------
  // Properties of the heap transitions

  /** A whole chunk is one free block spanning the whole chunk. */
  lemma FreshChunkWellFormed()
    ensures ChunkWellFormed([Block(Free, FullPageAllocationSize)])
  {
    FootprintOne(Block(Free, FullPageAllocationSize));
  }

  /**
   * The large page a new chunk gets was fully free, so it is not already a
   * chunk; appending it keeps the heap well formed and backed.
   */
  lemma {:induction false} AppendChunkWellFormed(h: HeapState, frames: PhysAlloc.Frames)
    requires HeapWellFormed(h) && PhysAlloc.WellFormed(frames) && Backed(h, frames)
    ensures var (h', frames', r) := AppendChunkSpec(h, frames);
      HeapWellFormed(h') && PhysAlloc.WellFormed(frames') && Backed(h', frames')
      && (r.Ok? ==> r.value in h'.chunks && h'.chunks[r.value] == [Block(Free, FullPageAllocationSize)]
                    && h'.order == h.order + [r.value] && r.value !in h.chunks)
      && (r.Hang? ==> h' == h && frames' == frames)
  {
    PhysAlloc.AllocatePreservesWellFormed(frames, KernelPID, true);
    var (frames', page) := PhysAlloc.AllocateLarge(frames, KernelPID);
    AppendChunkCases(h, frames, frames', page);
    if page.Ok? {
      NewChunkIsFresh(h, frames);
      AppendKeepsHeapWellFormed(h, page.value + PagingBase);
      NewChunkBacked(h, frames);
    }
  }

  lemma {:induction false} AppendKeepsHeapWellFormed(h: HeapState, base: nat)
    requires HeapWellFormed(h) && base !in h.chunks && base % PhysAlloc.LargePageSize == 0
    ensures HeapWellFormed(HeapState(h.order + [base], h.chunks[base := [Block(Free, FullPageAllocationSize)]]))
  {
    FreshChunkWellFormed();
    var order := h.order + [base];
    assert forall i :: 0 <= i < |h.order| ==> order[i] == h.order[i];
    assert forall a :: a in order <==> a in h.order || a == base;
  }

  /** The page the physical allocator hands out is not a chunk yet, and its address is 2 MiB aligned. */
  lemma {:induction false} NewChunkIsFresh(h: HeapState, frames: PhysAlloc.Frames)
    requires HeapWellFormed(h) && PhysAlloc.WellFormed(frames) && Backed(h, frames)
    requires PhysAlloc.AllocateLarge(frames, KernelPID).1.Ok?
    ensures var page := PhysAlloc.AllocateLarge(frames, KernelPID).1.value;
      page + PagingBase !in h.chunks && (page + PagingBase) % PhysAlloc.LargePageSize == 0
  {
    PhysAlloc.AllocateLargeTakesLowestFree(frames, KernelPID);
    var page := PhysAlloc.AllocateLarge(frames, KernelPID).1.value;
    var i := page / PhysAlloc.LargePageSize;
    var base := page + PagingBase;
    assert page == i * PhysAlloc.LargePageSize;
    assert (base - PagingBase) / PhysAlloc.LargePageSize == i;
  }

  lemma {:induction false} NewChunkBacked(h: HeapState, frames: PhysAlloc.Frames)
    requires HeapWellFormed(h) && PhysAlloc.WellFormed(frames) && Backed(h, frames)
    requires PhysAlloc.AllocateLarge(frames, KernelPID).1.Ok?
    ensures var (h', frames', _) := AppendChunkSpec(h, frames);
      PhysAlloc.WellFormed(frames') && Backed(h', frames')
  {
    PhysAlloc.AllocateLargeTakesLowestFree(frames, KernelPID);
    PhysAlloc.AllocatePreservesWellFormed(frames, KernelPID, true);
    var (h', frames', r) := AppendChunkSpec(h, frames);
    var page := PhysAlloc.AllocateLarge(frames, KernelPID).1.value;
    var i := page / PhysAlloc.LargePageSize;
    var base := page + PagingBase;
    assert page == i * PhysAlloc.LargePageSize;
    assert frames'.large == frames.large[i := PhysAlloc.Entry(KernelPID, PhysAlloc.Allocated)];
    forall a | a in h'.chunks
      ensures PagingBase <= a
        && var q := (a - PagingBase) / PhysAlloc.LargePageSize;
        1 <= q < PhysAlloc.MaxLargePage
        && a - PagingBase == q * PhysAlloc.LargePageSize
        && PhysAlloc.BriefAt(frames'.brief, q) == PhysAlloc.FullySingleAllocated
        && frames'.large[q] == PhysAlloc.Entry(KernelPID, PhysAlloc.Allocated)
    {
      if a == base {
        assert (a - PagingBase) / PhysAlloc.LargePageSize == i;
      } else {
        assert a in h.chunks;
      }
    }
  }

  /** Every payload pointer of a well-formed chunk lies strictly inside the chunk. */
  lemma {:induction false} PayloadInsideChunk(b: seq<Block>, i: nat)
    requires ChunkWellFormed(b) && i < |b|
    ensures DescriptorOffset(b, i) + DescriptorSize < PhysAlloc.LargePageSize
  {
    PayloadWithinChunk(b, i);
    if i + 1 < |b| {
      PayloadWithinChunk(b, i + 1);
    }
  }

  /** The pointer handed out for block `i` leads `free` back to that chunk and that block. */
  lemma {:induction false} PayloadLocatesBlock(h: HeapState, base: nat, i: nat)
    requires HeapWellFormed(h) && base in h.chunks && i < |h.chunks[base]|
    ensures var address := PayloadAddress(base, h.chunks[base], i);
      ChunkBase(address) == base && IsHeapPointer(h, address) && BlockIndex(h, address) == i
  {
    var b := h.chunks[base];
    var address := PayloadAddress(base, b, i);
    PayloadInsideChunk(b, i);
    assert address % PhysAlloc.LargePageSize == DescriptorOffset(b, i) + DescriptorSize;
    IndexOfOffset(b, i);
  }

  lemma {:induction false} EraseDistinct(s: seq<nat>, x: nat)
    requires forall i, j :: 0 <= i < j < |s| ==> s[i] != s[j]
    ensures var r := Erase(s, x);
      (forall i, j :: 0 <= i < j < |r| ==> r[i] != r[j]) && (forall y :: y in r <==> y in s && y != x)
  {
    if |s| > 0 && s[0] != x {
      EraseDistinct(s[1..], x);
      assert s[0] !in s[1..];
    } else if |s| > 0 {
      assert s[0] !in s[1..];
    }
  }

  lemma {:induction false} EraseAppended(s: seq<nat>, x: nat)
    requires x !in s
    ensures Erase(s + [x], x) == s
  {
    if |s| > 0 {
      assert (s + [x])[1..] == s[1..] + [x];
      EraseAppended(s[1..], x);
    }
  }

  /** Freeing the chunk's large page changes the physical allocator's record of that page only. */
  lemma {:induction false} ReleaseFreesOnlyChunkPage(frames: PhysAlloc.Frames, base: nat, h: HeapState)
    requires PhysAlloc.WellFormed(frames) && Backed(h, frames) && base in h.chunks
    ensures var page := (base - PagingBase) / PhysAlloc.LargePageSize;
      var frames' := PhysAlloc.Free(frames, ChunkPage(base));
      PhysAlloc.WellFormed(frames')
      && PhysAlloc.BriefAt(frames'.brief, page) == PhysAlloc.FullyFree
      && frames'.large[page] == PhysAlloc.FreeEntry
      && frames'.freeLarge == WrapU64(frames.freeLarge + 1)
      && (forall q :: 0 <= q < PhysAlloc.MaxLargePage && q != page ==>
            PhysAlloc.BriefAt(frames'.brief, q) == PhysAlloc.BriefAt(frames.brief, q) && frames'.large[q] == frames.large[q])
  {
    var page := (base - PagingBase) / PhysAlloc.LargePageSize;
    assert ChunkPage(base) == page * PhysAlloc.LargePageSize;
    assert ChunkPage(base) / PhysAlloc.LargePageSize == page && ChunkPage(base) % PhysAlloc.LargePageSize == 0;
    PhysAlloc.FreePreservesWellFormed(frames, ChunkPage(base));
    assert PhysAlloc.Free(frames, ChunkPage(base)) == PhysAlloc.FreeLarge(frames, page);
  }

  lemma {:induction false} RemoveChunkWellFormed(h: HeapState, frames: PhysAlloc.Frames, base: nat)
    requires HeapWellFormed(h) && PhysAlloc.WellFormed(frames) && Backed(h, frames) && base in h.chunks
    ensures var h' := HeapState(Erase(h.order, base), h.chunks - {base});
      var frames' := PhysAlloc.Free(frames, ChunkPage(base));
      HeapWellFormed(h') && PhysAlloc.WellFormed(frames') && Backed(h', frames')
  {
    EraseDistinct(h.order, base);
    ReleaseFreesOnlyChunkPage(frames, base, h);
    var frames' := PhysAlloc.Free(frames, ChunkPage(base));
    var page := (base - PagingBase) / PhysAlloc.LargePageSize;
    forall a | a in h.chunks && a != base
      ensures (a - PagingBase) / PhysAlloc.LargePageSize != page
    {
    }
  }

  /**
   * Removing a chunk as written: the direct-map address of a chunk lies
   * above the 16 GiB the physical allocator manages, so `freePage` ignores
   * it and the page stays allocated to the kernel.
   */
  lemma {:induction false} RemoveChunkLeaksPage(h: HeapState, frames: PhysAlloc.Frames, base: nat)
    requires HeapWellFormed(h) && PhysAlloc.WellFormed(frames) && Backed(h, frames) && base in h.chunks
    ensures var h' := HeapState(Erase(h.order, base), h.chunks - {base});
      PhysAlloc.Free(frames, base) == frames && HeapWellFormed(h') && Backed(h', frames)
  {
    EraseDistinct(h.order, base);
    assert base >= PhysAlloc.MaxLargePage * PhysAlloc.LargePageSize;
  }

  /** `free` keeps the heap well formed and every remaining chunk backed by a kernel large page. */
  lemma {:induction false} FreePreservesHeap(h: HeapState, frames: PhysAlloc.Frames, address: nat)
    requires HeapWellFormed(h) && PhysAlloc.WellFormed(frames) && Backed(h, frames) && IsHeapPointer(h, address)
    ensures var (h', frames') := FreeSpec(h, frames, address);
      HeapWellFormed(h') && PhysAlloc.WellFormed(frames') && Backed(h', frames')
  {
    var base := ChunkBase(address);
    var b := FreeBlock(h.chunks[base], BlockIndex(h, address));
    FreeBlockWellFormed(h.chunks[base], BlockIndex(h, address));
    if b[0].kind == Free && b[0].size == FullPageAllocationSize {
      RemoveChunkLeaksPage(h, frames, base);
    }
  }

  /** The corrected `free` keeps the same invariants. */
  lemma {:induction false} FixedFreePreservesHeap(h: HeapState, frames: PhysAlloc.Frames, address: nat)
    requires HeapWellFormed(h) && PhysAlloc.WellFormed(frames) && Backed(h, frames) && IsHeapPointer(h, address)
    ensures var (h', frames') := FixedFreeSpec(h, frames, address);
      HeapWellFormed(h') && PhysAlloc.WellFormed(frames') && Backed(h', frames')
  {
    var base := ChunkBase(address);
    var b := FreeBlock(h.chunks[base], BlockIndex(h, address));
    FreeBlockWellFormed(h.chunks[base], BlockIndex(h, address));
    if b[0].kind == Free && b[0].size == FullPageAllocationSize {
      RemoveChunkWellFormed(h, frames, base);
    }
  }

  /** The source's `free` and the corrected one leave the heap alike; the source never changes the frames. */
  lemma {:induction false} FreeSpecLeaks(h: HeapState, frames: PhysAlloc.Frames, address: nat)
    requires HeapWellFormed(h) && PhysAlloc.WellFormed(frames) && Backed(h, frames) && IsHeapPointer(h, address)
    ensures FreeSpec(h, frames, address) == (FixedFreeSpec(h, frames, address).0, frames)
  {
    var base := ChunkBase(address);
    var b := FreeBlock(h.chunks[base], BlockIndex(h, address));
    if b[0].kind == Free && b[0].size == FullPageAllocationSize {
      RemoveChunkLeaksPage(h, frames, base);
    }
  }

  /**
   * A chunk left entirely free is unlinked and its large page becomes
   * fully free again in the physical allocator, with one more free large
   * page counted.
   */
  lemma {:induction false} FreeReleasesEmptyChunk(h: HeapState, frames: PhysAlloc.Frames, address: nat)
    requires HeapWellFormed(h) && PhysAlloc.WellFormed(frames) && Backed(h, frames) && IsHeapPointer(h, address)
    requires FreeBlock(h.chunks[ChunkBase(address)], BlockIndex(h, address)) == [Block(Free, FullPageAllocationSize)]
    ensures var base := ChunkBase(address);
      var page := (base - PagingBase) / PhysAlloc.LargePageSize;
      var (h', frames') := FixedFreeSpec(h, frames, address);
      base !in h'.chunks && base !in h'.order
      && PhysAlloc.WellFormed(frames') && page < PhysAlloc.MaxLargePage
      && PhysAlloc.BriefAt(frames'.brief, page) == PhysAlloc.FullyFree
      && frames'.freeLarge == WrapU64(frames.freeLarge + 1)
  {
    var base := ChunkBase(address);
    EraseDistinct(h.order, base);
    ReleaseFreesOnlyChunkPage(frames, base, h);
  }

  /**
   * As written, the chunk left entirely free is unlinked but its large page
   * is not returned: the physical allocator is unchanged and still records
   * the page as a whole page of the kernel.
   */
  lemma {:induction false} FreeLeaksEmptyChunk(h: HeapState, frames: PhysAlloc.Frames, address: nat)
    requires HeapWellFormed(h) && PhysAlloc.WellFormed(frames) && Backed(h, frames) && IsHeapPointer(h, address)
    requires FreeBlock(h.chunks[ChunkBase(address)], BlockIndex(h, address)) == [Block(Free, FullPageAllocationSize)]
    ensures var base := ChunkBase(address);
      var page := (base - PagingBase) / PhysAlloc.LargePageSize;
      var (h', frames') := FreeSpec(h, frames, address);
      base !in h'.chunks && base !in h'.order && frames' == frames && page < PhysAlloc.MaxLargePage
      && PhysAlloc.BriefAt(frames'.brief, page) == PhysAlloc.FullySingleAllocated
      && frames'.large[page] == PhysAlloc.Entry(KernelPID, PhysAlloc.Allocated)
  {
    var base := ChunkBase(address);
    EraseDistinct(h.order, base);
    RemoveChunkLeaksPage(h, frames, base);
  }

  /**
   * A chunk that still holds an allocated block stays in the list after a
   * free, with the block merged into its free neighbours.
   */
  lemma {:induction false} FreeKeepsUsedChunk(h: HeapState, frames: PhysAlloc.Frames, address: nat)
    requires HeapWellFormed(h) && PhysAlloc.WellFormed(frames) && IsHeapPointer(h, address)
    requires FreeBlock(h.chunks[ChunkBase(address)], BlockIndex(h, address)) != [Block(Free, FullPageAllocationSize)]
    ensures var base := ChunkBase(address);
      var (h', frames') := FreeSpec(h, frames, address);
      h'.order == h.order && frames' == frames
      && h'.chunks == h.chunks[base := FreeBlock(h.chunks[base], BlockIndex(h, address))]
  {
    var base := ChunkBase(address);
    FreeBlockWellFormed(h.chunks[base], BlockIndex(h, address));
    WholeChunkFree(FreeBlock(h.chunks[base], BlockIndex(h, address)));
  }

  /** Overwriting an entry and then writing its old value back restores the map. */
  lemma RestoreEntry<K, V>(m: map<K, V>, k: K, v: V)
    requires k in m
    ensures m[k := v][k := m[k]] == m
  {
  }

  /** An entry added and updated, then removed, leaves the map as it was. */
  lemma DropAddedEntry<K, V>(m: map<K, V>, k: K, v: V, w: V)
    requires k !in m
    ensures m[k := v][k := w] - {k} == m
  {
  }

  /**
   * Taking block `i` of one chunk keeps the heap well formed and backed;
   * the payload pointer leads back to that block, and freeing that block
   * again gives the chunk back as it was.
   */
  lemma {:induction false} PlaceInHeap(h: HeapState, frames: PhysAlloc.Frames, base: nat, i: nat, size: nat)
    requires HeapWellFormed(h) && PhysAlloc.WellFormed(frames) && Backed(h, frames) && base in h.chunks
    requires i < |h.chunks[base]| && FitsIn(h.chunks[base][i], size) && size % AllocationAlignment == 0
    ensures var b := h.chunks[base];
      var h' := h.(chunks := h.chunks[base := Place(b, i, size)]);
      var address := PayloadAddress(base, b, i);
      HeapWellFormed(h') && Backed(h', frames)
      && IsHeapPointer(h', address) && ChunkBase(address) == base && BlockIndex(h', address) == i
      && h'.chunks[base][i].kind == Allocated && h'.chunks[base][i].size >= size
      && FreeBlock(h'.chunks[base], i) == b
  {
    var b := h.chunks[base];
    PlaceWellFormed(b, i, size);
    PlaceThenFree(b, i, size);
    var h' := h.(chunks := h.chunks[base := Place(b, i, size)]);
    assert h'.chunks.Keys == h.chunks.Keys;
    assert PayloadAddress(base, b, i) == PayloadAddress(base, h'.chunks[base], i);
    PayloadLocatesBlock(h', base, i);
  }

  /** When a listed chunk has room, `allocate` takes the first fitting block of the first such chunk. */
  lemma {:induction false} AllocateFromListedChunk(h: HeapState, frames: PhysAlloc.Frames, size: nat)
    requires HeapWellFormed(h) && PhysAlloc.WellFormed(frames) && Backed(h, frames) && IsU64(size)
    requires Adjusted(size) <= FullPageAllocationSize && FittingChunk(h, Adjusted(size), 0) < |h.order|
    ensures var base := h.order[FittingChunk(h, Adjusted(size), 0)];
      var b := h.chunks[base];
      var i := FirstFit(b, Adjusted(size), 0);
      i < |b|
      && AllocateSpec(h, frames, size) == (h.(chunks := h.chunks[base := Place(b, i, Adjusted(size))]), frames, Ok(PayloadAddress(base, b, i)))
  {
  }

  /** When no listed chunk has room, `allocate` takes the first block of a new chunk, or halts with the heap unchanged. */
  lemma {:induction false} AllocateFromNewChunk(h: HeapState, frames: PhysAlloc.Frames, size: nat)
    requires HeapWellFormed(h) && PhysAlloc.WellFormed(frames) && Backed(h, frames) && IsU64(size)
    requires Adjusted(size) <= FullPageAllocationSize && FittingChunk(h, Adjusted(size), 0) == |h.order|
    ensures var (h1, frames', chunk) := AppendChunkSpec(h, frames);
      var whole := [Block(Free, FullPageAllocationSize)];
      (chunk.Hang? ==> AllocateSpec(h, frames, size) == (h, frames, Hang))
      && (chunk.Ok? ==>
            h1.chunks[chunk.value] == whole && FirstFit(whole, Adjusted(size), 0) == 0
            && AllocateSpec(h, frames, size) ==
                 (h1.(chunks := h1.chunks[chunk.value := Place(whole, 0, Adjusted(size))]), frames', Ok(PayloadAddress(chunk.value, whole, 0))))
  {
    AppendChunkWellFormed(h, frames);
  }

  /** `allocate` keeps the heap well formed and backed, and a pointer it returns can be passed to `free`. */
  lemma {:induction false} AllocatePreservesHeap(h: HeapState, frames: PhysAlloc.Frames, size: nat)
    requires HeapWellFormed(h) && PhysAlloc.WellFormed(frames) && Backed(h, frames) && IsU64(size)
    ensures var (h', frames', r) := AllocateSpec(h, frames, size);
      HeapWellFormed(h') && PhysAlloc.WellFormed(frames') && Backed(h', frames')
      && (r.Ok? ==> IsHeapPointer(h', r.value))
      && (r.Hang? ==> h' == h)
  {
    var adjusted := Adjusted(size);
    if adjusted <= FullPageAllocationSize {
      var k := FittingChunk(h, adjusted, 0);
      if k < |h.order| {
        AllocateFromListedChunk(h, frames, size);
        PlaceInHeap(h, frames, h.order[k], FirstFit(h.chunks[h.order[k]], adjusted, 0), adjusted);
      } else {
        AllocateFromNewChunk(h, frames, size);
        AppendChunkWellFormed(h, frames);
        var res := AppendChunkSpec(h, frames);
        if res.2.Ok? {
          PlaceInHeap(res.0, res.1, res.2.value, 0, adjusted);
        }
      }
    }
  }

  /** Requests that round past a whole chunk halt (the source's `for(;;)`) and change nothing. */
  lemma AllocateOversizedHalts(h: HeapState, frames: PhysAlloc.Frames, size: nat)
    requires HeapWellFormed(h) && PhysAlloc.WellFormed(frames) && Backed(h, frames) && IsU64(size)
    requires Adjusted(size) > FullPageAllocationSize
    ensures AllocateSpec(h, frames, size) == (h, frames, Hang)
  {
  }

  /**
   * First fit: when some chunk has room, the pointer returned belongs to the
   * first chunk in list order with room, at the first block there that is
   * free and large enough; that block is now allocated with at least the
   * rounded size, and the chunk list and the physical pages are unchanged.
   */
  lemma {:induction false} AllocateIsFirstFit(h: HeapState, frames: PhysAlloc.Frames, size: nat, k: nat)
    requires HeapWellFormed(h) && PhysAlloc.WellFormed(frames) && Backed(h, frames) && IsU64(size)
    requires Adjusted(size) <= FullPageAllocationSize
    requires k < |h.order| && FirstFit(h.chunks[h.order[k]], Adjusted(size), 0) < |h.chunks[h.order[k]]|
    requires forall c :: 0 <= c < k ==> FirstFit(h.chunks[h.order[c]], Adjusted(size), 0) == |h.chunks[h.order[c]]|
    ensures var (h', frames', r) := AllocateSpec(h, frames, size);
      var base := h.order[k];
      var i := FirstFit(h.chunks[base], Adjusted(size), 0);
      r.Ok? && ChunkBase(r.value) == base && IsHeapPointer(h', r.value) && BlockIndex(h', r.value) == i
      && FitsIn(h.chunks[base][i], Adjusted(size))
      && (forall j :: 0 <= j < i ==> !FitsIn(h.chunks[base][j], Adjusted(size)))
      && h'.chunks[base][i].kind == Allocated && h'.chunks[base][i].size >= Adjusted(size)
      && h'.order == h.order && frames' == frames
  {
    var adjusted := Adjusted(size);
    assert FittingChunk(h, adjusted, 0) == k by {
      var c := FittingChunk(h, adjusted, 0);
      assert !(c < k) && !(k < c);
    }
    AllocateFromListedChunk(h, frames, size);
    PlaceInHeap(h, frames, h.order[k], FirstFit(h.chunks[h.order[k]], adjusted, 0), adjusted);
  }

  /**
   * A new chunk is appended only when no listed chunk has room: its pointer
   * is the first block of a chunk that was not in the heap and now ends
   * the list.
   */
  lemma {:induction false} AllocateAppendsOnlyWhenFull(h: HeapState, frames: PhysAlloc.Frames, size: nat)
    requires HeapWellFormed(h) && PhysAlloc.WellFormed(frames) && Backed(h, frames) && IsU64(size)
    requires Adjusted(size) <= FullPageAllocationSize
    requires forall c :: 0 <= c < |h.order| ==> FirstFit(h.chunks[h.order[c]], Adjusted(size), 0) == |h.chunks[h.order[c]]|
    ensures var (h', frames', r) := AllocateSpec(h, frames, size);
      (r.Ok? ==> ChunkBase(r.value) !in h.chunks && h'.order == h.order + [ChunkBase(r.value)]
                 && IsHeapPointer(h', r.value) && BlockIndex(h', r.value) == 0)
      && (r.Hang? ==> h' == h && frames' == frames)
  {
    var adjusted := Adjusted(size);
    assert FittingChunk(h, adjusted, 0) == |h.order|;
    AllocateFromNewChunk(h, frames, size);
    AppendChunkWellFormed(h, frames);
    var res := AppendChunkSpec(h, frames);
    if res.2.Ok? {
      PlaceInHeap(res.0, res.1, res.2.value, 0, adjusted);
    }
  }

  /**
   * Freeing the pointer just allocated from a chunk that was already in use
   * gives the heap back exactly as it was.
   */
  lemma {:induction false} AllocateInChunkThenFree(h: HeapState, frames: PhysAlloc.Frames, size: nat)
    requires HeapWellFormed(h) && PhysAlloc.WellFormed(frames) && Backed(h, frames) && IsU64(size)
    requires Adjusted(size) <= FullPageAllocationSize
    requires FittingChunk(h, Adjusted(size), 0) < |h.order|
    requires h.chunks[h.order[FittingChunk(h, Adjusted(size), 0)]] != [Block(Free, FullPageAllocationSize)]
    ensures var (h', frames', r) := AllocateSpec(h, frames, size);
      r.Ok? && HeapWellFormed(h') && PhysAlloc.WellFormed(frames') && IsHeapPointer(h', r.value)
      && FreeSpec(h', frames', r.value) == (h, frames)
  {
    var adjusted := Adjusted(size);
    var base := h.order[FittingChunk(h, adjusted, 0)];
    var b := h.chunks[base];
    var i := FirstFit(b, adjusted, 0);
    AllocateFromListedChunk(h, frames, size);
    PlaceInHeap(h, frames, base, i, adjusted);
    var h' := h.(chunks := h.chunks[base := Place(b, i, adjusted)]);
    var address := PayloadAddress(base, b, i);
    assert AllocateSpec(h, frames, size) == (h', frames, Ok(address));
    WholeChunkFree(b);
    FreeKeepsUsedChunk(h', frames, address);
    RestoreEntry(h.chunks, base, Place(b, i, adjusted));
  }

  /**
   * Freeing the pointer that forced a new chunk removes that chunk again
   * and returns its large page: the chunk list is as before, and so are
   * the physical allocator's bitmaps and free large page count.
   */
  lemma {:induction false} AllocateNewChunkThenFree(h: HeapState, frames: PhysAlloc.Frames, size: nat)
    requires HeapWellFormed(h) && PhysAlloc.WellFormed(frames) && Backed(h, frames) && IsU64(size)
    requires Adjusted(size) <= FullPageAllocationSize
    requires FittingChunk(h, Adjusted(size), 0) == |h.order|
    requires PhysAlloc.AllocateLarge(frames, KernelPID).1.Ok?
    requires frames.large[PhysAlloc.FirstBrief(frames.brief, 1, PhysAlloc.FullyFree)] == PhysAlloc.FreeEntry
    ensures var (h', frames', r) := AllocateSpec(h, frames, size);
      r.Ok? && HeapWellFormed(h') && PhysAlloc.WellFormed(frames') && IsHeapPointer(h', r.value)
      && FreeSpec(h', frames', r.value) == (h, frames')
      && var (h'', frames'') := FixedFreeSpec(h', frames', r.value);
      h'' == h && frames''.brief == frames.brief && frames''.freeLarge == frames.freeLarge
      && frames''.large == frames.large && frames''.small == frames.small
  {
    var h', frames', address, page := NewChunkAllocation(h, frames, size);
    PhysAlloc.AllocateLargeThenFree(frames, KernelPID);
    AllocatePreservesHeap(h, frames, size);
    FreeSpecLeaks(h', frames', address);
  }

  /** The heap and frames after `allocate` appended a new chunk, and what freeing its pointer gives. */
  lemma {:induction false} NewChunkAllocation(h: HeapState, frames: PhysAlloc.Frames, size: nat)
      returns (h': HeapState, frames': PhysAlloc.Frames, address: nat, page: nat)
    requires HeapWellFormed(h) && PhysAlloc.WellFormed(frames) && Backed(h, frames) && IsU64(size)
    requires Adjusted(size) <= FullPageAllocationSize
    requires FittingChunk(h, Adjusted(size), 0) == |h.order|
    requires PhysAlloc.AllocateLarge(frames, KernelPID).1.Ok?
    ensures PhysAlloc.AllocateLarge(frames, KernelPID) == (frames', Ok(page))
    ensures AllocateSpec(h, frames, size) == (h', frames', Ok(address))
    ensures HeapWellFormed(h') && PhysAlloc.WellFormed(frames') && IsHeapPointer(h', address)
    ensures FixedFreeSpec(h', frames', address) == (h, PhysAlloc.Free(frames', page))
  {
    var base;
    frames', page, base := NewChunkAppended(h, frames, size);
    var whole := [Block(Free, FullPageAllocationSize)];
    h' := HeapState(h.order + [base], h.chunks[base := whole][base := Place(whole, 0, Adjusted(size))]);
    address := PayloadAddress(base, whole, 0);
    FreeSoleBlockOfNewChunk(h, frames', base, Adjusted(size));
    assert ChunkPage(base) == page;
  }

  /** The chunk `allocate` appends when no listed chunk has room, and the block it takes from it. */
  lemma {:induction false} NewChunkAppended(h: HeapState, frames: PhysAlloc.Frames, size: nat)
      returns (frames': PhysAlloc.Frames, page: nat, base: nat)
    requires HeapWellFormed(h) && PhysAlloc.WellFormed(frames) && Backed(h, frames) && IsU64(size)
    requires Adjusted(size) <= FullPageAllocationSize
    requires FittingChunk(h, Adjusted(size), 0) == |h.order|
    requires PhysAlloc.AllocateLarge(frames, KernelPID).1.Ok?
    ensures PhysAlloc.AllocateLarge(frames, KernelPID) == (frames', Ok(page))
    ensures base == page + PagingBase && base !in h.chunks && base % PhysAlloc.LargePageSize == 0
    ensures PhysAlloc.WellFormed(frames') && FitsIn(Block(Free, FullPageAllocationSize), Adjusted(size))
    ensures var whole := [Block(Free, FullPageAllocationSize)];
      AllocateSpec(h, frames, size)
      == (HeapState(h.order + [base], h.chunks[base := whole][base := Place(whole, 0, Adjusted(size))]),
          frames', Ok(PayloadAddress(base, whole, 0)))
  {
    AllocateFromNewChunk(h, frames, size);
    AppendChunkWellFormed(h, frames);
    var p;
    frames', p := PhysAlloc.AllocateLarge(frames, KernelPID).0, PhysAlloc.AllocateLarge(frames, KernelPID).1;
    page := p.value;
    base := page + PagingBase;
    assert AppendChunkSpec(h, frames).2 == Ok(base);
  }

  /** Freeing the only allocated block of the chunk appended last unlinks the chunk and frees its page. */
  lemma {:induction false} FreeSoleBlockOfNewChunk(h: HeapState, frames: PhysAlloc.Frames, base: nat, size: nat)
    requires HeapWellFormed(h) && PhysAlloc.WellFormed(frames) && base !in h.chunks && base % PhysAlloc.LargePageSize == 0
    requires size % AllocationAlignment == 0 && size <= FullPageAllocationSize
    ensures var whole := [Block(Free, FullPageAllocationSize)];
      var h' := HeapState(h.order + [base], h.chunks[base := whole][base := Place(whole, 0, size)]);
      var address := PayloadAddress(base, whole, 0);
      HeapWellFormed(h') && IsHeapPointer(h', address)
      && FixedFreeSpec(h', frames, address) == (h, PhysAlloc.Free(frames, ChunkPage(base)))
  {
    var whole := [Block(Free, FullPageAllocationSize)];
    AppendKeepsHeapWellFormed(h, base);
    var h1 := HeapState(h.order + [base], h.chunks[base := whole]);
    PlaceWellFormed(whole, 0, size);
    PlaceThenFree(whole, 0, size);
    UpdateKeepsHeapWellFormed(h1, base, Place(whole, 0, size));
    var h' := h1.(chunks := h1.chunks[base := Place(whole, 0, size)]);
    PayloadLocatesBlock(h', base, 0);
    var address := PayloadAddress(base, whole, 0);
    assert address == PayloadAddress(base, h'.chunks[base], 0);
    EraseAppended(h.order, base);
    DropAddedEntry(h.chunks, base, whole, Place(whole, 0, size));
  }

  /** Updating an entry and then removing it is removing it. */
  lemma DropUpdatedEntry<K, V>(m: map<K, V>, k: K, v: V)
    ensures m[k := v] - {k} == m - {k}
  {
  }

  /** Replacing one chunk's blocks by another well-formed chunk keeps the heap well formed. */
  lemma UpdateKeepsHeapWellFormed(h: HeapState, base: nat, c: seq<Block>)
    requires HeapWellFormed(h) && base in h.chunks && ChunkWellFormed(c)
    ensures HeapWellFormed(h.(chunks := h.chunks[base := c]))
  {
  }

  // ---------------------------------------------------------------------
  // Requests that wrap around

  /**
   * As written, a request within 31 bytes of 2^64 rounds to 0, passes the
   * size check, and is served exactly like a request of 0 bytes; the
   * unwrapped rounding exceeds a whole chunk, so the corrected `allocate`
   * halts on it.
   */
  lemma WrappedRequestServedAsEmpty(h: HeapState, frames: PhysAlloc.Frames, size: nat)
    requires HeapWellFormed(h) && PhysAlloc.WellFormed(frames) && Backed(h, frames)
    requires IsU64(size) && size + (AllocationAlignment - 1) >= U64Modulus
    ensures Adjusted(size) == 0 && FixedAdjusted(size) > FullPageAllocationSize
    ensures AllocateSpec(h, frames, size) == AllocateSpec(h, frames, 0)
  {
    assert Adjusted(size) == Adjusted(0);
  }

  // ---------------------------------------------------------------------
  // The heap object

  /**
   * The kernel heap: the chunk list in list order and the descriptor list
   * of every chunk. All allocations go through the physical allocator
   * passed in, which stands for the kernel's single `PhysicalAllocator`.
   */
  class Heap {
    var order: seq<nat>
    var chunks: map<nat, seq<Block>>

    ghost function View(): HeapState
      reads this
    {
      HeapState(order, chunks)
    }

    ghost predicate Valid()
      reads this
    {
      HeapWellFormed(View())
    }

    /** The heap before `initialize`: no chunks. */
    constructor ()
      ensures Valid() && View() == HeapState([], map[])
    {
      order := [];
      chunks := map[];
    }

    /** `allocateAndAppendNewChunk`: one fully free chunk on a new large page, at the end of the list. */
    method AllocateAndAppendNewChunk(phys: PhysAlloc.PhysicalAllocator) returns (r: Outcome<nat>)
      requires Valid() && phys.Valid() && Backed(View(), phys.View())
      modifies this, phys, phys.briefBitmap, phys.largePageBitmap
      ensures Valid() && phys.Valid() && Backed(View(), phys.View())
      ensures phys.briefBitmap == old(phys.briefBitmap) && phys.largePageBitmap == old(phys.largePageBitmap)
      ensures (View(), phys.View(), r) == AppendChunkSpec(old(View()), old(phys.View()))
    {
      ghost var h, frames := View(), phys.View();
      AppendChunkWellFormed(h, frames);
      var page := phys.AllocatePage(KernelPID, true);
      AppendChunkCases(h, frames, phys.View(), page);
      if page.Hang? {
        return Hang;
      }
      var base := page.value + PagingBase;
      order := order + [base];
      chunks := chunks[base := [Block(Kind.Free, FullPageAllocationSize)]];
      r := Ok(base);
    }

    /** `initialize`: the first chunk. */
    method Initialize(phys: PhysAlloc.PhysicalAllocator) returns (r: Outcome<()>)
      requires Valid() && phys.Valid() && Backed(View(), phys.View())
      modifies this, phys, phys.briefBitmap, phys.largePageBitmap
      ensures Valid() && phys.Valid() && Backed(View(), phys.View())
      ensures phys.briefBitmap == old(phys.briefBitmap) && phys.largePageBitmap == old(phys.largePageBitmap)
      ensures var (h', frames', chunk) := AppendChunkSpec(old(View()), old(phys.View()));
        View() == h' && phys.View() == frames' && (r.Hang? <==> chunk.Hang?)
    {
      var chunk := AllocateAndAppendNewChunk(phys);
      r := if chunk.Hang? then Hang else Ok(());
    }

    /**
     * `findAllocation`: walks the descriptors of the chunk at `base` and
     * takes the first free block large enough, splitting it when the rest
     * can hold a descriptor and one aligned unit.
     */
    method FindAllocation(base: nat, size: nat) returns (address: Option<nat>)
      requires Valid() && base in chunks && size % AllocationAlignment == 0
      modifies this
      ensures Valid()
      ensures (View(), address) == FindAllocationSpec(old(View()), base, size)
    {
      var b := chunks[base];
      var i := 0;
      var offset := ChunkHeaderSize;
      while i < |b|
        invariant i <= |b| && offset == DescriptorOffset(b, i)
        invariant FirstFit(b, size, i) == FirstFit(b, size, 0)
        invariant View() == old(View())
      {
        if b[i].kind == Kind.Free && b[i].size >= size {
          FindAllocationFound(View(), base, size, i);
          chunks := chunks[base := Place(b, i, size)];
          return Some(base + offset + DescriptorSize);
        }
        OffsetStep(b, i);
        offset := offset + DescriptorSize + b[i].size;
        i := i + 1;
      }
      address := None;
    }

    /**
     * `allocate`: the request is rounded up and must fit a whole chunk;
     * then each chunk in list order is tried, and a new chunk is appended
     * when none has room.
     */
    method Allocate(size: nat, phys: PhysAlloc.PhysicalAllocator) returns (r: Outcome<nat>)
      requires Valid() && phys.Valid() && Backed(View(), phys.View()) && IsU64(size)
      modifies this, phys, phys.briefBitmap, phys.largePageBitmap
      ensures Valid() && phys.Valid() && Backed(View(), phys.View())
      ensures phys.briefBitmap == old(phys.briefBitmap) && phys.largePageBitmap == old(phys.largePageBitmap)
      ensures (View(), phys.View(), r) == AllocateSpec(old(View()), old(phys.View()), size)
    {
      AllocatePreservesHeap(View(), phys.View(), size);
      ghost var h := View();
      var adjusted := WrapU64(size + (AllocationAlignment - 1)) / AllocationAlignment * AllocationAlignment;
      assert adjusted == Adjusted(size);
      if adjusted > FullPageAllocationSize {
        return Hang;
      }
      var address := AllocateInListedChunk(adjusted);
      if address.Some? {
        AllocateFromListedChunk(h, old(phys.View()), size);
        return Ok(address.value);
      }
      r := AllocateInNewChunk(adjusted, phys);
      AllocateFromNewChunk(h, old(phys.View()), size);
    }

    /** The loop of `allocate`: each chunk in list order is tried until one has room. */
    method AllocateInListedChunk(adjusted: nat) returns (address: Option<nat>)
      requires Valid() && adjusted % AllocationAlignment == 0
      modifies this
      ensures Valid()
      ensures var k := FittingChunk(old(View()), adjusted, 0);
        (k < |old(order)| ==> address.Some? && (View(), address) == FindAllocationSpec(old(View()), old(order)[k], adjusted))
        && (k == |old(order)| ==> address.None? && View() == old(View()))
    {
      ghost var h := View();
      var k := 0;
      while k < |order|
        invariant k <= |order| && View() == h
        invariant FittingChunk(h, adjusted, k) == FittingChunk(h, adjusted, 0)
      {
        address := FindAllocation(order[k], adjusted);
        if address.Some? {
          assert FittingChunk(h, adjusted, k) == k;
          return;
        }
        k := k + 1;
      }
      address := None;
    }

    /** The tail of `allocate`: a new chunk, and the request served from its single free block. */
    method AllocateInNewChunk(adjusted: nat, phys: PhysAlloc.PhysicalAllocator) returns (r: Outcome<nat>)
      requires Valid() && phys.Valid() && Backed(View(), phys.View())
      requires adjusted % AllocationAlignment == 0 && adjusted <= FullPageAllocationSize
      modifies this, phys, phys.briefBitmap, phys.largePageBitmap
      ensures phys.briefBitmap == old(phys.briefBitmap) && phys.largePageBitmap == old(phys.largePageBitmap)
      ensures var (h1, frames', chunk) := AppendChunkSpec(old(View()), old(phys.View()));
        var whole := [Block(Kind.Free, FullPageAllocationSize)];
        phys.View() == frames'
        && (chunk.Hang? ==> View() == old(View()) && r.Hang?)
        && (chunk.Ok? ==> View() == h1.(chunks := h1.chunks[chunk.value := Place(whole, 0, adjusted)])
                          && r == Ok(PayloadAddress(chunk.value, whole, 0)))
    {
      var chunk := AllocateAndAppendNewChunk(phys);
      if chunk.Hang? {
        return Hang;
      }
      var address := FindAllocation(chunk.value, adjusted);
      if address.None? {
        assert false;
        return Hang;
      }
      r := Ok(address.value);
    }

    /**
     * `freeAndRemoveChunk`: the chunk leaves the list and its pointer is
     * passed to `freePage`, which ignores it.
     */
    method FreeAndRemoveChunk(base: nat, phys: PhysAlloc.PhysicalAllocator)
      requires Valid() && phys.Valid() && Backed(View(), phys.View()) && base in chunks
      modifies this, phys, phys.briefBitmap, phys.largePageBitmap
      ensures Valid() && phys.Valid() && Backed(View(), phys.View())
      ensures phys.briefBitmap == old(phys.briefBitmap) && phys.largePageBitmap == old(phys.largePageBitmap)
      ensures order == Erase(old(order), base) && chunks == old(chunks) - {base}
      ensures phys.View() == PhysAlloc.Free(old(phys.View()), base)
    {
      RemoveChunkLeaksPage(View(), phys.View(), base);
      order := Erase(order, base);
      chunks := chunks - {base};
      phys.FreePage(base);
    }

    /**
     * `free`: the descriptor before the pointer becomes free and merges
     * with free neighbours; a chunk left entirely free is removed.
     */
    method Free(address: nat, phys: PhysAlloc.PhysicalAllocator)
      requires Valid() && phys.Valid() && Backed(View(), phys.View()) && IsHeapPointer(View(), address)
      modifies this, phys, phys.briefBitmap, phys.largePageBitmap
      ensures Valid() && phys.Valid() && Backed(View(), phys.View())
      ensures phys.briefBitmap == old(phys.briefBitmap) && phys.largePageBitmap == old(phys.largePageBitmap)
      ensures (View(), phys.View()) == FreeSpec(old(View()), old(phys.View()), address)
    {
      FreePreservesHeap(View(), phys.View(), address);
      ghost var h := View();
      var base := ChunkBase(address);
      var i := IndexFrom(chunks[base], address - base - DescriptorSize, 0);
      assert i == BlockIndex(h, address);
      FreeBlockWellFormed(chunks[base], i);
      var b := MergeFreed(chunks[base], i);
      FreeCases(h, old(phys.View()), address, base, b);
      chunks := chunks[base := b];
      assert View() == h.(chunks := h.chunks[base := b]);
      if b[0].kind == Kind.Free && b[0].size == FullPageAllocationSize {
        FreeAndRemoveChunk(base, phys);
        DropUpdatedEntry(h.chunks, base, b);
      }
    }

    /** The descriptor surgery of `free` on the blocks of one chunk. */
    static method MergeFreed(b: seq<Block>, i: nat) returns (r: seq<Block>)
      requires i < |b|
      ensures r == FreeBlock(b, i)
    {
      r := b[i := Block(Kind.Free, b[i].size)];
      var d := i;
      if d > 0 && r[d - 1].kind == Kind.Free {
        r := Absorb(r, d - 1);
        d := d - 1;
      }
      if d + 1 < |r| && r[d + 1].kind == Kind.Free {
        r := Absorb(r, d);
      }
    }
  }
}
