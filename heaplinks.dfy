/**
 * The pointer structure behind the kernel heap.
 *
 * Inside a chunk the source keeps its allocation descriptors in a doubly
 * linked list threaded through the chunk's own memory, and the chunks
 * themselves in a doubly linked list with first/last pointers and a
 * length. Here a chunk's descriptor memory is a map from descriptor offset
 * to descriptor, the chunk list a map from chunk address to its two links,
 * and the pointer surgery of `findAllocation`, `free`,
 * `allocateAndAppendNewChunk` and `freeAndRemoveChunk` is written out on
 * them. The lemmas show that the surgery maintains exactly the structure
 * the block sequences and chunk order of `KernelHeap` describe.
 */
module HeapLinks {
  import opened Machine
  import opened KernelHeap

  /** One allocation descriptor as stored in the chunk: type, payload size and the two links. */
  datatype Desc = Desc(kind: Kind, size: nat, previous: Option<nat>, next: Option<nat>)

  /** The offset of the descriptor before block `k`, if any. */
  function PreviousOffset(b: seq<Block>, k: nat): Option<nat>
    requires k <= |b|
  {
    if k == 0 then None else Some(DescriptorOffset(b, k - 1))
  }

  /** The offset of the descriptor after block `k`, if any. */
  function NextOffset(b: seq<Block>, k: nat): Option<nat>
    requires k < |b|
  {
    if k + 1 < |b| then Some(DescriptorOffset(b, k + 1)) else None
  }

  /**
   * The descriptor memory `m` holds the blocks `b`: block `k`'s descriptor
   * sits at its offset with its type and size, linked to its neighbours'
   * descriptors. Descriptors merged away earlier may linger in `m`.
   */
  ghost predicate Represents(m: map<nat, Desc>, b: seq<Block>)
  {
    (forall k :: 0 <= k < |b| ==> DescriptorOffset(b, k) in m)
    && (forall k :: 0 <= k < |b| ==> Records(m, b, k))
  }

  /** Block `k`'s descriptor is at its offset, with its type, size and neighbour links. */
  ghost predicate Records(m: map<nat, Desc>, b: seq<Block>, k: nat)
    requires k < |b|
  {
    DescriptorOffset(b, k) in m
    && m[DescriptorOffset(b, k)] == Desc(b[k].kind, b[k].size, PreviousOffset(b, k), NextOffset(b, k))
  }

  /** A chunk's first descriptor follows the chunk header. */
  lemma FirstDescriptor(b: seq<Block>)
    ensures DescriptorOffset(b, 0) == ChunkHeaderSize
  {
    assert b[..0] == [];
  }

  /** Descriptor offsets strictly increase along the chunk. */
  lemma OffsetsDistinct(b: seq<Block>, j: nat, k: nat)
    requires j < k <= |b|
    ensures DescriptorOffset(b, j) + DescriptorSize <= DescriptorOffset(b, k)
  {
    OffsetsIncrease(b, j, k);
  }

  /**
   * Offsets after replacing blocks `lo..hi` by `mid` of the same footprint:
   * unchanged before the run, inside `mid` counted from the run's start, and
   * after it those of the corresponding old block.
   */
  lemma {:induction false} OffsetAfterSplice(b: seq<Block>, lo: nat, hi: nat, mid: seq<Block>, k: nat)
    requires lo <= hi <= |b| && Footprint(mid) == Footprint(b[lo..hi])
    requires k <= |b| - (hi - lo) + |mid|
    ensures var r := Splice(b, lo, hi, mid);
      (k <= lo ==> DescriptorOffset(r, k) == DescriptorOffset(b, k))
      && (lo <= k <= lo + |mid| ==> DescriptorOffset(r, k) == DescriptorOffset(b, lo) + Footprint(mid[..k - lo]))
      && (lo + |mid| <= k ==> DescriptorOffset(r, k) == DescriptorOffset(b, k - lo - |mid| + hi))
  {
    var r := Splice(b, lo, hi, mid);
    if k <= lo {
      assert r[..k] == b[..k];
      if k == lo {
        assert mid[..0] == [];
      }
    } else if k <= lo + |mid| {
      assert r[..k] == b[..lo] + mid[..k - lo];
      FootprintAppend(b[..lo], mid[..k - lo]);
    }
    if lo + |mid| <= k {
      var k' := k - lo - |mid| + hi;
      assert r[..k] == b[..lo] + mid + b[hi..k'];
      assert b[..k'] == b[..lo] + b[lo..hi] + b[hi..k'];
      if k == lo + |mid| {
        assert mid[..k - lo] == mid;
      }
      FootprintAppend(b[..lo] + mid, b[hi..k']);
      FootprintAppend(b[..lo], mid);
      FootprintAppend(b[..lo] + b[lo..hi], b[hi..k']);
      FootprintAppend(b[..lo], b[lo..hi]);
    }
  }

  // ---------------------------------------------------------------------
  // Taking a block (`findAllocation`)

  /**
   * The split of the descriptor at `at` as written: the new descriptor is
   * linked back to `at` and forward to `at`'s successor, but the
   * successor's `previous` link still names `at`.
   */
  function SplitAsWritten(m: map<nat, Desc>, at: nat, size: nat): map<nat, Desc>
    requires at in m && m[at].size >= size
  {
    var current := m[at];
    if current.size - size >= DescriptorSize + AllocationAlignment then
      var created := at + DescriptorSize + size;
      m[created := Desc(Free, current.size - DescriptorSize - size, Some(at), current.next)]
       [at := Desc(Allocated, size, current.previous, Some(created))]
    else
      m[at := current.(kind := Allocated)]
  }

  /** The split with the successor's `previous` link repointed to the new descriptor. */
  function Split(m: map<nat, Desc>, at: nat, size: nat): map<nat, Desc>
    requires at in m && m[at].size >= size
    requires m[at].next.Some? ==> m[at].next.value in m
  {
    var current := m[at];
    if current.size - size >= DescriptorSize + AllocationAlignment then
      var created := at + DescriptorSize + size;
      var m1 := m[created := Desc(Free, current.size - DescriptorSize - size, Some(at), current.next)]
                 [at := Desc(Allocated, size, current.previous, Some(created))];
      if current.next.Some? then m1[current.next.value := m1[current.next.value].(previous := Some(created))]
      else m1
    else
      m[at := current.(kind := Allocated)]
  }

  /** Where the corrected split writes: the taken, the new and the following descriptor. */
  lemma SplitEntries(m: map<nat, Desc>, b: seq<Block>, i: nat, size: nat)
    requires Represents(m, b) && i < |b| && Records(m, b, i) && FitsIn(b[i], size) && Splits(b[i], size)
    ensures var at := DescriptorOffset(b, i);
      var created := at + DescriptorSize + size;
      var m' := Split(m, at, size);
      at in m' && created in m'
      && m'[at] == Desc(Allocated, size, PreviousOffset(b, i), Some(created))
      && m'[created] == Desc(Free, b[i].size - DescriptorSize - size, Some(at), NextOffset(b, i))
      && (i + 1 < |b| ==>
            DescriptorOffset(b, i + 1) in m'
            && m'[DescriptorOffset(b, i + 1)] == m[DescriptorOffset(b, i + 1)].(previous := Some(created)))
      && (forall off :: off in m && off != at && off != created && (i + 1 < |b| ==> off != DescriptorOffset(b, i + 1))
            ==> off in m' && m'[off] == m[off])
  {
    if i + 1 < |b| {
      OffsetStep(b, i);
    }
  }

  /** Offsets and blocks of the chunk after a split, position by position. */
  lemma SplitLayout(b: seq<Block>, i: nat, size: nat, k: nat)
    requires i < |b| && FitsIn(b[i], size) && Splits(b[i], size) && k <= |b| + 1
    ensures var r := Place(b, i, size);
      |r| == |b| + 1
      && (k <= i ==> DescriptorOffset(r, k) == DescriptorOffset(b, k))
      && (k == i + 1 ==> DescriptorOffset(r, k) == DescriptorOffset(b, i) + DescriptorSize + size)
      && (k >= i + 2 ==> DescriptorOffset(r, k) == DescriptorOffset(b, k - 1))
      && (k < |r| ==> r[k] == (if k < i then b[k] else if k == i then Block(Allocated, size)
                               else if k == i + 1 then Block(Free, b[i].size - DescriptorSize - size) else b[k - 1]))
  {
    var mid := [Block(Allocated, size), Block(Free, b[i].size - DescriptorSize - size)];
    var r := Place(b, i, size);
    assert r == Splice(b, i, i + 1, mid);
    FootprintRun(b, i);
    FootprintRun(mid, 0);
    assert mid[0..2] == mid && mid[..1] == mid[0..1];
    OffsetAfterSplice(b, i, i + 1, mid, k);
    if k < |r| {
      SpliceAt(b, i, i + 1, mid, k);
    }
  }

  lemma {:induction false} SplitAtBefore(m: map<nat, Desc>, b: seq<Block>, i: nat, size: nat, k: nat)
    requires Represents(m, b) && i < |b| && Records(m, b, i) && FitsIn(b[i], size) && Splits(b[i], size) && k < i
    ensures Records(Split(m, DescriptorOffset(b, i), size), Place(b, i, size), k)
  {
    var at := DescriptorOffset(b, i);
    var off := DescriptorOffset(b, k);
    var r := Place(b, i, size);
    var m' := Split(m, at, size);
    SplitEntries(m, b, i, size);
    SplitLayout(b, i, size, k);
    SplitLayout(b, i, size, k + 1);
    if k > 0 {
      SplitLayout(b, i, size, k - 1);
    }
    OffsetsDistinct(b, k, i);
    OffsetStep(b, i);
    assert Records(m, b, k);
    assert off != at && off != at + DescriptorSize + size && (i + 1 < |b| ==> off != DescriptorOffset(b, i + 1));
    assert m'[off] == m[off];
    assert DescriptorOffset(r, k) == off && r[k] == b[k];
    assert PreviousOffset(r, k) == PreviousOffset(b, k);
    assert NextOffset(r, k) == NextOffset(b, k);
  }

  lemma {:induction false} SplitAtTaken(m: map<nat, Desc>, b: seq<Block>, i: nat, size: nat)
    requires Represents(m, b) && i < |b| && Records(m, b, i) && FitsIn(b[i], size) && Splits(b[i], size)
    ensures Records(Split(m, DescriptorOffset(b, i), size), Place(b, i, size), i)
  {
    SplitEntries(m, b, i, size);
    SplitLayout(b, i, size, i);
    SplitLayout(b, i, size, i + 1);
    if i > 0 {
      SplitLayout(b, i, size, i - 1);
    }
  }

  lemma {:induction false} SplitAtCreated(m: map<nat, Desc>, b: seq<Block>, i: nat, size: nat)
    requires Represents(m, b) && i < |b| && Records(m, b, i) && FitsIn(b[i], size) && Splits(b[i], size)
    ensures Records(Split(m, DescriptorOffset(b, i), size), Place(b, i, size), i + 1)
  {
    SplitEntries(m, b, i, size);
    SplitLayout(b, i, size, i);
    SplitLayout(b, i, size, i + 1);
    SplitLayout(b, i, size, i + 2);
  }

  lemma {:induction false} SplitAtAfter(m: map<nat, Desc>, b: seq<Block>, i: nat, size: nat, k: nat)
    requires Represents(m, b) && i < |b| && Records(m, b, i) && FitsIn(b[i], size) && Splits(b[i], size) && i + 2 <= k < |b| + 1
    ensures Records(Split(m, DescriptorOffset(b, i), size), Place(b, i, size), k)
  {
    var at := DescriptorOffset(b, i);
    var created := at + DescriptorSize + size;
    var off := DescriptorOffset(b, k - 1);
    var r := Place(b, i, size);
    var m' := Split(m, at, size);
    SplitEntries(m, b, i, size);
    SplitLayout(b, i, size, k - 1);
    SplitLayout(b, i, size, k);
    SplitLayout(b, i, size, k + 1);
    OffsetStep(b, i);
    assert Records(m, b, k - 1);
    assert DescriptorOffset(r, k) == off && r[k] == b[k - 1];
    assert NextOffset(r, k) == NextOffset(b, k - 1);
    if k == i + 2 {
      assert m'[off] == m[off].(previous := Some(created));
      assert PreviousOffset(r, k) == Some(created);
    } else {
      OffsetsDistinct(b, i + 1, k - 1);
      assert off != at && off != created && off != DescriptorOffset(b, i + 1);
      assert m'[off] == m[off];
      assert PreviousOffset(r, k) == PreviousOffset(b, k - 1);
    }
  }

  /** The corrected split maintains the descriptor list of the taken chunk. */
  lemma {:induction false} SplitRepresentsPlace(m: map<nat, Desc>, b: seq<Block>, i: nat, size: nat)
    requires Represents(m, b) && i < |b| && FitsIn(b[i], size)
    ensures Records(m, b, i) && Represents(Split(m, DescriptorOffset(b, i), size), Place(b, i, size))
  {
    assert Records(m, b, i);
    if Splits(b[i], size) {
      SplitRepresentsTwo(m, b, i, size);
    } else {
      SplitRepresentsWhole(m, b, i, size);
    }
  }

  /** A split that leaves a free remainder: four cases by position. */
  lemma {:induction false} SplitRepresentsTwo(m: map<nat, Desc>, b: seq<Block>, i: nat, size: nat)
    requires Represents(m, b) && i < |b| && Records(m, b, i) && FitsIn(b[i], size) && Splits(b[i], size)
    ensures Represents(Split(m, DescriptorOffset(b, i), size), Place(b, i, size))
  {
    var r := Place(b, i, size);
    var m' := Split(m, DescriptorOffset(b, i), size);
    forall k | 0 <= k < |r|
      ensures DescriptorOffset(r, k) in m' && Records(m', r, k)
    {
      if k < i {
        SplitAtBefore(m, b, i, size, k);
      } else if k == i {
        SplitAtTaken(m, b, i, size);
      } else if k == i + 1 {
        SplitAtCreated(m, b, i, size);
      } else {
        SplitAtAfter(m, b, i, size, k);
      }
    }
  }

  /** A split that takes the whole block: only its type changes. */
  lemma {:induction false} SplitRepresentsWhole(m: map<nat, Desc>, b: seq<Block>, i: nat, size: nat)
    requires Represents(m, b) && i < |b| && Records(m, b, i) && FitsIn(b[i], size) && !Splits(b[i], size)
    ensures Represents(Split(m, DescriptorOffset(b, i), size), Place(b, i, size))
  {
    var r := Place(b, i, size);
    var m' := Split(m, DescriptorOffset(b, i), size);
    WholeOffsets(b, i, size, r);
    forall k | 0 <= k < |r|
      ensures DescriptorOffset(r, k) in m' && Records(m', r, k)
    {
      WholeAt(m, b, i, size, r, k);
    }
  }

  /** Taking the whole block keeps every descriptor offset. */
  lemma WholeOffsets(b: seq<Block>, i: nat, size: nat, r: seq<Block>)
    requires i < |b| && FitsIn(b[i], size) && !Splits(b[i], size) && r == Place(b, i, size)
    ensures |r| == |b| && r == b[i := Block(Allocated, b[i].size)]
    ensures forall k :: 0 <= k <= |r| ==> DescriptorOffset(r, k) == DescriptorOffset(b, k)
  {
    var mid := [Block(Allocated, b[i].size)];
    assert r == Splice(b, i, i + 1, mid);
    FootprintRun(b, i);
    FootprintOne(mid[0]);
    forall k | 0 <= k <= |r|
      ensures DescriptorOffset(r, k) == DescriptorOffset(b, k)
    {
      OffsetAfterSplice(b, i, i + 1, mid, k);
      if i < k {
        assert mid[..1] == mid;
      }
    }
    assert r == b[i := Block(Allocated, b[i].size)];
  }

  lemma {:induction false} WholeAt(m: map<nat, Desc>, b: seq<Block>, i: nat, size: nat, r: seq<Block>, k: nat)
    requires Represents(m, b) && i < |b| && Records(m, b, i) && FitsIn(b[i], size) && !Splits(b[i], size)
    requires r == Place(b, i, size) && |r| == |b| && r == b[i := Block(Allocated, b[i].size)]
    requires forall k :: 0 <= k <= |r| ==> DescriptorOffset(r, k) == DescriptorOffset(b, k)
    requires k < |r|
    ensures DescriptorOffset(r, k) in Split(m, DescriptorOffset(b, i), size)
    ensures Records(Split(m, DescriptorOffset(b, i), size), r, k)
  {
    assert Records(m, b, k);
    if k != i {
      if k < i { OffsetsDistinct(b, k, i); } else { OffsetsDistinct(b, i, k); }
    }
    assert DescriptorOffset(r, k) == DescriptorOffset(b, k);
    assert DescriptorOffset(r, k + 1) == DescriptorOffset(b, k + 1);
    if k > 0 {
      assert DescriptorOffset(r, k - 1) == DescriptorOffset(b, k - 1);
    }
  }

  /**
   * The split as written against the corrected one, for every chunk: they
   * agree when the block is taken whole or is the chunk's last, and
   * otherwise differ only in the successor's `previous` link, which still
   * names the taken descriptor instead of the new free one; then the links
   * no longer describe the chunk.
   */
  lemma {:induction false} SplitAsWrittenLeavesStaleLink(m: map<nat, Desc>, b: seq<Block>, i: nat, size: nat)
    requires Represents(m, b) && i < |b| && Records(m, b, i) && FitsIn(b[i], size)
    ensures var at := DescriptorOffset(b, i);
      !Splits(b[i], size) || i + 1 == |b| ==> SplitAsWritten(m, at, size) == Split(m, at, size)
    ensures var at := DescriptorOffset(b, i);
      Splits(b[i], size) && i + 1 < |b| ==>
        var next := DescriptorOffset(b, i + 1);
        next in Split(m, at, size)
        && SplitAsWritten(m, at, size) == Split(m, at, size)[next := Split(m, at, size)[next].(previous := Some(at))]
        && Split(m, at, size)[next].previous != Some(at)
        && !Represents(SplitAsWritten(m, at, size), Place(b, i, size))
  {
    var at := DescriptorOffset(b, i);
    if Splits(b[i], size) && i + 1 < |b| {
      var next := DescriptorOffset(b, i + 1);
      var created := at + DescriptorSize + size;
      var w := SplitAsWritten(m, at, size);
      var r := Place(b, i, size);
      OffsetStep(b, i);
      assert Records(m, b, i + 1);
      SplitEntries(m, b, i, size);
      assert next != at && next != created;
      assert w == Split(m, at, size)[next := Split(m, at, size)[next].(previous := Some(at))];
      SplitLayout(b, i, size, i + 1);
      SplitLayout(b, i, size, i + 2);
      assert DescriptorOffset(r, i + 2) == next && PreviousOffset(r, i + 2) == Some(created);
      assert w[next].previous == Some(at);
      assert !Records(w, r, i + 2);
    }
  }

  // ---------------------------------------------------------------------
  // Giving a block back (`free`)

  /**
   * Descriptor `into` absorbs its successor `gone`: it grows by `gone`'s
   * payload and descriptor, takes over `gone`'s forward link, and `gone`'s
   * successor (if any) links back to `into`.
   */
  function AbsorbLinks(m: map<nat, Desc>, into: nat, gone: nat): map<nat, Desc>
    requires into in m && gone in m
    requires m[gone].next.Some? ==> m[gone].next.value in m
  {
    var g := m[gone];
    var m1 := m[into := m[into].(size := m[into].size + DescriptorSize + g.size, next := g.next)];
    if g.next.Some? then m1[g.next.value := m1[g.next.value].(previous := Some(into))] else m1
  }

  /**
   * Freeing the descriptor at `at`: it becomes free, is absorbed by a free
   * predecessor, and the surviving descriptor then absorbs a free
   * successor (the successor as it was before the first merge).
   */
  function FreeLinks(m: map<nat, Desc>, at: nat): map<nat, Desc>
    requires at in m
    requires m[at].previous.Some? ==> m[at].previous.value in m
    requires m[at].next.Some? ==> m[at].next.value in m
    requires m[at].next.Some? && m[m[at].next.value].next.Some? ==> m[m[at].next.value].next.value in m
  {
    var d := m[at];
    var m1 := m[at := d.(kind := Free)];
    var mergePrevious := d.previous.Some? && m1[d.previous.value].kind == Free;
    var m2 := if mergePrevious then AbsorbLinks(m1, d.previous.value, at) else m1;
    var current := if mergePrevious then d.previous.value else at;
    if d.next.Some? && m2[d.next.value].kind == Free then AbsorbLinks(m2, current, d.next.value) else m2
  }

  /** What `FreeLinks` needs of the descriptor memory to free the descriptor at `at`. */
  ghost predicate FreeDefined(m: map<nat, Desc>, at: nat)
  {
    at in m
    && (m[at].previous.Some? ==> m[at].previous.value in m)
    && (m[at].next.Some? ==> m[at].next.value in m)
    && (m[at].next.Some? && m[m[at].next.value].next.Some? ==> m[m[at].next.value].next.value in m)
  }

  /**
   * What the stale link does to `free`: after the as-written split of
   * block `i`, freeing the allocated block `i + 1` follows its `previous`
   * link to the taken descriptor, which is allocated, so the new free
   * descriptor just before it is never merged: two free descriptors are
   * left side by side, linked to each other. After the corrected split
   * the same `free` merges them, as `FreeBlock` says of the blocks.
   */
  lemma {:induction false} StaleLinkBlocksMerge(m: map<nat, Desc>, b: seq<Block>, i: nat, size: nat)
    requires Represents(m, b) && i + 1 < |b| && FitsIn(b[i], size) && Splits(b[i], size) && b[i + 1].kind == Allocated
    ensures var at := DescriptorOffset(b, i);
      var s := DescriptorOffset(b, i + 1);
      var created := at + DescriptorSize + size;
      at in m && m[at].size >= size && FreeDefined(SplitAsWritten(m, at, size), s)
      && var f := FreeLinks(SplitAsWritten(m, at, size), s);
         created in f && s in f && f[created].kind == Free && f[s].kind == Free
         && f[created].next == Some(s) && created + DescriptorSize + f[created].size == s
    ensures var at := DescriptorOffset(b, i);
      at in m && m[at].size >= size && (m[at].next.Some? ==> m[at].next.value in m)
      && Represents(Split(m, at, size), Place(b, i, size))
      && DescriptorOffset(Place(b, i, size), i + 2) == DescriptorOffset(b, i + 1)
      && Represents(FreeLinks(Split(m, at, size), DescriptorOffset(b, i + 1)), FreeBlock(Place(b, i, size), i + 2))
  {
    var at := DescriptorOffset(b, i);
    var s := DescriptorOffset(b, i + 1);
    var created := at + DescriptorSize + size;
    assert Records(m, b, i) && Records(m, b, i + 1);
    OffsetStep(b, i);
    var w := SplitAsWritten(m, at, size);
    assert w[s] == m[s];
    if i + 2 < |b| {
      assert Records(m, b, i + 2);
      if i + 3 < |b| {
        assert Records(m, b, i + 3);
      }
    }
    assert FreeDefined(w, s);
    SplitRepresentsTwo(m, b, i, size);
    SplitLayout(b, i, size, i + 2);
    FreeRepresentsFreeBlock(Split(m, at, size), Place(b, i, size), i + 2);
  }

  /** The three descriptors around block `i` are where `Represents` says, with their links. */
  ghost predicate Neighbourhood(m: map<nat, Desc>, b: seq<Block>, i: nat)
    requires i < |b|
  {
    Records(m, b, i) && (i > 0 ==> Records(m, b, i - 1)) && (i + 1 < |b| ==> Records(m, b, i + 1))
  }

  /**
   * `m'` is `m` after the blocks `lo..hi` were merged: the run's first
   * descriptor describes the whole run, the descriptor after the run links
   * back to it, and every descriptor outside the run is untouched.
   */
  ghost predicate MergedCells(m: map<nat, Desc>, m': map<nat, Desc>, b: seq<Block>, lo: nat, hi: nat)
    requires lo < hi <= |b|
  {
    DescriptorOffset(b, lo) in m'
    && m'[DescriptorOffset(b, lo)]
       == Desc(Free, Footprint(b[lo..hi]) - DescriptorSize, PreviousOffset(b, lo), NextOffset(b, hi - 1))
    && (hi < |b| ==>
          DescriptorOffset(b, hi) in m && DescriptorOffset(b, hi) in m'
          && m'[DescriptorOffset(b, hi)] == m[DescriptorOffset(b, hi)].(previous := Some(DescriptorOffset(b, lo))))
    && (forall off :: off in m && (off < DescriptorOffset(b, lo) || off > DescriptorOffset(b, hi))
          ==> off in m' && m'[off] == m[off])
  }

  lemma {:induction false} FreeCellsAlone(m: map<nat, Desc>, b: seq<Block>, i: nat)
    requires Represents(m, b) && i < |b| && Neighbourhood(m, b, i)
    requires RunStart(b, i) == i && RunEnd(b, i) == i + 1
    ensures MergedCells(m, FreeLinks(m, DescriptorOffset(b, i)), b, i, i + 1)
  {
    FootprintRun(b, i);
    OffsetStep(b, i);
  }

  lemma {:induction false} FreeCellsPrevious(m: map<nat, Desc>, b: seq<Block>, i: nat)
    requires Represents(m, b) && i < |b| && Neighbourhood(m, b, i)
    requires RunStart(b, i) == i - 1 && RunEnd(b, i) == i + 1
    ensures MergedCells(m, FreeLinks(m, DescriptorOffset(b, i)), b, i - 1, i + 1)
  {
    FootprintRun(b, i - 1);
    OffsetStep(b, i);
    OffsetStep(b, i - 1);
  }

  lemma {:induction false} FreeCellsNext(m: map<nat, Desc>, b: seq<Block>, i: nat)
    requires Represents(m, b) && i < |b| && Neighbourhood(m, b, i)
    requires RunStart(b, i) == i && RunEnd(b, i) == i + 2
    ensures MergedCells(m, FreeLinks(m, DescriptorOffset(b, i)), b, i, i + 2)
  {
    FootprintRun(b, i);
    OffsetStep(b, i);
    OffsetStep(b, i + 1);
    if i + 2 < |b| {
      OffsetsDistinct(b, i + 2, |b|);
    }
  }

  lemma {:induction false} FreeCellsBoth(m: map<nat, Desc>, b: seq<Block>, i: nat)
    requires Represents(m, b) && i < |b| && Neighbourhood(m, b, i)
    requires RunStart(b, i) == i - 1 && RunEnd(b, i) == i + 2
    ensures MergedCells(m, FreeLinks(m, DescriptorOffset(b, i)), b, i - 1, i + 2)
  {
    var m' := FreeLinks(m, DescriptorOffset(b, i));
    FreeCellsBothRun(m, b, i, m');
    FreeCellsBothRest(m, b, i, m');
  }

  /** Merging with both neighbours: the run's descriptor and the one after it. */
  lemma {:induction false} FreeCellsBothRun(m: map<nat, Desc>, b: seq<Block>, i: nat, m': map<nat, Desc>)
    requires Represents(m, b) && i < |b| && Neighbourhood(m, b, i)
    requires RunStart(b, i) == i - 1 && RunEnd(b, i) == i + 2
    requires m' == FreeLinks(m, DescriptorOffset(b, i))
    ensures DescriptorOffset(b, i - 1) in m'
    ensures m'[DescriptorOffset(b, i - 1)]
            == Desc(Free, Footprint(b[i - 1..i + 2]) - DescriptorSize, PreviousOffset(b, i - 1), NextOffset(b, i + 1))
    ensures i + 2 < |b| ==>
              DescriptorOffset(b, i + 2) in m && DescriptorOffset(b, i + 2) in m'
              && m'[DescriptorOffset(b, i + 2)] == m[DescriptorOffset(b, i + 2)].(previous := Some(DescriptorOffset(b, i - 1)))
  {
    FootprintRun(b, i - 1);
    OffsetStep(b, i - 1);
    OffsetStep(b, i);
    OffsetStep(b, i + 1);
    if i + 2 < |b| {
      OffsetsDistinct(b, i + 2, |b|);
    }
  }

  /** Merging with both neighbours: every descriptor outside the run is untouched. */
  lemma {:induction false} FreeCellsBothRest(m: map<nat, Desc>, b: seq<Block>, i: nat, m': map<nat, Desc>)
    requires Represents(m, b) && i < |b| && Neighbourhood(m, b, i)
    requires RunStart(b, i) == i - 1 && RunEnd(b, i) == i + 2
    requires m' == FreeLinks(m, DescriptorOffset(b, i))
    ensures forall off :: off in m && (off < DescriptorOffset(b, i - 1) || off > DescriptorOffset(b, i + 2))
              ==> off in m' && m'[off] == m[off]
  {
    OffsetStep(b, i - 1);
    OffsetStep(b, i);
    OffsetStep(b, i + 1);
  }

  /** Where freeing block `i` writes, whichever neighbours it merges with. */
  lemma {:induction false} FreeCells(m: map<nat, Desc>, b: seq<Block>, i: nat)
    requires Represents(m, b) && i < |b| && Neighbourhood(m, b, i)
    ensures MergedCells(m, FreeLinks(m, DescriptorOffset(b, i)), b, RunStart(b, i), RunEnd(b, i))
  {
    if RunStart(b, i) == i {
      if RunEnd(b, i) == i + 1 { FreeCellsAlone(m, b, i); } else { FreeCellsNext(m, b, i); }
    } else {
      if RunEnd(b, i) == i + 1 { FreeCellsPrevious(m, b, i); } else { FreeCellsBoth(m, b, i); }
    }
  }

  /** Offsets and blocks of the chunk after the run `lo..hi` is replaced by one block `x` of the same footprint. */
  lemma {:induction false} MergeLayout(b: seq<Block>, lo: nat, hi: nat, x: Block, k: nat)
    requires lo < hi <= |b| && Footprint([x]) == Footprint(b[lo..hi]) && k <= |b| - (hi - lo) + 1
    ensures var r := Splice(b, lo, hi, [x]);
      (k <= lo ==> DescriptorOffset(r, k) == DescriptorOffset(b, k))
      && (k > lo ==> DescriptorOffset(r, k) == DescriptorOffset(b, k - lo - 1 + hi))
      && (k < |r| ==> r[k] == (if k < lo then b[k] else if k == lo then x else b[k - lo - 1 + hi]))
  {
    OffsetAfterSplice(b, lo, hi, [x], k);
    if k < |b| - (hi - lo) + 1 {
      SpliceAt(b, lo, hi, [x], k);
    }
  }

  /**
   * Block `k` of the merged chunk is recorded in the descriptor memory
   * written as `MergedCells` says.
   */
  lemma {:induction false} MergedRecords(m: map<nat, Desc>, m': map<nat, Desc>, b: seq<Block>, lo: nat, hi: nat, k: nat)
    requires Represents(m, b) && lo < hi <= |b| && MergedCells(m, m', b, lo, hi)
    requires k < |b| - (hi - lo) + 1
    ensures var x := Block(Free, Footprint(b[lo..hi]) - DescriptorSize);
      Records(m', Splice(b, lo, hi, [x]), k)
  {
    var x := Block(Free, Footprint(b[lo..hi]) - DescriptorSize);
    var r := Splice(b, lo, hi, [x]);
    RunFootprintCoversDescriptor(b, lo, hi);
    FootprintOne(x);
    MergeLayout(b, lo, hi, x, k);
    MergeLayout(b, lo, hi, x, k + 1);
    if k > 0 {
      MergeLayout(b, lo, hi, x, k - 1);
    }
    if k < lo {
      assert Records(m, b, k);
      OffsetsDistinct(b, k, lo);
    } else if k == lo + 1 {
      assert Records(m, b, hi);
    } else if k > lo + 1 {
      var j := k - lo - 1 + hi;
      assert Records(m, b, j);
      OffsetsDistinct(b, hi, j);
    }
  }

  /** A run of blocks spans at least one descriptor. */
  lemma {:induction false} RunFootprintCoversDescriptor(b: seq<Block>, lo: nat, hi: nat)
    requires lo < hi <= |b|
    ensures Footprint(b[lo..hi]) >= DescriptorSize
  {
    OffsetsDistinct(b, lo, hi);
    OffsetsIncrease(b, lo, hi);
    assert b[..hi] == b[..lo] + b[lo..hi];
    FootprintAppend(b[..lo], b[lo..hi]);
  }

  /**
   * The pointer surgery of `free` maintains the descriptor list: after it,
   * the descriptor memory holds exactly the blocks of `FreeBlock`.
   */
  lemma {:induction false} FreeRepresentsFreeBlock(m: map<nat, Desc>, b: seq<Block>, i: nat)
    requires Represents(m, b) && i < |b|
    ensures Neighbourhood(m, b, i) && Represents(FreeLinks(m, DescriptorOffset(b, i)), FreeBlock(b, i))
  {
    assert Records(m, b, i);
    if i > 0 { assert Records(m, b, i - 1); }
    if i + 1 < |b| { assert Records(m, b, i + 1); }
    var lo, hi := RunStart(b, i), RunEnd(b, i);
    var m' := FreeLinks(m, DescriptorOffset(b, i));
    FreeCells(m, b, i);
    FreeBlockMergesRun(b, i);
    var r := FreeBlock(b, i);
    forall k | 0 <= k < |r|
      ensures DescriptorOffset(r, k) in m' && Records(m', r, k)
    {
      MergedRecords(m, m', b, lo, hi, k);
    }
  }

  /** The check `free` makes on the chunk's first descriptor reads the whole-chunk test off the links. */
  lemma {:induction false} WholeChunkFreeLinks(m: map<nat, Desc>, b: seq<Block>)
    requires Represents(m, b) && ChunkWellFormed(b)
    ensures ChunkHeaderSize in m
    ensures (m[ChunkHeaderSize].kind == Free && m[ChunkHeaderSize].size == FullPageAllocationSize)
            <==> b == [Block(Free, FullPageAllocationSize)]
  {
    assert Records(m, b, 0);
    FirstDescriptor(b);
    WholeChunkFree(b);
  }

  /** The descriptors met by following `next` links from `from`, for at most `fuel` steps. */
  ghost function DescriptorWalk(m: map<nat, Desc>, from: Option<nat>, fuel: nat): seq<nat>
    decreases fuel
  {
    if fuel == 0 || from.None? || from.value !in m then []
    else [from.value] + DescriptorWalk(m, m[from.value].next, fuel - 1)
  }

  /** The descriptor offsets of blocks `k..` in chunk order. */
  function OffsetsFrom(b: seq<Block>, k: nat): (r: seq<nat>)
    requires k <= |b|
    ensures |r| == |b| - k
    ensures forall j :: 0 <= j < |r| ==> r[j] == DescriptorOffset(b, k + j)
    decreases |b| - k
  {
    if k == |b| then [] else [DescriptorOffset(b, k)] + OffsetsFrom(b, k + 1)
  }

  /**
   * Following the `next` links from the chunk's first descriptor, as the
   * first-fit loop of `findAllocation` does, meets the blocks' descriptors
   * in chunk order and then stops at the null link.
   */
  lemma {:induction false} WalkFollowsBlocks(m: map<nat, Desc>, b: seq<Block>, k: nat)
    requires Represents(m, b) && k <= |b|
    ensures DescriptorWalk(m, if k < |b| then Some(DescriptorOffset(b, k)) else None, |b| - k) == OffsetsFrom(b, k)
    decreases |b| - k
  {
    if k < |b| {
      assert Records(m, b, k);
      WalkFollowsBlocks(m, b, k + 1);
    }
  }

  // ---------------------------------------------------------------------
  // The chunk list (`allocateAndAppendNewChunk`, `freeAndRemoveChunk`)

  /** A chunk header's two list links. */
  datatype Link = Link(previous: Option<nat>, next: Option<nat>)

  /** The heap's list head, tail and length, and the links stored in every chunk header. */
  datatype ChunkList = ChunkList(first: Option<nat>, last: Option<nat>, length: nat, links: map<nat, Link>)

  /** The chunk at position `k` of `order` links to its neighbours in `order`. */
  ghost predicate LinksAt(c: ChunkList, order: seq<nat>, k: nat)
    requires k < |order|
  {
    order[k] in c.links
    && c.links[order[k]] == Link(if k == 0 then None else Some(order[k - 1]),
                                 if k + 1 < |order| then Some(order[k + 1]) else None)
  }

  /**
   * The list `c` threads the chunks `order`: head, tail, length (a 64-bit
   * counter) and every header's links agree with it.
   */
  ghost predicate Threads(c: ChunkList, order: seq<nat>)
  {
    c.length == |order| && IsU64(c.length)
    && c.first == (if |order| == 0 then None else Some(order[0]))
    && c.last == (if |order| == 0 then None else Some(order[|order| - 1]))
    && (forall k :: 0 <= k < |order| ==> LinksAt(c, order, k))
  }

  /** No chunk occurs twice. */
  predicate Distinct(order: seq<nat>)
  {
    forall i, j :: 0 <= i < j < |order| ==> order[i] != order[j]
  }

  /** `allocateAndAppendNewChunk` links the chunk at `base` in at the tail. */
  function AppendChunkLinks(c: ChunkList, base: nat): ChunkList
    requires c.length != 0 ==> c.last.Some? && c.last.value in c.links
  {
    if c.length == 0 then
      ChunkList(Some(base), Some(base), WrapU64(c.length + 1), c.links[base := Link(None, None)])
    else
      var links := c.links[base := Link(c.last, None)];
      ChunkList(c.first, Some(base), WrapU64(c.length + 1),
                links[c.last.value := links[c.last.value].(next := Some(base))])
  }

  /** `freeAndRemoveChunk` unlinks the chunk at `base`. */
  function UnlinkChunk(c: ChunkList, base: nat): ChunkList
    requires base in c.links
    requires c.links[base].previous.Some? ==> c.links[base].previous.value in c.links
    requires c.links[base].next.Some? ==> c.links[base].next.value in c.links
  {
    if c.length == 1 then
      c.(first := None, last := None, length := WrapU64(c.length - 1))
    else
      var previous, next := c.links[base].previous, c.links[base].next;
      var links1 := if previous.Some? then c.links[previous.value := c.links[previous.value].(next := next)] else c.links;
      var first := if previous.Some? then c.first else next;
      var links2 := if next.Some? then links1[next.value := links1[next.value].(previous := previous)] else links1;
      var last := if next.Some? then c.last else previous;
      ChunkList(first, last, WrapU64(c.length - 1), links2)
  }

  /**
   * Appending keeps the list threaded through the chunk order with the new
   * chunk at its end, as `KernelHeap.AppendChunkSpec` orders it.
   */
  lemma {:induction false} AppendThreads(c: ChunkList, order: seq<nat>, base: nat)
    requires Threads(c, order) && base !in order && |order| + 1 < U64Modulus
    ensures c.length != 0 ==> c.last.Some? && c.last.value in c.links
    ensures Threads(AppendChunkLinks(c, base), order + [base])
  {
    if |order| > 0 {
      assert LinksAt(c, order, |order| - 1);
    }
    var c' := AppendChunkLinks(c, base);
    var o' := order + [base];
    forall k | 0 <= k < |o'|
      ensures LinksAt(c', o', k)
    {
      if k < |order| {
        assert LinksAt(c, order, k);
      }
    }
  }

  /** Without duplicates, erasing the chunk at position `p` removes exactly that position. */
  lemma {:induction false} EraseAt(order: seq<nat>, p: nat)
    requires Distinct(order) && p < |order|
    ensures Erase(order, order[p]) == order[..p] + order[p + 1..]
  {
    if p > 0 {
      assert order[1..][p - 1] == order[p];
      EraseAt(order[1..], p - 1);
      assert order[1..][..p - 1] == order[1..p];
      assert order[1..][p..] == order[p + 1..];
      assert order[..p] == [order[0]] + order[1..p];
    }
  }

  /** After unlinking the chunk at position `p`: its two neighbours now link to each other. */
  lemma {:induction false} UnlinkedAt(c: ChunkList, order: seq<nat>, p: nat, k: nat)
    requires Threads(c, order) && Distinct(order) && p < |order| && |order| > 1
    requires LinksAt(c, order, p) && (p > 0 ==> LinksAt(c, order, p - 1)) && (p + 1 < |order| ==> LinksAt(c, order, p + 1))
    requires k < |order| - 1
    ensures LinksAt(UnlinkChunk(c, order[p]), order[..p] + order[p + 1..], k)
  {
    var e := order[..p] + order[p + 1..];
    assert forall j :: 0 <= j < |e| ==> e[j] == (if j < p then order[j] else order[j + 1]);
    if k < p { assert LinksAt(c, order, k); } else { assert LinksAt(c, order, k + 1); }
  }

  /**
   * Unlinking keeps the list threaded through the chunk order without the
   * removed chunk, as `KernelHeap.FreeSpec` orders it.
   */
  lemma {:induction false} UnlinkThreads(c: ChunkList, order: seq<nat>, base: nat)
    requires Threads(c, order) && Distinct(order) && base in order
    ensures base in c.links
    ensures c.links[base].previous.Some? ==> c.links[base].previous.value in c.links
    ensures c.links[base].next.Some? ==> c.links[base].next.value in c.links
    ensures Threads(UnlinkChunk(c, base), Erase(order, base))
  {
    var p :| 0 <= p < |order| && order[p] == base;
    EraseAt(order, p);
    UnlinkThreadsAt(c, order, p);
  }

  /** `UnlinkThreads` for the chunk at position `p` of `order`. */
  lemma {:induction false} UnlinkThreadsAt(c: ChunkList, order: seq<nat>, p: nat)
    requires Threads(c, order) && Distinct(order) && p < |order|
    ensures order[p] in c.links
    ensures c.links[order[p]].previous.Some? ==> c.links[order[p]].previous.value in c.links
    ensures c.links[order[p]].next.Some? ==> c.links[order[p]].next.value in c.links
    ensures Threads(UnlinkChunk(c, order[p]), order[..p] + order[p + 1..])
  {
    assert LinksAt(c, order, p);
    if p > 0 { assert LinksAt(c, order, p - 1); }
    if p + 1 < |order| { assert LinksAt(c, order, p + 1); }
    if |order| > 1 {
      UnlinkedLinks(c, order, p, UnlinkChunk(c, order[p]), order[..p] + order[p + 1..]);
      UnlinkedEnds(c, order, p);
    } else {
      assert order[..p] + order[p + 1..] == [];
    }
  }

  /** After unlinking the chunk at position `p` of a longer list: every other chunk's links. */
  lemma UnlinkedLinks(c: ChunkList, order: seq<nat>, p: nat, c': ChunkList, e: seq<nat>)
    requires Threads(c, order) && Distinct(order) && p < |order| && |order| > 1
    requires LinksAt(c, order, p) && (p > 0 ==> LinksAt(c, order, p - 1)) && (p + 1 < |order| ==> LinksAt(c, order, p + 1))
    requires c' == UnlinkChunk(c, order[p]) && e == order[..p] + order[p + 1..]
    ensures forall k :: 0 <= k < |e| ==> LinksAt(c', e, k)
  {
    forall k | 0 <= k < |e|
      ensures LinksAt(c', e, k)
    {
      UnlinkedAt(c, order, p, k);
    }
  }

  /** After unlinking the chunk at position `p` of a longer list: head, tail and length of the rest. */
  lemma {:induction false} UnlinkedEnds(c: ChunkList, order: seq<nat>, p: nat)
    requires Threads(c, order) && Distinct(order) && p < |order| && |order| > 1
    requires LinksAt(c, order, p) && (p > 0 ==> LinksAt(c, order, p - 1)) && (p + 1 < |order| ==> LinksAt(c, order, p + 1))
    ensures var e, c' := order[..p] + order[p + 1..], UnlinkChunk(c, order[p]);
      c'.length == |e| && IsU64(c'.length)
      && c'.first == Some(e[0]) && c'.last == Some(e[|e| - 1])
  {
    var e := order[..p] + order[p + 1..];
    assert |e| > 0 && e[0] == (if p == 0 then order[1] else order[0]);
    assert e[|e| - 1] == (if p == |order| - 1 then order[|order| - 2] else order[|order| - 1]);
  }

  /** The chunks met by following `next` links from `from`, for at most `fuel` steps. */
  ghost function ChunkWalk(links: map<nat, Link>, from: Option<nat>, fuel: nat): seq<nat>
    decreases fuel
  {
    if fuel == 0 || from.None? || from.value !in links then []
    else [from.value] + ChunkWalk(links, links[from.value].next, fuel - 1)
  }

  /**
   * The loop of `allocate` that follows `next` from the list head meets
   * the chunks in list order.
   */
  lemma {:induction false} ChunkWalkFollowsOrder(c: ChunkList, order: seq<nat>, k: nat)
    requires Threads(c, order) && k <= |order|
    ensures ChunkWalk(c.links, if k < |order| then Some(order[k]) else None, |order| - k) == order[k..]
    decreases |order| - k
  {
    if k < |order| {
      assert LinksAt(c, order, k);
      ChunkWalkFollowsOrder(c, order, k + 1);
      assert order[k..] == [order[k]] + order[k + 1..];
    }
  }
}
