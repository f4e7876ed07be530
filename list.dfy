/**
 * The kernel's generic doubly linked list: nodes with `previous`/`next`
 * links, `first`/`last` pointers and an element count. The ghost sequence
 * `Nodes` lists the chain the links form, in order, and `Contents` the
 * values it holds. The `count` field is what `size()` and `get()` trust;
 * as written, `insertAt` in the middle of the list links a node in without
 * incrementing it, so `count` may fall below the length of the chain.
 * `Valid()` ties the links to `Nodes` and bounds `count` by its length.
 */
module LinkedList {
  import opened Machine

  class Node<T> {
    var value: T
    var previous: Node?<T>
    var next: Node?<T>

    /** A node starts unlinked (both links null); `NewLinks` is the source's constructor. */
    constructor (value: T)
      ensures this.value == value && previous == null && next == null
    {
      this.value := value;
      previous := null;
      next := null;
    }
  }

  class List<T> {
    var first: Node?<T>
    var last: Node?<T>
    var count: nat
    ghost var Contents: seq<T>
    ghost var Nodes: seq<Node<T>>
    ghost var Repr: set<object>

    ghost predicate Valid()
      reads this, Repr
    {
      this in Repr
      && |Nodes| == |Contents| && count <= |Nodes|
      && (forall i :: 0 <= i < |Nodes| ==> Nodes[i] in Repr && Nodes[i].value == Contents[i])
      && (forall i {:trigger Nodes[i].next} :: 0 <= i < |Nodes| - 1 ==> Nodes[i].next == Nodes[i + 1])
      && (forall i {:trigger Nodes[i].previous} :: 0 < i < |Nodes| ==> Nodes[i].previous == Nodes[i - 1])
      && (|Nodes| == 0 ==> first == null)
      && (|Nodes| > 0 ==> first == Nodes[0] && last == Nodes[|Nodes| - 1]
                          && Nodes[0].previous == null && Nodes[|Nodes| - 1].next == null)
    }

    /** The chain and the count, as a value. */
    ghost function State(): ListState<T>
      reads this
    {
      ListState(Contents, count)
    }

    constructor ()
      ensures Valid() && fresh(Repr) && State() == ListState([], 0)
    {
      first, last, count := null, null, 0;
      Contents, Nodes := [], [];
      Repr := {this};
    }

    /**
     * The links alone keep the chain free of repeats: equal nodes at `i`
     * and `j` would have equal successors all the way to the end, where
     * only one of them has none.
     */
    lemma {:induction false} NodesDistinct(i: nat, j: nat)
      requires Valid() && i < j < |Nodes|
      ensures Nodes[i] != Nodes[j]
      decreases |Nodes| - j
    {
      assert Nodes[i].next == Nodes[i + 1];
      if j < |Nodes| - 1 {
        NodesDistinct(i + 1, j + 1);
        assert Nodes[j].next == Nodes[j + 1];
      }
    }

    lemma NodesDiffer(i: nat, j: nat)
      requires Valid() && i < |Nodes| && j < |Nodes| && i != j
      ensures Nodes[i] != Nodes[j]
    {
      if i < j { NodesDistinct(i, j); } else { NodesDistinct(j, i); }
    }

    /** `size()`: the number of elements `get` accepts, as the `count` field records it. */
    function Size(): (n: nat)
      reads this, Repr
      requires Valid()
      ensures n == |View(State())|
    {
      count
    }

    /** `appendBack`: on a list whose count is 0 the new node becomes the whole chain. */
    method AppendBack(x: T)
      requires Valid()
      modifies Repr
      ensures Valid() && fresh(Repr - old(Repr))
      ensures State() == AppendBackState(old(State()), x)
    {
      var newNode := new Node(x);
      if count == 0 {
        first := newNode;
        last := newNode;
        Contents, Nodes := [x], [newNode];
      } else {
        forall i | 0 <= i < |Nodes| - 1 ensures Nodes[i] != Nodes[|Nodes| - 1] {
          NodesDiffer(i, |Nodes| - 1);
        }
        last.next := newNode;
        newNode.previous := last;
        last := newNode;
        Contents, Nodes := Contents + [x], Nodes + [newNode];
      }
      count := count + 1;
      Repr := Repr + {newNode};
    }

    /** `appendFront`: on a list whose count is 0 the new node becomes the whole chain. */
    method AppendFront(x: T)
      requires Valid()
      modifies Repr
      ensures Valid() && fresh(Repr - old(Repr))
      ensures State() == AppendFrontState(old(State()), x)
    {
      var newNode := new Node(x);
      if count == 0 {
        first := newNode;
        last := newNode;
        Contents, Nodes := [x], [newNode];
      } else {
        forall i | 0 < i < |Nodes| ensures Nodes[i] != Nodes[0] {
          NodesDiffer(i, 0);
        }
        first.previous := newNode;
        newNode.next := first;
        first := newNode;
        Contents, Nodes := [x] + Contents, [newNode] + Nodes;
        assert forall i :: 1 <= i < |Nodes| ==> Nodes[i] == old(Nodes[i - 1]);
      }
      count := count + 1;
      Repr := Repr + {newNode};
    }

    /**
     * `getReference`: the node the walk reaches, from `first` for an index
     * up to half the count and from `last` otherwise; an index at or past
     * the count halts.
     */
    method GetReference(index: nat) returns (r: Outcome<Node<T>>)
      requires Valid()
      ensures r.Hang? <==> index >= count
      ensures r.Ok? ==> r.value == Nodes[Position(|Nodes|, count, index)]
    {
      if index >= count {
        return Hang;
      }
      var directionForward := true;
      if index > count / 2 {
        directionForward := false;
      }
      var current := if directionForward then first else last;
      var currentIndex := if directionForward then 0 else count - 1;
      while currentIndex != index
        invariant 0 <= currentIndex < count
        invariant directionForward ==> currentIndex <= index
        invariant !directionForward ==> index <= currentIndex
        invariant current == Nodes[if directionForward then currentIndex else |Nodes| - count + currentIndex]
        decreases if directionForward then index - currentIndex else currentIndex - index
      {
        current := if directionForward then current.next else current.previous;
        if directionForward {
          currentIndex := currentIndex + 1;
        } else {
          currentIndex := currentIndex - 1;
        }
      }
      return Ok(current);
    }

    /** `get`: the element `getReference` reaches; an index at or past the count halts. */
    method Get(index: nat) returns (r: Outcome<T>)
      requires Valid()
      ensures r.Hang? <==> index >= |View(State())|
      ensures r.Ok? ==> r.value == View(State())[index]
    {
      var node := GetReference(index);
      if node.Hang? {
        return Hang;
      }
      return Ok(node.value.value);
    }

    /** The middle case of `insertAt`: a new node linked before `at`, node `k` of the chain; `count` is left as it is. */
    method InsertInMiddle(x: T, at: Node<T>, ghost k: nat)
      requires Valid() && 0 < k < |Nodes| && at == Nodes[k]
      modifies this, at, Nodes[k - 1]
      ensures Valid() && fresh(Repr - old(Repr))
      ensures State() == ListState(old(Contents)[..k] + [x] + old(Contents)[k..], old(count))
    {
      assert at.previous == Nodes[k - 1];
      forall i | 0 <= i < |Nodes| && i != k - 1 ensures Nodes[i] != Nodes[k - 1] {
        NodesDiffer(i, k - 1);
      }
      forall i | 0 <= i < |Nodes| && i != k ensures Nodes[i] != Nodes[k] {
        NodesDiffer(i, k);
      }
      var newNode := new Node(x);
      newNode.next := at;
      newNode.previous := at.previous;
      at.previous.next := newNode;
      at.previous := newNode;
      Contents := Contents[..k] + [x] + Contents[k..];
      Nodes := Nodes[..k] + [newNode] + Nodes[k..];
      Repr := Repr + {newNode};
      assert forall i :: k < i < |Nodes| ==> Nodes[i] == old(Nodes[i - 1]);
      assert forall i :: 0 <= i < k ==> Nodes[i] == old(Nodes[i]);
    }

    /**
     * `insertAt`: an index at or past the count appends, index 0 prepends,
     * and any other index links the node in before the one `getReference`
     * reaches, without incrementing the count.
     */
    method InsertAt(x: T, index: nat)
      requires Valid()
      modifies Repr
      ensures Valid() && fresh(Repr - old(Repr))
      ensures State() == InsertAtState(old(State()), x, index)
    {
      if count == 0 || index >= count {
        AppendBack(x);
      } else if index == 0 {
        AppendFront(x);
      } else {
        var node := GetReference(index);
        InsertInMiddle(x, node.value, Position(|Nodes|, count, index));
      }
    }

    /** `remove`: unlinks the node `getReference` reaches; an index at or past the count halts. */
    method Remove(index: nat) returns (r: Outcome<()>)
      requires Valid()
      modifies Repr
      ensures Valid() && Repr <= old(Repr)
      ensures r.Hang? <==> index >= old(count)
      ensures r.Hang? ==> State() == old(State())
      ensures r.Ok? ==> State() == RemoveState(old(State()), index)
    {
      var found := GetReference(index);
      if found.Hang? {
        return Hang;
      }
      var nodeToRemove := found.value;
      ghost var k := Position(|Nodes|, count, index);
      assert k > 0 ==> nodeToRemove.previous == Nodes[k - 1];
      assert k < |Nodes| - 1 ==> nodeToRemove.next == Nodes[k + 1];
      if nodeToRemove.previous == null {
        assert k == 0;
        RemoveFirst();
      } else if nodeToRemove.next == null {
        assert k == |Nodes| - 1;
        RemoveLast();
      } else {
        RemoveMiddle(nodeToRemove, k);
      }
      r := Ok(());
    }

    /** Unlinks the first node: its successor, if any, becomes `first`. */
    method RemoveFirst()
      requires Valid() && count > 0
      modifies Repr
      ensures Valid() && Repr <= old(Repr)
      ensures State() == ListState(old(Contents)[1..], old(count) - 1)
    {
      forall i | 1 < i < |Nodes| ensures Nodes[i] != Nodes[1] {
        NodesDiffer(i, 1);
      }
      forall i | 0 < i < |Nodes| ensures Nodes[i] != Nodes[0] {
        NodesDiffer(i, 0);
      }
      var nodeToRemove := first;
      assert |Nodes| > 1 ==> nodeToRemove.next == Nodes[1];
      if nodeToRemove.next != null {
        nodeToRemove.next.previous := null;
      }
      first := nodeToRemove.next;
      count := count - 1;
      Contents := Contents[1..];
      Nodes := Nodes[1..];
      Repr := Repr - {nodeToRemove};
    }

    /** Unlinks the last node of a chain of two or more: its predecessor becomes `last`. */
    method RemoveLast()
      requires Valid() && count > 0 && |Nodes| > 1
      modifies Repr
      ensures Valid() && Repr <= old(Repr)
      ensures State() == ListState(old(Contents)[..|old(Contents)| - 1], old(count) - 1)
    {
      var n := |Nodes|;
      forall i | 0 <= i < n - 2 ensures Nodes[i] != Nodes[n - 2] {
        NodesDiffer(i, n - 2);
      }
      forall i | 0 <= i < n - 1 ensures Nodes[i] != Nodes[n - 1] {
        NodesDiffer(i, n - 1);
      }
      var nodeToRemove := last;
      assert nodeToRemove.previous == Nodes[n - 2];
      nodeToRemove.previous.next := null;
      last := nodeToRemove.previous;
      count := count - 1;
      Contents := Contents[..n - 1];
      Nodes := Nodes[..n - 1];
      Repr := Repr - {nodeToRemove};
    }

    /** Unlinks an inner node of the chain: its neighbours are linked to each other. */
    method RemoveMiddle(nodeToRemove: Node<T>, ghost k: nat)
      requires Valid() && count > 0 && 0 < k < |Nodes| - 1 && nodeToRemove == Nodes[k]
      modifies Repr
      ensures Valid() && Repr <= old(Repr)
      ensures State() == ListState(RemovedAt(old(Contents), k), old(count) - 1)
    {
      forall i | 0 <= i < |Nodes| && i != k - 1 ensures Nodes[i] != Nodes[k - 1] {
        NodesDiffer(i, k - 1);
      }
      forall i | 0 <= i < |Nodes| && i != k ensures Nodes[i] != Nodes[k] {
        NodesDiffer(i, k);
      }
      forall i | 0 <= i < |Nodes| && i != k + 1 ensures Nodes[i] != Nodes[k + 1] {
        NodesDiffer(i, k + 1);
      }
      assert nodeToRemove.previous == Nodes[k - 1] && nodeToRemove.next == Nodes[k + 1];
      nodeToRemove.previous.next := nodeToRemove.next;
      nodeToRemove.next.previous := nodeToRemove.previous;
      count := count - 1;
      Contents := Contents[..k] + Contents[k + 1..];
      Nodes := Nodes[..k] + Nodes[k + 1..];
      Repr := Repr - {nodeToRemove};
      assert forall i :: k <= i < |Nodes| ==> Nodes[i] == old(Nodes[i + 1]);
      assert forall i :: 0 <= i < k ==> Nodes[i] == old(Nodes[i]);
    }

    /** The destructor's walk: every node of the chain is visited once, in order, and released. */
    method Destroy() returns (released: seq<Node<T>>)
      requires Valid()
      ensures released == Nodes
    {
      released := [];
      var current := first;
      while current != null
        invariant 0 <= |released| <= |Nodes|
        invariant released == Nodes[..|released|]
        invariant |released| < |Nodes| ==> current == Nodes[|released|]
        invariant |released| == |Nodes| ==> current == null
        decreases |Nodes| - |released|
      {
        released := released + [current];
        current := current.next;
      }
    }
  }

  // -----------------------------------------------------------------------
  // The sequence the list operations produce

  /** `s` with `x` inserted at position `index`, or appended when `index` is at or past the end. */
  function InsertedAt<T>(s: seq<T>, x: T, index: nat): (r: seq<T>)
    ensures |r| == |s| + 1
    ensures index < |s| ==> r[index] == x && r[..index] == s[..index] && r[index + 1..] == s[index..]
    ensures index >= |s| ==> r == s + [x]
  {
    if index >= |s| then s + [x] else s[..index] + [x] + s[index..]
  }

  /** `s` without its element at `index`. */
  function RemovedAt<T>(s: seq<T>, index: nat): (r: seq<T>)
    requires index < |s|
    ensures |r| == |s| - 1
    ensures forall i :: 0 <= i < index ==> r[i] == s[i]
    ensures forall i :: index <= i < |r| ==> r[i] == s[i + 1]
  {
    s[..index] + s[index + 1..]
  }

  /** Removing what was just inserted gives the list back. */
  lemma {:induction false} RemoveUndoesInsert<T>(s: seq<T>, x: T, index: nat)
    requires index <= |s|
    ensures RemovedAt(InsertedAt(s, x, index), index) == s
  {
    var r := InsertedAt(s, x, index);
    assert |RemovedAt(r, index)| == |s|;
    forall i | 0 <= i < |s| ensures RemovedAt(r, index)[i] == s[i] {
      if i >= index { assert r[i + 1] == s[i]; }
    }
  }

  // -----------------------------------------------------------------------
  // The list as a value: the chain the links form and the `count` field

  datatype ListState<T> = ListState(chain: seq<T>, count: nat)

  /** The count never exceeds the chain. */
  predicate Consistent<T>(s: ListState<T>)
  {
    s.count <= |s.chain|
  }

  /** The count is the length of the chain, as every operation but the middle insertion keeps it. */
  predicate Exact<T>(s: ListState<T>)
  {
    s.count == |s.chain|
  }

  /**
   * The node of a chain of `n` that the walk of `getReference(index)`
   * reaches: counted from `first` up to half the count, and counted down
   * from `last` as if `last` were node `count - 1` beyond that.
   */
  function Position(n: nat, count: nat, index: nat): (k: nat)
    requires index < count <= n
    ensures k < n
  {
    if index > count / 2 then n - count + index else index
  }

  /** What `get(0)` … `get(size() - 1)` return. */
  function View<T>(s: ListState<T>): (r: seq<T>)
    requires Consistent(s)
    ensures |r| == s.count
  {
    seq(s.count, i requires 0 <= i < s.count => s.chain[Position(|s.chain|, s.count, i)])
  }

  /** `appendBack` on values. */
  function AppendBackState<T>(s: ListState<T>, x: T): ListState<T>
  {
    if s.count == 0 then ListState([x], 1) else ListState(s.chain + [x], s.count + 1)
  }

  /** `appendFront` on values. */
  function AppendFrontState<T>(s: ListState<T>, x: T): ListState<T>
  {
    if s.count == 0 then ListState([x], 1) else ListState([x] + s.chain, s.count + 1)
  }

  /** `insertAt` as written: the middle case links the element in and leaves the count. */
  function InsertAtState<T>(s: ListState<T>, x: T, index: nat): ListState<T>
    requires Consistent(s)
  {
    if s.count == 0 || index >= s.count then AppendBackState(s, x)
    else if index == 0 then AppendFrontState(s, x)
    else ListState(InsertedAt(s.chain, x, Position(|s.chain|, s.count, index)), s.count)
  }

  /** `insertAt` corrected: the middle case increments the count as the others do. */
  function FixedInsertAtState<T>(s: ListState<T>, x: T, index: nat): ListState<T>
    requires Consistent(s)
  {
    if s.count == 0 || index >= s.count then AppendBackState(s, x)
    else if index == 0 then AppendFrontState(s, x)
    else ListState(InsertedAt(s.chain, x, Position(|s.chain|, s.count, index)), s.count + 1)
  }

  /** `remove` of an index below the count, on values. */
  function RemoveState<T>(s: ListState<T>, index: nat): ListState<T>
    requires index < s.count <= |s.chain|
  {
    ListState(RemovedAt(s.chain, Position(|s.chain|, s.count, index)), s.count - 1)
  }

  /** With an exact count the walk reaches node `index` from either end, so the list shows its chain. */
  lemma ExactView<T>(s: ListState<T>)
    requires Exact(s)
    ensures View(s) == s.chain
  {
  }

  /** On a list with an exact count, appending at either end adds the element at that end and keeps the count exact. */
  lemma AppendKeepsExact<T>(s: ListState<T>, x: T)
    requires Exact(s)
    ensures Exact(AppendBackState(s, x)) && View(AppendBackState(s, x)) == View(s) + [x]
    ensures Exact(AppendFrontState(s, x)) && View(AppendFrontState(s, x)) == [x] + View(s)
  {
    ExactView(s);
    ExactView(AppendBackState(s, x));
    ExactView(AppendFrontState(s, x));
  }

  /** On a list with an exact count, `remove` takes out exactly element `index` and keeps the count exact. */
  lemma RemoveKeepsExact<T>(s: ListState<T>, index: nat)
    requires Exact(s) && index < s.count
    ensures Exact(RemoveState(s, index)) && View(RemoveState(s, index)) == RemovedAt(View(s), index)
  {
    ExactView(s);
    ExactView(RemoveState(s, index));
  }

  /** The corrected `insertAt` puts the element at `index` (or at the end) and keeps the count exact. */
  lemma FixedInsertAtKeepsExact<T>(s: ListState<T>, x: T, index: nat)
    requires Exact(s)
    ensures Exact(FixedInsertAtState(s, x, index))
    ensures View(FixedInsertAtState(s, x, index)) == InsertedAt(View(s), x, index)
  {
    ExactView(s);
    ExactView(FixedInsertAtState(s, x, index));
  }

  /** The two versions of `insertAt` differ only in the middle case, and only in the count. */
  lemma InsertAtAgrees<T>(s: ListState<T>, x: T, index: nat)
    requires Consistent(s)
    ensures InsertAtState(s, x, index).chain == FixedInsertAtState(s, x, index).chain
    ensures (s.count == 0 || index == 0 || index >= s.count) <==> InsertAtState(s, x, index) == FixedInsertAtState(s, x, index)
  {
  }

  /**
   * As written, inserting in the middle of a list with an exact count
   * leaves `size()` where it was, and one element of the new chain, the
   * one just past half the count, can no longer be reached by index: the
   * walk from `last` starts one node further along than it believes.
   */
  lemma {:induction false} InsertAtHidesOne<T>(s: ListState<T>, x: T, index: nat)
    requires Exact(s) && 0 < index < s.count
    ensures var r := InsertAtState(s, x, index);
      var c := InsertedAt(s.chain, x, index);
      var h := s.count / 2 + 1;
      r.chain == c && r.count == s.count && !Exact(r) && h < |c|
      && View(r) == c[..h] + c[h + 1..]
  {
    var r := InsertAtState(s, x, index);
    var c := InsertedAt(s.chain, x, index);
    var h := s.count / 2 + 1;
    assert Position(|s.chain|, s.count, index) == index;
    assert r.chain == c;
    var v := c[..h] + c[h + 1..];
    assert |View(r)| == |v|;
    forall i | 0 <= i < |v| ensures View(r)[i] == v[i] {
      if i < h {
        assert v[i] == c[i];
      } else {
        assert v[i] == c[i + 1];
      }
    }
  }

  // -----------------------------------------------------------------------
  // The links of a new node

  /** What a link field holds: null, or whatever the memory held before, since nothing was stored in it. */
  datatype Link = Null | Indeterminate

  /** The outer links of a non-empty list: `first->previous` and `last->next`, which `remove` and the destructor test for null. */
  datatype Ends = Ends(front: Link, back: Link)

  /** `Node(T&)` as written: the initialiser list sets only the value, so both links are indeterminate. */
  function NewLinks(): (Link, Link)
  {
    (Indeterminate, Indeterminate)
  }

  /** A constructor that starts both links at null. */
  function FixedNewLinks(): (Link, Link)
  {
    (Null, Null)
  }

  /** The outer links after `appendBack` of a node with links `n` to a list with `count` elements. */
  function AppendBackEnds(e: Ends, count: nat, n: (Link, Link)): Ends
  {
    if count == 0 then Ends(n.0, n.1) else Ends(e.front, n.1)
  }

  /** The outer links after `appendFront` of a node with links `n`. */
  function AppendFrontEnds(e: Ends, count: nat, n: (Link, Link)): Ends
  {
    if count == 0 then Ends(n.0, n.1) else Ends(n.0, e.back)
  }

  /**
   * As written, every append leaves the new end link indeterminate: after
   * `appendBack` the `next` of `last`, which the destructor follows and
   * `remove` of the last element tests, and after `appendFront` the
   * `previous` of `first`, which `remove(0)` tests; on an empty list both.
   */
  lemma AppendLeavesEndIndeterminate(e: Ends, count: nat)
    ensures AppendBackEnds(e, count, NewLinks()).back == Indeterminate
    ensures AppendFrontEnds(e, count, NewLinks()).front == Indeterminate
    ensures count == 0 ==> AppendBackEnds(e, count, NewLinks()) == Ends(Indeterminate, Indeterminate)
  {
  }

  /** With links that start null, appends keep both outer links null, as the list's null tests expect. */
  lemma FixedAppendKeepsEndsNull(e: Ends, count: nat)
    requires count == 0 || e == Ends(Null, Null)
    ensures AppendBackEnds(e, count, FixedNewLinks()) == Ends(Null, Null)
    ensures AppendFrontEnds(e, count, FixedNewLinks()) == Ends(Null, Null)
  {
  }
}
