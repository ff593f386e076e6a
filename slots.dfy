/** The fixed 4-slot child and parent rows of the adjacency table, as values.
    A slot holding 0 is empty; insertion writes into the first empty slot. */
module Slots {
  import opened MeshTypes

  /** Slots per node and direction. */
  const Capacity: nat := 4

  /** A row whose non-empty slots form a prefix: after an empty slot every
      slot is empty. Node ids are never negative. */
  ghost predicate PrefixShaped(row: seq<int>) {
    && |row| == Capacity
    && (forall i :: 0 <= i < |row| ==> row[i] >= 0)
    && (forall i, j :: 0 <= i < j < |row| && row[i] == 0 ==> row[j] == 0)
  }

  /** Index of the first empty slot, or |row| when every slot is taken. */
  function FirstZero(row: seq<int>): (k: nat)
    ensures k <= |row|
    ensures forall i :: 0 <= i < k ==> row[i] != 0
    ensures k < |row| ==> row[k] == 0
  {
    if row == [] then 0
    else if row[0] == 0 then 0
    else 1 + FirstZero(row[1..])
  }

  /** FirstZero is determined by the two facts its contract states. */
  lemma {:induction false} FirstZeroUnique(row: seq<int>, k: nat)
    requires k <= |row|
    requires forall i :: 0 <= i < k ==> row[i] != 0
    requires k < |row| ==> row[k] == 0
    ensures FirstZero(row) == k
  {
    if row != [] && row[0] != 0 {
      FirstZeroUnique(row[1..], k - 1);
    }
  }

  /** The neighbours stored in a row, in slot order. */
  function Live(row: seq<int>): seq<int> {
    row[..FirstZero(row)]
  }

  /** The row after writing x into its first empty slot. */
  function Insert(row: seq<int>, x: int): seq<int>
    requires FirstZero(row) < |row|
  {
    row[FirstZero(row) := x]
  }

  /** First-free-slot insertion into a prefix-shaped row appends to the list
      of live neighbours and keeps the row prefix-shaped. */
  lemma {:induction false} InsertAppends(row: seq<int>, x: int)
    requires PrefixShaped(row) && FirstZero(row) < Capacity && x > 0
    ensures PrefixShaped(Insert(row, x))
    ensures Live(Insert(row, x)) == Live(row) + [x]
  {
    var k := FirstZero(row);
    var r := Insert(row, x);
    FirstZeroUnique(r, k + 1);
  }

  /** A prefix-shaped row is full exactly when it holds four neighbours. */
  lemma FullRow(row: seq<int>)
    requires PrefixShaped(row)
    ensures FirstZero(row) == Capacity <==> |Live(row)| == Capacity
  {
  }

  /** The children of node n named by the elements, in element order;
      duplicated elements are listed once per occurrence. */
  function ChildrenOf(es: seq<Edge>, n: int): seq<int>
  {
    if es == [] then []
    else ChildrenOf(es[..|es| - 1], n) + (if es[|es| - 1].parent == n then [es[|es| - 1].child] else [])
  }

  /** The parents of node n named by the elements, in element order. */
  function ParentsOf(es: seq<Edge>, n: int): seq<int>
  {
    if es == [] then []
    else ParentsOf(es[..|es| - 1], n) + (if es[|es| - 1].child == n then [es[|es| - 1].parent] else [])
  }

  /** A bound on the children of every element bounds the children listed
      for any node. */
  lemma {:induction false} ChildrenBound(es: seq<Edge>, n: int, bound: int)
    requires forall k :: 0 <= k < |es| ==> es[k].child < bound
    ensures forall x :: x in ChildrenOf(es, n) ==> x < bound
    decreases |es|
  {
    if es != [] {
      ChildrenBound(es[..|es| - 1], n, bound);
    }
  }

  /** Neighbour lists only grow as more elements are read. */
  lemma {:induction false} NeighboursGrow(es: seq<Edge>, j: nat, n: int)
    requires j <= |es|
    ensures |ChildrenOf(es[..j], n)| <= |ChildrenOf(es, n)|
    ensures |ParentsOf(es[..j], n)| <= |ParentsOf(es, n)|
    decreases |es| - j
  {
    if j < |es| {
      NeighboursGrow(es, j + 1, n);
      assert es[..j + 1][..j] == es[..j];
    } else {
      assert es[..j] == es;
    }
  }

  /** No node below rows is the parent, or the child, of more than four
      elements: every row of the table can hold its neighbours. */
  ghost predicate Fits(es: seq<Edge>, rows: nat)
  {
    forall n :: 0 <= n < rows ==> |ChildrenOf(es, n)| <= Capacity && |ParentsOf(es, n)| <= Capacity
  }

  /** Element es[i] is the first element that overflows a row, and error is
      the assertion it trips: its parent's children are checked before its
      child's parents. */
  ghost predicate FirstOverflow(es: seq<Edge>, rows: nat, i: nat, error: Error)
  {
    && i < |es|
    && 0 <= es[i].parent < rows && 0 <= es[i].child < rows
    && Fits(es[..i], rows)
    && (|ChildrenOf(es[..i + 1], es[i].parent)| > Capacity || |ParentsOf(es[..i + 1], es[i].child)| > Capacity)
    && error == if |ChildrenOf(es[..i + 1], es[i].parent)| > Capacity
                then TooManyChildren(es[i].parent) else TooManyParents(es[i].child)
  }

  /** Once an element has overflowed a row, no longer prefix fits. */
  lemma OverflowPersists(es: seq<Edge>, rows: nat, i: nat, error: Error, j: nat)
    requires FirstOverflow(es, rows, i, error) && i < j <= |es|
    ensures !Fits(es[..j], rows)
  {
    var e := es[i];
    assert es[..j][..i + 1] == es[..i + 1];
    NeighboursGrow(es[..j], i + 1, e.parent);
    NeighboursGrow(es[..j], i + 1, e.child);
  }

  /** The first overflowing element, and so the error of a failed build, is
      determined by the elements. */
  lemma FirstOverflowUnique(es: seq<Edge>, rows: nat, i: nat, e1: Error, j: nat, e2: Error)
    requires FirstOverflow(es, rows, i, e1) && FirstOverflow(es, rows, j, e2)
    ensures i == j && e1 == e2
  {
    if i < j {
      OverflowPersists(es, rows, i, e1, j);
    } else if j < i {
      OverflowPersists(es, rows, j, e2, i);
    }
  }

  /** Elements that all join node n to itself list n as often among its
      children as among its parents. */
  lemma {:induction false} LoopLists(es: seq<Edge>, n: int)
    requires forall k :: 0 <= k < |es| ==> es[k] == Edge(n, n)
    ensures ChildrenOf(es, n) == ParentsOf(es, n)
    decreases |es|
  {
    if es != [] {
      LoopLists(es[..|es| - 1], n);
    }
  }

  /** When the elements all join node n to itself, the first overflow trips
      the children check: the children of the element's parent are checked
      before the parents of its child. */
  lemma LoopsOverflowChildren(es: seq<Edge>, rows: nat, i: nat, error: Error, n: int)
    requires forall k :: 0 <= k < |es| ==> es[k] == Edge(n, n)
    requires FirstOverflow(es, rows, i, error)
    ensures error == TooManyChildren(n)
  {
    LoopLists(es[..i + 1], n);
  }
}
