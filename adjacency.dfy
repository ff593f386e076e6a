/** The adjacency table of the resampler: 4-slot child, parent and "cleared
    child" rows per node, the start/end/junction flags derived from them, and
    the branch walk that follows child slot 0. */
module Adjacency {
  import opened MeshTypes
  import opened Slots

  /** The most loop iterations a branch walk may take; the 10000th fails. */
  const WalkBound: nat := 10000

  /** Row n of a rows-by-4 table, as a value. */
  ghost function RowOf(a: array2<int>, n: int): seq<int>
    reads a
    requires 0 <= n < a.Length0 && a.Length1 == Capacity
  {
    [a[n, 0], a[n, 1], a[n, 2], a[n, 3]]
  }

  /** The slot scan of the builder: the index of the first empty slot of row n,
      or Capacity when the row is full (where the source's assertion fails). */
  method FreeSlot(a: array2<int>, n: int) returns (i: nat)
    requires 0 <= n < a.Length0 && a.Length1 == Capacity
    ensures i == FirstZero(RowOf(a, n))
  {
    i := 0;
    while a[n, i] != 0
      invariant 0 <= i < Capacity
      invariant forall j :: 0 <= j < i ==> a[n, j] != 0
      decreases Capacity - i
    {
      i := i + 1;
      if i == Capacity {
        FirstZeroUnique(RowOf(a, n), i);
        return;
      }
    }
    FirstZeroUnique(RowOf(a, n), i);
  }

  /** Writes x into slot i of row n; every other slot keeps its value. */
  method WriteSlot(a: array2<int>, n: int, i: int, x: int)
    requires 0 <= n < a.Length0 && a.Length1 == Capacity && 0 <= i < Capacity
    modifies a
    ensures RowOf(a, n) == old(RowOf(a, n))[i := x]
    ensures forall m :: 0 <= m < a.Length0 && m != n ==> RowOf(a, m) == old(RowOf(a, m))
    ensures forall m, j :: 0 <= m < a.Length0 && 0 <= j < a.Length1 ==>
              a[m, j] == if m == n && j == i then x else old(a[m, j])
  {
    a[n, i] := x;
  }

  /** Node n is a strictly inner node of one of the branches walked so far. */
  predicate Consumed(branches: seq<seq<int>>, n: int)
  {
    && branches != []
    && (|| Consumed(branches[..|branches| - 1], n)
        || (|branches[|branches| - 1]| >= 2 && n in branches[|branches| - 1][1..|branches[|branches| - 1]| - 1]))
  }

  class Topology {
    /** Number of rows; node ids 1 .. rows-1 index them (row 0 is never a node). */
    const rows: nat
    const child: array2<int>      // children of each node, slot 0 first
    const parent: array2<int>     // parents of each node
    const cleared: array2<int>    // copy of child; slot 0 zeroed once a node is inside a walked branch
    const isStart: array<bool>
    const isEnd: array<bool>
    const isJunction: array<bool>

    /** Three separate rows-by-4 tables and one flag per row. */
    ghost predicate Shape() {
      && child.Length0 == rows && child.Length1 == Capacity
      && parent.Length0 == rows && parent.Length1 == Capacity
      && cleared.Length0 == rows && cleared.Length1 == Capacity
      && isStart.Length == rows && isEnd.Length == rows && isJunction.Length == rows
      && child != parent && child != cleared && parent != cleared
      && isStart != isEnd && isStart != isJunction && isEnd != isJunction
    }

    /** The child and parent rows hold in-range ids and are prefix-shaped. */
    ghost predicate Table()
      reads child, parent
    {
      && Shape()
      && (forall n, j :: 0 <= n < rows && 0 <= j < Capacity ==> 0 <= child[n, j] < rows && 0 <= parent[n, j] < rows)
      && (forall n :: 0 <= n < rows ==> PrefixShaped(RowOf(child, n)) && PrefixShaped(RowOf(parent, n)))
    }

    /** The table plus the cleared rows, which hold in-range ids. */
    ghost predicate Valid()
      reads child, parent, cleared
    {
      && Table()
      && (forall n, j :: 0 <= n < rows && 0 <= j < Capacity ==> 0 <= cleared[n, j] < rows)
    }

    /** While the table is being built, the cleared rows equal the child rows. */
    ghost predicate Mirrors()
      reads child, cleared
      requires Shape()
    {
      forall n, j :: 0 <= n < rows && 0 <= j < Capacity ==> cleared[n, j] == child[n, j]
    }

    /** The flags as the classifier computes them from slots 0 and 1. */
    ghost predicate Classified()
      reads child, parent, isStart, isEnd, isJunction
      requires Table()
    {
      forall n :: 0 <= n < rows ==>
        && (isEnd[n] <==> child[n, 0] == 0)
        && (isJunction[n] <==> child[n, 1] > 0 || parent[n, 1] > 0)
        && (isStart[n] <==> parent[n, 0] == 0)
    }

    constructor (rows: nat)
      ensures this.rows == rows && Valid() && Mirrors()
      ensures fresh(child) && fresh(parent) && fresh(cleared)
      ensures fresh(isStart) && fresh(isEnd) && fresh(isJunction)
      ensures forall n :: 0 <= n < rows ==> !isStart[n] && !isEnd[n] && !isJunction[n]
      ensures forall n :: 0 <= n < rows ==> Live(RowOf(child, n)) == [] && Live(RowOf(parent, n)) == []
    {
      this.rows := rows;
      child := new int[rows, Capacity]((n, j) => 0);
      parent := new int[rows, Capacity]((n, j) => 0);
      cleared := new int[rows, Capacity]((n, j) => 0);
      isStart := new bool[rows](_ => false);
      isEnd := new bool[rows](_ => false);
      isJunction := new bool[rows](_ => false);
      new;
      forall n | 0 <= n < rows
        ensures RowOf(child, n) == [0, 0, 0, 0] && RowOf(parent, n) == [0, 0, 0, 0]
        ensures PrefixShaped(RowOf(child, n)) && PrefixShaped(RowOf(parent, n))
        ensures Live(RowOf(child, n)) == [] && Live(RowOf(parent, n)) == []
      {
        FirstZeroUnique(RowOf(child, n), 0);
        FirstZeroUnique(RowOf(parent, n), 0);
      }
    }

    /** Records one element: c goes into the first empty slot of p's child
        row (and the same slot of its cleared row), p into the first empty slot
        of c's parent row. A full row is a fatal failure. */
    method AddElement(e: Edge) returns (out: Outcome)
      requires Valid() && Mirrors()
      requires 1 <= e.parent < rows && 1 <= e.child < rows
      modifies child, cleared, parent
      ensures out.Fail? <==>
                FirstZero(old(RowOf(child, e.parent))) == Capacity
                || FirstZero(old(RowOf(parent, e.child))) == Capacity
      ensures out.Fail? ==>
                out.error == if FirstZero(old(RowOf(child, e.parent))) == Capacity
                             then TooManyChildren(e.parent) else TooManyParents(e.child)
      ensures out.Pass? ==> Valid() && Mirrors()
      ensures out.Pass? ==>
                && RowOf(child, e.parent) == Insert(old(RowOf(child, e.parent)), e.child)
                && RowOf(parent, e.child) == Insert(old(RowOf(parent, e.child)), e.parent)
                && (forall n :: 0 <= n < rows && n != e.parent ==> RowOf(child, n) == old(RowOf(child, n)))
                && (forall n :: 0 <= n < rows && n != e.child ==> RowOf(parent, n) == old(RowOf(parent, n)))
    {
      var added := AddChild(e.parent, e.child);
      if !added {
        return Fail(TooManyChildren(e.parent));
      }
      added := AddParent(e.parent, e.child);
      if !added {
        return Fail(TooManyParents(e.child));
      }
      out := Pass;
    }

    /** The child half of AddElement: c goes into the first empty slot of p's
        child row and the same slot of p's cleared row, unless the row is full. */
    method AddChild(p: int, c: int) returns (added: bool)
      requires Valid() && Mirrors()
      requires 1 <= p < rows && 1 <= c < rows
      modifies child, cleared
      ensures added <==> FirstZero(old(RowOf(child, p))) < Capacity
      ensures added ==> Valid() && Mirrors() && RowOf(child, p) == Insert(old(RowOf(child, p)), c)
      ensures added ==> forall n :: 0 <= n < rows && n != p ==> RowOf(child, n) == old(RowOf(child, n))
    {
      ghost var row := RowOf(child, p);
      var i := FreeSlot(child, p);
      if i == Capacity {
        return false;
      }
      InsertAppends(row, c);
      WriteSlot(child, p, i, c);
      WriteSlot(cleared, p, i, c);
      added := true;
    }

    /** The parent half of AddElement: p goes into the first empty slot of c's
        parent row, unless the row is full. */
    method AddParent(p: int, c: int) returns (added: bool)
      requires Valid()
      requires 1 <= p < rows && 1 <= c < rows
      modifies parent
      ensures added <==> FirstZero(old(RowOf(parent, c))) < Capacity
      ensures added ==> Valid() && RowOf(parent, c) == Insert(old(RowOf(parent, c)), p)
      ensures added ==> forall n :: 0 <= n < rows && n != c ==> RowOf(parent, n) == old(RowOf(parent, n))
    {
      ghost var row := RowOf(parent, c);
      var k := FreeSlot(parent, c);
      if k == Capacity {
        return false;
      }
      InsertAppends(row, p);
      WriteSlot(parent, c, k, p);
      added := true;
    }
  
    /** Reads element es[i] into a table holding es[..i]: the table then holds
        es[..i+1], or the element overflows a row and the run fails. */
    method ReadElement(es: seq<Edge>, i: nat) returns (out: Outcome)
      requires Valid() && Mirrors() && i < |es|
      requires 1 <= es[i].parent < rows && 1 <= es[i].child < rows
      requires forall n :: 0 <= n < rows ==>
                 Live(RowOf(child, n)) == ChildrenOf(es[..i], n) && Live(RowOf(parent, n)) == ParentsOf(es[..i], n)
      modifies child, cleared, parent
      ensures out.Fail? ==> FirstOverflow(es, rows, i, out.error)
      ensures out.Pass? ==> Valid() && Mirrors()
      ensures out.Pass? ==> forall n :: 0 <= n < rows ==>
                Live(RowOf(child, n)) == ChildrenOf(es[..i + 1], n) && Live(RowOf(parent, n)) == ParentsOf(es[..i + 1], n)
    {
      var e := es[i];
      assert es[..i + 1][..i] == es[..i] && es[..i + 1][i] == e;
      ghost var childRow := RowOf(child, e.parent);
      ghost var parentRow := RowOf(parent, e.child);
      forall n | 0 <= n < rows
        ensures |ChildrenOf(es[..i], n)| <= Capacity && |ParentsOf(es[..i], n)| <= Capacity
      {
        assert |RowOf(child, n)| == Capacity == |RowOf(parent, n)|;
      }
      out := AddElement(e);
      if out.Fail? {
        FullRow(childRow);
        FullRow(parentRow);
        assert |ChildrenOf(es[..i + 1], e.parent)| == |Live(childRow)| + 1;
        assert |ParentsOf(es[..i + 1], e.child)| == |Live(parentRow)| + 1;
        return;
      }
      InsertAppends(childRow, e.child);
      InsertAppends(parentRow, e.parent);
      forall n | 0 <= n < rows
        ensures Live(RowOf(child, n)) == ChildrenOf(es[..i + 1], n)
        ensures Live(RowOf(parent, n)) == ParentsOf(es[..i + 1], n)
      {
        assert ChildrenOf(es[..i + 1], n) == ChildrenOf(es[..i], n) + (if e.parent == n then [e.child] else []);
        assert ParentsOf(es[..i + 1], n) == ParentsOf(es[..i], n) + (if e.child == n then [e.parent] else []);
      }
    }

    /** Reads the elements, in order, into the empty table. The run fails
        exactly when some node is the parent (or the child) of more than four
        elements, with the error of the first element that overflows a row;
        otherwise every row lists its node's children (parents) in
        element order, duplicates included. */
    method Build(es: seq<Edge>) returns (out: Outcome)
      requires Valid() && Mirrors()
      requires forall n :: 0 <= n < rows ==> Live(RowOf(child, n)) == [] && Live(RowOf(parent, n)) == []
      requires forall e :: e in es ==> 1 <= e.parent < rows && 1 <= e.child < rows
      modifies child, cleared, parent
      ensures out.Pass? <==> Fits(es, rows)
      ensures out.Fail? ==> exists i :: FirstOverflow(es, rows, i, out.error)
      ensures out.Pass? ==> Valid() && Mirrors()
      ensures out.Pass? ==> forall n :: 0 <= n < rows ==>
                Live(RowOf(child, n)) == ChildrenOf(es, n) && Live(RowOf(parent, n)) == ParentsOf(es, n)
    {
      var i := 0;
      assert es[..0] == [];
      while i < |es|
        invariant 0 <= i <= |es|
        invariant Valid() && Mirrors()
        invariant forall n :: 0 <= n < rows ==>
                    Live(RowOf(child, n)) == ChildrenOf(es[..i], n) && Live(RowOf(parent, n)) == ParentsOf(es[..i], n)
      {
        assert es[i] in es;
        out := ReadElement(es, i);
        if out.Fail? {
          OverflowPersists(es, rows, i, out.error, |es|);
          assert es[..|es|] == es;
          return;
        }
        i := i + 1;
      }
      assert es[..i] == es;
      out := Pass;
    }

    /** Sets the start, end and junction flags of every row from slots 0 and 1:
        end when child slot 0 is empty, junction when child or parent slot 1 is
        taken, start when parent slot 0 is empty. */
    method Classify()
      requires Valid()
      modifies isStart, isEnd, isJunction
      ensures Valid() && Classified()
      ensures forall n :: 0 <= n < rows && isEnd[n] ==> child[n, 1] == 0
    {
      for n := 0 to rows
        invariant forall m :: 0 <= m < n ==>
                    && (isEnd[m] <==> child[m, 0] == 0)
                    && (isJunction[m] <==> child[m, 1] > 0 || parent[m, 1] > 0)
                    && (isStart[m] <==> parent[m, 0] == 0)
      {
        var end, start, junction := child[n, 0] == 0, parent[n, 0] == 0, false;
        if child[n, 1] > 0 {
          junction := true;
        }
        if parent[n, 1] > 0 {
          junction := true;
        }
        isEnd[n], isStart[n], isJunction[n] := end, start, junction;
      }
      EmptyRows();
    }

    /** A node without a first child has no child at all. */
    lemma EmptyRows()
      requires Table()
      ensures forall n :: 0 <= n < rows && child[n, 0] == 0 ==> child[n, 1] == 0
    {
      forall n | 0 <= n < rows && child[n, 0] == 0
        ensures child[n, 1] == 0
      {
        var row := RowOf(child, n);
        assert PrefixShaped(row) && row[0] == 0 && row[1] == child[n, 1];
      }
    }

    /** The node reached from c by following child slot 0 k times. */
    ghost function Follow(c: int, k: nat): (x: int)
      reads child, parent
      requires Table() && 0 <= c < rows
      ensures 0 <= x < rows
      decreases k
    {
      if k == 0 then c else child[Follow(c, k - 1), 0]
    }

    /** Where a walk from branch start p stops: a junction, an end, or p itself. */
    ghost predicate Stop(x: int, p: int)
      reads isEnd, isJunction
      requires 0 <= x < isEnd.Length && x < isJunction.Length
    {
      isJunction[x] || isEnd[x] || x == p
    }

    /** nodes is the branch walked from element (p, c): p, then c and the
        slot-0 successors of c up to the first one (after c) where the walk
        stops, within the step bound. */
    ghost predicate IsBranch(p: int, c: int, nodes: seq<int>)
      reads child, parent, isEnd, isJunction
      requires Table() && 0 <= c < rows
    {
      && !isJunction[c] && !isEnd[c]
      && 3 <= |nodes| <= WalkBound + 1
      && nodes[0] == p
      && (forall i :: 1 <= i < |nodes| ==> nodes[i] == Follow(c, i - 1))
      && (forall k :: 1 <= k < |nodes| - 2 ==> !Stop(Follow(c, k), p))
      && Stop(Follow(c, |nodes| - 2), p)
    }

    /** The walk from element (p, c) does not stop within the step bound. */
    ghost predicate WalkOverflows(p: int, c: int)
      reads child, parent, isEnd, isJunction
      requires Table() && 0 <= c < rows
    {
      forall k :: 1 <= k < WalkBound ==> !Stop(Follow(c, k), p)
    }
  
    /** The walk of one element (p, c) whose child is neither a junction nor an
        end: it follows child slot 0 from c until it reaches a junction, an end
        or p, and fails on the 10000th step. */
    method WalkBranch(p: int, c: int) returns (r: Result<seq<int>>)
      requires Valid() && Classified()
      requires 1 <= p < rows && 1 <= c < rows && !isJunction[c] && !isEnd[c]
      ensures r.Ok? ==> IsBranch(p, c, r.value)
      ensures r.Err? ==> r.error == TrappedInLoop && WalkOverflows(p, c)
    {
      var nodes := [p, c];
      var node := c;
      var count := 0;
      var atEnd := false;
      while !atEnd
        invariant 0 <= count < WalkBound
        invariant node == Follow(c, count)
        invariant |nodes| == count + 2 && nodes[0] == p
        invariant forall i :: 1 <= i < |nodes| ==> nodes[i] == Follow(c, i - 1)
        invariant forall k :: 1 <= k < count ==> !Stop(Follow(c, k), p)
        invariant atEnd <==> count >= 1 && Stop(node, p)
        decreases WalkBound - count
      {
        count := count + 1;
        if count >= WalkBound {
          return Err(TrappedInLoop);
        }
        node := child[node, 0];
        atEnd := isJunction[node] || isEnd[node] || node == p;
        nodes := nodes + [node];
      }
      r := Ok(nodes);
    }

    /** A walked branch is a chain along child slot 0 whose inner nodes are
        neither junctions nor ends (and, after c, not the start) and whose last
        node is a junction, an end or the start. */
    lemma BranchShape(p: int, c: int, nodes: seq<int>)
      requires Table() && Classified() && 0 <= c < rows && IsBranch(p, c, nodes)
      ensures nodes[1] == c
      ensures forall i :: 1 <= i < |nodes| - 1 ==> nodes[i + 1] == child[nodes[i], 0]
      ensures forall i :: 1 <= i < |nodes| - 1 ==> !isJunction[nodes[i]] && !isEnd[nodes[i]]
      ensures forall i :: 2 <= i < |nodes| - 1 ==> nodes[i] != p
      ensures isJunction[nodes[|nodes| - 1]] || isEnd[nodes[|nodes| - 1]] || nodes[|nodes| - 1] == p
    {
      forall i | 1 <= i < |nodes| - 1
        ensures nodes[i + 1] == child[nodes[i], 0]
        ensures !isJunction[nodes[i]] && !isEnd[nodes[i]]
      {
        assert nodes[i + 1] == Follow(c, i);
        if i > 1 {
          assert !Stop(Follow(c, i - 1), p);
        }
      }
      forall i | 2 <= i < |nodes| - 1
        ensures nodes[i] != p
      {
        assert !Stop(Follow(c, i - 1), p);
      }
    }

    /** A walked branch visits node ids only: every node lies between 1 and
        any bound on its element's ids and on the first children of the
        table, since the walk moves on only from nodes that are not ends. */
    lemma BranchIds(p: int, c: int, nodes: seq<int>, bound: int)
      requires Table() && Classified() && 0 <= c < rows && IsBranch(p, c, nodes)
      requires 1 <= p < bound && 1 <= c < bound
      requires forall n :: 0 <= n < rows ==> child[n, 0] < bound
      ensures forall i :: 0 <= i < |nodes| ==> 1 <= nodes[i] < bound
    {
      BranchShape(p, c, nodes);
      forall i | 2 <= i < |nodes|
        ensures 1 <= nodes[i] < bound
      {
        var m := nodes[i - 1];
        assert m == Follow(c, i - 2);
        assert nodes[i] == child[m, 0] && !isEnd[m];
      }
    }

    /** The branch of an element is unique, and it exists only when the walk
        does not overflow. */
    lemma WalkDeterministic(p: int, c: int, a: seq<int>, b: seq<int>)
      requires Table() && 0 <= c < rows && IsBranch(p, c, a)
      ensures !WalkOverflows(p, c)
      ensures IsBranch(p, c, b) ==> a == b
    {
      if IsBranch(p, c, b) {
        assert |a| == |b|;
        forall i | 0 <= i < |a|
          ensures a[i] == b[i]
        {
          if i > 0 {
            assert a[i] == Follow(c, i - 1) == b[i];
          }
        }
      }
    }

    /** Since the previous state, slot 0 of the cleared row of each strictly
        inner node of nodes has become empty and nothing else has changed. */
    twostate predicate ClearedInside(nodes: seq<int>)
      reads cleared
      requires |nodes| >= 2
    {
      forall n, j :: 0 <= n < cleared.Length0 && 0 <= j < cleared.Length1 ==>
        cleared[n, j] == if j == 0 && n in nodes[1..|nodes| - 1] then 0 else old(cleared[n, j])
    }

    /** Marks the strictly inner nodes of a walked branch as consumed: slot 0
        of their cleared rows becomes empty and nothing else changes. */
    method ClearInterior(nodes: seq<int>)
      requires Valid() && |nodes| >= 2
      requires forall i :: 0 <= i < |nodes| ==> 0 <= nodes[i] < rows
      modifies cleared
      ensures Valid()
      ensures ClearedInside(nodes)
    {
      for i := 1 to |nodes| - 1
        invariant Valid()
        invariant forall n, j :: 0 <= n < rows && 0 <= j < Capacity ==>
                    cleared[n, j] == if j == 0 && n in nodes[1..i] then 0 else old(cleared[n, j])
      {
        assert nodes[1..i + 1] == nodes[1..i] + [nodes[i]];
        cleared[nodes[i], 0] := 0;
      }
    }

    /** The cleared rows once the branches have been walked: the child
        rows, with slot 0 emptied for every consumed node. */
    ghost predicate ClearedAfter(branches: seq<seq<int>>)
      reads child, cleared
      requires Shape()
    {
      forall n, j :: 0 <= n < cleared.Length0 && 0 <= j < cleared.Length1 ==>
        cleared[n, j] == if j == 0 && Consumed(branches, n) then 0 else child[n, j]
    }

    /** Clearing the inner nodes of one more branch consumes them. */
    twostate lemma ClearedStep(walked: seq<seq<int>>)
      requires Shape() && |walked| > 0 && |walked[|walked| - 1]| >= 2
      requires old(ClearedAfter(walked[..|walked| - 1])) && unchanged(child)
      requires ClearedInside(walked[|walked| - 1])
      ensures ClearedAfter(walked)
    {
    }
  }
}
