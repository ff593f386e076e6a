/** One step of the element loop of downsample_ex: an element is skipped,
    kept as it is, or its branch is walked and resampled; the retained nodes
    are then numbered and chained into new elements. */
module Resampler {
  import opened MeshTypes
  import opened Slots
  import opened Adjacency
  import opened Renumbering
  import opened Arclength

  /** Consecutive pairs of a path of retained nodes: the emitted elements. */
  function Links(path: seq<int>): (es: seq<Edge>)
    ensures |es| == if |path| < 2 then 0 else |path| - 1
  {
    if |path| < 2 then [] else Links(path[..|path| - 1]) + [Edge(path[|path| - 2], path[|path| - 1])]
  }

  /** The elements of a path join each node to the next one: a chain from
      the first node to the last. */
  lemma {:induction false} LinksChain(path: seq<int>)
    ensures forall k :: 0 <= k < |Links(path)| ==> Links(path)[k] == Edge(path[k], path[k + 1])
    decreases |path|
  {
    if |path| >= 2 {
      var init := path[..|path| - 1];
      LinksChain(init);
      assert forall k :: 0 <= k < |init| ==> init[k] == path[k];
    }
  }

  /** The new ids of the nodes of path when ids are numbered in the order
      order. */
  function NewIds(order: seq<int>, path: seq<int>): (r: seq<int>)
    ensures |r| == |path|
  {
    if path == [] then [] else NewIds(order, path[..|path| - 1]) + [Position(order, path[|path| - 1])]
  }

  /** NewIds reads each node's position. */
  lemma {:induction false} NewIdsIndex(order: seq<int>, path: seq<int>)
    ensures forall i :: 0 <= i < |path| ==> NewIds(order, path)[i] == Position(order, path[i])
    decreases |path|
  {
    if path != [] {
      NewIdsIndex(order, path[..|path| - 1]);
    }
  }

  /** The chain emitted for a path of at least two nodes runs from the new
      id of its first node to the new id of its last node, each element
      starting where the previous one ends. */
  lemma ChainEnds(order: seq<int>, path: seq<int>)
    requires |path| >= 2
    ensures |Links(NewIds(order, path))| == |path| - 1
    ensures Links(NewIds(order, path))[0].parent == Position(order, path[0])
    ensures Links(NewIds(order, path))[|path| - 2].child == Position(order, path[|path| - 1])
    ensures forall k :: 0 <= k < |path| - 2 ==>
              Links(NewIds(order, path))[k].child == Links(NewIds(order, path))[k + 1].parent
  {
    LinksChain(NewIds(order, path));
    NewIdsIndex(order, path);
  }

  /** The coordinate rows of the nodes of a branch (the nx list). */
  function Points(nodes: seq<int>, coordOf: seq<int>): (pts: seq<int>)
    requires forall i :: 0 <= i < |nodes| ==> 0 <= nodes[i] < |coordOf|
    ensures |pts| == |nodes|
  {
    if nodes == [] then [] else Points(nodes[..|nodes| - 1], coordOf) + [coordOf[nodes[|nodes| - 1]]]
  }

  /** Point i of a branch is the coordinate row of its node i. */
  lemma {:induction false} PointsIndex(nodes: seq<int>, coordOf: seq<int>, i: nat)
    requires forall j :: 0 <= j < |nodes| ==> 0 <= nodes[j] < |coordOf|
    requires i < |nodes|
    ensures Points(nodes, coordOf)[i] == coordOf[nodes[i]]
    decreases |nodes|
  {
    if i < |nodes| - 1 {
      PointsIndex(nodes[..|nodes| - 1], coordOf, i);
    }
  }

  /** The retained nodes of a walked branch, given the rounding mode and
      target length. */
  function BranchPath(nodes: seq<int>, coordOf: seq<int>, dist: Metric, mode: Rounding, target: real): (path: seq<int>)
    requires |nodes| >= 1 && target != 0.0
    requires forall i :: 0 <= i < |nodes| ==> 0 <= nodes[i] < |coordOf|
    ensures |path| >= 2 && path[0] == nodes[0] && path[|path| - 1] == nodes[|nodes| - 1]
    ensures forall i :: 0 <= i < |path| ==> path[i] in nodes
  {
    var cum := Cumulative(Points(nodes, coordOf), dist);
    Retained(nodes, cum, SampleCount(mode, cum[|cum| - 1], target))
  }

  /** nums holds the new numbers, in the numbering of order, of the first
      |nums| nodes of path, all of them given out. */
  ghost predicate Numbered(nums: seq<int>, order: seq<int>, path: seq<int>) {
    |nums| <= |path| && forall j :: 0 <= j < |nums| ==> nums[j] == Position(order, path[j]) && nums[j] != 0
  }

  /** Numbers path[k] once path[..k] has been numbered; the numbers already
      handed out to path[..k] stay. */
  method NumberNext(num: Numbering, path: seq<int>, k: nat, ghost seen: seq<int>, ghost nums: seq<int>) returns (next: int)
    requires num.Valid() && 1 <= k < |path| && |nums| == k
    requires forall i :: 0 <= i < |path| ==> 0 <= path[i] < num.numbers.Length
    requires num.order == OrderAfter(seen, path[..k]) && Numbered(nums, num.order, path)
    modifies num, num.numbers
    ensures num.Valid()
    ensures num.order == OrderAfter(seen, path[..k + 1])
    ensures Numbered(nums + [next], num.order, path)
  {
    ghost var ordered := num.order;
    next := num.Assign(path[k]);
    OrderAfterStep(seen, path, k, ordered, num.order);
    assert next == Position(num.order, path[k]) && next != 0;
    NumberedStep(nums, ordered, num.order, path, next);
  }

  /** Numbering path[k] leaves the numbers of path[..k] as they were. */
  lemma NumberedStep(nums: seq<int>, before: seq<int>, after: seq<int>, path: seq<int>, next: int)
    requires Numbered(nums, before, path) && |nums| < |path|
    requires after == if path[|nums|] in before then before else before + [path[|nums|]]
    requires next == Position(after, path[|nums|]) && next != 0
    ensures Numbered(nums + [next], after, path)
  {
    forall j | 0 <= j < |nums|
      ensures nums[j] == Position(after, path[j])
    {
      if path[|nums|] !in before {
        PositionSpec(before, path[j]);
        PositionSnoc(before, path[|nums|], path[j]);
      }
    }
  }

  /** The emission loop over the retained nodes of a branch: numbers every
      node of path in turn (getNewNodeNumber) and emits one element per
      consecutive pair, in the new numbering. */
  method EmitPath(num: Numbering, path: seq<int>) returns (added: seq<Edge>)
    requires num.Valid() && |path| >= 2
    requires forall i :: 0 <= i < |path| ==> 0 <= path[i] < num.numbers.Length
    modifies num, num.numbers
    ensures num.Valid()
    ensures num.order == OrderAfter(old(num.order), path)
    ensures added == Links(NewIds(num.order, path))
  {
    ghost var seen := num.order;
    var first := num.Assign(path[0]);
    OrderAfterStep(seen, path, 0, seen, num.order);
    var nums := [first];
    for k := 1 to |path|
      invariant num.Valid() && |nums| == k
      invariant num.order == OrderAfter(seen, path[..k])
      invariant Numbered(nums, num.order, path)
    {
      var next := NumberNext(num, path, k, seen, nums);
      nums := nums + [next];
    }
    assert path[..|path|] == path;
    NewIdsIndex(num.order, path);
    assert nums == NewIds(num.order, path);
    added := Links(nums);
  }

  /** The resampling of a walked branch: cumulative lengths, the sample
      count, and the retained nodes; dividing by a target of 0 fails. */
  method ResampleNodes(nodes: seq<int>, coordOf: seq<int>, dist: Metric, mode: Rounding, target: real) returns (r: Result<seq<int>>)
    requires |nodes| >= 1
    requires forall i :: 0 <= i < |nodes| ==> 0 <= nodes[i] < |coordOf|
    ensures r.Err? <==> target == 0.0
    ensures r.Err? ==> r.error == ZeroTarget
    ensures r.Ok? ==> r.value == BranchPath(nodes, coordOf, dist, mode, target)
    ensures r.Ok? ==> forall i :: 0 <= i < |r.value| ==> 0 <= r.value[i] < |coordOf|
  {
    var cum, length := CumulativeLengths(Points(nodes, coordOf), dist);
    if target == 0.0 {
      return Err(ZeroTarget);
    }
    var path := SampleNodes(nodes, cum, SampleCount(mode, length, target));
    forall i | 0 <= i < |path|
      ensures 0 <= path[i] < |coordOf|
    {
      assert path[i] in nodes;
    }
    r := Ok(path);
  }

  /** The walk case of the element loop for element (p, c): walk the branch,
      clear its inner nodes and choose the retained nodes. Fails when the walk
      overflows, and (as the division by the target length does) when the
      target is 0. */
  method TakeBranch(topo: Topology, p: int, c: int, coordOf: seq<int>, dist: Metric, mode: Rounding, target: real)
    returns (r: Result<seq<int>>, nodes: seq<int>)
    requires topo.Valid() && topo.Classified()
    requires 1 <= p < topo.rows && 1 <= c < topo.rows && !topo.isJunction[c] && !topo.isEnd[c]
    requires |coordOf| == topo.rows
    modifies topo.cleared
    ensures topo.Valid()
    ensures r.Err? <==> old(topo.WalkOverflows(p, c)) || target == 0.0
    ensures r.Err? ==> r.error == if old(topo.WalkOverflows(p, c)) then TrappedInLoop else ZeroTarget
    ensures r.Ok? ==> |nodes| >= 3 && forall i :: 0 <= i < |nodes| ==> 0 <= nodes[i] < topo.rows
    ensures r.Ok? ==>
              && old(topo.IsBranch(p, c, nodes))
              && r.value == BranchPath(nodes, coordOf, dist, mode, target)
              && (forall i :: 0 <= i < |r.value| ==> 0 <= r.value[i] < topo.rows)
              && topo.ClearedInside(nodes)
  {
    nodes := [];
    var walk := topo.WalkBranch(p, c);
    if walk.Err? {
      return Err(TrappedInLoop), nodes;
    }
    nodes := walk.value;
    topo.WalkDeterministic(p, c, nodes, nodes);
    topo.ClearInterior(nodes);
    r := ResampleNodes(nodes, coordOf, dist, mode, target);
  }

  /** How the element loop treats element e once the earlier branches have
      been walked: it is skipped (its parent has no child
      or lies inside an earlier branch), emitted as it is (its child is a
      junction or an end), or its branch is walked and resampled. */
  ghost predicate Handled(topo: Topology, e: Edge, earlier: seq<seq<int>>, nodes: seq<int>, path: seq<int>,
                          coordOf: seq<int>, dist: Metric, mode: Rounding, target: real)
    reads topo.child, topo.parent, topo.isEnd, topo.isJunction
    requires topo.Table() && 0 <= e.parent < topo.rows && 0 <= e.child < topo.rows
  {
    var p, c := e.parent, e.child;
    if topo.child[p, 0] == 0 || Consumed(earlier, p) then path == [] && nodes == []
    else if topo.isJunction[c] || topo.isEnd[c] then path == [p, c] && nodes == []
    else
      && topo.IsBranch(p, c, nodes)
      && (forall i :: 0 <= i < |nodes| ==> 0 <= nodes[i] < |coordOf|)
      && target != 0.0
      && path == BranchPath(nodes, coordOf, dist, mode, target)
  }

  /** Element e stops the run: it is walked, and its walk overflows or the
      division by the target length fails. */
  ghost predicate FailsAt(topo: Topology, e: Edge, earlier: seq<seq<int>>, error: Error, target: real)
    reads topo.child, topo.parent, topo.isEnd, topo.isJunction
    requires topo.Table() && 0 <= e.parent < topo.rows && 0 <= e.child < topo.rows
  {
    var p, c := e.parent, e.child;
    && topo.child[p, 0] != 0 && !Consumed(earlier, p)
    && !topo.isJunction[c] && !topo.isEnd[c]
    && error == (if topo.WalkOverflows(p, c) then TrappedInLoop else ZeroTarget)
    && (!topo.WalkOverflows(p, c) ==> target == 0.0)
  }

  /** The walk case of the element loop for element e = (p, c): walk the
      branch from (p, c), clear its inner nodes and choose its retained nodes. */
  method WalkElement(topo: Topology, e: Edge, coordOf: seq<int>, dist: Metric, mode: Rounding, target: real,
                     ghost branches: seq<seq<int>>)
    returns (out: Outcome, nodes: seq<int>, path: seq<int>)
    requires topo.Valid() && topo.Classified() && topo.ClearedAfter(branches)
    requires 1 <= e.parent < topo.rows && 1 <= e.child < topo.rows
    requires topo.child[e.parent, 0] != 0 && !Consumed(branches, e.parent)
    requires !topo.isJunction[e.child] && !topo.isEnd[e.child]
    requires |coordOf| == topo.rows
    modifies topo.cleared
    ensures topo.Valid()
    ensures out.Fail? ==> old(FailsAt(topo, e, branches, out.error, target))
    ensures out.Pass? ==>
              && old(Handled(topo, e, branches, nodes, path, coordOf, dist, mode, target))
              && topo.ClearedAfter(branches + [nodes])
              && |path| >= 2 && (forall i :: 0 <= i < |path| ==> 0 <= path[i] < topo.rows)
  {
    path := [];
    var r;
    r, nodes := TakeBranch(topo, e.parent, e.child, coordOf, dist, mode, target);
    if r.Err? {
      return Fail(r.error), nodes, path;
    }
    topo.ClearedStep(branches + [nodes]);
    path := r.value;
    out := Pass;
  }

  /** The body of the element loop for element e = (p, c), once the branches
      have been walked: skip it when slot 0 of p's cleared row is empty; take
      (p, c) as it is when c is a junction or an end; otherwise walk the branch
      from (p, c), clear its inner nodes and resample it. path is the
      sequence of old ids to number and chain ([] when skipped), nodes the
      walked branch ([] when none is walked). */
  method SelectPath(topo: Topology, e: Edge, coordOf: seq<int>, dist: Metric, mode: Rounding, target: real,
                    ghost branches: seq<seq<int>>)
    returns (out: Outcome, nodes: seq<int>, path: seq<int>)
    requires topo.Valid() && topo.Classified() && topo.ClearedAfter(branches)
    requires 1 <= e.parent < topo.rows && 1 <= e.child < topo.rows
    requires |coordOf| == topo.rows
    modifies topo.cleared
    ensures topo.Valid()
    ensures out.Fail? ==> old(FailsAt(topo, e, branches, out.error, target))
    ensures out.Pass? ==>
              && old(Handled(topo, e, branches, nodes, path, coordOf, dist, mode, target))
              && topo.ClearedAfter(branches + [nodes])
              && (path == [] || |path| >= 2)
              && (forall i :: 0 <= i < |path| ==> 0 <= path[i] < topo.rows)
  {
    var p, c := e.parent, e.child;
    nodes, path := [], [];
    assert (branches + [nodes])[..|branches|] == branches;
    if topo.cleared[p, 0] == 0 {
      return Pass, nodes, path;
    }
    if topo.isJunction[c] || topo.isEnd[c] {
      return Pass, nodes, [p, c];
    }
    out, nodes, path := WalkElement(topo, e, coordOf, dist, mode, target, branches);
  }
}
