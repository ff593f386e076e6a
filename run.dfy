/** The whole resampling run of downsample_ex: build and classify the table,
    handle every element in order, then invert the renumbering. */
module Run {
  import opened MeshTypes
  import opened Slots
  import opened Adjacency
  import opened Renumbering
  import opened Arclength
  import opened Resampler

  /** The reduced mesh: its elements in the new numbering, the new number of
      every old id (0 when dropped) and the old id of every new number (with
      an unused entry 0 in front). */
  datatype Output = Output(elements: seq<Edge>, newOf: seq<int>, oldOf: seq<int>)

  /** The numbering order after the paths have been numbered one after the
      other, from an empty order. */
  function OrderOf(paths: seq<seq<int>>): seq<int>
  {
    if paths == [] then [] else OrderAfter(OrderOf(paths[..|paths| - 1]), paths[|paths| - 1])
  }

  /** Every node of every path is listed by the order, and no node twice. */
  lemma {:induction false} OrderOfCovers(paths: seq<seq<int>>)
    ensures Distinct(OrderOf(paths))
    ensures forall k, i :: 0 <= k < |paths| && 0 <= i < |paths[k]| ==> paths[k][i] in OrderOf(paths)
  {
    if paths != [] {
      var init := paths[..|paths| - 1];
      OrderOfCovers(init);
      var last, o := paths[|paths| - 1], OrderOf(init);
      OrderAfterSpec(o, last);
      forall k, i | 0 <= k < |paths| && 0 <= i < |paths[k]|
        ensures paths[k][i] in OrderOf(paths)
      {
        var x := paths[k][i];
        if k < |init| {
          assert x == init[k][i] && x in o;
        } else {
          assert x in last;
        }
      }
    }
  }

  /** The elements emitted for the paths, each chained in the numbering of
      order. */
  function Chains(order: seq<int>, paths: seq<seq<int>>): seq<Edge>
  {
    if paths == [] then [] else Chains(order, paths[..|paths| - 1]) + Links(NewIds(order, paths[|paths| - 1]))
  }

  /** The new ids of numbered nodes do not change when the order grows. */
  lemma NewIdsExtend(order: seq<int>, more: seq<int>, path: seq<int>)
    requires |order| <= |more| && more[..|order|] == order
    requires forall i :: 0 <= i < |path| ==> path[i] in order
    ensures NewIds(more, path) == NewIds(order, path)
  {
    NewIdsIndex(order, path);
    NewIdsIndex(more, path);
    forall i | 0 <= i < |path|
      ensures Position(more, path[i]) == Position(order, path[i])
    {
      PositionSpec(order, path[i]);
      PositionExtend(order, more, path[i]);
    }
  }

  /** Elements already emitted keep their numbers when the order grows. */
  lemma {:induction false} ChainsExtend(order: seq<int>, more: seq<int>, paths: seq<seq<int>>)
    requires |order| <= |more| && more[..|order|] == order
    requires forall k, i :: 0 <= k < |paths| && 0 <= i < |paths[k]| ==> paths[k][i] in order
    ensures Chains(more, paths) == Chains(order, paths)
  {
    if paths != [] {
      var init := paths[..|paths| - 1];
      forall k, i | 0 <= k < |init| && 0 <= i < |init[k]|
        ensures init[k][i] in order
      {
        assert init[k] == paths[k];
      }
      ChainsExtend(order, more, init);
      NewIdsExtend(order, more, paths[|paths| - 1]);
    }
  }

  /** Elements es[..|paths|] have been handled in order: element k walked
      branches[k] (or none) and produced paths[k], given the branches walked
      before it. */
  ghost predicate AllHandled(topo: Topology, es: seq<Edge>, branches: seq<seq<int>>, paths: seq<seq<int>>,
                             coordOf: seq<int>, dist: Metric, mode: Rounding, target: real)
    reads topo.child, topo.parent, topo.isEnd, topo.isJunction
    requires topo.Table() && |branches| == |paths| <= |es|
    requires forall i :: 0 <= i < |es| ==> 1 <= es[i].parent < topo.rows && 1 <= es[i].child < topo.rows
    decreases |paths|
  {
    var n := |paths|;
    n == 0 ||
      (&& AllHandled(topo, es, branches[..n - 1], paths[..n - 1], coordOf, dist, mode, target)
       && Handled(topo, es[n - 1], branches[..n - 1], branches[n - 1], paths[n - 1], coordOf, dist, mode, target))
  }

  /** AllHandled, element by element: element k of the handled prefix was
      handled given the branches walked before it. */
  lemma {:induction false} AllHandledAt(topo: Topology, es: seq<Edge>, branches: seq<seq<int>>, paths: seq<seq<int>>,
                                       coordOf: seq<int>, dist: Metric, mode: Rounding, target: real, k: nat)
    requires topo.Table() && |branches| == |paths| <= |es|
    requires forall i :: 0 <= i < |es| ==> 1 <= es[i].parent < topo.rows && 1 <= es[i].child < topo.rows
    requires AllHandled(topo, es, branches, paths, coordOf, dist, mode, target) && k < |paths|
    ensures Handled(topo, es[k], branches[..k], branches[k], paths[k], coordOf, dist, mode, target)
    decreases |paths|
  {
    var n := |paths|;
    if k < n - 1 {
      var bs, ps := branches[..n - 1], paths[..n - 1];
      AllHandledAt(topo, es, bs, ps, coordOf, dist, mode, target, k);
      assert bs[..k] == branches[..k] && bs[k] == branches[k] && ps[k] == paths[k];
    }
  }

  /** Selects the path of element es[i] once es[..i] has been handled. */
  method SelectNext(topo: Topology, es: seq<Edge>, i: nat, coordOf: seq<int>, dist: Metric, mode: Rounding, target: real,
                    ghost branches: seq<seq<int>>, ghost paths: seq<seq<int>>)
    returns (out: Outcome, nodes: seq<int>, path: seq<int>)
    requires topo.Valid() && topo.Classified()
    requires forall i :: 0 <= i < |es| ==> 1 <= es[i].parent < topo.rows && 1 <= es[i].child < topo.rows
    requires |coordOf| == topo.rows
    requires |branches| == |paths| == i < |es|
    requires AllHandled(topo, es, branches, paths, coordOf, dist, mode, target) && topo.ClearedAfter(branches)
    modifies topo.cleared
    ensures topo.Valid() && topo.Classified()
    ensures out.Fail? ==> FailsAt(topo, es[i], branches, out.error, target)
    ensures out.Pass? ==>
              && AllHandled(topo, es, branches + [nodes], paths + [path], coordOf, dist, mode, target)
              && topo.ClearedAfter(branches + [nodes])
              && (path == [] || |path| >= 2)
              && forall j :: 0 <= j < |path| ==> 0 <= path[j] < topo.rows
  {
    out, nodes, path := SelectPath(topo, es[i], coordOf, dist, mode, target, branches);
    assert AllHandled(topo, es, branches, paths, coordOf, dist, mode, target);
    if out.Pass? {
      assert Handled(topo, es[i], branches, nodes, path, coordOf, dist, mode, target);
      assert (branches + [nodes])[..i] == branches && (paths + [path])[..i] == paths;
    } else {
      assert FailsAt(topo, es[i], branches, out.error, target);
    }
  }

  /** Numbers the nodes of one more path and emits its chain after the
      elements emitted for the earlier paths. */
  method NumberPath(num: Numbering, path: seq<int>, elements: seq<Edge>, ghost paths: seq<seq<int>>)
    returns (more: seq<Edge>)
    requires num.Valid() && num.order == OrderOf(paths) && elements == Chains(num.order, paths)
    requires path == [] || |path| >= 2
    requires forall j :: 0 <= j < |path| ==> 0 <= path[j] < num.numbers.Length
    modifies num, num.numbers
    ensures num.Valid() && num.order == OrderOf(paths + [path]) && more == Chains(num.order, paths + [path])
  {
    var added := [];
    if path != [] {
      added := EmitPath(num, path);
    }
    assert (paths + [path])[..|paths|] == paths;
    OrderOfCovers(paths);
    OrderAfterSpec(OrderOf(paths), path);
    ChainsExtend(OrderOf(paths), num.order, paths);
    more := elements + added;
  }

  /** One iteration of the element loop: select the path of es[i], then
      number its nodes and emit its chain. */
  method Advance(topo: Topology, num: Numbering, es: seq<Edge>, i: nat, coordOf: seq<int>, dist: Metric, mode: Rounding, target: real,
                 elements: seq<Edge>, ghost paths: seq<seq<int>>, ghost branches: seq<seq<int>>)
    returns (out: Outcome, more: seq<Edge>, nodes: seq<int>, path: seq<int>)
    requires topo.Valid() && topo.Classified() && num.Valid() && num.numbers.Length == topo.rows
    requires forall i :: 0 <= i < |es| ==> 1 <= es[i].parent < topo.rows && 1 <= es[i].child < topo.rows
    requires |coordOf| == topo.rows
    requires |paths| == |branches| == i < |es|
    requires AllHandled(topo, es, branches, paths, coordOf, dist, mode, target) && topo.ClearedAfter(branches)
    requires num.order == OrderOf(paths) && elements == Chains(num.order, paths)
    modifies topo.cleared, num, num.numbers
    ensures topo.Valid() && topo.Classified() && num.Valid()
    ensures out.Fail? ==> FailsAt(topo, es[i], branches, out.error, target) && num.order == OrderOf(paths) && more == Chains(num.order, paths)
    ensures out.Pass? ==>
              && AllHandled(topo, es, branches + [nodes], paths + [path], coordOf, dist, mode, target)
              && topo.ClearedAfter(branches + [nodes])
              && num.order == OrderOf(paths + [path]) && more == Chains(num.order, paths + [path])
  {
    more := elements;
    out, nodes, path := SelectNext(topo, es, i, coordOf, dist, mode, target, branches, paths);
    if out.Pass? {
      more := NumberPath(num, path, elements, paths);
    }
  }

  /** The element loop of downsample_ex over a built and classified table:
      the elements up to the first failing one are handled in order, and the
      elements emitted so far are the chains of the handled paths in the
      numbering by first use. */
  method HandleElements(topo: Topology, num: Numbering, es: seq<Edge>, coordOf: seq<int>, dist: Metric, mode: Rounding, target: real)
    returns (out: Outcome, elements: seq<Edge>, ghost paths: seq<seq<int>>, ghost branches: seq<seq<int>>)
    requires topo.Valid() && topo.Classified() && topo.ClearedAfter([])
    requires num.Valid() && num.numbers.Length == topo.rows && num.order == []
    requires forall i :: 0 <= i < |es| ==> 1 <= es[i].parent < topo.rows && 1 <= es[i].child < topo.rows
    requires |coordOf| == topo.rows
    modifies topo.cleared, num, num.numbers
    ensures topo.Valid() && num.Valid()
    ensures |paths| == |branches| <= |es|
    ensures AllHandled(topo, es, branches, paths, coordOf, dist, mode, target)
    ensures out.Pass? <==> |paths| == |es|
    ensures out.Fail? ==> FailsAt(topo, es[|paths|], branches, out.error, target)
    ensures num.order == OrderOf(paths) && elements == Chains(num.order, paths)
  {
    elements, paths, branches := [], [], [];
    for i := 0 to |es|
      invariant topo.Valid() && num.Valid() && num.numbers.Length == topo.rows
      invariant topo.Classified()
      invariant |paths| == |branches| == i
      invariant AllHandled(topo, es, branches, paths, coordOf, dist, mode, target)
      invariant topo.ClearedAfter(branches)
      invariant num.order == OrderOf(paths) && elements == Chains(num.order, paths)
    {
      var r, more, nodes, path := Advance(topo, num, es, i, coordOf, dist, mode, target, elements, paths, branches);
      if r.Fail? {
        return r, more, paths, branches;
      }
      elements := more;
      paths, branches := paths + [path], branches + [nodes];
    }
    out := Pass;
  }

  /** The first two passes of downsample_ex: a fresh table of rows rows,
      filled from the elements and classified. */
  method BuildTable(rows: nat, es: seq<Edge>) returns (out: Outcome, topo: Topology)
    requires forall i :: 0 <= i < |es| ==> 1 <= es[i].parent < rows && 1 <= es[i].child < rows
    ensures fresh(topo.child) && fresh(topo.parent) && fresh(topo.cleared)
    ensures fresh(topo.isStart) && fresh(topo.isEnd) && fresh(topo.isJunction)
    ensures out.Pass? <==> Fits(es, rows)
    ensures out.Fail? ==> exists i :: FirstOverflow(es, rows, i, out.error)
    ensures out.Pass? ==>
              && topo.rows == rows && topo.Valid() && topo.Classified() && topo.ClearedAfter([])
              && forall n :: 0 <= n < rows ==>
                   Live(RowOf(topo.child, n)) == ChildrenOf(es, n) && Live(RowOf(topo.parent, n)) == ParentsOf(es, n)
  {
    topo := new Topology(rows);
    out := topo.Build(es);
    if out.Pass? {
      topo.Classify();
    }
  }

  /** The element loop and the reverse map of downsample_ex on a built and
      classified table, with a fresh numbering. */
  method ReduceMesh(topo: Topology, es: seq<Edge>, coordOf: seq<int>, dist: Metric, mode: Rounding, target: real)
    returns (r: Result<Output>, ghost paths: seq<seq<int>>, ghost branches: seq<seq<int>>)
    requires topo.Valid() && topo.Classified() && topo.ClearedAfter([])
    requires forall i :: 0 <= i < |es| ==> 1 <= es[i].parent < topo.rows && 1 <= es[i].child < topo.rows
    requires |coordOf| == topo.rows
    modifies topo.cleared
    ensures topo.Valid() && topo.Classified()
    ensures |paths| == |branches| <= |es|
    ensures AllHandled(topo, es, branches, paths, coordOf, dist, mode, target)
    ensures r.Ok? <==> |paths| == |es|
    ensures r.Err? ==> FailsAt(topo, es[|paths|], branches, r.error, target)
    ensures r.Ok? ==>
              && r.value.elements == Chains(OrderOf(paths), paths)
              && r.value.oldOf == [0] + OrderOf(paths)
              && |r.value.newOf| == topo.rows
              && forall x :: 0 <= x < topo.rows ==> r.value.newOf[x] == Position(OrderOf(paths), x)
  {
    var num := new Numbering(topo.rows);
    var out, elements;
    out, elements, paths, branches := HandleElements(topo, num, es, coordOf, dist, mode, target);
    if out.Fail? {
      return Err(out.error), paths, branches;
    }
    var oldOf := num.ReverseMap();
    r := Ok(Output(elements, num.numbers[..], oldOf));
  }

  /** What a run of downsample_ex on a mesh with node ids 1 .. rows-1 yields
      (coordOf[id] is the coordinate row of node id, dist the length of the
      segment between two coordinate rows, mode the rounding of the sample
      count, target the target element length). The run fails with an
      overflowing row exactly when some node has more than four children or
      parents. Otherwise topo holds every node's children and parents in
      element order, element k has been handled walking branches[k] and
      chaining paths[k], up to the first element whose walk overflows or
      meets a zero target; when there is none, the output holds the chains
      of all paths in the numbering by first use and both directions of that
      numbering. */
  ghost predicate Reduced(rows: nat, es: seq<Edge>, coordOf: seq<int>, dist: Metric, mode: Rounding, target: real,
                          r: Result<Output>, topo: Topology, paths: seq<seq<int>>, branches: seq<seq<int>>)
    reads topo.child, topo.parent, topo.isStart, topo.isEnd, topo.isJunction
    requires forall i :: 0 <= i < |es| ==> 1 <= es[i].parent < rows && 1 <= es[i].child < rows
  {
    && ((r.Err? && (r.error.TooManyChildren? || r.error.TooManyParents?)) <==> !Fits(es, rows))
    && (r.Err? && (r.error.TooManyChildren? || r.error.TooManyParents?) ==> exists i :: FirstOverflow(es, rows, i, r.error))
    && (Fits(es, rows) ==>
          && topo.rows == rows && topo.Table() && topo.Classified()
          && (forall n :: 0 <= n < rows ==>
                Live(RowOf(topo.child, n)) == ChildrenOf(es, n) && Live(RowOf(topo.parent, n)) == ParentsOf(es, n))
          && |paths| == |branches| <= |es|
          && AllHandled(topo, es, branches, paths, coordOf, dist, mode, target)
          && (r.Ok? <==> |paths| == |es|)
          && (r.Err? ==> FailsAt(topo, es[|paths|], branches, r.error, target)))
    && (r.Ok? ==>
          && r.value.elements == Chains(OrderOf(paths), paths)
          && r.value.oldOf == [0] + OrderOf(paths)
          && |r.value.newOf| == rows
          && forall x :: 0 <= x < rows ==> r.value.newOf[x] == Position(OrderOf(paths), x))
  }

  /** A reduced mesh the output files can be written from: the reverse map
      has the unused entry 0 in front, every element joins two new numbers
      the reverse map covers, every new number names a node of the table,
      and the two maps invert each other. */
  ghost predicate Consistent(rows: nat, o: Output) {
    && |o.newOf| == rows && |o.oldOf| >= 1 && o.oldOf[0] == 0
    && (forall j :: 0 <= j < |o.elements| ==>
          1 <= o.elements[j].parent < |o.oldOf| && 1 <= o.elements[j].child < |o.oldOf|)
    && (forall n :: 1 <= n < |o.oldOf| ==> 0 <= o.oldOf[n] < rows && o.newOf[o.oldOf[n]] == n)
    && (forall x :: 0 <= x < rows && o.newOf[x] != 0 ==> 0 < o.newOf[x] < |o.oldOf| && o.oldOf[o.newOf[x]] == x)
  }

  /** downsample_ex, after reading the mesh: build and classify the table,
      handle the elements, invert the renumbering. */
  method Resample(rows: nat, es: seq<Edge>, coordOf: seq<int>, dist: Metric, mode: Rounding, target: real)
    returns (r: Result<Output>, ghost topo: Topology, ghost paths: seq<seq<int>>, ghost branches: seq<seq<int>>)
    requires forall i :: 0 <= i < |es| ==> 1 <= es[i].parent < rows && 1 <= es[i].child < rows
    requires |coordOf| == rows
    ensures Reduced(rows, es, coordOf, dist, mode, target, r, topo, paths, branches)
    ensures (r.Err? && (r.error.TooManyChildren? || r.error.TooManyParents?)) <==> !Fits(es, rows)
    ensures r.Err? && r.error == ZeroTarget ==> target == 0.0
    ensures r.Ok? ==> Consistent(rows, r.value)
    ensures r.Ok? && es == [] ==> |r.value.oldOf| == 1
    ensures r.Ok? && es != [] ==> |r.value.oldOf| - 1 <= rows - 1
  {
    var built, t := BuildTable(rows, es);
    topo, paths, branches := t, [], [];
    if built.Fail? {
      return Err(built.error), topo, paths, branches;
    }
    r, paths, branches := ReduceMesh(t, es, coordOf, dist, mode, target);
    if r.Ok? {
      ResampledOutput(rows, es, coordOf, dist, mode, target, r, topo, paths, branches);
      NodeCountBound(rows, es, coordOf, dist, mode, target, r, topo, paths, branches, rows);
    }
  }

  /** The nodes of the handled paths are node ids: each lies between 1 and
      any bound on the element ids and the first children of the table. */
  lemma {:induction false} AllHandledRange(topo: Topology, es: seq<Edge>, branches: seq<seq<int>>, paths: seq<seq<int>>,
                                          coordOf: seq<int>, dist: Metric, mode: Rounding, target: real, bound: int)
    requires topo.Table() && topo.Classified() && |branches| == |paths| <= |es| && |coordOf| == topo.rows
    requires forall i :: 0 <= i < |es| ==> 1 <= es[i].parent < topo.rows && 1 <= es[i].child < topo.rows
    requires forall i :: 0 <= i < |es| ==> es[i].parent < bound && es[i].child < bound
    requires forall n :: 0 <= n < topo.rows ==> topo.child[n, 0] < bound
    requires AllHandled(topo, es, branches, paths, coordOf, dist, mode, target)
    ensures forall k, i :: 0 <= k < |paths| && 0 <= i < |paths[k]| ==> 1 <= paths[k][i] < bound
    decreases |paths|
  {
    var n := |paths|;
    if n > 0 {
      var bs, ps := branches[..n - 1], paths[..n - 1];
      AllHandledRange(topo, es, bs, ps, coordOf, dist, mode, target, bound);
      var last, nodes, e := paths[n - 1], branches[n - 1], es[n - 1];
      assert Handled(topo, e, bs, nodes, last, coordOf, dist, mode, target);
      if !(topo.child[e.parent, 0] == 0 || Consumed(bs, e.parent)) && !(topo.isJunction[e.child] || topo.isEnd[e.child]) {
        topo.BranchIds(e.parent, e.child, nodes, bound);
      }
      forall i | 0 <= i < |last|
        ensures 1 <= last[i] < bound
      {
        assert last[i] in nodes || last[i] == e.parent || last[i] == e.child;
      }
      forall k, i | 0 <= k < n && 0 <= i < |paths[k]|
        ensures 1 <= paths[k][i] < bound
      {
        if k < n - 1 {
          assert paths[k] == ps[k];
        }
      }
    }
  }

  /** A bound on the children of the elements bounds the first child of
      every node of a table that lists the elements' children. */
  lemma FirstChildBound(topo: Topology, es: seq<Edge>, bound: int)
    requires topo.Table() && bound >= 1
    requires forall n :: 0 <= n < topo.rows ==> Live(RowOf(topo.child, n)) == ChildrenOf(es, n)
    requires forall i :: 0 <= i < |es| ==> es[i].child < bound
    ensures forall n :: 0 <= n < topo.rows ==> topo.child[n, 0] < bound
  {
    forall n | 0 <= n < topo.rows
      ensures topo.child[n, 0] < bound
    {
      var row := RowOf(topo.child, n);
      ChildrenBound(es, n, bound);
      if row[0] != 0 {
        assert Live(row)[0] == topo.child[n, 0];
        assert topo.child[n, 0] in ChildrenOf(es, n);
      }
    }
  }

  /** Every id the order lists comes from one of the paths, so bounds on
      the paths' nodes bound the order. */
  lemma {:induction false} OrderOfRange(paths: seq<seq<int>>, lo: int, hi: int)
    requires forall k, i :: 0 <= k < |paths| && 0 <= i < |paths[k]| ==> lo <= paths[k][i] < hi
    ensures forall x :: x in OrderOf(paths) ==> lo <= x < hi
  {
    if paths != [] {
      var init, last := paths[..|paths| - 1], paths[|paths| - 1];
      forall k, i | 0 <= k < |init| && 0 <= i < |init[k]|
        ensures lo <= init[k][i] < hi
      {
        assert init[k] == paths[k];
      }
      OrderOfRange(init, lo, hi);
      OrderAfterSpec(OrderOf(init), last);
    }
  }

  /** The chains of paths whose nodes the order lists use the new ids
      1 .. |order| only. */
  lemma {:induction false} ChainsInRange(order: seq<int>, paths: seq<seq<int>>)
    requires forall k, i :: 0 <= k < |paths| && 0 <= i < |paths[k]| ==> paths[k][i] in order
    ensures forall j :: 0 <= j < |Chains(order, paths)| ==>
              && 1 <= Chains(order, paths)[j].parent <= |order|
              && 1 <= Chains(order, paths)[j].child <= |order|
  {
    if paths != [] {
      var init, last := paths[..|paths| - 1], paths[|paths| - 1];
      forall k, i | 0 <= k < |init| && 0 <= i < |init[k]|
        ensures init[k][i] in order
      {
        assert init[k] == paths[k];
      }
      ChainsInRange(order, init);
      var ids := NewIds(order, last);
      NewIdsIndex(order, last);
      LinksChain(ids);
      forall i | 0 <= i < |last|
        ensures 1 <= ids[i] <= |order|
      {
        assert last[i] in order;
        PositionSpec(order, last[i]);
      }
      var before: seq<Edge>, added: seq<Edge> := Chains(order, init), Links(ids);
      assert Chains(order, paths) == before + added;
      forall j | 0 <= j < |before| + |added|
        ensures 1 <= (before + added)[j].parent <= |order| && 1 <= (before + added)[j].child <= |order|
      {
        if j >= |before| {
          assert (before + added)[j] == Edge(ids[j - |before|], ids[j - |before| + 1]);
        }
      }
    }
  }

  /** A successful run writes a consistent reduced mesh: every element joins
      two new numbers that the reverse map knows, the reverse map names a
      node of the table for every new number, and the two maps invert each
      other. */
  lemma ResampledOutput(rows: nat, es: seq<Edge>, coordOf: seq<int>, dist: Metric, mode: Rounding, target: real,
                        r: Result<Output>, topo: Topology, paths: seq<seq<int>>, branches: seq<seq<int>>)
    requires forall i :: 0 <= i < |es| ==> 1 <= es[i].parent < rows && 1 <= es[i].child < rows
    requires |coordOf| == rows
    requires Reduced(rows, es, coordOf, dist, mode, target, r, topo, paths, branches) && r.Ok?
    ensures Consistent(rows, r.value)
  {
    var order := OrderOf(paths);
    AllHandledRange(topo, es, branches, paths, coordOf, dist, mode, target, rows);
    OrderOfCovers(paths);
    OrderOfRange(paths, 1, rows);
    ChainsInRange(order, paths);
    forall n | 1 <= n < |r.value.oldOf|
      ensures 0 <= r.value.oldOf[n] < rows && r.value.newOf[r.value.oldOf[n]] == n
    {
      assert r.value.oldOf[n] == order[n - 1] && order[n - 1] in order;
      PositionOfEntry(order, n - 1);
    }
    forall x | 0 <= x < rows && r.value.newOf[x] != 0
      ensures 0 < r.value.newOf[x] < |r.value.oldOf| && r.value.oldOf[r.value.newOf[x]] == x
    {
      PositionSpec(order, x);
    }
  }

  /** A successful run keeps no node without elements, and otherwise at
      most as many nodes as there are ids from 1 below any bound on the
      element ids: the reduced mesh never has more nodes than the original
      one. */
  lemma NodeCountBound(rows: nat, es: seq<Edge>, coordOf: seq<int>, dist: Metric, mode: Rounding, target: real,
                       r: Result<Output>, topo: Topology, paths: seq<seq<int>>, branches: seq<seq<int>>, bound: int)
    requires forall i :: 0 <= i < |es| ==> 1 <= es[i].parent < rows && 1 <= es[i].child < rows
    requires |coordOf| == rows
    requires Reduced(rows, es, coordOf, dist, mode, target, r, topo, paths, branches) && r.Ok?
    requires forall i :: 0 <= i < |es| ==> es[i].parent < bound && es[i].child < bound
    ensures es == [] ==> |r.value.oldOf| == 1
    ensures es != [] ==> |r.value.oldOf| - 1 <= bound - 1
  {
    if es == [] {
      assert paths == [];
      return;
    }
    assert 1 <= es[0].parent < bound;
    FirstChildBound(topo, es, bound);
    AllHandledRange(topo, es, branches, paths, coordOf, dist, mode, target, bound);
    OrderOfCovers(paths);
    OrderOfRange(paths, 1, bound);
    var order := OrderOf(paths);
    forall i | 0 <= i < |order|
      ensures 1 <= order[i] < bound
    {
      assert order[i] in order;
    }
    DistinctBound(order, 1, bound);
  }
}
