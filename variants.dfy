/** The two front ends of downsample_ex. The dense one reads a mesh whose
    nodes are numbered 1 .. N with no gaps and rounds the sample count down;
    the stomach one reads node files whose ids may have gaps, finds each
    node's coordinate row through a compression map, and rounds up. */
module Variants {
  import opened MeshTypes
  import opened Slots
  import opened Arclength
  import opened Adjacency
  import opened Run

  /** The largest id of a non-empty list (max). */
  function Max(ids: seq<int>): (m: int)
    requires |ids| > 0
    ensures forall i :: 0 <= i < |ids| ==> ids[i] <= m
    ensures exists i :: 0 <= i < |ids| && ids[i] == m
    decreases |ids|
  {
    if |ids| == 1 then ids[0]
    else
      var m := Max(ids[..|ids| - 1]);
      assert forall i :: 0 <= i < |ids| - 1 ==> ids[..|ids| - 1][i] == ids[i];
      if ids[|ids| - 1] > m then ids[|ids| - 1] else m
  }

  /** The compression map of size entries after the ids have been recorded in
      turn: entry ids[i] is set to i, a later occurrence overriding an earlier
      one, and every other entry stays 0. */
  function Compression(ids: seq<int>, size: nat): (c: seq<int>)
    requires forall i :: 0 <= i < |ids| ==> 0 <= ids[i] < size
    ensures |c| == size
    decreases |ids|
  {
    if ids == [] then seq(size, _ => 0)
    else Compression(ids[..|ids| - 1], size)[ids[|ids| - 1] := |ids| - 1]
  }

  /** An id recorded at position i and not later is mapped to i. */
  lemma {:induction false} CompressionLast(ids: seq<int>, size: nat, i: nat)
    requires forall j :: 0 <= j < |ids| ==> 0 <= ids[j] < size
    requires i < |ids| && forall j :: i < j < |ids| ==> ids[j] != ids[i]
    ensures Compression(ids, size)[ids[i]] == i
    decreases |ids|
  {
    if i < |ids| - 1 {
      var init := ids[..|ids| - 1];
      CompressionLast(init, size, i);
    }
  }

  /** An id that is never recorded is mapped to 0. */
  lemma {:induction false} CompressionAbsent(ids: seq<int>, size: nat, x: int)
    requires forall j :: 0 <= j < |ids| ==> 0 <= ids[j] < size
    requires 0 <= x < size && forall j :: 0 <= j < |ids| ==> ids[j] != x
    ensures Compression(ids, size)[x] == 0
    decreases |ids|
  {
    if ids != [] {
      CompressionAbsent(ids[..|ids| - 1], size, x);
    }
  }

  /** compressedNodeNumberList: a list of max + 2 zeros in which entry
      originalIds[i] is set to i, for i in order. */
  method CompressIds(originalIds: seq<int>) returns (compressed: seq<int>)
    requires |originalIds| > 0 && forall i :: 0 <= i < |originalIds| ==> originalIds[i] >= 0
    ensures compressed == Compression(originalIds, Max(originalIds) + 2)
  {
    var size := Max(originalIds) + 2;
    var a := new int[size](_ => 0);
    for i := 0 to |originalIds|
      invariant a[..] == Compression(originalIds[..i], size)
    {
      assert originalIds[..i + 1][..i] == originalIds[..i];
      a[originalIds[i]] := i;
    }
    assert originalIds[..|originalIds|] == originalIds;
    compressed := a[..];
  }

  /** The coordinate row of every id of the stomach mesh: its position in
      the node file, found through the compression map, less one. */
  function StomachCoords(originalIds: seq<int>): (coordOf: seq<int>)
    requires |originalIds| > 0 && forall i :: 0 <= i < |originalIds| ==> originalIds[i] >= 0
    ensures |coordOf| == Max(originalIds) + 1
  {
    var c := Compression(originalIds, Max(originalIds) + 2);
    seq(Max(originalIds) + 1, id requires 0 <= id < Max(originalIds) + 1 => c[id] - 1)
  }

  /** With the leading 0 and distinct ids of a node file, node
      originalIds[i] (i >= 1) reads coordinate row i - 1, the row the file
      lists it in. */
  lemma StomachCoordsListed(originalIds: seq<int>, i: nat)
    requires |originalIds| > 0 && forall j :: 0 <= j < |originalIds| ==> originalIds[j] >= 0
    requires forall j, k :: 0 <= j < k < |originalIds| ==> originalIds[j] != originalIds[k]
    requires 1 <= i < |originalIds|
    ensures StomachCoords(originalIds)[originalIds[i]] == i - 1
  {
    var size := Max(originalIds) + 2;
    CompressionLast(originalIds, size, i);
    assert StomachCoords(originalIds)[originalIds[i]] == Compression(originalIds, size)[originalIds[i]] - 1;
  }

  /** An id up to the largest one that the node file does not list reads
      row -1. */
  lemma StomachCoordsMissing(originalIds: seq<int>, x: int)
    requires |originalIds| > 0 && forall j :: 0 <= j < |originalIds| ==> originalIds[j] >= 0
    requires 0 <= x <= Max(originalIds) && x !in originalIds
    ensures StomachCoords(originalIds)[x] == -1
  {
    var size := Max(originalIds) + 2;
    forall j | 0 <= j < |originalIds|
      ensures originalIds[j] != x
    {
      assert originalIds[j] in originalIds;
    }
    CompressionAbsent(originalIds, size, x);
    assert StomachCoords(originalIds)[x] == Compression(originalIds, size)[x] - 1;
  }

  /** downsample_ex of downsample.py: a mesh of totalNodes node entries (the
      entry before node 1 included), whose node id is its coordinate row,
      resampled with the sample count rounded down. */
  method DownsampleDense(totalNodes: nat, es: seq<Edge>, dist: Metric, target: real)
    returns (r: Result<Output>, ghost topo: Topology, ghost paths: seq<seq<int>>, ghost branches: seq<seq<int>>)
    requires forall i :: 0 <= i < |es| ==> 1 <= es[i].parent < totalNodes && 1 <= es[i].child < totalNodes
    ensures Reduced(totalNodes + 1, es, seq(totalNodes + 1, id => id), dist, Floor, target, r, topo, paths, branches)
    ensures (r.Err? && (r.error.TooManyChildren? || r.error.TooManyParents?)) <==> !Fits(es, totalNodes + 1)
    ensures r.Err? && r.error == ZeroTarget ==> target == 0.0
    ensures r.Ok? ==> Consistent(totalNodes + 1, r.value)
    ensures r.Ok? && es == [] ==> |r.value.oldOf| == 1
    ensures r.Ok? && es != [] ==> |r.value.oldOf| - 1 <= totalNodes - 1
  {
    var rows := totalNodes + 1;
    var coordOf := seq(rows, id => id);
    r, topo, paths, branches := Resample(rows, es, coordOf, dist, Floor, target);
    if r.Ok? {
      NodeCountBound(rows, es, coordOf, dist, Floor, target, r, topo, paths, branches, totalNodes);
    }
  }

  /** downsample_ex of downsampleStomach.py: node ids listed by the node file
      (with the leading 0), tables sized by the largest id, coordinates
      through the compression map, the sample count rounded up. */
  method DownsampleStomach(originalIds: seq<int>, es: seq<Edge>, dist: Metric, target: real)
    returns (r: Result<Output>, ghost topo: Topology, ghost paths: seq<seq<int>>, ghost branches: seq<seq<int>>)
    requires |originalIds| > 0 && forall i :: 0 <= i < |originalIds| ==> originalIds[i] >= 0
    requires forall i :: 0 <= i < |es| ==> 1 <= es[i].parent <= Max(originalIds) && 1 <= es[i].child <= Max(originalIds)
    ensures Reduced(Max(originalIds) + 1, es, StomachCoords(originalIds), dist, Ceil, target, r, topo, paths, branches)
    ensures (r.Err? && (r.error.TooManyChildren? || r.error.TooManyParents?)) <==> !Fits(es, Max(originalIds) + 1)
    ensures r.Err? && r.error == ZeroTarget ==> target == 0.0
    ensures r.Ok? ==> Consistent(Max(originalIds) + 1, r.value)
    ensures r.Ok? ==> |r.value.oldOf| - 1 <= Max(originalIds)
  {
    var compressed := CompressIds(originalIds);
    var rows := Max(originalIds) + 1;
    var coordOf := seq(rows, id requires 0 <= id < rows => compressed[id] - 1);
    assert coordOf == StomachCoords(originalIds);
    r, topo, paths, branches := Resample(rows, es, coordOf, dist, Ceil, target);
  }
}
