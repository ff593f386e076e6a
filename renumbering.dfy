/** The write-once dense renumbering of retained nodes (getNewNodeNumber):
    an old id receives the next new number the first time it is asked for,
    and the same number on every later request. */
module Renumbering {

  /** The numbering order once the ids of path have been asked for in turn,
      starting from the order seen: an id not yet listed is appended, a listed
      one changes nothing. */
  function OrderAfter(seen: seq<int>, path: seq<int>): seq<int>
    decreases |path|
  {
    if path == [] then seen
    else
      var pre := OrderAfter(seen, path[..|path| - 1]);
      var x := path[|path| - 1];
      if x in pre then pre else pre + [x]
  }

  /** The order keeps seen as its prefix, lists exactly the ids of seen and
      of path, and lists none twice when seen does not. */
  lemma {:induction false} OrderAfterSpec(seen: seq<int>, path: seq<int>)
    ensures |seen| <= |OrderAfter(seen, path)| && OrderAfter(seen, path)[..|seen|] == seen
    ensures forall x :: x in OrderAfter(seen, path) <==> x in seen || x in path
    ensures Distinct(seen) ==> Distinct(OrderAfter(seen, path))
    decreases |path|
  {
    if path != [] {
      var init, x := path[..|path| - 1], path[|path| - 1];
      OrderAfterSpec(seen, init);
      assert path == init + [x];
      var pre := OrderAfter(seen, init);
      if x !in pre {
        assert (pre + [x])[..|seen|] == pre[..|seen|];
      }
    }
  }

  /** Asking for path[k] after path[..k] extends the order by one more step. */
  lemma OrderAfterStep(seen: seq<int>, path: seq<int>, k: nat, before: seq<int>, after: seq<int>)
    requires k < |path|
    requires before == OrderAfter(seen, path[..k])
    requires after == if path[k] in before then before else before + [path[k]]
    ensures after == OrderAfter(seen, path[..k + 1])
  {
    assert path[..k + 1][..k] == path[..k];
  }

  /** Pairwise distinct entries. */
  ghost predicate Distinct(s: seq<int>) {
    forall i, j :: 0 <= i < j < |s| ==> s[i] != s[j]
  }

  /** The ids a sequence lists. */
  ghost function Ids(s: seq<int>): set<int> {
    set x | x in s
  }

  /** A sequence without repetition lists as many ids as it has entries. */
  lemma {:induction false} DistinctIds(s: seq<int>)
    requires Distinct(s)
    ensures |Ids(s)| == |s|
    decreases |s|
  {
    if s != [] {
      var init, x := s[..|s| - 1], s[|s| - 1];
      DistinctIds(init);
      assert Ids(s) == Ids(init) + {x};
      assert x !in Ids(init);
    }
  }

  /** The ids lo .. hi-1. */
  ghost function Interval(lo: int, hi: int): (r: set<int>)
    ensures forall x :: x in r <==> lo <= x < hi
    ensures |r| == if lo <= hi then hi - lo else 0
    decreases hi - lo
  {
    if hi <= lo then {} else Interval(lo, hi - 1) + {hi - 1}
  }

  /** Pigeonhole: a sequence without repetition whose entries lie in
      lo .. hi-1 has at most hi - lo entries. */
  lemma DistinctBound(s: seq<int>, lo: int, hi: int)
    requires Distinct(s) && lo <= hi
    requires forall i :: 0 <= i < |s| ==> lo <= s[i] < hi
    ensures |s| <= hi - lo
  {
    DistinctIds(s);
    var range := Interval(lo, hi);
    assert Ids(s) <= range;
    assert range == Ids(s) + (range - Ids(s));
  }

  /** One plus the index of the first occurrence of x in order, 0 when x
      does not occur: the new number of old id x. */
  function Position(order: seq<int>, x: int): nat
    decreases |order|
  {
    if order == [] then 0
    else if order[0] == x then 1
    else
      var p := Position(order[1..], x);
      if p == 0 then 0 else p + 1
  }

  /** Position is 0 exactly for absent ids; otherwise it is at most |order|
      and indexes an occurrence of x. */
  lemma {:induction false} PositionSpec(order: seq<int>, x: int)
    ensures Position(order, x) <= |order|
    ensures Position(order, x) == 0 <==> x !in order
    ensures Position(order, x) != 0 ==> order[Position(order, x) - 1] == x
    decreases |order|
  {
    if order != [] && order[0] != x {
      PositionSpec(order[1..], x);
      assert x in order <==> x in order[1..];
    }
  }

  /** In a sequence without repetition, entry k has position k + 1. */
  lemma {:induction false} PositionOfEntry(order: seq<int>, k: nat)
    requires Distinct(order) && k < |order|
    ensures Position(order, order[k]) == k + 1
    decreases |order|
  {
    if k > 0 {
      PositionOfEntry(order[1..], k - 1);
    }
  }

  /** Appending a new id gives it the next position and moves no other id. */
  lemma {:induction false} PositionSnoc(order: seq<int>, y: int, x: int)
    requires y !in order
    ensures Position(order + [y], x) == if x == y then |order| + 1 else Position(order, x)
    decreases |order|
  {
    if order == [] {
    } else {
      assert (order + [y])[1..] == order[1..] + [y];
      if order[0] != x {
        PositionSnoc(order[1..], y, x);
      }
    }
  }

  /** An id already listed keeps its position when the order is extended. */
  lemma {:induction false} PositionExtend(order: seq<int>, more: seq<int>, x: int)
    requires |order| <= |more| && more[..|order|] == order && Position(order, x) != 0
    ensures Position(more, x) == Position(order, x)
    decreases |order|
  {
    if order[0] != x {
      assert more[1..][..|order| - 1] == order[1..];
      PositionExtend(order[1..], more[1..], x);
    }
  }

  /** True when every number given in old stays the same in now. */
  ghost predicate Grows(old_: seq<int>, now: seq<int>) {
    |old_| == |now| && forall i :: 0 <= i < |old_| && old_[i] != 0 ==> now[i] == old_[i]
  }

  class Numbering {
    const numbers: array<int>   // new number of each old id, 0 while unassigned
    var count: nat              // new numbers handed out so far
    ghost var order: seq<int>   // old ids in the order they were numbered

    /** order lists the numbered ids once each and numbers[id] is the position
        of id in order (0 for an unnumbered id): the dense numbering by first
        use. */
    ghost predicate Valid()
      reads this, numbers
    {
      && |order| == count
      && Distinct(order)
      && (forall k :: 0 <= k < |order| ==> 0 <= order[k] < numbers.Length)
      && (forall i :: 0 <= i < numbers.Length ==> numbers[i] == Position(order, i))
    }

    /** The nonzero entries of numbers are exactly 1 .. count, each naming
        one id: the renumbering is a bijection onto 1 .. count. */
    lemma Bijection()
      requires Valid()
      ensures forall i :: 0 <= i < numbers.Length ==> 0 <= numbers[i] <= count
      ensures forall i :: 0 <= i < numbers.Length ==> (numbers[i] != 0 <==> i in order)
      ensures forall i :: 0 <= i < numbers.Length && numbers[i] != 0 ==> order[numbers[i] - 1] == i
      ensures forall k :: 0 <= k < count ==> numbers[order[k]] == k + 1
    {
      forall i | 0 <= i < numbers.Length
        ensures 0 <= numbers[i] <= count && (numbers[i] != 0 <==> i in order)
        ensures numbers[i] != 0 ==> order[numbers[i] - 1] == i
      {
        PositionSpec(order, i);
      }
      forall k | 0 <= k < count
        ensures numbers[order[k]] == k + 1
      {
        PositionOfEntry(order, k);
      }
    }

    constructor (size: nat)
      ensures Valid() && fresh(numbers) && numbers.Length == size
      ensures count == 0 && order == []
      ensures forall i :: 0 <= i < size ==> numbers[i] == 0
    {
      numbers := new int[size](_ => 0);
      count := 0;
      order := [];
    }

    /** getNewNodeNumber: on first use of id the count grows by one and id
        gets the new count; afterwards the stored number is returned and
        nothing changes. */
    method Assign(id: int) returns (n: int)
      requires Valid() && 0 <= id < numbers.Length
      modifies this, numbers
      ensures Valid()
      ensures old(numbers[id]) == 0 ==>
                && count == old(count) + 1 && n == count
                && numbers[..] == old(numbers[..])[id := n]
      ensures old(numbers[id]) != 0 ==>
                && n == old(numbers[id])
                && count == old(count) && numbers[..] == old(numbers[..])
      ensures order == if id in old(order) then old(order) else old(order) + [id]
      ensures n == numbers[id] && 1 <= n <= count
      ensures Grows(old(numbers[..]), numbers[..])
    {
      PositionSpec(order, id);
      if numbers[id] == 0 {
        forall i | 0 <= i < numbers.Length
          ensures Position(order + [id], i) == if i == id then count + 1 else numbers[i]
        {
          PositionSnoc(order, id, i);
        }
        count := count + 1;
        numbers[id] := count;
        order := order + [id];
        n := count;
      } else {
        n := numbers[id];
      }
    }

    /** oldNumberOfReducedNodes: the old id of every new number, with an
        unused entry 0 in front; it inverts numbers. */
    method ReverseMap() returns (rev: seq<int>)
      requires Valid()
      ensures |rev| == count + 1 && rev[0] == 0
      ensures forall i :: 0 <= i < numbers.Length ==> 0 <= numbers[i] <= count
      ensures forall i :: 0 <= i < numbers.Length && numbers[i] > 0 ==> rev[numbers[i]] == i
      ensures forall k :: 1 <= k <= count ==> 0 <= rev[k] < numbers.Length && numbers[rev[k]] == k
      ensures rev == [0] + order
    {
      forall i | 0 <= i < numbers.Length
        ensures 0 <= numbers[i] <= count
      {
        PositionSpec(order, i);
      }
      var a := new int[count + 1](_ => 0);
      for i := 0 to numbers.Length
        invariant a[0] == 0
        invariant forall j :: 0 <= j < i && numbers[j] > 0 ==> a[numbers[j]] == j
      {
        if numbers[i] > 0 {
          forall j | 0 <= j < i && numbers[j] > 0
            ensures numbers[j] != numbers[i]
          {
            PositionSpec(order, i);
            PositionSpec(order, j);
          }
          a[numbers[i]] := i;
        }
      }
      rev := a[..];
      forall k | 1 <= k <= count
        ensures 0 <= rev[k] < numbers.Length && numbers[rev[k]] == k && rev[k] == order[k - 1]
      {
        PositionOfEntry(order, k - 1);
      }
      assert rev == [0] + order;
    }
  }
}
