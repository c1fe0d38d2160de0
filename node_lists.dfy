/**
  Node lists of the timeline: node identities, the minimum-time scan used
  to clamp drags, the common shift applied by a drag, the correction pass
  that removes nodes colliding on one time, and removal of nodes.

  A node is named by a `Handle` (its owning element's index and a stable
  id); node times are kept apart, in a map from handles to times, because
  the grid panel changes them in place.
 */
module NodeLists {
  import opened Options

  datatype Handle = Handle(elem: nat, id: nat)

  /** One track: whether it can be interacted with, and its nodes in model order. */
  datatype Element = Element(selectable: bool, nodes: seq<Handle>)

  type Times = map<Handle, int>

  ghost predicate NoDup<T>(s: seq<T>)
  {
    forall p, q :: 0 <= p < q < |s| ==> s[p] != s[q]
  }

  /** Every node of the list has a time. */
  ghost predicate Timed(nodes: seq<Handle>, times: Times)
  {
    forall k :: 0 <= k < |nodes| ==> nodes[k] in times
  }

  ghost predicate NonNegative(ts: seq<int>)
  {
    forall k :: 0 <= k < |ts| ==> ts[k] >= 0
  }

  /** No two nodes of the list share a time. */
  ghost predicate DistinctTimes(nodes: seq<Handle>, times: Times)
    requires Timed(nodes, times)
  {
    forall p, q :: 0 <= p < q < |nodes| ==> times[nodes[p]] != times[nodes[q]]
  }

  /** The times of the nodes, in list order. */
  function TimesOf(nodes: seq<Handle>, times: Times): (ts: seq<int>)
    requires Timed(nodes, times)
    ensures |ts| == |nodes|
    ensures forall k :: 0 <= k < |nodes| ==> ts[k] == times[nodes[k]]
  {
    seq(|nodes|, k requires 0 <= k < |nodes| => times[nodes[k]])
  }

  /** The set of distinct times the nodes of the list occupy. */
  ghost function TimeSet(nodes: seq<Handle>, times: Times): set<int>
    requires Timed(nodes, times)
  {
    set k | 0 <= k < |nodes| :: times[nodes[k]]
  }

  // ---------------------------------------------------------------------------
  // Minimum time
  // ---------------------------------------------------------------------------

  /** The earliest of a list of times, -1 for an empty list. */
  function Earliest(ts: seq<int>): (m: int)
    ensures ts == [] ==> m == -1
    ensures ts != [] ==> m in ts && forall k :: 0 <= k < |ts| ==> m <= ts[k]
  {
    if ts == [] then -1
    else if |ts| == 1 then ts[0]
    else
      var rest := Earliest(ts[1..]);
      if ts[0] < rest then ts[0] else rest
  }

  /**
    The smallest time of a list, -1 for an empty list. The scan uses -1 as
    "nothing seen yet", so on lists of non-negative times it is the minimum.
   */
  method MinTime(ts: seq<int>) returns (t: int)
    ensures ts == [] ==> t == -1
    ensures t == -1 || t in ts
    ensures ts != [] && NonNegative(ts) ==> t in ts && forall k :: 0 <= k < |ts| ==> t <= ts[k]
    ensures NonNegative(ts) ==> t == Earliest(ts)
  {
    t := -1;
    for i := 0 to |ts|
      invariant i == 0 ==> t == -1
      invariant t == -1 || t in ts[..i]
      invariant i > 0 && NonNegative(ts[..i]) ==> t in ts[..i] && forall k :: 0 <= k < i ==> t <= ts[k]
    {
      t := if t == -1 then ts[i] else if ts[i] < t then ts[i] else t;
    }
    assert ts[..|ts|] == ts;
  }

  // ---------------------------------------------------------------------------
  // Drag shift
  // ---------------------------------------------------------------------------

  /**
    The shift actually applied by a drag step that asked for `delta`, when
    the earliest moved node sits at `minTime`: a move to the left is cut
    short so that the earliest node stops at time 0.
   */
  function ClampDelta(delta: int, minTime: int): (d: int)
    ensures d >= delta
    ensures delta >= 0 || delta >= -minTime ==> d == delta
    ensures delta < 0 ==> d >= -minTime
    ensures d > delta ==> d == -minTime
  {
    if delta < 0 then (if delta > -minTime then delta else -minTime) else delta
  }

  /**
    The times after every node of `moved` has been shifted by d: the same
    nodes, the moved ones keeping their spacing and the others their times.
   */
  ghost function Shifted(times: Times, moved: seq<Handle>, d: int): (r: Times)
    ensures r.Keys == times.Keys
    ensures forall a, b :: a in moved && b in moved && a in times && b in times ==> r[a] - r[b] == times[a] - times[b]
    ensures forall h :: h in times && h !in moved ==> r[h] == times[h]
  {
    map h | h in times :: if h in moved then times[h] + d else times[h]
  }

  /**
    A clamped drag step over nodes with non-negative times: all moved nodes
    stay at or after 0, they keep their spacing, and no other node moves.
   */
  lemma ClampedShiftSafe(times: Times, moved: seq<Handle>, delta: int, minTime: int)
    requires Timed(moved, times)
    requires forall h :: h in times ==> times[h] >= 0
    requires moved != [] ==> minTime in TimesOf(moved, times)
    requires forall k :: 0 <= k < |moved| ==> minTime <= times[moved[k]]
    ensures var r := Shifted(times, moved, ClampDelta(delta, minTime));
      && r.Keys == times.Keys
      && (forall h :: h in r ==> r[h] >= 0)
      && (forall a, b :: a in moved && b in moved ==> r[a] - r[b] == times[a] - times[b])
      && (forall h :: h in times && h !in moved ==> r[h] == times[h])
  {
    var d := ClampDelta(delta, minTime);
    var r := Shifted(times, moved, d);
    forall h | h in r
      ensures r[h] >= 0
    {
      if h in moved {
        var k :| 0 <= k < |moved| && moved[k] == h;
        assert minTime <= times[h];
        if delta < 0 {
          assert d >= -minTime;
        }
      }
    }
  }

  /** A map that agrees with the shift on every key is the shift. */
  lemma ShiftedPointwise(times: Times, result: Times, moved: seq<Handle>, d: int)
    requires result.Keys == times.Keys
    requires forall h :: h in times ==> result[h] == if h in moved then times[h] + d else times[h]
    ensures result == Shifted(times, moved, d)
  {
    var r := Shifted(times, moved, d);
    assert r.Keys == result.Keys;
    forall h | h in r
      ensures r[h] == result[h]
    {
    }
  }

  // ---------------------------------------------------------------------------
  // Hover
  // ---------------------------------------------------------------------------

  /** The first node of the list at time t, if any. */
  function FirstAt(nodes: seq<Handle>, times: Times, t: int): (r: Option<Handle>)
    requires Timed(nodes, times)
    ensures r.None? <==> forall k :: 0 <= k < |nodes| ==> times[nodes[k]] != t
    ensures r.Some? ==> r.value in nodes && times[r.value] == t
    ensures r.Some? ==> exists k :: 0 <= k < |nodes| && nodes[k] == r.value && times[r.value] == t
                                    && forall j :: 0 <= j < k ==> times[nodes[j]] != t
  {
    if nodes == [] then None
    else if times[nodes[0]] == t then Some(nodes[0])
    else FirstAt(nodes[1..], times, t)
  }

  /** The hover search: the nodes are scanned in order and the scan stops at the first hit. */
  method FindFirstAt(nodes: seq<Handle>, times: Times, t: int) returns (r: Option<Handle>)
    requires Timed(nodes, times)
    ensures r == FirstAt(nodes, times, t)
  {
    r := None;
    var k := 0;
    while k < |nodes|
      invariant 0 <= k <= |nodes|
      invariant FirstAt(nodes, times, t) == FirstAt(nodes[k..], times, t)
    {
      assert nodes[k..][1..] == nodes[k + 1..];
      if times[nodes[k]] == t {
        return Some(nodes[k]);
      }
      k := k + 1;
    }
  }

  // ---------------------------------------------------------------------------
  // Correction pass
  // ---------------------------------------------------------------------------

  /** No node after position i has the same time as the node at i. */
  predicate Alone(nodes: seq<Handle>, times: Times, i: int)
    requires Timed(nodes, times) && 0 <= i < |nodes|
  {
    forall j | i < j < |nodes| :: times[nodes[j]] != times[nodes[i]]
  }

  /** The nodes among the first n that the correction pass keeps, in order. */
  function KeepUpTo(nodes: seq<Handle>, times: Times, n: nat): (kept: seq<Handle>)
    requires Timed(nodes, times) && n <= |nodes|
    ensures |kept| <= n
    ensures forall h :: h in kept ==> h in nodes[..n]
  {
    if n == 0 then []
    else KeepUpTo(nodes, times, n - 1) + (if Alone(nodes, times, n - 1) then [nodes[n - 1]] else [])
  }

  /**
    The node list the correction pass leaves: the last node of every time.
    It takes nodes of the list only, and the list's last node always stays.
   */
  function KeepLast(nodes: seq<Handle>, times: Times): (kept: seq<Handle>)
    requires Timed(nodes, times)
    ensures |kept| <= |nodes|
    ensures forall h :: h in kept ==> h in nodes
    ensures nodes != [] ==> kept != [] && kept[|kept| - 1] == nodes[|nodes| - 1]
  {
    assert nodes[..|nodes|] == nodes;
    KeepUpTo(nodes, times, |nodes|)
  }

  /** The positions, among the first n, of the nodes the correction pass keeps. */
  function KeptIndices(nodes: seq<Handle>, times: Times, n: nat): seq<nat>
    requires Timed(nodes, times) && n <= |nodes|
  {
    if n == 0 then []
    else KeptIndices(nodes, times, n - 1) + (if Alone(nodes, times, n - 1) then [n - 1] else [])
  }

  /**
    The correction pass on one element: nested scans keep node i exactly
    when no later node has the same time.
   */
  method CorrectNodes(nodes: seq<Handle>, times: Times) returns (kept: seq<Handle>)
    requires Timed(nodes, times)
    ensures kept == KeepLast(nodes, times)
  {
    kept := [];
    var i := 0;
    while i < |nodes|
      invariant 0 <= i <= |nodes|
      invariant kept == KeepUpTo(nodes, times, i)
    {
      var isAlone := true;
      var j := i + 1;
      while j < |nodes|
        invariant i + 1 <= j <= |nodes|
        invariant isAlone
        invariant forall k :: i < k < j ==> times[nodes[k]] != times[nodes[i]]
      {
        if times[nodes[i]] == times[nodes[j]] {
          isAlone := false;
          break;
        }
        j := j + 1;
      }
      assert isAlone == Alone(nodes, times, i);
      if isAlone {
        kept := kept + [nodes[i]];
      }
      i := i + 1;
    }
  }

  /**
    The kept nodes are the nodes at KeptIndices: strictly increasing
    positions, each one a position with no later node at the same time,
    and every such position among the first n is one of them.
   */
  lemma {:induction false} KeptIndicesSpec(nodes: seq<Handle>, times: Times, n: nat)
    requires Timed(nodes, times) && n <= |nodes|
    ensures var kept, idx := KeepUpTo(nodes, times, n), KeptIndices(nodes, times, n);
      && |kept| == |idx|
      && (forall p :: 0 <= p < |idx| ==> idx[p] < n && kept[p] == nodes[idx[p]] && Alone(nodes, times, idx[p]))
      && (forall p, q :: 0 <= p < q < |idx| ==> idx[p] < idx[q])
      && (forall i :: 0 <= i < n && Alone(nodes, times, i) ==> i in idx)
  {
    if n > 0 {
      KeptIndicesSpec(nodes, times, n - 1);
      var kept0, idx0 := KeepUpTo(nodes, times, n - 1), KeptIndices(nodes, times, n - 1);
      var kept, idx := KeepUpTo(nodes, times, n), KeptIndices(nodes, times, n);
      var alone := Alone(nodes, times, n - 1);
      var ext := if alone then [n - 1] else [];
      assert kept == kept0 + (if alone then [nodes[n - 1]] else []);
      assert idx == idx0 + ext;
      forall p | 0 <= p < |idx|
        ensures idx[p] < n && kept[p] == nodes[idx[p]] && Alone(nodes, times, idx[p])
      {
        if p < |idx0| {
          assert idx[p] == idx0[p] && kept[p] == kept0[p];
        }
      }
      forall p, q | 0 <= p < q < |idx|
        ensures idx[p] < idx[q]
      {
        if q < |idx0| {
          assert idx[p] == idx0[p] && idx[q] == idx0[q];
        } else {
          assert idx[p] == idx0[p];
        }
      }
      forall i | 0 <= i < n && Alone(nodes, times, i)
        ensures i in idx
      {
        if i < n - 1 {
          assert i in idx0;
        } else {
          assert idx[|idx| - 1] == i;
        }
      }
    }
  }

  /** Every node has a node at or after it with the same time that is the last of its time. */
  lemma {:induction false} LastOfItsTime(nodes: seq<Handle>, times: Times, i: nat)
    requires Timed(nodes, times) && i < |nodes|
    ensures exists j :: i <= j < |nodes| && times[nodes[j]] == times[nodes[i]] && Alone(nodes, times, j)
    decreases |nodes| - i
  {
    if !Alone(nodes, times, i) {
      var j :| i < j < |nodes| && times[nodes[j]] == times[nodes[i]];
      LastOfItsTime(nodes, times, j);
    }
  }

  /** No two kept nodes are the same node or share a time. */
  lemma KeptDistinct(nodes: seq<Handle>, times: Times)
    requires Timed(nodes, times) && NoDup(nodes)
    ensures Timed(KeepLast(nodes, times), times)
    ensures NoDup(KeepLast(nodes, times))
    ensures DistinctTimes(KeepLast(nodes, times), times)
  {
    var kept, idx := KeepLast(nodes, times), KeptIndices(nodes, times, |nodes|);
    KeptIndicesSpec(nodes, times, |nodes|);
    forall p, q | 0 <= p < q < |kept|
      ensures kept[p] != kept[q] && times[kept[p]] != times[kept[q]]
    {
      assert idx[p] < idx[q];
      assert Alone(nodes, times, idx[p]);
    }
  }

  /** A node is kept exactly when no later node of its element has its time. */
  lemma KeptExactlyAlone(nodes: seq<Handle>, times: Times)
    requires Timed(nodes, times) && NoDup(nodes)
    ensures forall h :: h in KeepLast(nodes, times) ==> h in nodes
    ensures forall i :: 0 <= i < |nodes| ==> (nodes[i] in KeepLast(nodes, times) <==> Alone(nodes, times, i))
  {
    var kept, idx := KeepLast(nodes, times), KeptIndices(nodes, times, |nodes|);
    KeptIndicesSpec(nodes, times, |nodes|);
    forall i | 0 <= i < |nodes|
      ensures nodes[i] in kept <==> Alone(nodes, times, i)
    {
      if nodes[i] in kept {
        var p :| 0 <= p < |kept| && kept[p] == nodes[i];
        assert nodes[idx[p]] == nodes[i];
      }
    }
  }

  /** The pass frees no occupied time: every time keeps exactly one node. */
  lemma KeptTimeSet(nodes: seq<Handle>, times: Times)
    requires Timed(nodes, times)
    ensures Timed(KeepLast(nodes, times), times)
    ensures TimeSet(KeepLast(nodes, times), times) == TimeSet(nodes, times)
  {
    var kept, idx := KeepLast(nodes, times), KeptIndices(nodes, times, |nodes|);
    KeptIndicesSpec(nodes, times, |nodes|);
    forall t | t in TimeSet(nodes, times)
      ensures t in TimeSet(kept, times)
    {
      var i :| 0 <= i < |nodes| && times[nodes[i]] == t;
      LastOfItsTime(nodes, times, i);
      var j :| i <= j < |nodes| && times[nodes[j]] == t && Alone(nodes, times, j);
      var p :| 0 <= p < |idx| && idx[p] == j;
      assert times[kept[p]] == t;
    }
    forall t | t in TimeSet(kept, times)
      ensures t in TimeSet(nodes, times)
    {
      var p :| 0 <= p < |kept| && times[kept[p]] == t;
      assert kept[p] == nodes[idx[p]];
    }
  }

  /**
    What the correction pass promises about one element: a node is kept
    exactly when no later node has its time, no two kept nodes share a
    time, and the set of occupied times does not change.
   */
  lemma KeepLastSpec(nodes: seq<Handle>, times: Times)
    requires Timed(nodes, times) && NoDup(nodes)
    ensures var kept := KeepLast(nodes, times);
      && Timed(kept, times)
      && NoDup(kept)
      && DistinctTimes(kept, times)
      && (forall h :: h in kept ==> h in nodes)
      && (forall i :: 0 <= i < |nodes| ==> (nodes[i] in kept <==> Alone(nodes, times, i)))
      && TimeSet(kept, times) == TimeSet(nodes, times)
  {
    KeptDistinct(nodes, times);
    KeptExactlyAlone(nodes, times);
    KeptTimeSet(nodes, times);
  }

  /** A list whose times are already distinct passes through unchanged. */
  lemma {:induction false} KeepLastOfDistinct(nodes: seq<Handle>, times: Times, n: nat)
    requires Timed(nodes, times) && n <= |nodes|
    requires DistinctTimes(nodes, times)
    ensures KeepUpTo(nodes, times, n) == nodes[..n]
  {
    if n > 0 {
      KeepLastOfDistinct(nodes, times, n - 1);
      assert Alone(nodes, times, n - 1);
      assert nodes[..n] == nodes[..n - 1] + [nodes[n - 1]];
    }
  }

  /** Running the correction pass twice is the same as running it once. */
  lemma KeepLastIdempotent(nodes: seq<Handle>, times: Times)
    requires Timed(nodes, times) && NoDup(nodes)
    ensures Timed(KeepLast(nodes, times), times)
    ensures KeepLast(KeepLast(nodes, times), times) == KeepLast(nodes, times)
  {
    var kept := KeepLast(nodes, times);
    KeptDistinct(nodes, times);
    KeepLastOfDistinct(kept, times, |kept|);
    assert kept[..|kept|] == kept;
  }

  /**
    Two nodes of an element collide after a drag onto time 1000: the one
    earlier in the list, here the node that was dragged, is dropped.
   */
  lemma CollisionDropsEarlierNode()
    ensures var a, b, c := Handle(0, 0), Handle(0, 1), Handle(0, 2);
      KeepLast([a, b, c], map[a := 0, b := 1000, c := 1000]) == [a, c]
  {
    var a, b, c := Handle(0, 0), Handle(0, 1), Handle(0, 2);
    var nodes, times := [a, b, c], map[a := 0, b := 1000, c := 1000];
    assert Alone(nodes, times, 0);
    assert times[nodes[2]] == times[nodes[1]];
    assert !Alone(nodes, times, 1);
    assert Alone(nodes, times, 2);
    assert KeepUpTo(nodes, times, 1) == [a];
    assert KeepUpTo(nodes, times, 2) == [a];
  }

  // ---------------------------------------------------------------------------
  // Removal
  // ---------------------------------------------------------------------------

  /** The list with every member of `removed` taken out, the rest in order. */
  function Without(s: seq<Handle>, removed: seq<Handle>): (r: seq<Handle>)
    ensures forall x :: x in r <==> x in s && x !in removed
    ensures |r| <= |s|
  {
    if s == [] then []
    else (if s[0] in removed then [] else [s[0]]) + Without(s[1..], removed)
  }

  /** Removing one more member after a batch is removing the larger batch. */
  lemma {:induction false} WithoutOneMore(s: seq<Handle>, removed: seq<Handle>, x: Handle)
    ensures Without(Without(s, removed), [x]) == Without(s, removed + [x])
  {
    if s != [] {
      var rest := Without(s[1..], removed);
      WithoutOneMore(s[1..], removed, x);
      assert (s[0] in removed + [x]) == (s[0] in removed || s[0] == x);
      if s[0] in removed {
        assert Without(s, removed) == rest;
      } else {
        assert Without(s, removed) == [s[0]] + rest;
        assert ([s[0]] + rest)[1..] == rest;
      }
    }
  }

  /** Removing a value that is not in the list changes nothing. */
  lemma {:induction false} WithoutAbsent(s: seq<Handle>, removed: seq<Handle>, x: Handle)
    requires x !in s
    ensures Without(s, removed + [x]) == Without(s, removed)
  {
    if s != [] {
      WithoutAbsent(s[1..], removed, x);
    }
  }

  /** Removal keeps a list free of duplicates. */
  lemma {:induction false} WithoutNoDup(s: seq<Handle>, removed: seq<Handle>)
    requires NoDup(s)
    ensures NoDup(Without(s, removed))
  {
    if s != [] {
      assert NoDup(s[1..]);
      WithoutNoDup(s[1..], removed);
      assert s[0] !in s[1..];
    }
  }

  lemma {:induction false} WithoutNothing(s: seq<Handle>)
    ensures Without(s, []) == s
  {
    if s != [] {
      WithoutNothing(s[1..]);
    }
  }
}
