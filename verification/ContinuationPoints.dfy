/** The bounded queue of browse continuation points of a server session (lib/src/server/session.rs). */
module ContinuationPoints {
  import opened Prelude

  datatype Point = Point(id: bytes, lastModified: int)

  // ---------------------------------------------------------------- histories

  /** Every point ever added, the positions of those still queued, and of those that were asked to go. */
  datatype Trace = Trace(history: seq<Point>, live: seq<nat>, removed: set<nat>)

  predicate Rising(live: seq<nat>) { forall i, j :: 0 <= i < j < |live| ==> live[i] < live[j] }

  predicate Within(live: seq<nat>, n: nat) { forall i :: 0 <= i < |live| ==> live[i] < n }

  predicate InOrder(t: Trace) {
    && Rising(t.live) && Within(t.live, |t.history|)
    && (forall i <- t.removed :: i < |t.history| && i !in t.live)
  }

  /** A point with fewer than `max` newer ones is queued, unless it was asked to go. */
  predicate NoneEvictedEarly(t: Trace, max: nat) {
    forall i: nat :: i < |t.history| && i + max >= |t.history| ==> i in t.live || i in t.removed
  }

  predicate Sound(t: Trace, max: nat) { InOrder(t) && |t.live| <= max && NoneEvictedEarly(t, max) }

  function Pick(history: seq<Point>, live: seq<nat>): (points: seq<Point>)
    requires Within(live, |history|)
    ensures |points| == |live| && forall i :: 0 <= i < |points| ==> points[i] == history[live[i]]
  {
    seq(|live|, i requires 0 <= i < |live| => history[live[i]])
  }

  function Queued(t: Trace): seq<Point>
    requires InOrder(t)
  {
    Pick(t.history, t.live)
  }

  function Newest<T>(s: seq<T>, n: nat): seq<T> { if |s| <= n then s else s[|s| - n..] }

  function Added(t: Trace, max: nat, p: Point): Trace
    requires max > 0
  {
    t.(history := t.history + [p], live := Newest(t.live, max - 1) + [|t.history|])
  }

  function Without(live: seq<nat>, gone: set<nat>): seq<nat> {
    if live == [] then []
    else Without(live[..|live| - 1], gone) + if live[|live| - 1] in gone then [] else [live[|live| - 1]]
  }

  lemma {:induction false} WithoutMembers(live: seq<nat>, gone: set<nat>)
    ensures |Without(live, gone)| <= |live|
    ensures forall i :: i in Without(live, gone) <==> i in live && i !in gone
  {
    if live != [] {
      WithoutMembers(live[..|live| - 1], gone);
      assert live == live[..|live| - 1] + [live[|live| - 1]];
    }
  }

  function Withdrawn(t: Trace, gone: set<nat>): Trace {
    t.(live := Without(t.live, gone), removed := t.removed + set i <- t.live | i in gone)
  }

  /** The oldest queued point is far enough back to be evicted. */
  lemma {:induction false} OldestIsOld(live: seq<nat>, n: nat, k: nat)
    requires Rising(live) && Within(live, n) && k < |live|
    ensures live[k] + (|live| - k) <= n
    decreases |live| - k
  {
    if k + 1 < |live| { OldestIsOld(live, n, k + 1); }
  }

  lemma NewestKeeps(live: seq<nat>, n: nat, max: nat, i: nat)
    requires Rising(live) && Within(live, n) && max > 0
    requires i in live && i + max > n
    ensures i in Newest(live, max - 1)
  {
    var k :| 0 <= k < |live| && live[k] == i;
    OldestIsOld(live, n, k);
    var kept := Newest(live, max - 1);
    assert kept[k - (|live| - |kept|)] == i;
  }

  lemma NewestStays(live: seq<nat>, m: nat)
    requires Rising(live)
    ensures Rising(Newest(live, m)) && |Newest(live, m)| <= m
    ensures forall i <- Newest(live, m) :: i in live
  {
  }

  lemma AddKeepsOrder(t: Trace, max: nat, p: Point)
    requires InOrder(t) && max > 0
    ensures InOrder(Added(t, max, p)) && |Added(t, max, p).live| <= max
  {
    var kept, u := Newest(t.live, max - 1), Added(t, max, p);
    NewestStays(t.live, max - 1);
    hide Newest;
    forall i | 0 <= i < |kept| ensures kept[i] < |t.history| { assert kept[i] in kept; }
    assert Rising(u.live) && Within(u.live, |u.history|);
    forall i | i in t.removed ensures i !in u.live { assert i !in kept; }
  }

  lemma AddEvictsNoneEarly(t: Trace, max: nat, p: Point)
    requires Sound(t, max) && max > 0
    ensures NoneEvictedEarly(Added(t, max, p), max)
  {
    var u, n := Added(t, max, p), |t.history|;
    var kept := Newest(t.live, max - 1);
    assert u.live == kept + [n];
    hide Newest;
    forall i: nat | i < |u.history| && i + max >= |u.history| ensures i in u.live || i in u.removed {
      if i < n && i in t.live { NewestKeeps(t.live, n, max, i); }
    }
  }

  lemma AddKeepsSound(t: Trace, max: nat, p: Point)
    requires Sound(t, max) && max > 0
    ensures Sound(Added(t, max, p), max)
  {
    AddKeepsOrder(t, max, p);
    AddEvictsNoneEarly(t, max, p);
  }

  lemma AddedIsQueued(t: Trace, max: nat, p: Point)
    requires Sound(t, max) && max > 0
    ensures InOrder(Added(t, max, p)) && Queued(Added(t, max, p)) == Newest(Queued(t), max - 1) + [p]
  {
    AddKeepsSound(t, max, p);
    hide InOrder, Sound;
    assert Queued(Added(t, max, p)) == Newest(Queued(t), max - 1) + [p];
  }

  lemma {:induction false} WithoutRises(live: seq<nat>, gone: set<nat>)
    requires Rising(live)
    ensures Rising(Without(live, gone))
  {
    if live != [] {
      var front, last := live[..|live| - 1], live[|live| - 1];
      WithoutRises(front, gone);
      WithoutMembers(front, gone);
      var r := Without(front, gone);
      forall i | 0 <= i < |r| ensures r[i] < last { assert r[i] in r; }
    }
  }

  lemma WithdrawKeepsSound(t: Trace, max: nat, gone: set<nat>)
    requires Sound(t, max)
    ensures Sound(Withdrawn(t, gone), max)
  {
    WithoutRises(t.live, gone);
    WithoutMembers(t.live, gone);
    hide Without;
    var r := Without(t.live, gone);
    forall i | 0 <= i < |r| ensures r[i] < |t.history| { assert r[i] in r; }
  }

  // ---------------------------------------------------------------- runs

  datatype Operation = Add(point: Point) | Withdraw(gone: set<nat>)

  function Run(max: nat, ops: seq<Operation>): Trace
    requires max > 0
  {
    if ops == [] then Trace([], [], {})
    else
      var t := Run(max, ops[..|ops| - 1]);
      match ops[|ops| - 1]
      case Add(p) => Added(t, max, p)
      case Withdraw(gone) => Withdrawn(t, gone)
  }

  /** In every run the queue stays within its bound and in order of insertion, and evicts no point with fewer than
      `max` newer ones. */
  lemma {:induction false} EveryRunIsSound(max: nat, ops: seq<Operation>)
    requires max > 0
    ensures Sound(Run(max, ops), max)
  {
    if ops != [] {
      var front := ops[..|ops| - 1];
      EveryRunIsSound(max, front);
      match ops[|ops| - 1]
      case Add(p) => AddKeepsSound(Run(max, front), max, p);
      case Withdraw(gone) => WithdrawKeepsSound(Run(max, front), max, gone);
    }
  }

  // ---------------------------------------------------------------- the queue

  function Filter(points: seq<Point>, keep: Point -> bool): seq<Point> {
    if points == [] then []
    else
      var last := points[|points| - 1];
      Filter(points[..|points| - 1], keep) + if keep(last) then [last] else []
  }

  /** The positions of the queued points that a filter drops. */
  function Dropped(t: Trace, keep: Point -> bool): set<nat>
    requires InOrder(t)
  {
    set i <- t.live | !keep(t.history[i])
  }

  lemma PickNext(history: seq<Point>, live: seq<nat>, i: nat)
    requires Within(live, |history|) && i < |history|
    ensures Within(live + [i], |history|) && Pick(history, live + [i]) == Pick(history, live) + [history[i]]
  {
  }

  lemma WithoutNext(live: seq<nat>, i: nat, gone: set<nat>)
    ensures Without(live + [i], gone) == if i in gone then Without(live, gone) else Without(live, gone) + [i]
  {
    assert (live + [i])[..|live|] == live;
  }

  lemma FilterNext(points: seq<Point>, p: Point, keep: Point -> bool)
    ensures Filter(points + [p], keep) == if keep(p) then Filter(points, keep) + [p] else Filter(points, keep)
  {
    assert (points + [p])[..|points|] == points;
  }

  lemma {:induction false} FilterMembers(points: seq<Point>, keep: Point -> bool)
    ensures forall p :: p in Filter(points, keep) <==> p in points && keep(p)
  {
    if points != [] {
      FilterMembers(points[..|points| - 1], keep);
      assert points == points[..|points| - 1] + [points[|points| - 1]];
    }
  }

  /** What is kept stays in order. */
  lemma {:induction false} FilterInOrder(a: seq<Point>, b: seq<Point>, keep: Point -> bool)
    ensures Filter(a + b, keep) == Filter(a, keep) + Filter(b, keep)
  {
    if b == [] {
      assert a + b == a && Filter(a, keep) + [] == Filter(a, keep);
    } else {
      FilterInOrder(a, b[..|b| - 1], keep);
      assert (a + b)[..|a + b| - 1] == a + b[..|b| - 1];
    }
  }

  lemma {:induction false} FilterIsWithout(history: seq<Point>, live: seq<nat>, keep: Point -> bool, gone: set<nat>)
    requires Within(live, |history|) && forall i :: 0 <= i < |live| ==> (live[i] in gone <==> !keep(history[live[i]]))
    ensures Within(Without(live, gone), |history|)
    ensures Pick(history, Without(live, gone)) == Filter(Pick(history, live), keep)
  {
    if live != [] {
      var front, last := live[..|live| - 1], live[|live| - 1];
      assert live == front + [last];
      FilterIsWithout(history, front, keep, gone);
      hide Pick, Without, Filter;
      PickNext(history, front, last);
      WithoutNext(front, last, gone);
      FilterNext(Pick(history, front), history[last], keep);
      if last !in gone { PickNext(history, Without(front, gone), last); }
    }
  }

  lemma {:induction false} RemoveAt(live: seq<nat>, k: nat)
    requires Rising(live) && k < |live|
    ensures Without(live, {live[k]}) == live[..k] + live[k + 1..]
  {
    var front := live[..|live| - 1];
    if k == |live| - 1 {
      AllStay(front, {live[k]});
      assert live[..k] + live[k + 1..] == front;
    } else {
      RemoveAt(front, k);
      assert live[..k] + live[k + 1..] == front[..k] + front[k + 1..] + [live[|live| - 1]];
    }
  }

  lemma {:induction false} AllStay(live: seq<nat>, gone: set<nat>)
    requires forall i <- live :: i !in gone
    ensures Without(live, gone) == live
  {
    if live != [] {
      AllStay(live[..|live| - 1], gone);
      assert live == live[..|live| - 1] + [live[|live| - 1]];
    }
  }

  lemma WithdrawOne(t: Trace, max: nat, k: nat)
    requires Sound(t, max) && k < |t.live|
    ensures
      var u := Withdrawn(t, {t.live[k]});
      Sound(u, max) && Queued(u) == Queued(t)[..k] + Queued(t)[k + 1..]
  {
    WithdrawKeepsSound(t, max, {t.live[k]});
    RemoveAt(t.live, k);
    hide InOrder, Sound, Without;
    assert Queued(Withdrawn(t, {t.live[k]})) == Queued(t)[..k] + Queued(t)[k + 1..];
  }

  /** The index of the first point with the id, or the length. */
  function Position(points: seq<Point>, id: bytes): (k: nat)
    ensures k <= |points| && (k < |points| ==> points[k].id == id)
    ensures forall j :: 0 <= j < k ==> points[j].id != id
  {
    if points == [] || points[0].id == id then 0 else 1 + Position(points[1..], id)
  }

  class Session {
    var points: seq<Point>
    const maxPoints: nat
    ghost var trace: Trace

    ghost predicate Valid()
      reads this
    {
      Sound(trace, maxPoints) && points == Queued(trace)
    }

    constructor (max: nat)
      ensures Valid() && maxPoints == max && trace == Trace([], [], {})
    {
      points, maxPoints, trace := [], max, Trace([], [], {});
    }

    /** `stuck` is a call that never returns: the queue is empty and still has no room. The value removed is unwrapped in
        the argument of a log message, so that with debug logging on the call panics, and otherwise it loops. */
    method AddBrowseContinuationPoint(p: Point) returns (stuck: bool)
      requires Valid()
      modifies this
      ensures stuck == (maxPoints == 0)
      ensures !stuck ==> Valid() && trace == Added(old(trace), maxPoints, p)
      ensures !stuck ==> points == Newest(old(points), maxPoints - 1) + [p]
    {
      if |points| >= maxPoints {
        stuck := RemoveExcess();
        if stuck { return; }
      }
      AddKeepsSound(trace, maxPoints, p);
      AddedIsQueued(trace, maxPoints, p);
      hide Sound, Queued, Added, Newest;
      points := points + [p];
      trace := Added(trace, maxPoints, p);
      stuck := false;
    }

    /** The loop that makes room for one more. */
    method RemoveExcess() returns (stuck: bool)
      requires |points| >= maxPoints
      modifies `points
      ensures stuck == (maxPoints == 0)
      ensures !stuck ==> points == Newest(old(points), maxPoints - 1)
    {
      var n := |points|;
      while |points| >= maxPoints
        invariant |points| <= n && points == old(points)[n - |points|..] && |points| >= maxPoints - 1
      {
        if points == [] { return true; }
        points := points[1..];
      }
      stuck := false;
    }

    /** The first point with the id, which leaves the queue. */
    method FindBrowseContinuationPoint(id: bytes) returns (found: Option<Point>)
      requires Valid()
      modifies this
      ensures Valid() && trace.history == old(trace).history
      ensures
        var k := Position(old(points), id);
        if k == |old(points)| then found == None && points == old(points)
        else found == Some(old(points)[k]) && points == old(points)[..k] + old(points)[k + 1..]
    {
      var k := Search(id);
      if k == |points| { return None; }
      found := Some(points[k]);
      WithdrawOne(trace, maxPoints, k);
      hide Position, Withdrawn, Sound, Queued;
      points := points[..k] + points[k + 1..];
      trace := Withdrawn(trace, {trace.live[k]});
    }

    method Search(id: bytes) returns (k: nat)
      ensures k == Position(points, id)
    {
      k := 0;
      while k < |points| && points[k].id != id
        invariant k <= |points| && k + Position(points[k..], id) == Position(points, id)
      {
        assert points[k..][1..] == points[k + 1..];
        k := k + 1;
      }
    }

    method Retain(keep: Point -> bool)
      requires Valid()
      modifies this
      ensures Valid() && trace.history == old(trace).history
      ensures points == Filter(old(points), keep)
    {
      ghost var before := points;
      var kept: seq<Point> := [];
      for i := 0 to |points|
        invariant points == before && kept == Filter(before[..i], keep) && trace == old(trace)
      {
        assert before[..i + 1][..i] == before[..i];
        if keep(points[i]) { kept := kept + [points[i]]; }
      }
      assert before[..|before|] == before;
      ghost var gone := Dropped(trace, keep);
      WithdrawKeepsSound(trace, maxPoints, gone);
      FilterIsWithout(trace.history, trace.live, keep, gone);
      points := kept;
      trace := Withdrawn(trace, gone);
    }

    method RemoveExpiredBrowseContinuationPoints(addressSpaceLastModified: int)
      requires Valid()
      modifies this
      ensures Valid() && trace.history == old(trace).history
      ensures points == Filter(old(points), NotOlder(addressSpaceLastModified))
      ensures forall p :: p in points <==> p in old(points) && p.lastModified >= addressSpaceLastModified
    {
      FilterMembers(points, NotOlder(addressSpaceLastModified));
      Retain(NotOlder(addressSpaceLastModified));
    }

    method RemoveBrowseContinuationPoints(ids: seq<bytes>)
      requires Valid()
      modifies this
      ensures Valid() && trace.history == old(trace).history
      ensures points == Filter(old(points), NotNamed(ids))
      ensures forall p :: p in points <==> p in old(points) && p.id !in ids
    {
      FilterMembers(points, NotNamed(ids));
      Retain(NotNamed(ids));
    }
  }

  function NotOlder(lastModified: int): Point -> bool { (p: Point) => p.lastModified >= lastModified }

  function NotNamed(ids: seq<bytes>): Point -> bool { (p: Point) => p.id !in ids }
}
