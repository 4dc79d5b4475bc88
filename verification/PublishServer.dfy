/** The publish engine as it runs (lib/src/server/subscriptions/subscriptions.rs). */
module PublishServer {
  import opened Prelude
  import opened ServerSubscription
  import opened PublishEngine
  import opened PublishRuns
  import opened PublishOrder
  import opened PublishRequests

  // ---------------------------------------------------------------- the order of ticking

  method First(subs: map<u32, Member>, left: set<u32>) returns (first: u32)
    requires left != {} && forall id <- left :: id in subs
    ensures first in left && forall id <- left :: id != first ==> Before(subs, first, id)
  {
    first :| first in left;
    var rest := left - {first};
    while rest != {}
      invariant rest <= left && first in left
      invariant forall id :: id in left && id !in rest && id != first ==> Before(subs, first, id)
    {
      var id :| id in rest;
      rest := rest - {id};
      if id != first && Before(subs, id, first) { first := id; }
    }
  }

  method SortByPriority(subs: map<u32, Member>) returns (ids: seq<u32>)
    ensures ByPriority(subs, ids)
  {
    ids := [];
    var left := subs.Keys;
    while left != {}
      invariant left <= subs.Keys
      invariant forall i :: 0 <= i < |ids| ==> ids[i] in subs && ids[i] !in left
      invariant forall id <- subs :: id in left || id in ids
      invariant forall i, j :: 0 <= i < j < |ids| ==> Before(subs, ids[i], ids[j])
      invariant forall i, id :: 0 <= i < |ids| && id in left ==> Before(subs, ids[i], id)
    {
      var id := First(subs, left);
      left := left - {id};
      ids := ids + [id];
    }
  }

  // ---------------------------------------------------------------- retransmission

  method LeastKey(keys: set<(u32, u32)>) returns (least: (u32, u32))
    requires keys != {}
    ensures least in keys && forall k <- keys :: k != least ==> Less(least, k)
  {
    least :| least in keys;
    var rest := keys - {least};
    while rest != {}
      invariant rest <= keys && least in keys
      invariant forall k :: k in keys && k !in rest && k != least ==> Less(least, k)
    {
      var k :| k in rest;
      rest := rest - {k};
      if Less(k, least) { least := k; }
    }
  }

  /** `remove_old_unacknowledged_notifications` */
  method Clean(queue: map<(u32, u32), Message>, subs: map<u32, Member>) returns (left: map<(u32, u32), Message>)
    ensures Cleaned(queue, subs, left)
  {
    var current := Current(queue, subs);
    hide Current, Limit;
    left := current;
    while |left| > Limit(subs)
      invariant forall k <- left :: k in current && left[k] == current[k]
      invariant forall k <- current :: k !in left ==> forall l <- left :: Less(k, l)
      invariant |left| <= |current| && (|left| < Limit(subs) ==> |left| == |current|)
      decreases |left|
    {
      assert left.Keys != {};
      var k := LeastKey(left.Keys);
      var smaller := left - {k};
      assert smaller.Keys == left.Keys - {k} && |smaller| == |left| - 1;
      left := smaller;
    }
  }

  // ---------------------------------------------------------------- requests

  lemma {:induction false} FailureStays(e: Engine, ids: seq<u32>, n: nat, reason: Reason, clock: Clock)
    requires n <= |ids| && VisitAll(e, ids[..n], reason, clock).None?
    ensures VisitAll(e, ids, reason, clock).None?
  {
    if n < |ids| {
      hide Visit;
      assert ids[..|ids| - 1][..n] == ids[..n];
      FailureStays(e, ids[..|ids| - 1], n, reason, clock);
    } else {
      assert ids[..n] == ids;
    }
  }

  lemma PanicIsFatal(e: Engine, ids: seq<u32>, reason: Reason, clock: Clock)
    requires ByPriority(e.subs, ids)
    ensures AllSound(e) ==>
              (VisitAll(e, ids, reason, clock).None? <==> exists id <- e.subs :: Fatal(e, id, reason, clock))
  {
    hide VisitAll, AllSound;
    ByPriorityIsDistinct(e.subs, ids);
    if AllSound(e) { VisitAllPanicsIff(e, ids, reason, clock); }
  }

  /** The stale requests, in order. */
  function Stale(requests: seq<nat>, stale: nat -> bool): seq<nat> {
    if requests == [] then []
    else
      var last := requests[|requests| - 1];
      Stale(requests[..|requests| - 1], stale) + if stale(last) then [last] else []
  }

  lemma {:induction false} StaleMembers(requests: seq<nat>, stale: nat -> bool)
    ensures forall r :: r in Stale(requests, stale) <==> r in requests && stale(r)
  {
    if requests != [] {
      StaleMembers(requests[..|requests| - 1], stale);
      assert requests == requests[..|requests| - 1] + [requests[|requests| - 1]];
    }
  }

  lemma {:induction false} StaleRises(requests: seq<nat>, stale: nat -> bool)
    requires Rising(requests)
    ensures Rising(Stale(requests, stale))
  {
    if requests != [] {
      var front, last := requests[..|requests| - 1], requests[|requests| - 1];
      var f := Stale(front, stale);
      StaleRises(front, stale);
      StaleMembers(front, stale);
      assert Stale(requests, stale) == f + if stale(last) then [last] else [];
      hide Stale;
      forall i | 0 <= i < |f| ensures f[i] < last { assert f[i] in f; }
    }
  }

  /** The engine without its stale requests. */
  ghost function Expired(e: Engine, stale: nat -> bool): Engine {
    var gone := set r <- e.requests | stale(r);
    e.(requests := Waiting(e.requests, gone), expired := e.expired + gone)
  }

  lemma StaleExpire(e: Engine, stale: nat -> bool)
    requires Valid(e)
    ensures Valid(Expired(e, stale))
    ensures forall r :: r in Expired(e, stale).requests <==> r in e.requests && !stale(r)
    ensures Rising(Stale(e.requests, stale)) && forall r :: r in Stale(e.requests, stale) <==> r in e.requests && stale(r)
  {
    hide Valid, Waiting, Stale, Rising, VisitAll, Flush, Cleaned, WithState;
    RequestsRise(e);
    var gone := set r <- e.requests | stale(r);
    assert gone == set k <- e.requests | k in gone;
    StaleRises(e.requests, stale);
    StaleMembers(e.requests, stale);
    WaitingMembers(e.requests, gone);
    StepKeepsValid(e, Expire(gone), Expired(e, stale));
  }

  lemma RequestsRise(e: Engine)
    requires Valid(e)
    ensures Rising(e.requests)
  {
    hide AllDeliver, AllSound, AllConsecutive, Known;
    var before := Serials(Paired(e));
    forall i, j | 0 <= i < j < |e.requests| ensures e.requests[i] < e.requests[j] {
      assert Line(e)[|before| + i] == e.requests[i] && Line(e)[|before| + j] == e.requests[j];
    }
  }

  /** The loop over the requests. */
  method SplitStale(requests: seq<nat>, stale: nat -> bool) returns (kept: seq<nat>, faults: seq<nat>)
    ensures kept == Waiting(requests, set r <- requests | stale(r)) && faults == Stale(requests, stale)
  {
    ghost var gone := set r <- requests | stale(r);
    kept, faults := [], [];
    for i := 0 to |requests|
      invariant kept == Waiting(requests[..i], gone) && faults == Stale(requests[..i], stale)
    {
      var r := requests[i];
      assert requests[..i + 1][..i] == requests[..i] && r in requests;
      if stale(r) { faults := faults + [r]; } else { kept := kept + [r]; }
    }
    assert requests[..|requests|] == requests;
  }

  // ---------------------------------------------------------------- the class

  /** Queues are kept oldest first; the last three fields are what has happened so far. */
  class Subscriptions {
    var publishRequestQueue: seq<nat>
    var subscriptions: map<u32, Member>
    var transmissionQueue: seq<Entry>
    var retransmissionQueue: map<(u32, u32), Message>
    var publishResponses: seq<Response>
    var accepted: nat
    ghost var expired: set<nat>
    ghost var used: set<u32>

    ghost function Content(): Engine
      reads this
    {
      Engine(accepted, publishRequestQueue, expired, subscriptions, used, transmissionQueue, retransmissionQueue,
             publishResponses)
    }

    constructor ()
      ensures Content() == EMPTY
    {
      publishRequestQueue, subscriptions, transmissionQueue := [], map[], [];
      retransmissionQueue, publishResponses, accepted := map[], [], 0;
      expired, used := {}, {};
    }

    /** The loop that pairs messages of one subscription with requests. */
    method PairAll(id: u32)
      requires id in subscriptions
      modifies `publishRequestQueue, `subscriptions, `transmissionQueue
      ensures Content() == Pair(old(Content()), id)
    {
      while publishRequestQueue != [] && subscriptions[id].state.queue != []
        invariant id in subscriptions && Pair(Content(), id) == Pair(old(Content()), id)
        decreases |publishRequestQueue|
      {
        var m := subscriptions[id];
        transmissionQueue := transmissionQueue + [Entry(publishRequestQueue[0], id, m.state.queue[0])];
        publishRequestQueue := publishRequestQueue[1..];
        subscriptions := subscriptions[id := m.(state := m.state.(queue := m.state.queue[1..]))];
      }
    }

    /** What one tick does with one subscription. */
    method VisitOne(id: u32, reason: Reason, clock: Clock) returns (panicked: bool)
      modifies `publishRequestQueue, `subscriptions, `transmissionQueue
      ensures var r := Visit(old(Content()), id, reason, clock); panicked == r.None? && (!panicked ==> Content() == r.value)
    {
      hide Tick, Pair;
      if id !in subscriptions { return true; }
      var m := subscriptions[id];
      var r := Tick(m.state, reason, publishRequestQueue != [], clock.elapsed(id), clock.changed(id));
      if r.Panic? { return true; }
      subscriptions := subscriptions[id := m.(state := r.state)];
      PairAll(id);
      if subscriptions[id].state.core.phase.Closed? && subscriptions[id].state.queue == [] {
        subscriptions := subscriptions - {id};
      }
      panicked := false;
    }

    /** The loop that makes responses. */
    method FlushAll()
      modifies `transmissionQueue, `retransmissionQueue, `publishResponses
      ensures Content() == Flush(old(Content()))
    {
      while transmissionQueue != []
        invariant Flush(Content()) == Flush(old(Content()))
        decreases |transmissionQueue|
      {
        var x := transmissionQueue[0];
        transmissionQueue := transmissionQueue[1..];
        var more := HasMore(transmissionQueue, x.sub);
        retransmissionQueue := retransmissionQueue[(x.sub, x.message.number) := x.message];
        publishResponses := publishResponses + [Response(x, more)];
      }
    }

    /** The loop over the subscriptions. */
    method VisitEach(ids: seq<u32>, reason: Reason, clock: Clock) returns (panicked: bool)
      modifies `publishRequestQueue, `subscriptions, `transmissionQueue
      ensures var r := VisitAll(old(Content()), ids, reason, clock); panicked == r.None? && (!panicked ==> Content() == r.value)
    {
      ghost var e := Content();
      for i := 0 to |ids|
        invariant VisitAll(e, ids[..i], reason, clock) == Some(Content())
      {
        hide Visit;
        assert ids[..i + 1][..i] == ids[..i];
        var failed := VisitOne(ids[i], reason, clock);
        if failed {
          FailureStays(e, ids, i + 1, reason, clock);
          return true;
        }
      }
      assert ids[..|ids|] == ids;
      panicked := false;
    }

    /** `tick` */
    method TickSubscriptions(reason: Reason, clock: Clock) returns (panicked: bool)
      modifies `publishRequestQueue, `subscriptions, `transmissionQueue, `retransmissionQueue, `publishResponses
      ensures !panicked ==> Ticks(old(Content()), reason, clock, Content())
      ensures AllSound(old(Content())) ==>
                (panicked <==> exists id <- old(subscriptions) :: Fatal(old(Content()), id, reason, clock))
    {
      hide AllSound, Fatal, VisitAll, Flush, Cleaned;
      ghost var e := Content();
      var ids := SortByPriority(subscriptions);
      PanicIsFatal(e, ids, reason, clock);
      hide ByPriority;
      panicked := VisitEach(ids, reason, clock);
      if panicked { return; }
      ghost var v := Content();
      FlushAll();
      retransmissionQueue := Clean(retransmissionQueue, subscriptions);
      assert Content() == Flush(v).(retransmission := retransmissionQueue);
      FlushKeepsPaired(v);
      assert Step(e, TickAll(ids, reason, clock), Content());
    }

    /** `enqueue_publish_request` */
    method EnqueuePublishRequest(first: Clock, second: Clock) returns (out: Outcome)
      requires Valid(Content())
      modifies this
      ensures Valid(Content()) && Enqueues(old(Content()), first, second, out, Content())
      ensures out.TooMany? <==>
              var e := old(Content());
              && |e.requests| >= MaxRequests(e)
              && TotalOwed(e, e.subs.Keys, ReceivePublishRequest, first) <= |e.requests| - MaxRequests(e)
    {
      ghost var e := Content();
      hide Valid, PublishRuns.Step, ByPriority, Ticks, TotalOwed;
      var max := 2 * |subscriptions|;
      if |publishRequestQueue| >= max {
        var _ := TickOnce(ReceivePublishRequest, first);
      }
      if |publishRequestQueue| >= max {
        RefusedIff(e, first, second, TooMany, Content());
        return TooMany;
      }
      ghost var mid := Content();
      AcceptOne();
      var _ := TickOnce(ReceivePublishRequest, second);
      out := Queued;
      assert Enqueues(e, first, second, out, Content());
      RefusedIff(e, first, second, out, Content());
    }

    /** A tick keeps the invariant, and the arrival of a request never stops the server. */
    method TickOnce(reason: Reason, clock: Clock) returns (panicked: bool)
      requires Valid(Content())
      modifies `publishRequestQueue, `subscriptions, `transmissionQueue, `retransmissionQueue, `publishResponses
      ensures !panicked ==> Valid(Content()) && Ticks(old(Content()), reason, clock, Content())
      ensures reason.ReceivePublishRequest? ==> !panicked
    {
      ghost var e := Content();
      panicked := TickSubscriptions(reason, clock);
      if !panicked {
        ghost var ids :| ByPriority(e.subs, ids) && Step(e, TickAll(ids, reason, clock), Content());
        StepKeepsValid(e, TickAll(ids, reason, clock), Content());
      }
    }

    method AcceptOne()
      requires Valid(Content())
      modifies `publishRequestQueue, `accepted
      ensures Valid(Content()) && Step(old(Content()), Accept, Content())
    {
      ghost var e := Content();
      publishRequestQueue := publishRequestQueue + [accepted];
      accepted := accepted + 1;
      StepKeepsValid(e, Accept, Content());
    }

    /** `expire_stale_publish_requests`; `stale` is what the clock says of each request. */
    method ExpireStalePublishRequests(stale: nat -> bool) returns (faults: seq<nat>)
      requires Valid(Content())
      modifies `publishRequestQueue, `expired
      ensures Valid(Content())
      ensures forall r :: r in publishRequestQueue <==> r in old(publishRequestQueue) && !stale(r)
      ensures faults == Stale(old(publishRequestQueue), stale)
      ensures Rising(faults) && forall r :: r in faults <==> r in old(publishRequestQueue) && stale(r)
    {
      ghost var e := Content();
      StaleExpire(e, stale);
      hide Valid, Waiting, Stale, Rising;
      ghost var gone := set r <- publishRequestQueue | stale(r);
      var kept: seq<nat>;
      kept, faults := SplitStale(publishRequestQueue, stale);
      expired := expired + gone;
      publishRequestQueue := kept;
      assert Content() == Expired(e, stale);
    }
  }
}
