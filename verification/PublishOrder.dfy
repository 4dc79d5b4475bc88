/** Which subscriptions a tick of the publish engine serves, in which order, and when it stops the server
    (lib/src/server/subscriptions/{subscription,subscriptions}.rs). */
module PublishOrder {
  import opened Prelude
  import opened ServerSubscription
  import Laws = ServerSubscriptionLaws
  import opened PublishEngine
  import opened PublishRuns

  // ---------------------------------------------------------------- the order of ticking

  /** Subscriptions by rising priority, and by id among equals. */
  predicate Before(subs: map<u32, Member>, a: u32, b: u32)
    requires a in subs && b in subs
  {
    subs[a].priority < subs[b].priority || (subs[a].priority == subs[b].priority && a < b)
  }

  predicate ByPriority(subs: map<u32, Member>, ids: seq<u32>) {
    && (forall i :: 0 <= i < |ids| ==> ids[i] in subs)
    && (forall id <- subs :: id in ids)
    && (forall i, j :: 0 <= i < j < |ids| ==> Before(subs, ids[i], ids[j]))
  }

  /** Existing subscriptions, none of them twice. */
  predicate Distinct(subs: map<u32, Member>, ids: seq<u32>) {
    && (forall i :: 0 <= i < |ids| ==> ids[i] in subs)
    && (forall i, j :: 0 <= i < j < |ids| ==> ids[i] != ids[j])
  }

  // ---------------------------------------------------------------- each visit leaves the others alone

  predicate SameMember(e: Engine, t: Engine, id: u32) {
    (id in t.subs <==> id in e.subs) && (id in e.subs ==> t.subs[id] == e.subs[id])
  }

  lemma {:induction false} PairOthers(e: Engine, id: u32, other: u32)
    requires id in e.subs && other != id
    ensures SameMember(e, Pair(e, id), other)
    decreases |e.requests|
  {
    if e.requests != [] && e.subs[id].state.queue != [] { PairOthers(PairOnce(e, id), id, other); }
  }

  lemma VisitOthers(e: Engine, id: u32, reason: Reason, clock: Clock, other: u32)
    requires other != id
    ensures var v := Visit(e, id, reason, clock); v.Some? ==> SameMember(e, v.value, other)
  {
    if id in e.subs {
      hide Tick, Pair;
      var r := Tick(e.subs[id].state, reason, e.requests != [], clock.elapsed(id), clock.changed(id));
      if r.Done? { PairOthers(WithState(e, id, r.state), id, other); }
    }
  }

  lemma {:induction false} VisitAllOthers(e: Engine, ids: seq<u32>, reason: Reason, clock: Clock, other: u32)
    requires other !in ids
    ensures var v := VisitAll(e, ids, reason, clock); v.Some? ==> SameMember(e, v.value, other)
  {
    if ids != [] {
      hide Visit;
      var front, id := ids[..|ids| - 1], ids[|ids| - 1];
      assert other !in front && other != id;
      VisitAllOthers(e, front, reason, clock, other);
      var r := VisitAll(e, front, reason, clock);
      if r.Some? { VisitOthers(r.value, id, reason, clock, other); }
    }
  }

  // ---------------------------------------------------------------- when a tick stops the server

  /** The subscription expires in an interval in which its items report. */
  predicate Fatal(e: Engine, id: u32, reason: Reason, clock: Clock) {
    && id in e.subs && e.subs[id].state.core.Live() && e.subs[id].state.core.lifetime == 1
    && reason.TickTimerFired? && clock.elapsed(id) && clock.changed(id)
  }

  lemma VisitPanicsIff(e: Engine, id: u32, reason: Reason, clock: Clock)
    requires id in e.subs && Laws.Sound(e.subs[id].state)
    ensures Visit(e, id, reason, clock).None? <==> Fatal(e, id, reason, clock)
  {
    hide Tick, Finish;
    Laws.PanicsIff(e.subs[id].state, reason, e.requests != [], clock.elapsed(id), clock.changed(id));
  }

  lemma SameFatal(e: Engine, t: Engine, id: u32, reason: Reason, clock: Clock)
    requires SameMember(e, t, id)
    ensures Fatal(t, id, reason, clock) == Fatal(e, id, reason, clock)
  {
  }

  /** A tick stops the server exactly when some subscription expires while its items report; that a subscription is
      missing when its turn comes never happens. */
  lemma {:induction false} VisitAllPanicsIff(e: Engine, ids: seq<u32>, reason: Reason, clock: Clock)
    requires AllSound(e) && Distinct(e.subs, ids)
    ensures VisitAll(e, ids, reason, clock).None? <==> exists id <- ids :: Fatal(e, id, reason, clock)
  {
    if ids != [] {
      var front, id := ids[..|ids| - 1], ids[|ids| - 1];
      assert ids == front + [id];
      VisitAllPanicsIff(e, front, reason, clock);
      VisitAllOthers(e, front, reason, clock, id);
      var r := VisitAll(e, front, reason, clock);
      assert Laws.Sound(e.subs[id].state);
      hide Visit, Fatal, Laws.Sound, AllSound;
      if r.Some? {
        VisitPanicsIff(r.value, id, reason, clock);
        SameFatal(e, r.value, id, reason, clock);
      }
    }
  }

  // ---------------------------------------------------------------- who is served

  /** With a request waiting, the subscription would have something to send. */
  predicate Ready(e: Engine, id: u32, reason: Reason, clock: Clock): (ready: bool)
    ensures ready ==> id in e.subs
  {
    && id in e.subs
    && var r := Tick(e.subs[id].state, reason, true, clock.elapsed(id), clock.changed(id));
       r.Done? && r.state.queue != []
  }

  lemma SameReady(e: Engine, t: Engine, id: u32, reason: Reason, clock: Clock)
    requires SameMember(e, t, id)
    ensures Ready(t, id, reason, clock) == Ready(e, id, reason, clock)
  {
    hide Tick;
  }

  /** Pairing adds entries of its own subscription only, and as many requests fewer. */
  lemma {:induction false} PairAppends(e: Engine, id: u32)
    requires id in e.subs
    ensures
      var r := Pair(e, id);
      && e.transmission <= r.transmission
      && (forall i :: |e.transmission| <= i < |r.transmission| ==> r.transmission[i].sub == id)
      && |r.requests| + |r.transmission| == |e.requests| + |e.transmission|
    decreases |e.requests|
  {
    if e.requests != [] && e.subs[id].state.queue != [] { PairAppends(PairOnce(e, id), id); }
  }

  lemma PairServes(e: Engine, id: u32)
    requires id in e.subs
    ensures e.requests != [] && e.subs[id].state.queue != [] ==> |Pair(e, id).transmission| > |e.transmission|
    ensures e.requests == [] || e.subs[id].state.queue == [] ==> Pair(e, id) == e
  {
    if e.requests != [] && e.subs[id].state.queue != [] { PairAppends(PairOnce(e, id), id); }
  }

  /** One visit: entries of the subscription are added exactly when a request waits and the subscription is ready. */
  lemma VisitServes(e: Engine, id: u32, reason: Reason, clock: Clock)
    requires id in e.subs
    ensures
      var v := Visit(e, id, reason, clock);
      v.Some? ==>
        && e.transmission <= v.value.transmission
        && (forall i :: |e.transmission| <= i < |v.value.transmission| ==> v.value.transmission[i].sub == id)
        && (v.value.transmission != e.transmission <==> e.requests != [] && Ready(e, id, reason, clock))
        && |v.value.requests| + |v.value.transmission| == |e.requests| + |e.transmission|
  {
    hide Tick, Pair;
    var r := Tick(e.subs[id].state, reason, e.requests != [], clock.elapsed(id), clock.changed(id));
    if r.Done? {
      PairAppends(WithState(e, id, r.state), id);
      PairServes(WithState(e, id, r.state), id);
    }
  }

  /** A tick: what is added belongs to ready subscriptions. */
  lemma {:induction false} VisitAllServes(e: Engine, ids: seq<u32>, reason: Reason, clock: Clock)
    requires Distinct(e.subs, ids)
    ensures
      var v := VisitAll(e, ids, reason, clock);
      v.Some? ==>
        && e.transmission <= v.value.transmission
        && (forall i :: |e.transmission| <= i < |v.value.transmission| ==>
              v.value.transmission[i].sub in ids && Ready(e, v.value.transmission[i].sub, reason, clock))
        && |v.value.requests| + |v.value.transmission| == |e.requests| + |e.transmission|
  {
    if ids != [] {
      hide Visit, VisitAll, Ready;
      var front, id := ids[..|ids| - 1], ids[|ids| - 1];
      assert ids == front + [id];
      VisitAllNext(e, front, id, reason, clock);
      VisitAllServes(e, front, reason, clock);
      VisitAllOthers(e, front, reason, clock, id);
      var r := VisitAll(e, front, reason, clock);
      if r.Some? {
        VisitServes(r.value, id, reason, clock);
        SameReady(e, r.value, id, reason, clock);
        var v := Visit(r.value, id, reason, clock);
        if v.Some? {
          var before, after := r.value.transmission, v.value.transmission;
          forall i | |e.transmission| <= i < |after| ensures after[i].sub in ids && Ready(e, after[i].sub, reason, clock) {
            if i < |before| { assert after[i] == before[i]; }
          }
        }
      }
    }
  }

  /** Without a ready subscription a tick serves nobody. */
  lemma {:induction false} NoneReady(e: Engine, ids: seq<u32>, reason: Reason, clock: Clock)
    requires Distinct(e.subs, ids) && (e.requests == [] || forall id <- ids :: !Ready(e, id, reason, clock))
    ensures
      var v := VisitAll(e, ids, reason, clock);
      v.Some? ==> v.value.transmission == e.transmission && |v.value.requests| == |e.requests|
  {
    hide Ready, VisitAll;
    VisitAllServes(e, ids, reason, clock);
    var v := VisitAll(e, ids, reason, clock);
    if v.Some? { SameOrMore(e.transmission, v.value.transmission); }
  }

  lemma SameOrMore(before: seq<Entry>, after: seq<Entry>)
    requires before <= after
    ensures after == before || exists i :: |before| <= i < |after| && after[i] in after
  {
    if |after| > |before| { assert after[|before|] in after; }
  }

  /** The first ready subscription in the order of ticking is the first that is served. */
  lemma {:induction false} FirstReadyIsServed(e: Engine, ids: seq<u32>, reason: Reason, clock: Clock, k: nat)
    requires Distinct(e.subs, ids) && e.requests != [] && k < |ids| && Ready(e, ids[k], reason, clock)
    requires forall i :: 0 <= i < k ==> !Ready(e, ids[i], reason, clock)
    ensures
      var v := VisitAll(e, ids, reason, clock);
      v.Some? ==> |v.value.transmission| > |e.transmission| && v.value.transmission[|e.transmission|].sub == ids[k]
  {
    hide Ready, Visit, VisitAll;
    var front, id := ids[..|ids| - 1], ids[|ids| - 1];
    assert ids == front + [id];
    VisitAllNext(e, front, id, reason, clock);
    VisitAllOthers(e, front, reason, clock, id);
    var r := VisitAll(e, front, reason, clock);
    if r.Some? {
      VisitServes(r.value, id, reason, clock);
      SameReady(e, r.value, id, reason, clock);
      if k < |front| { FirstReadyIsServed(e, front, reason, clock, k); } else { NoneReady(e, front, reason, clock); }
    }
  }

  lemma {:induction false} FindFirstReady(e: Engine, ids: seq<u32>, reason: Reason, clock: Clock, id: u32) returns (k: nat)
    requires id in ids && Ready(e, id, reason, clock)
    ensures k < |ids| && Ready(e, ids[k], reason, clock) && forall i :: 0 <= i < k ==> !Ready(e, ids[i], reason, clock)
  {
    hide Ready;
    k := 0;
    while !Ready(e, ids[k], reason, clock)
      invariant k < |ids| && forall i :: 0 <= i < k ==> !Ready(e, ids[i], reason, clock)
      decreases |ids| - k
    {
      assert id in ids[k + 1..];
      k := k + 1;
    }
  }

  // ---------------------------------------------------------------- the highest priority first

  /** No request goes to a subscription while a ready one of higher priority has not been served. */
  ghost predicate HighestFirst(e: Engine, reason: Reason, clock: Clock, served: seq<Entry>)
    requires forall i :: 0 <= i < |served| ==> served[i].sub in e.subs
  {
    forall i, id: u32 :: 0 <= i < |served| && Ready(e, id, reason, clock)
                         && e.subs[id].priority > e.subs[served[i].sub].priority ==>
                         exists j :: 0 <= j < i && served[j].sub == id
  }

  ghost predicate OnePriority(e: Engine, reason: Reason, clock: Clock) {
    forall a: u32, b: u32 :: Ready(e, a, reason, clock) && Ready(e, b, reason, clock) ==>
                             e.subs[a].priority == e.subs[b].priority
  }

  lemma PriorityRises(e: Engine, ids: seq<u32>, i: nat, id: u32)
    requires ByPriority(e.subs, ids) && i < |ids| && id in ids[i..]
    ensures ids[i] == id || Before(e.subs, ids[i], id)
  {
    var j :| i <= j < |ids| && ids[j] == id;
  }

  lemma ByPriorityIsDistinct(subs: map<u32, Member>, ids: seq<u32>)
    requires ByPriority(subs, ids)
    ensures Distinct(subs, ids)
  {
    forall i, j | 0 <= i < j < |ids| ensures ids[i] != ids[j] { assert Before(subs, ids[i], ids[j]); }
  }

  /** The first request of a tick goes to a ready subscription of the lowest priority and, among equals, always to the
      one with the lowest id. */
  lemma LowestIsServedFirst(e: Engine, ids: seq<u32>, reason: Reason, clock: Clock, id: u32)
    requires ByPriority(e.subs, ids) && e.requests != [] && Ready(e, id, reason, clock)
    requires VisitAll(e, ids, reason, clock).Some?
    ensures
      var served := VisitAll(e, ids, reason, clock).value.transmission;
      && |served| > |e.transmission|
      && var winner := served[|e.transmission|].sub;
         winner in e.subs && (winner == id || Before(e.subs, winner, id))
  {
    ByPriorityIsDistinct(e.subs, ids);
    assert id in ids;
    hide Ready, VisitAll;
    var k := FindFirstReady(e, ids, reason, clock, id);
    FirstReadyIsServed(e, ids, reason, clock, k);
    assert id in ids[k..] by {
      var j :| 0 <= j < |ids| && ids[j] == id;
      assert j >= k && ids[k..][j - k] == id;
    }
    PriorityRises(e, ids, k, id);
  }

  lemma ServedAreKnown(e: Engine, ids: seq<u32>, reason: Reason, clock: Clock)
    requires e.transmission == [] && ByPriority(e.subs, ids) && VisitAll(e, ids, reason, clock).Some?
    ensures
      var served := VisitAll(e, ids, reason, clock).value.transmission;
      forall i :: 0 <= i < |served| ==> served[i].sub in e.subs && Ready(e, served[i].sub, reason, clock)
  {
    hide Ready, VisitAll;
    ByPriorityIsDistinct(e.subs, ids);
    VisitAllServes(e, ids, reason, clock);
  }

  lemma NoneIsPassedOver(e: Engine, reason: Reason, clock: Clock, served: seq<Entry>)
    requires forall i :: 0 <= i < |served| ==> served[i].sub in e.subs && Ready(e, served[i].sub, reason, clock)
    requires served == [] || OnePriority(e, reason, clock)
    ensures HighestFirst(e, reason, clock, served)
  {
    hide Ready;
  }

  lemma OneIsPassedOver(e: Engine, reason: Reason, clock: Clock, served: seq<Entry>, id: u32)
    requires forall i :: 0 <= i < |served| ==> served[i].sub in e.subs
    requires served != [] && Ready(e, id, reason, clock) && e.subs[served[0].sub].priority < e.subs[id].priority
    ensures !HighestFirst(e, reason, clock, served)
  {
    hide Ready;
    assert e.subs[id].priority > e.subs[served[0].sub].priority;
  }

  /** The highest priority goes first exactly when no request waits or all ready subscriptions have one priority. */
  lemma HighestFirstIff(e: Engine, ids: seq<u32>, reason: Reason, clock: Clock)
    requires e.transmission == [] && ByPriority(e.subs, ids) && VisitAll(e, ids, reason, clock).Some?
    ensures
      var served := VisitAll(e, ids, reason, clock).value.transmission;
      && (forall i :: 0 <= i < |served| ==> served[i].sub in e.subs)
      && (HighestFirst(e, reason, clock, served) <==> e.requests == [] || OnePriority(e, reason, clock))
  {
    hide VisitAll, Ready, ByPriority, HighestFirst;
    var served := VisitAll(e, ids, reason, clock).value.transmission;
    ServedAreKnown(e, ids, reason, clock);
    if e.requests == [] {
      ByPriorityIsDistinct(e.subs, ids);
      NoneReady(e, ids, reason, clock);
      NoneIsPassedOver(e, reason, clock, served);
    } else if OnePriority(e, reason, clock) {
      NoneIsPassedOver(e, reason, clock, served);
    } else {
      var a: u32, b: u32 :| Ready(e, a, reason, clock) && Ready(e, b, reason, clock)
                            && e.subs[a].priority < e.subs[b].priority;
      LowestIsServedFirst(e, ids, reason, clock, a);
      OneIsPassedOver(e, reason, clock, served, b);
    }
  }

  // ---------------------------------------------------------------- a starved subscription

  const CALM: Clock := Clock(_ => true, _ => false)

  /** An engine with a subscription of the lowest priority and one of the highest. */
  function Pairing(accepted: nat, requests: seq<nat>, low: State, high: State): Engine {
    Engine(accepted, requests, {}, map[1 := Member(0, low), 2 := Member(255, high)], {1, 2}, [], map[], [])
  }

  /** A visit that leaves nothing to send. */
  lemma QuietVisit(e: Engine, id: u32, reason: Reason, clock: Clock, s: State)
    requires id in e.subs
    requires Tick(e.subs[id].state, reason, e.requests != [], clock.elapsed(id), clock.changed(id)) == Done(s)
    requires s.queue == [] && !s.core.phase.Closed?
    ensures Visit(e, id, reason, clock) == Some(WithState(e, id, s))
  {
    hide Tick;
  }

  /** A visit that pairs the only request with the only message. */
  lemma OneMessageVisit(e: Engine, id: u32, reason: Reason, clock: Clock, s: State)
    requires id in e.subs && |e.requests| == 1
    requires Tick(e.subs[id].state, reason, true, clock.elapsed(id), clock.changed(id)) == Done(s)
    requires |s.queue| == 1 && !s.core.phase.Closed?
    ensures Visit(e, id, reason, clock) ==
            Some(e.(requests := [], transmission := e.transmission + [Entry(e.requests[0], id, s.queue[0])],
                    subs := e.subs[id := e.subs[id].(state := s.(queue := []))]))
  {
    hide Tick;
    var u := WithState(e, id, s);
    assert s.queue[1..] == [] && u.requests[1..] == [];
    assert PairOnce(u, id).subs == e.subs[id := e.subs[id].(state := s.(queue := []))];
    assert Pair(u, id) == PairOnce(u, id) && !Pair(u, id).subs[id].state.core.phase.Closed?;
  }

  lemma TwoVisits(e: Engine, a: u32, b: u32, reason: Reason, clock: Clock, t: Engine)
    requires Visit(e, a, reason, clock) == Some(t)
    ensures VisitAll(e, [a, b], reason, clock) == Visit(t, b, reason, clock)
  {
    assert [a, b][..1] == [a] && [a][..0] == [];
    assert VisitAll(e, [a], reason, clock) == Some(t) by { assert VisitAll(e, [], reason, clock) == Some(e); }
  }

  lemma NothingToFlush(e: Engine)
    requires e.transmission == [] && e.retransmission == map[]
    ensures Flush(e) == e && Cleaned(e.retransmission, e.subs, e.retransmission)
  {
  }

  /** A tick in which both subscriptions move on and say nothing. */
  lemma QuietTick(accepted: nat, requests: seq<nat>, reason: Reason, s: State, t: State)
    requires Tick(s, reason, requests != [], true, false) == Done(t) && t.queue == [] && !t.core.phase.Closed?
    ensures Step(Pairing(accepted, requests, s, s), TickAll([1, 2], reason, CALM), Pairing(accepted, requests, t, t))
  {
    hide Tick, Visit, VisitAll, Flush, Cleaned;
    var e, half, u := Pairing(accepted, requests, s, s), Pairing(accepted, requests, t, s), Pairing(accepted, requests, t, t);
    assert WithState(e, 1, t) == half && WithState(half, 2, t) == u;
    hide WithState;
    NothingToFlush(u);
    QuietVisit(e, 1, reason, CALM, t);
    QuietVisit(half, 2, reason, CALM, t);
    TwoVisits(e, 1, 2, reason, CALM, half);
  }

  const NEW: State := Start(10, 3, true)
  const NORMAL: State := Laws.Fresh(10, 3, 10, Normal)

  const INSERTED: Engine := Engine(0, [], {}, map[1 := Member(0, NEW)], {1}, [], map[], [])

  lemma BothInserted()
    ensures Allowed(EMPTY, Insert(1, 0, 10, 3, true)) && Step(EMPTY, Insert(1, 0, 10, 3, true), INSERTED)
    ensures Allowed(INSERTED, Insert(2, 255, 10, 3, true))
    ensures Step(INSERTED, Insert(2, 255, 10, 3, true), Pairing(0, [], NEW, NEW))
  {
  }

  lemma BothTick()
    ensures Step(Pairing(0, [], NEW, NEW), TickAll([1, 2], TickTimerFired, CALM), Pairing(0, [], NORMAL, NORMAL))
    ensures Step(Pairing(1, [0], NORMAL, NORMAL), TickAll([1, 2], ReceivePublishRequest, CALM),
                 Pairing(1, [0], NORMAL, NORMAL))
  {
    Laws.Created(10, 3, true, false);
    assert Tick(NEW, TickTimerFired, false, true, false) == Done(NORMAL);
    RequestArrives();
    hide Tick, Step;
    QuietTick(0, [], TickTimerFired, NEW, NORMAL);
    QuietTick(1, [0], ReceivePublishRequest, NORMAL, NORMAL);
  }

  lemma RequestArrives()
    ensures Tick(NORMAL, ReceivePublishRequest, true, true, false) == Done(NORMAL)
  {
    RowIs(4, NORMAL.core, ReceivePublishRequest, InputsOf(NORMAL, ReceivePublishRequest, true, true, false));
    hide Row;
  }

  lemma RunOfFive(a: Engine, b: Engine, c: Engine, d: Engine, e: Engine,
                  o1: Operation, o2: Operation, o3: Operation, o4: Operation, o5: Operation)
    requires Allowed(EMPTY, o1) && Step(EMPTY, o1, a) && Allowed(a, o2) && Step(a, o2, b)
    requires Allowed(b, o3) && Step(b, o3, c) && Allowed(c, o4) && Step(c, o4, d) && Allowed(d, o5) && Step(d, o5, e)
    ensures IsRun([EMPTY, a, b, c, d, e], [o1, o2, o3, o4, o5])
  {
    hide Step, Allowed, EMPTY;
  }

  /** Both are created, and one publish request comes in. */
  lemma StarvingRun()
    ensures
      IsRun([EMPTY, INSERTED, Pairing(0, [], NEW, NEW), Pairing(0, [], NORMAL, NORMAL), Pairing(1, [0], NORMAL, NORMAL),
             Pairing(1, [0], NORMAL, NORMAL)],
            [Insert(1, 0, 10, 3, true), Insert(2, 255, 10, 3, true), TickAll([1, 2], TickTimerFired, CALM), Accept,
             TickAll([1, 2], ReceivePublishRequest, CALM)])
  {
    hide IsRun, NEW, NORMAL, INSERTED, EMPTY, CALM;
    assert Step(Pairing(0, [], NORMAL, NORMAL), Accept, Pairing(1, [0], NORMAL, NORMAL)) by {
      assert [] + [0] == [0];
    }
    hide Step, Pairing;
    BothInserted();
    BothTick();
    RunOfFive(INSERTED, Pairing(0, [], NEW, NEW), Pairing(0, [], NORMAL, NORMAL), Pairing(1, [0], NORMAL, NORMAL),
              Pairing(1, [0], NORMAL, NORMAL),
              Insert(1, 0, 10, 3, true), Insert(2, 255, 10, 3, true), TickAll([1, 2], TickTimerFired, CALM), Accept,
              TickAll([1, 2], ReceivePublishRequest, CALM));
  }

  lemma BothOweAMessage(e: Engine, alive: State)
    requires e == Pairing(1, [0], NORMAL, NORMAL) && alive == Laws.Counted(10, 3, 9, 3, Normal)
    ensures Tick(NORMAL, TickTimerFired, true, true, false) == Done(alive.(queue := [Message(1, Alive)]))
    ensures Ready(e, 1, TickTimerFired, CALM) && Ready(e, 2, TickTimerFired, CALM)
  {
    hide Tick;
    Laws.FirstKeepAlive(10, 3);
  }

  lemma LowestIsServed(e: Engine, alive: State, t: Engine)
    requires e == Pairing(1, [0], NORMAL, NORMAL) && alive.queue == [] && !alive.core.phase.Closed?
    requires Tick(NORMAL, TickTimerFired, true, true, false) == Done(alive.(queue := [Message(1, Alive)]))
    requires t == e.(requests := [], transmission := [Entry(0, 1, Message(1, Alive))],
                     subs := map[1 := Member(0, alive), 2 := Member(255, NORMAL)])
    ensures Visit(e, 1, TickTimerFired, CALM) == Some(t)
  {
    hide NORMAL, Tick, Visit;
    OneMessageVisit(e, 1, TickTimerFired, CALM, alive.(queue := [Message(1, Alive)]));
    assert alive.(queue := [Message(1, Alive)]).(queue := []) == alive;
    assert e.subs[1 := Member(0, alive)] == t.subs;
    assert [] + [Entry(0, 1, Message(1, Alive))] == [Entry(0, 1, Message(1, Alive))];
  }

  /** The interval after that run: both subscriptions owe a first message, the one request goes to the lowest priority,
      and the highest is late. */
  lemma HighestIsStarved()
    ensures
      var e := Pairing(1, [0], NORMAL, NORMAL);
      var v := VisitAll(e, [1, 2], TickTimerFired, CALM);
      && ByPriority(e.subs, [1, 2]) && Ready(e, 1, TickTimerFired, CALM) && Ready(e, 2, TickTimerFired, CALM)
      && v.Some? && v.value.transmission == [Entry(0, 1, Message(1, Alive))] && 2 in v.value.subs
      && v.value.subs[2].state.core.phase.Late? && !HighestFirst(e, TickTimerFired, CALM, v.value.transmission)
  {
    hide Tick, Visit, VisitAll, Ready, HighestFirst;
    var e := Pairing(1, [0], NORMAL, NORMAL);
    var alive := Laws.Counted(10, 3, 9, 3, Normal);
    var t := e.(requests := [], transmission := [Entry(0, 1, Message(1, Alive))],
                subs := map[1 := Member(0, alive), 2 := Member(255, NORMAL)]);
    BothOweAMessage(e, alive);
    Laws.BecomesLate(10, 3, false);
    LowestIsServed(e, alive, t);
    QuietVisit(t, 2, TickTimerFired, CALM, Laws.Fresh(10, 3, 9, Late));
    TwoVisits(e, 1, 2, TickTimerFired, CALM, t);
    OneIsPassedOver(e, TickTimerFired, CALM, t.transmission, 2);
  }
}
