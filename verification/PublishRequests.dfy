/** What the arrival of a publish request does to the queue of requests, and exactly when the request is refused
    (lib/src/server/subscriptions/subscriptions.rs). */
module PublishRequests {
  import opened Prelude
  import opened ServerSubscription
  import Laws = ServerSubscriptionLaws
  import opened PublishEngine
  import opened PublishRuns
  import opened PublishOrder

  // ---------------------------------------------------------------- the steps

  datatype Outcome = Queued | TooMany

  /** A tick of the engine, with the subscriptions in the order of the code. */
  ghost predicate Ticks(e: Engine, reason: Reason, clock: Clock, t: Engine) {
    exists ids :: ByPriority(e.subs, ids) && Step(e, TickAll(ids, reason, clock), t)
  }

  function MaxRequests(e: Engine): nat { 2 * |e.subs| }

  /** What a publish request does: a tick to make room when the queue is full, then a refusal when it still is, or the
      request is accepted and there is another tick. */
  ghost predicate Enqueues(e: Engine, first: Clock, second: Clock, out: Outcome, t: Engine) {
    exists mid: Engine ::
      && (if |e.requests| >= MaxRequests(e) then Ticks(e, ReceivePublishRequest, first, mid) else mid == e)
      && if |mid.requests| >= MaxRequests(e) then out == TooMany && t == mid
         else
           && out == Queued
           && exists accepted :: Step(mid, Accept, accepted) && Ticks(accepted, ReceivePublishRequest, second, t)
  }

  // ---------------------------------------------------------------- how many requests a tick takes

  /** How many messages the subscription has to send once a request waits. */
  function Owed(e: Engine, id: u32, reason: Reason, clock: Clock): nat {
    if id !in e.subs then 0
    else
      var r := Tick(e.subs[id].state, reason, true, clock.elapsed(id), clock.changed(id));
      if r.Panic? then 0 else |r.state.queue|
  }

  lemma ReadyIffOwed(e: Engine, id: u32, reason: Reason, clock: Clock)
    ensures Ready(e, id, reason, clock) <==> Owed(e, id, reason, clock) > 0
  {
    hide Tick;
  }

  lemma SameOwed(e: Engine, t: Engine, id: u32, reason: Reason, clock: Clock)
    requires SameMember(e, t, id)
    ensures Owed(t, id, reason, clock) == Owed(e, id, reason, clock)
  {
    hide Tick;
  }

  /** The messages that the subscriptions in a set have to send. */
  ghost function TotalOwed(e: Engine, ids: set<u32>, reason: Reason, clock: Clock): nat {
    if ids == {} then 0
    else
      var id :| id in ids;
      Owed(e, id, reason, clock) + TotalOwed(e, ids - {id}, reason, clock)
  }

  lemma {:induction false} TotalWith(e: Engine, ids: set<u32>, id: u32, reason: Reason, clock: Clock)
    requires id !in ids
    ensures TotalOwed(e, ids + {id}, reason, clock) == Owed(e, id, reason, clock) + TotalOwed(e, ids, reason, clock)
    decreases |ids|
  {
    hide Owed;
    var all := ids + {id};
    var x :| x in all
             && TotalOwed(e, all, reason, clock) == Owed(e, x, reason, clock) + TotalOwed(e, all - {x}, reason, clock);
    hide TotalOwed;
    SetParts(ids, id, x);
    if x != id {
      TotalWith(e, ids - {x}, id, reason, clock);
      TotalWith(e, ids - {x}, x, reason, clock);
    }
  }

  lemma SetParts(ids: set<u32>, id: u32, x: u32)
    requires id !in ids && (x == id || x in ids)
    ensures x == id ==> ids + {id} - {x} == ids
    ensures x != id ==> ids + {id} - {x} == ids - {x} + {id} && ids == ids - {x} + {x} && |ids - {x}| < |ids|
  {
  }

  /** Nothing is owed exactly when no subscription is ready. */
  lemma {:induction false} NothingOwedIff(e: Engine, ids: set<u32>, reason: Reason, clock: Clock)
    ensures TotalOwed(e, ids, reason, clock) == 0 <==> forall id <- ids :: !Ready(e, id, reason, clock)
    decreases |ids|
  {
    hide Owed, Ready;
    if ids != {} {
      var x :| x in ids;
      NothingOwedIff(e, ids - {x}, reason, clock);
      TotalWith(e, ids - {x}, x, reason, clock);
      ReadyIffOwed(e, x, reason, clock);
      assert ids == ids - {x} + {x};
    }
  }

  function Minus(a: nat, b: nat): nat { if a < b then 0 else a - b }

  lemma {:induction false} PairTakes(e: Engine, id: u32)
    requires id in e.subs
    ensures |Pair(e, id).requests| == Minus(|e.requests|, |e.subs[id].state.queue|)
    decreases |e.requests|
  {
    if e.requests != [] && e.subs[id].state.queue != [] { PairTakes(PairOnce(e, id), id); }
  }

  lemma VisitTakes(e: Engine, id: u32, reason: Reason, clock: Clock)
    requires id in e.subs
    ensures
      var v := Visit(e, id, reason, clock);
      v.Some? ==> |v.value.requests| == Minus(|e.requests|, Owed(e, id, reason, clock))
  {
    hide Tick, Pair;
    var r := Tick(e.subs[id].state, reason, e.requests != [], clock.elapsed(id), clock.changed(id));
    if r.Done? { PairTakes(WithState(e, id, r.state), id); }
  }

  function Members(ids: seq<u32>): set<u32> { set id <- ids }

  lemma MembersNext(ids: seq<u32>, id: u32)
    ensures Members(ids + [id]) == Members(ids) + {id} && Members([]) == {} && (id in Members(ids) <==> id in ids)
  {
  }

  lemma {:induction false} VisitAllTakes(e: Engine, ids: seq<u32>, reason: Reason, clock: Clock)
    requires Distinct(e.subs, ids)
    ensures
      var v := VisitAll(e, ids, reason, clock);
      v.Some? ==> |v.value.requests| == Minus(|e.requests|, TotalOwed(e, Members(ids), reason, clock))
  {
    if ids != [] {
      hide Visit, VisitAll, Owed, TotalOwed, Members, Minus, SameMember, Distinct;
      var front, id := ids[..|ids| - 1], ids[|ids| - 1];
      DistinctFront(e.subs, ids);
      MembersNext(front, id);
      VisitAllNext(e, front, id, reason, clock);
      VisitAllTakes(e, front, reason, clock);
      VisitAllOthers(e, front, reason, clock, id);
      TotalWith(e, Members(front), id, reason, clock);
      var r := VisitAll(e, front, reason, clock);
      if r.Some? { NextVisitTakes(e, r.value, id, reason, clock, TotalOwed(e, Members(front), reason, clock)); }
    }
  }

  lemma DistinctFront(subs: map<u32, Member>, ids: seq<u32>)
    requires Distinct(subs, ids) && ids != []
    ensures
      var front, id := ids[..|ids| - 1], ids[|ids| - 1];
      ids == front + [id] && Distinct(subs, front) && id in subs && id !in front
  {
  }

  lemma NextVisitTakes(e: Engine, r: Engine, id: u32, reason: Reason, clock: Clock, taken: nat)
    requires id in e.subs && SameMember(e, r, id) && |r.requests| == Minus(|e.requests|, taken)
    ensures
      var v := Visit(r, id, reason, clock);
      v.Some? ==> |v.value.requests| == Minus(|e.requests|, Owed(e, id, reason, clock) + taken)
  {
    hide Visit, Owed;
    VisitTakes(r, id, reason, clock);
    SameOwed(e, r, id, reason, clock);
  }

  lemma TickedRequests(e: Engine, ids: seq<u32>, reason: Reason, clock: Clock, t: Engine)
    requires Step(e, TickAll(ids, reason, clock), t)
    ensures VisitAll(e, ids, reason, clock).Some? && t.requests == VisitAll(e, ids, reason, clock).value.requests
  {
    hide VisitAll, Flush, Cleaned;
    FlushKeepsPaired(VisitAll(e, ids, reason, clock).value);
  }

  /** A tick takes as many requests as there are messages to send, as far as they go. */
  lemma TickTakesRequests(e: Engine, reason: Reason, clock: Clock, t: Engine)
    requires Ticks(e, reason, clock, t)
    ensures |t.requests| == Minus(|e.requests|, TotalOwed(e, e.subs.Keys, reason, clock))
  {
    hide VisitAll, TotalOwed, Step;
    var ids :| ByPriority(e.subs, ids) && Step(e, TickAll(ids, reason, clock), t);
    TickedRequests(e, ids, reason, clock, t);
    ByPriorityIsDistinct(e.subs, ids);
    VisitAllTakes(e, ids, reason, clock);
    assert Members(ids) == e.subs.Keys;
  }

  /** A request is refused exactly when the queue is full and the subscriptions owe no more messages than there are
      requests over the limit. */
  lemma RefusedIff(e: Engine, first: Clock, second: Clock, out: Outcome, t: Engine)
    requires Enqueues(e, first, second, out, t)
    ensures out.TooMany? <==>
            && |e.requests| >= MaxRequests(e)
            && TotalOwed(e, e.subs.Keys, ReceivePublishRequest, first) <= |e.requests| - MaxRequests(e)
  {
    hide Ticks, Step, TotalOwed;
    var mid: Engine :|
      && (if |e.requests| >= MaxRequests(e) then Ticks(e, ReceivePublishRequest, first, mid) else mid == e)
      && if |mid.requests| >= MaxRequests(e) then out == TooMany && t == mid
         else
           && out == Queued
           && exists accepted :: Step(mid, Accept, accepted) && Ticks(accepted, ReceivePublishRequest, second, t);
    if |e.requests| >= MaxRequests(e) {
      TickTakesRequests(e, ReceivePublishRequest, first, mid);
      if e.subs.Keys == {} { NothingOwed(e, first); }
    }
  }

  lemma NothingOwed(e: Engine, clock: Clock)
    ensures TotalOwed(e, {}, ReceivePublishRequest, clock) == 0
  {
  }

  // ---------------------------------------------------------------- what can be owed when a request arrives

  /** Nothing to send and not late, or gone. */
  predicate Quiet(e: Engine, id: u32) {
    id in e.subs ==> e.subs[id].state.queue == [] && !e.subs[id].state.core.phase.Late?
  }

  /** While requests wait, every subscription is quiet. */
  ghost predicate Tidy(e: Engine) { e.requests != [] ==> forall id: u32 :: Quiet(e, id) }

  lemma WaitingRow(c: Core, reason: Reason, p: Inputs)
    requires Possible(reason, p) && p.requestQueued && (reason.ReceivePublishRequest? || !c.phase.Late?)
    ensures !PhaseAfter(Row(c, reason, p), c).Late?
  {
    if c.phase.Late? {
      var n := if c.lifetime == 1 then 27
               else if c.enabled && (p.notificationsAvailable || p.moreNotifications) then 10 else 11;
      RowIs(n, c, reason, p);
    }
  }

  /** With a request waiting no subscription becomes late, and the arrival of one ends being late. */
  lemma TickEndsLate(s: State, reason: Reason, elapsed: bool, changed: bool)
    requires reason.ReceivePublishRequest? || !s.core.phase.Late?
    ensures var r := Tick(s, reason, true, elapsed, changed); r.Done? ==> !r.state.core.phase.Late?
  {
    hide Row, Guard, IsFirst, PhaseAfter;
    WaitingRow(s.core, reason, InputsOf(s, reason, true, elapsed, changed));
  }

  lemma VisitQuiets(e: Engine, id: u32, reason: Reason, clock: Clock)
    requires id in e.subs && (reason.ReceivePublishRequest? || !e.subs[id].state.core.phase.Late?)
    ensures
      var v := Visit(e, id, reason, clock);
      v.Some? && v.value.requests != [] ==> e.requests != [] && Quiet(v.value, id)
  {
    hide Tick, Pair;
    var r := Tick(e.subs[id].state, reason, e.requests != [], clock.elapsed(id), clock.changed(id));
    if r.Done? {
      PairTakes(WithState(e, id, r.state), id);
      PairKeepsCore(WithState(e, id, r.state), id);
      PairFrame(WithState(e, id, r.state), id);
      if e.requests != [] { TickEndsLate(e.subs[id].state, reason, clock.elapsed(id), clock.changed(id)); }
    }
  }

  lemma SameQuiet(e: Engine, t: Engine, id: u32)
    requires SameMember(e, t, id)
    ensures Quiet(t, id) == Quiet(e, id)
  {
  }

  lemma {:induction false} VisitAllQuiets(e: Engine, ids: seq<u32>, reason: Reason, clock: Clock, id: u32)
    requires Distinct(e.subs, ids) && id in ids
    requires reason.ReceivePublishRequest? || forall x <- ids :: !e.subs[x].state.core.phase.Late?
    ensures
      var v := VisitAll(e, ids, reason, clock);
      v.Some? && v.value.requests != [] ==> e.requests != [] && Quiet(v.value, id)
  {
    hide Visit, VisitAll, Quiet;
    var front, last := ids[..|ids| - 1], ids[|ids| - 1];
    assert ids == front + [last];
    VisitAllNext(e, front, last, reason, clock);
    VisitAllOthers(e, front, reason, clock, last);
    VisitAllTakes(e, front, reason, clock);
    var r := VisitAll(e, front, reason, clock);
    if r.Some? {
      VisitQuiets(r.value, last, reason, clock);
      if id != last {
        VisitAllQuiets(e, front, reason, clock, id);
        VisitOthers(r.value, last, reason, clock, id);
        var v := Visit(r.value, last, reason, clock);
        if v.Some? { SameQuiet(r.value, v.value, id); }
      }
    }
  }

  /** What the operations other than ticks and acceptance keep. */
  lemma OthersKeepTidy(e: Engine, op: Operation, t: Engine)
    requires Tidy(e) && Allowed(e, op) && Step(e, op, t) && !op.TickAll? && !op.Accept?
    ensures Tidy(t)
  {
    if op.Expire? { WaitingMembers(e.requests, op.gone); }
    if t.requests != [] {
      assert t.requests[0] in t.requests;
      assert e.requests != [];
      forall id: u32 ensures Quiet(t, id) { assert Quiet(e, id); }
    }
  }

  lemma TickLeavesTidy(e: Engine, ids: seq<u32>, reason: Reason, clock: Clock, t: Engine)
    requires ByPriority(e.subs, ids) && Step(e, TickAll(ids, reason, clock), t)
    requires reason.ReceivePublishRequest? || Tidy(e)
    ensures Tidy(t)
  {
    ByPriorityIsDistinct(e.subs, ids);
    TickedRequests(e, ids, reason, clock, t);
    VisitAllTakes(e, ids, reason, clock);
    FlushKeepsPaired(VisitAll(e, ids, reason, clock).value);
    var v := VisitAll(e, ids, reason, clock).value;
    assert t.subs == v.subs && t.requests == v.requests;
    hide VisitAll, Flush, Cleaned, TotalOwed;
    if t.requests != [] {
      forall id: u32 ensures Quiet(t, id) {
        if id in ids {
          forall x | x in ids ensures reason.ReceivePublishRequest? || !e.subs[x].state.core.phase.Late? {
            if !reason.ReceivePublishRequest? { assert Quiet(e, x); }
          }
          VisitAllQuiets(e, ids, reason, clock, id);
          SameQuiet(v, t, id);
        } else {
          VisitAllOthers(e, ids, reason, clock, id);
        }
      }
    }
  }

  /** Runs of the server: ticks go through all subscriptions, and every request that is accepted brings a tick. */
  ghost predicate IsServerRun(states: seq<Engine>, ops: seq<Operation>) {
    && IsRun(states, ops)
    && (forall i :: 0 <= i < |ops| && ops[i].TickAll? ==> ByPriority(states[i].subs, ops[i].ids))
    && (forall i :: 0 < i < |ops| && ops[i - 1].Accept? ==> ops[i].TickAll? && ops[i].reason.ReceivePublishRequest?)
  }

  /** Except between a request that is accepted and the tick it brings, subscriptions are quiet while requests wait. */
  lemma {:induction false} EveryServerRunIsTidy(states: seq<Engine>, ops: seq<Operation>, k: nat)
    requires IsServerRun(states, ops) && k < |states| && (k > 0 ==> !ops[k - 1].Accept?)
    ensures Tidy(states[k])
    decreases k
  {
    if k > 0 {
      var i := k - 1;
      var e, op, t := states[i], ops[i], states[i + 1];
      assert Allowed(e, op) && Step(e, op, t);
      hide Step, Allowed, Tidy, IsRun;
      if op.TickAll? && op.reason.ReceivePublishRequest? {
        TickLeavesTidy(e, op.ids, op.reason, op.clock, t);
      } else {
        EveryServerRunIsTidy(states, ops, i);
        if op.TickAll? { TickLeavesTidy(e, op.ids, op.reason, op.clock, t); } else { OthersKeepTidy(e, op, t); }
      }
    }
  }

  /** The subscriptions that the next event closes. */
  function Expiring(e: Engine): set<u32> {
    set id <- e.subs | e.subs[id].state.core.Live() && e.subs[id].state.core.lifetime == 1
  }

  /** What the arrival of a request does to a subscription that is not late and has not several messages to send. */
  lemma ArrivalRow(c: Core, p: Inputs)
    requires !c.phase.Late? && !p.moreNotifications && !p.timerExpired
    ensures Row(c, ReceivePublishRequest, p) ==
            if c.Live() && c.lifetime == 1 then 27
            else if c.phase.KeepAlive? then 13 else if c.phase.Normal? then 4 else if c.phase.Creating? then 3 else 0
  {
    if c.Live() {
      RowIs(if c.lifetime == 1 then 27 else if c.phase.KeepAlive? then 13 else 4, c, ReceivePublishRequest, p);
    } else if c.phase.Creating? {
      RowIs(3, c, ReceivePublishRequest, p);
    }
  }

  lemma ArrivalTick(s: State, elapsed: bool, changed: bool)
    requires s.next == Expected(s.last) && s.queue == [] && !s.core.phase.Late?
    ensures
      var r := Tick(s, ReceivePublishRequest, true, elapsed, changed);
      r.Done? && |r.state.queue| == if s.core.Live() && s.core.lifetime == 1 then 1 else 0
  {
    hide Row, Guard, IsFirst;
    ArrivalRow(s.core, InputsOf(s, ReceivePublishRequest, true, elapsed, changed));
  }

  /** A quiet subscription owes a message to the arrival of a request exactly when it expires: the one that says so. */
  lemma QuietOwes(e: Engine, id: u32, clock: Clock)
    requires id in e.subs && Quiet(e, id) && Laws.Sound(e.subs[id].state)
    ensures Owed(e, id, ReceivePublishRequest, clock) == if id in Expiring(e) then 1 else 0
  {
    hide Tick, Numbered;
    Laws.NumberIsExpected(e.subs[id].state);
    ArrivalTick(e.subs[id].state, clock.elapsed(id), clock.changed(id));
  }

  lemma {:induction false} TotalWhenQuiet(e: Engine, ids: set<u32>, clock: Clock)
    requires ids <= e.subs.Keys && AllSound(e) && forall id: u32 :: Quiet(e, id)
    ensures TotalOwed(e, ids, ReceivePublishRequest, clock) == |ids * Expiring(e)|
    decreases |ids|
  {
    hide Owed, Quiet, Expiring, Laws.Sound;
    if ids == {} {
      assert ids * Expiring(e) == {};
    } else {
      var x :| x in ids;
      var others := ids - {x};
      TotalWhenQuiet(e, others, clock);
      TotalWith(e, others, x, ReceivePublishRequest, clock);
      QuietOwes(e, x, clock);
      assert ids == others + {x};
      assert ids * Expiring(e) == others * Expiring(e) + if x in Expiring(e) then {x} else {};
    }
  }

  /** In every run of the server, a request that finds the queue full is refused exactly when no more subscriptions
      expire at that moment than there are requests over the limit: nothing else makes room. */
  lemma ServerRefusesIff(states: seq<Engine>, ops: seq<Operation>, k: nat, first: Clock, second: Clock, out: Outcome,
                         t: Engine)
    requires IsServerRun(states, ops) && k < |states| && (k > 0 ==> !ops[k - 1].Accept?)
    requires Enqueues(states[k], first, second, out, t)
    ensures
      var e := states[k];
      out.TooMany? <==> |e.requests| >= 2 * |e.subs| && |Expiring(e)| <= |e.requests| - 2 * |e.subs|
  {
    hide Enqueues, IsRun, Tidy, Valid, TotalOwed, Expiring;
    EveryServerRunIsTidy(states, ops, k);
    EveryRunIsValid(states, ops, k);
    RefusedIff(states[k], first, second, out, t);
    OwedWhenTidy(states[k], first);
  }

  lemma OwedWhenTidy(e: Engine, clock: Clock)
    requires Tidy(e) && Valid(e)
    ensures |e.requests| >= MaxRequests(e) ==>
              TotalOwed(e, e.subs.Keys, ReceivePublishRequest, clock) == |Expiring(e)|
  {
    hide Quiet, AllSound, AllDeliver, AllConsecutive, InTurn, Known;
    if e.requests != [] {
      TotalWhenQuiet(e, e.subs.Keys, clock);
      assert e.subs.Keys * Expiring(e) == Expiring(e);
    } else if e.subs.Keys == {} {
      NothingOwed(e, clock);
      assert Expiring(e) == {};
    }
  }

  // ---------------------------------------------------------------- a request that is refused

  /** An engine with one subscription. */
  function Single(requests: seq<nat>, s: State): Engine {
    Engine(|requests|, requests, {}, map[1 := Member(0, s)], {1}, [], map[], [])
  }

  /** A tick in which the subscription moves on and says nothing. */
  lemma QuietStep(requests: seq<nat>, reason: Reason, s: State, t: State)
    requires Tick(s, reason, requests != [], true, false) == Done(t) && t.queue == [] && !t.core.phase.Closed?
    ensures Step(Single(requests, s), TickAll([1], reason, CALM), Single(requests, t))
  {
    hide Tick, Visit, VisitAll, Flush, Cleaned;
    var e, u := Single(requests, s), Single(requests, t);
    assert WithState(e, 1, t) == u;
    hide WithState;
    NothingToFlush(u);
    QuietVisit(e, 1, reason, CALM, t);
    NoVisits(e, reason);
    VisitAllNext(e, [], 1, reason, CALM);
    assert [] + [1] == [1];
  }

  lemma NoVisits(e: Engine, reason: Reason)
    ensures VisitAll(e, [], reason, CALM) == Some(e)
  {
  }

  const FULL: seq<Engine> :=
    [EMPTY, Single([], NEW), Single([], NORMAL), Single([0], NORMAL), Single([0], NORMAL), Single([0, 1], NORMAL),
     Single([0, 1], NORMAL)]

  const FILLING: seq<Operation> :=
    [Insert(1, 0, 10, 3, true), TickAll([1], TickTimerFired, CALM), Accept, TickAll([1], ReceivePublishRequest, CALM),
     Accept, TickAll([1], ReceivePublishRequest, CALM)]

  lemma Arrivals()
    ensures Step(Single([], NEW), TickAll([1], TickTimerFired, CALM), Single([], NORMAL))
    ensures Step(Single([0], NORMAL), TickAll([1], ReceivePublishRequest, CALM), Single([0], NORMAL))
    ensures Step(Single([0, 1], NORMAL), TickAll([1], ReceivePublishRequest, CALM), Single([0, 1], NORMAL))
  {
    Laws.Created(10, 3, true, false);
    assert Tick(NEW, TickTimerFired, false, true, false) == Done(NORMAL);
    RequestArrives();
    hide Tick, Step;
    QuietStep([], TickTimerFired, NEW, NORMAL);
    QuietStep([0], ReceivePublishRequest, NORMAL, NORMAL);
    QuietStep([0, 1], ReceivePublishRequest, NORMAL, NORMAL);
  }

  lemma Additions()
    ensures Allowed(EMPTY, Insert(1, 0, 10, 3, true)) && Step(EMPTY, Insert(1, 0, 10, 3, true), Single([], NEW))
    ensures Step(Single([], NORMAL), Accept, Single([0], NORMAL)) && Step(Single([0], NORMAL), Accept, Single([0, 1], NORMAL))
  {
    hide NORMAL;
    assert [] + [0] == [0] && [0] + [1] == [0, 1];
  }

  lemma FillingSteps(i: nat)
    requires i < |FILLING|
    ensures Allowed(FULL[i], FILLING[i]) && Step(FULL[i], FILLING[i], FULL[i + 1])
  {
    hide Step, Single, NORMAL, NEW, EMPTY, CALM;
    Arrivals();
    Additions();
  }

  /** One subscription and two waiting requests: the next one is refused, and the two stay. */
  lemma NewestIsRefused()
    ensures IsServerRun(FULL, FILLING) && FULL[6].requests == [0, 1]
    ensures Enqueues(FULL[6], CALM, CALM, TooMany, FULL[6])
  {
    hide Step;
    forall i | 0 <= i < |FILLING| ensures Allowed(FULL[i], FILLING[i]) && Step(FULL[i], FILLING[i], FULL[i + 1]) {
      FillingSteps(i);
    }
    Arrivals();
    assert ByPriority(FULL[6].subs, [1]) && Ticks(FULL[6], ReceivePublishRequest, CALM, FULL[6]);
  }
}
