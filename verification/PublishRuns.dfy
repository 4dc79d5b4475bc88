/** Whole runs of the publish engine: every request is answered at most once and in turn, and every subscription's
    messages reach the client in the order of their numbers (lib/src/server/subscriptions/subscriptions.rs). */
module PublishRuns {
  import opened Prelude
  import opened MessageQueues
  import opened ServerSubscription
  import Laws = ServerSubscriptionLaws
  import opened PublishEngine

  // ---------------------------------------------------------------- retransmission

  /** The order of keys in the retransmission queue: subscription first, then number. */
  predicate Less(a: (u32, u32), b: (u32, u32)) { a.0 < b.0 || (a.0 == b.0 && a.1 < b.1) }

  function Limit(subs: map<u32, Member>): nat { 2 * (2 * |subs|) }

  /** Messages of subscriptions that still exist. */
  function Current(queue: map<(u32, u32), Message>, subs: map<u32, Member>): map<(u32, u32), Message> {
    map k | k in queue && k.0 in subs :: queue[k]
  }

  /** What cleaning leaves: of the current messages as many as the limit allows, those with the greatest keys. */
  predicate Cleaned(queue: map<(u32, u32), Message>, subs: map<u32, Member>, left: map<(u32, u32), Message>) {
    var current := Current(queue, subs);
    && (forall k <- left :: k in current && left[k] == current[k])
    && |left| == (if |current| > Limit(subs) then Limit(subs) else |current|)
    && (forall k <- current :: k !in left ==> forall l <- left :: Less(k, l))
  }

  // ---------------------------------------------------------------- operations

  datatype Operation =
    | TickAll(ids: seq<u32>, reason: Reason, clock: Clock)
    | Accept
    | Expire(gone: set<nat>)
    | Insert(id: u32, priority: u8, maxLifetime: u32, maxKeepAlive: u32, enabled: bool)
    | Remove(id: u32)
    | Acknowledge(keys: set<(u32, u32)>)
    | Change(id: u32, event: Laws.Event)
    | Prioritize(id: u32, priority: u8)

  predicate Allowed(e: Engine, op: Operation) {
    match op
    case Insert(id, _, maxLifetime, maxKeepAlive, _) => id !in e.used && maxLifetime >= 2 && maxKeepAlive >= 1
    case Change(_, event) => Laws.Revised(event) && !event.TickEvent? && !event.Take?
    case _ => true
  }

  function Waiting(requests: seq<nat>, gone: set<nat>): seq<nat> {
    if requests == [] then []
    else
      var last := requests[|requests| - 1];
      Waiting(requests[..|requests| - 1], gone) + if last in gone then [] else [last]
  }

  ghost predicate Step(e: Engine, op: Operation, t: Engine) {
    match op
    case TickAll(ids, reason, clock) =>
      var v := VisitAll(e, ids, reason, clock);
      && v.Some?
      && t == Flush(v.value).(retransmission := t.retransmission)
      && Cleaned(Flush(v.value).retransmission, t.subs, t.retransmission)
    case Accept => t == e.(accepted := e.accepted + 1, requests := e.requests + [e.accepted])
    case Expire(gone) =>
      t == e.(requests := Waiting(e.requests, gone), expired := e.expired + set k <- e.requests | k in gone)
    case Insert(id, priority, maxLifetime, maxKeepAlive, enabled) =>
      t == e.(subs := e.subs[id := Member(priority, Start(maxLifetime, maxKeepAlive, enabled))], used := e.used + {id})
    case Remove(id) => t == e.(subs := e.subs - {id})
    case Acknowledge(keys) => t == e.(retransmission := map k | k in e.retransmission && k !in keys :: e.retransmission[k])
    case Change(id, event) =>
      if id in e.subs
      then
        var r := Laws.Step(e.subs[id].state, event);
        r.Done? && t == WithState(e, id, r.state)
      else t == e
    case Prioritize(id, priority) =>
      t == if id in e.subs then e.(subs := e.subs[id := e.subs[id].(priority := priority)]) else e
  }

  // ---------------------------------------------------------------- the invariant

  predicate Rising(s: seq<nat>) { forall i, j :: 0 <= i < j < |s| ==> s[i] < s[j] }

  /** Every request accepted is answered, waits or has expired: exactly one of the three, and in turn. */
  ghost predicate InTurn(e: Engine) {
    && Rising(Line(e))
    && (forall k: nat :: k < e.accepted <==> k in Line(e) || k in e.expired)
    && (forall k <- e.expired :: k !in Line(e))
  }

  /** Only known subscriptions were ever served. */
  predicate Known(e: Engine) {
    (forall id <- e.subs :: id in e.used) && (forall i :: 0 <= i < |Paired(e)| ==> Paired(e)[i].sub in e.used)
  }

  ghost predicate Valid(e: Engine) {
    e.transmission == [] && AllDeliver(e) && AllSound(e) && AllConsecutive(e) && InTurn(e) && Known(e)
  }

  const EMPTY: Engine := Engine(0, [], {}, map[], {}, [], map[], [])

  // ---------------------------------------------------------------- ticks

  lemma PairOnceKnown(e: Engine, id: u32)
    requires id in e.subs && e.requests != [] && e.subs[id].state.queue != [] && Known(e)
    ensures Known(PairOnce(e, id))
  {
    var t := PairOnce(e, id);
    assert Paired(t) == Paired(e) + [Entry(e.requests[0], id, e.subs[id].state.queue[0])];
  }

  lemma {:induction false} PairKnown(e: Engine, id: u32)
    requires id in e.subs && Known(e)
    ensures Known(Pair(e, id))
    decreases |e.requests|
  {
    if e.requests != [] && e.subs[id].state.queue != [] {
      PairOnceKnown(e, id);
      hide Known, PairOnce;
      PairKnown(PairOnce(e, id), id);
    }
  }

  /** What no part of a tick changes before the responses are made. */
  predicate SameBooks(e: Engine, t: Engine) {
    t.accepted == e.accepted && t.expired == e.expired && t.used == e.used && t.responses == e.responses
  }

  lemma VisitKnown(e: Engine, id: u32, reason: Reason, clock: Clock)
    requires Known(e)
    ensures var r := Visit(e, id, reason, clock); r.Some? ==> Known(r.value) && SameBooks(e, r.value)
  {
    if id in e.subs {
      hide Tick, Pair;
      var r := Tick(e.subs[id].state, reason, e.requests != [], clock.elapsed(id), clock.changed(id));
      if r.Done? {
        var t := WithState(e, id, r.state);
        assert Paired(t) == Paired(e);
        PairKnown(t, id);
        PairFrame(t, id);
        var paired := Pair(t, id);
        assert Paired(paired.(subs := paired.subs - {id})) == Paired(paired);
      }
    }
  }

  lemma {:induction false} VisitAllKeeps(e: Engine, ids: seq<u32>, reason: Reason, clock: Clock)
    requires AllDeliver(e) && AllSound(e) && AllConsecutive(e) && Known(e)
    ensures
      var r := VisitAll(e, ids, reason, clock);
      r.Some? ==>
        AllDeliver(r.value) && AllSound(r.value) && AllConsecutive(r.value) && Known(r.value) && SameBooks(e, r.value)
  {
    if ids != [] {
      hide Visit, AllDeliver, AllSound, AllConsecutive, Known;
      var front, id := ids[..|ids| - 1], ids[|ids| - 1];
      VisitAllKeeps(e, front, reason, clock);
      var r := VisitAll(e, front, reason, clock);
      if r.Some? {
        VisitKeeps(r.value, id, reason, clock);
        VisitKnown(r.value, id, reason, clock);
      }
    }
  }

  /** The invariant speaks only of what is paired, what waits and what was accepted. */
  lemma SamePairing(e: Engine, t: Engine)
    requires AllDeliver(e) && AllSound(e) && AllConsecutive(e) && Known(e) && InTurn(e)
    requires Paired(t) == Paired(e) && t.requests == e.requests && t.subs == e.subs
    requires t.accepted == e.accepted && t.expired == e.expired && t.used == e.used
    ensures AllDeliver(t) && AllSound(t) && AllConsecutive(t) && Known(t) && InTurn(t)
  {
    SameConsecutive(e, t);
    hide Laws.Sound, AllConsecutive;
    forall id | id in t.subs ensures Delivers(t, id) { assert Delivers(e, id); }
    assert Line(t) == Line(e);
  }

  lemma SameLine(e: Engine, t: Engine)
    requires InTurn(e) && Line(t) == Line(e) && t.accepted == e.accepted && t.expired == e.expired
    ensures InTurn(t)
  {
  }

  lemma TickAllKeeps(e: Engine, t: Engine, ids: seq<u32>, reason: Reason, clock: Clock)
    requires Valid(e) && Step(e, TickAll(ids, reason, clock), t)
    ensures Valid(t) && |t.retransmission| <= Limit(t.subs) && forall k <- t.retransmission :: k.0 in t.subs
  {
    var v := VisitAll(e, ids, reason, clock).value;
    VisitAllKeeps(e, ids, reason, clock);
    VisitAllKeepsLine(e, ids, reason, clock);
    hide AllDeliver, AllSound, AllConsecutive, Known, InTurn, VisitAll, Flush, Line;
    SameLine(e, v);
    FlushKeepsPaired(v);
    assert Paired(t) == Paired(Flush(v));
    SamePairing(v, t);
  }

  // ---------------------------------------------------------------- the other operations

  lemma AcceptKeeps(e: Engine, t: Engine)
    requires Valid(e) && Step(e, Accept, t)
    ensures Valid(t)
  {
    hide Laws.Sound, AllConsecutive;
    assert Paired(t) == Paired(e) && Line(t) == Line(e) + [e.accepted];
    SameConsecutive(e, t);
    forall i | 0 <= i < |Line(e)| ensures Line(e)[i] < e.accepted { assert Line(e)[i] in Line(e); }
    forall id | id in t.subs ensures Delivers(t, id) { assert Delivers(e, id); }
  }

  lemma {:induction false} WaitingMembers(requests: seq<nat>, gone: set<nat>)
    ensures forall k :: k in Waiting(requests, gone) <==> k in requests && k !in gone
  {
    if requests != [] {
      WaitingMembers(requests[..|requests| - 1], gone);
      assert requests == requests[..|requests| - 1] + [requests[|requests| - 1]];
    }
  }

  lemma {:induction false} WaitingRises(before: seq<nat>, requests: seq<nat>, gone: set<nat>)
    requires Rising(before + requests)
    ensures Rising(before + Waiting(requests, gone))
  {
    if requests != [] {
      var front, last := requests[..|requests| - 1], requests[|requests| - 1];
      assert before + requests == before + front + [last];
      var shorter := before + front;
      assert forall i, j :: 0 <= i < j < |shorter| ==> (before + requests)[i] == shorter[i] && (before + requests)[j] == shorter[j];
      WaitingRises(before, front, gone);
      var r := before + Waiting(front, gone);
      forall i | 0 <= i < |r| ensures r[i] < last {
        WaitingMembers(front, gone);
        Earlier(before, front, last, Waiting(front, gone), i);
      }
      if last in gone {
        assert Waiting(requests, gone) == Waiting(front, gone);
      } else {
        assert before + (Waiting(front, gone) + [last]) == r + [last];
      }
    }
  }

  lemma Earlier(before: seq<nat>, front: seq<nat>, last: nat, kept: seq<nat>, i: nat)
    requires Rising(before + front + [last]) && i < |before + kept|
    requires forall k :: k in kept ==> k in front
    ensures (before + kept)[i] < last
  {
    var all := before + front + [last];
    if i < |before| {
      assert all[i] == before[i];
    } else {
      var k := kept[i - |before|];
      assert k in kept;
      var j :| 0 <= j < |front| && front[j] == k;
      assert all[|before| + j] == k && (before + kept)[i] == k;
    }
    assert all[|before| + |front|] == last;
  }

  lemma ExpireKeeps(e: Engine, t: Engine, gone: set<nat>)
    requires Valid(e) && Step(e, Expire(gone), t)
    ensures Valid(t)
  {
    hide Laws.Sound, AllConsecutive;
    assert Paired(t) == Paired(e);
    SameConsecutive(e, t);
    forall id | id in t.subs ensures Delivers(t, id) { assert Delivers(e, id); }
    WaitingMembers(e.requests, gone);
    WaitingRises(Serials(Paired(e)), e.requests, gone);
    hide Waiting;
    ExpireInTurn(e, t, gone);
  }

  lemma ExpireInTurn(e: Engine, t: Engine, gone: set<nat>)
    requires InTurn(e) && Rising(Line(t)) && Paired(t) == Paired(e) && t.accepted == e.accepted
    requires forall k :: k in t.requests <==> k in e.requests && k !in gone
    requires t.expired == e.expired + set k <- e.requests | k in gone
    ensures InTurn(t)
  {
    var served := Serials(Paired(e));
    forall k: nat | k in e.requests ensures k !in served {
      Disjoint(served, e.requests, k);
    }
    assert forall k: nat :: k in Line(e) <==> k in served || k in e.requests;
    assert forall k: nat :: k in Line(t) <==> k in served || k in t.requests;
  }

  lemma Disjoint(a: seq<nat>, b: seq<nat>, k: nat)
    requires Rising(a + b) && k in b
    ensures k !in a
  {
    var j :| 0 <= j < |b| && b[j] == k;
    assert (a + b)[|a| + j] == k;
    assert forall i :: 0 <= i < |a| ==> (a + b)[i] == a[i];
  }

  lemma {:induction false} NoMessages(entries: seq<Entry>, id: u32)
    requires forall i :: 0 <= i < |entries| ==> entries[i].sub != id
    ensures MessagesOf(entries, id) == []
  {
    if entries != [] { NoMessages(entries[..|entries| - 1], id); }
  }

  lemma InsertDelivers(e: Engine, t: Engine, id: u32, m: Member)
    requires AllDeliver(e) && AllSound(e) && Known(e) && id !in e.used
    requires t == e.(subs := e.subs[id := m], used := e.used + {id})
    requires Laws.Sound(m.state) && m.state.queue == [] && m.state.queued == []
    ensures AllDeliver(t) && AllSound(t) && Known(t)
  {
    hide Laws.Sound;
    assert Paired(t) == Paired(e);
    NoMessages(Paired(e), id);
    forall other | other in t.subs ensures Delivers(t, other) {
      if other != id { assert Delivers(e, other); }
    }
  }

  lemma InsertKeeps(e: Engine, t: Engine, op: Operation)
    requires op.Insert? && Valid(e) && Allowed(e, op) && Step(e, op, t)
    ensures Valid(t)
  {
    var s := Start(op.maxLifetime, op.maxKeepAlive, op.enabled);
    StartIsSound(op.maxLifetime, op.maxKeepAlive, op.enabled);
    assert Line(t) == Line(e) && Paired(t) == Paired(e);
    hide AllDeliver, AllSound, AllConsecutive, Known, InTurn, Laws.Sound, Line;
    SameConsecutive(e, t);
    InsertDelivers(e, t, op.id, Member(op.priority, s));
    SameLine(e, t);
  }

  lemma StartIsSound(maxLifetime: u32, maxKeepAlive: u32, enabled: bool)
    requires maxLifetime >= 2 && maxKeepAlive >= 1
    ensures Laws.Sound(Start(maxLifetime, maxKeepAlive, enabled))
  {
  }

  lemma RemoveKeeps(e: Engine, t: Engine, id: u32)
    requires Valid(e) && Step(e, Remove(id), t)
    ensures Valid(t)
  {
    hide Laws.Sound, AllConsecutive;
    assert Paired(t) == Paired(e) && Line(t) == Line(e);
    SameConsecutive(e, t);
    forall other | other in t.subs ensures Delivers(t, other) { assert Delivers(e, other); }
  }

  lemma ChangeKeeps(e: Engine, id: u32, event: Laws.Event)
    requires Valid(e) && id in e.subs && Laws.Revised(event) && !event.TickEvent? && !event.Take?
    ensures var r := Laws.Step(e.subs[id].state, event); r.Done? && Valid(WithState(e, id, r.state))
  {
    assert Laws.Sound(e.subs[id].state);
    hide Laws.Sound, Laws.Step, Laws.Revised, Grows, InTurn, Line, Known, AllDeliver, AllSound, AllConsecutive, WithState;
    ChangeGrows(e.subs[id].state, event);
    var after := Laws.Step(e.subs[id].state, event).state;
    TickDelivers(e, id, after);
    WithStatePairs(e, id, after);
    SameConsecutive(e, WithState(e, id, after));
    WithStateKnown(e, id, after);
    SameLine(e, WithState(e, id, after));
  }

  lemma WithStateKnown(e: Engine, id: u32, s: State)
    requires id in e.subs && Known(e)
    ensures
      var t := WithState(e, id, s);
      && Known(t) && Line(t) == Line(e)
      && t.transmission == e.transmission && t.accepted == e.accepted && t.expired == e.expired
  {
    assert Paired(WithState(e, id, s)) == Paired(e);
  }

  lemma ChangeGrows(s: State, event: Laws.Event)
    requires Laws.Sound(s) && Laws.Revised(event) && !event.TickEvent? && !event.Take?
    ensures var r := Laws.Step(s, event); r.Done? && Laws.Sound(r.state) && Grows(s, r.state)
  {
    hide Laws.Sound;
    Laws.StepKeepsSound(s, event);
  }

  lemma PrioritizeKeeps(e: Engine, id: u32, priority: u8)
    requires Valid(e) && id in e.subs
    ensures Valid(e.(subs := e.subs[id := e.subs[id].(priority := priority)]))
  {
    hide Laws.Sound, AllConsecutive;
    var t := e.(subs := e.subs[id := e.subs[id].(priority := priority)]);
    assert Paired(t) == Paired(e) && Line(t) == Line(e);
    SameConsecutive(e, t);
    forall other | other in t.subs ensures Delivers(t, other) { assert Delivers(e, other); }
  }

  lemma StepKeepsValid(e: Engine, op: Operation, t: Engine)
    requires Valid(e) && Allowed(e, op) && Step(e, op, t)
    ensures Valid(t)
  {
    match op
    case TickAll(ids, reason, clock) => TickAllKeeps(e, t, ids, reason, clock);
    case Accept => AcceptKeeps(e, t);
    case Expire(gone) => ExpireKeeps(e, t, gone);
    case Insert(_, _, _, _, _) => InsertKeeps(e, t, op);
    case Remove(id) => RemoveKeeps(e, t, id);
    case Acknowledge(_) =>
      hide AllDeliver, AllSound, AllConsecutive, Known, InTurn;
      assert Paired(t) == Paired(e);
      SamePairing(e, t);
    case Change(id, event) => if id in e.subs { ChangeKeeps(e, id, event); }
    case Prioritize(id, priority) => if id in e.subs { PrioritizeKeeps(e, id, priority); }
  }

  // ---------------------------------------------------------------- runs

  ghost predicate IsRun(states: seq<Engine>, ops: seq<Operation>) {
    && |states| == |ops| + 1
    && states[0] == EMPTY
    && forall i :: 0 <= i < |ops| ==> Allowed(states[i], ops[i]) && Step(states[i], ops[i], states[i + 1])
  }

  lemma {:induction false} EveryRunIsValid(states: seq<Engine>, ops: seq<Operation>, k: nat)
    requires IsRun(states, ops) && k < |states|
    ensures Valid(states[k])
    decreases k
  {
    if k > 0 {
      EveryRunIsValid(states, ops, k - 1);
      assert Step(states[k - 1], ops[k - 1], states[k - 1 + 1]);
      StepKeepsValid(states[k - 1], ops[k - 1], states[k]);
    }
  }

  /** In every run, the responses of every subscription that ever was carry consecutive numbers from one, wrapping to
      one: none is skipped, repeated or out of order. A status change is the last of them. */
  lemma ResponsesAreConsecutive(states: seq<Engine>, ops: seq<Operation>, k: nat, id: u32, i: nat)
    requires IsRun(states, ops) && k < |states|
    requires i < |MessagesOf(Entries(states[k].responses), id)|
    ensures
      var sent := MessagesOf(Entries(states[k].responses), id);
      sent[i].number == HandleAt(1, i) && (sent[i].kind.StatusChange? ==> i == |sent| - 1)
  {
    EveryRunIsValid(states, ops, k);
    var e := states[k];
    assert Paired(e) == Entries(e.responses);
    assert Consecutive(MessagesOf(Paired(e), id));
  }

  /** In every run, requests are answered in the order in which they were accepted, each at most once; and each accepted
      request is answered or waits, or it has expired and then neither. */
  lemma RequestsAreAnsweredInTurn(states: seq<Engine>, ops: seq<Operation>, k: nat)
    requires IsRun(states, ops) && k < |states|
    ensures
      var e := states[k];
      var answered := Serials(Entries(e.responses));
      && Rising(answered + e.requests)
      && (forall r: nat :: r < e.accepted <==> r in answered || r in e.requests || r in e.expired)
      && (forall r <- e.expired :: r !in answered && r !in e.requests)
  {
    EveryRunIsValid(states, ops, k);
    var e := states[k];
    assert Paired(e) == Entries(e.responses);
    assert forall r: nat :: r in Line(e) <==> r in Serials(Entries(e.responses)) || r in e.requests;
  }
}
