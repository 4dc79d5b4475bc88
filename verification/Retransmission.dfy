/** Which unacknowledged messages are purged: the oldest of each subscription, but not the oldest of all
    (lib/src/server/subscriptions/subscriptions.rs). */
module Retransmission {
  import opened Prelude
  import opened MessageQueues
  import MessageRuns
  import opened ServerSubscription
  import Laws = ServerSubscriptionLaws
  import opened PublishEngine
  import opened PublishRuns
  import opened PublishOrder

  // ---------------------------------------------------------------- within one subscription

  /** What a tick has to retransmit before it cleans up. */
  function Unclean(e: Engine, ids: seq<u32>, reason: Reason, clock: Clock): map<(u32, u32), Message>
    requires VisitAll(e, ids, reason, clock).Some?
  {
    Flush(VisitAll(e, ids, reason, clock).value).retransmission
  }

  /** In every run, of the messages of one subscription in one cycle of numbers an older one is never kept when a newer
      one is purged. */
  lemma OlderGoesFirst(states: seq<Engine>, ops: seq<Operation>, k: nat, id: u32, i: nat, j: nat)
    requires IsRun(states, ops) && k < |ops| && ops[k].TickAll?
    requires i < j < |MessagesOf(Entries(states[k + 1].responses), id)| && MessageRuns.CycleOf(1, i) == MessageRuns.CycleOf(1, j)
    ensures VisitAll(states[k], ops[k].ids, ops[k].reason, ops[k].clock).Some?
    ensures
      var sent, t := MessagesOf(Entries(states[k + 1].responses), id), states[k + 1];
      && (id, sent[i].number) in t.retransmission
      && (id, sent[j].number) in Unclean(states[k], ops[k].ids, ops[k].reason, ops[k].clock)
      ==> (id, sent[j].number) in t.retransmission
  {
    var e, op, t := states[k], ops[k], states[k + 1];
    assert Step(e, op, t);
    hide IsRun, VisitAll, Flush, HandleAt, MessageRuns.CycleOf;
    var sent := MessagesOf(Entries(t.responses), id);
    ResponsesAreConsecutive(states, ops, k + 1, id, i);
    ResponsesAreConsecutive(states, ops, k + 1, id, j);
    MessageRuns.WithinCycle(1, i, j);
    var queue := Unclean(e, op.ids, op.reason, op.clock);
    assert Cleaned(queue, t.subs, t.retransmission);
    hide MessagesOf, Entries;
    if (id, sent[i].number) in t.retransmission && (id, sent[j].number) in queue {
      KeptAboveKept(queue, t.subs, t.retransmission, (id, sent[i].number), (id, sent[j].number));
    }
  }

  lemma KeptAboveKept(queue: map<(u32, u32), Message>, subs: map<u32, Member>, left: map<(u32, u32), Message>,
                      low: (u32, u32), high: (u32, u32))
    requires Cleaned(queue, subs, left) && low in left && high in queue && low.0 == high.0 && low.1 < high.1
    ensures high in left
  {
    assert low in Current(queue, subs) && high in Current(queue, subs);
  }

  // ---------------------------------------------------------------- across subscriptions

  type Key = (u32, u32)

  /** The greatest keys are kept. */
  predicate KeepsGreatest(current: set<Key>, left: set<Key>) {
    left <= current && forall k, l :: k in current && k !in left && l in left ==> Less(k, l)
  }

  /** What is purged is older than what is kept. */
  predicate PurgesOldest(current: set<Key>, left: set<Key>, age: Key -> int) {
    forall k, l :: k in current && k !in left && l in left ==> age(k) < age(l)
  }

  /** Cleaning up keeps the greatest keys. */
  lemma CleaningKeepsGreatest(queue: map<Key, Message>, subs: map<u32, Member>, left: map<Key, Message>)
    requires Cleaned(queue, subs, left)
    ensures KeepsGreatest(Current(queue, subs).Keys, left.Keys)
  {
  }

  /** Keeping the greatest keys purges the oldest messages, however many are kept, exactly when messages with smaller
      keys were sent earlier: all those of one subscription before all those of one with a greater id. */
  lemma PurgesOldestIff(current: set<Key>, age: Key -> int)
    ensures (forall left :: KeepsGreatest(current, left) ==> PurgesOldest(current, left, age)) <==>
            forall k, l :: k in current && l in current && Less(k, l) ==> age(k) < age(l)
  {
    if forall left :: KeepsGreatest(current, left) ==> PurgesOldest(current, left, age) {
      forall k, l | k in current && l in current && Less(k, l) ensures age(k) < age(l) {
        var left := set m <- current | Less(k, m);
        assert KeepsGreatest(current, left) && k !in left && l in left;
      }
    }
  }

  /** Time passes for one subscription, and its items report or not. */
  function For(id: u32, changed: bool): Clock { Clock(x => x == id, x => x == id && changed) }

  /** The second subscription after `k` notifications. */
  function Sender(k: nat): State
    requires k < MAX_U32
  {
    if k == 0 then NORMAL
    else State(Core(Normal, 9, 10, 3, 3, true, true), k + 1, k, [], Sent(k))
  }

  function Sent(k: nat): seq<Message>
    requires k < MAX_U32
  {
    seq(k, i requires 0 <= i < k => Message(i + 1, Kind.Data))
  }

  function Unacknowledged(k: nat): map<(u32, u32), Message>
    requires k < MAX_U32
  {
    if k == 0 then map[] else Unacknowledged(k - 1)[(2, k) := Message(k, Kind.Data)]
  }

  function Answers(k: nat): seq<Response>
    requires k < MAX_U32
  {
    seq(k, i requires 0 <= i < k => Response(Entry(i, 2, Message(i + 1, Kind.Data)), false))
  }

  /** A subscription that waits and one of lower priority that has sent `k` notifications, with the given requests
      waiting. */
  function Busy(k: nat, requests: seq<nat>): Engine
    requires k < MAX_U32
  {
    Engine(k + |requests|, requests, {}, map[1 := Member(255, NORMAL), 2 := Member(0, Sender(k))], {1, 2}, [],
           Unacknowledged(k), Answers(k))
  }

  lemma {:induction false} UnacknowledgedIs(k: nat)
    requires k < MAX_U32
    ensures |Unacknowledged(k)| == k && forall key :: key in Unacknowledged(k) <==> key.0 == 2 && 1 <= key.1 <= k
  {
    if k > 0 {
      UnacknowledgedIs(k - 1);
      assert (2, k) !in Unacknowledged(k - 1);
      assert Unacknowledged(k).Keys == Unacknowledged(k - 1).Keys + {(2, k)};
    }
  }

  /** A notification is queued. */
  lemma Sends(k: nat)
    requires k + 1 < MAX_U32
    ensures Tick(Sender(k), TickTimerFired, true, true, true) ==
            Done(Sender(k + 1).(queue := [Message(k + 1, Kind.Data)]))
  {
    var s := Sender(k);
    RowIs(6, s.core, TickTimerFired, InputsOf(s, TickTimerFired, true, true, true));
    hide Row;
    assert Sent(k + 1) == Sent(k) + [Message(k + 1, Kind.Data)];
    assert Sent(0) == [];
  }

  /** A request arrives, or no interval is over: nothing happens. */
  lemma Rests(k: nat, waiting: bool, elapsed: bool, changed: bool)
    requires k < MAX_U32
    ensures Tick(Sender(k), ReceivePublishRequest, true, elapsed, changed) == Done(Sender(k))
    ensures Tick(Sender(k), TickTimerFired, waiting, false, changed) == Done(Sender(k))
  {
    var s := Sender(k);
    RowIs(4, s.core, ReceivePublishRequest, InputsOf(s, ReceivePublishRequest, true, elapsed, changed));
    assert Row(s.core, TickTimerFired, InputsOf(s, TickTimerFired, waiting, false, changed)) == 0;
    hide Row;
  }

  lemma SenderIsQuiet(k: nat)
    requires k < MAX_U32
    ensures Sender(k).queue == [] && !Sender(k).core.phase.Closed? && NORMAL == Sender(0)
  {
  }

  lemma SameSender(k: nat, requests: seq<nat>)
    requires k < MAX_U32
    ensures WithState(Busy(k, requests), 1, NORMAL) == Busy(k, requests)
    ensures WithState(Busy(k, requests), 2, Sender(k)) == Busy(k, requests)
  {
  }

  /** As long as there is room, nothing is purged. */
  lemma NothingPurged(k: nat, subs: map<u32, Member>)
    requires k <= 8 && |subs| == 2 && 2 in subs
    ensures Cleaned(Unacknowledged(k), subs, Unacknowledged(k))
  {
    UnacknowledgedIs(k);
    hide Unacknowledged;
    assert Current(Unacknowledged(k), subs) == Unacknowledged(k);
  }

  lemma BusyHasTwo(k: nat, requests: seq<nat>)
    requires k < MAX_U32
    ensures |Busy(k, requests).subs| == 2 && Flush(Busy(k, requests)) == Busy(k, requests)
  {
    assert Busy(k, requests).subs.Keys == {1, 2};
  }

  /** A step of the engine, from its parts. */
  lemma TickStep(e: Engine, reason: Reason, clock: Clock, v: Engine, t: Engine)
    requires VisitAll(e, [2, 1], reason, clock) == Some(v) && t == Flush(v).(retransmission := t.retransmission)
    requires Cleaned(Flush(v).retransmission, t.subs, t.retransmission)
    ensures Step(e, TickAll([2, 1], reason, clock), t)
  {
    hide VisitAll, Flush, Cleaned;
  }

  lemma Accepts(k: nat)
    requires k < MAX_U32
    ensures Step(Busy(k, []), Accept, Busy(k, [k]))
  {
    hide Sender, NORMAL, Unacknowledged, Answers;
    assert [] + [k] == [k];
  }

  /** The arrival of a request changes nothing else. */
  lemma Arrives(k: nat, clock: Clock)
    requires k <= 8
    ensures Step(Busy(k, [k]), TickAll([2, 1], ReceivePublishRequest, clock), Busy(k, [k]))
  {
    hide Tick, Visit, VisitAll, Flush, Cleaned, WithState, Sender, NORMAL, Unacknowledged, Answers, Step;
    var e := Busy(k, [k]);
    SenderIsQuiet(k);
    SenderIsQuiet(0);
    SameSender(k, [k]);
    BusyHasTwo(k, [k]);
    NothingPurged(k, e.subs);
    Rests(k, true, clock.elapsed(2), clock.changed(2));
    Rests(0, true, clock.elapsed(1), clock.changed(1));
    QuietVisit(e, 2, ReceivePublishRequest, clock, Sender(k));
    QuietVisit(e, 1, ReceivePublishRequest, clock, NORMAL);
    TwoVisits(e, 2, 1, ReceivePublishRequest, clock, e);
    TickStep(e, ReceivePublishRequest, clock, e, e);
  }

  // ---------------------------------------------------------------- rounds

  /** The notification takes the request. */
  function Sending(k: nat): Engine
    requires k + 1 < MAX_U32
  {
    Busy(k, [k]).(requests := [], transmission := [Entry(k, 2, Message(k + 1, Kind.Data))],
                  subs := map[1 := Member(255, NORMAL), 2 := Member(0, Sender(k + 1))])
  }

  lemma SenderVisit(k: nat)
    requires k + 1 < MAX_U32
    ensures Visit(Busy(k, [k]), 2, TickTimerFired, For(2, true)) == Some(Sending(k))
  {
    hide Tick, Visit, Sender, NORMAL, Unacknowledged, Answers;
    var e, m := Busy(k, [k]), Message(k + 1, Kind.Data);
    Sends(k);
    SenderIsQuiet(k + 1);
    var s := Sender(k + 1).(queue := [m]);
    OneMessageVisit(e, 2, TickTimerFired, For(2, true), s);
    assert s.(queue := []) == Sender(k + 1);
    assert e.subs[2 := Member(0, Sender(k + 1))] == Sending(k).subs;
    assert [] + [Entry(k, 2, m)] == [Entry(k, 2, m)];
  }

  lemma OtherVisit(k: nat)
    requires k + 1 < MAX_U32
    ensures Visit(Sending(k), 1, TickTimerFired, For(2, true)) == Some(Sending(k))
  {
    hide Tick, Visit, Sender, NORMAL, Unacknowledged, Answers;
    SenderIsQuiet(0);
    Rests(0, false, false, false);
    QuietVisit(Sending(k), 1, TickTimerFired, For(2, true), NORMAL);
    assert WithState(Sending(k), 1, NORMAL).subs == Sending(k).subs;
  }

  lemma SendingFlushes(k: nat)
    requires k + 1 < MAX_U32
    ensures Flush(Sending(k)) == Busy(k + 1, [])
  {
    hide Sender, NORMAL;
    var v, m := Sending(k), Message(k + 1, Kind.Data);
    var x := Entry(k, 2, m);
    assert v.transmission[0] == x && v.transmission[1..] == [];
    var f := v.(transmission := [], retransmission := Unacknowledged(k)[(2, k + 1) := m],
                responses := Answers(k) + [Response(x, false)]);
    assert !HasMore([], 2);
    assert Answers(k + 1) == Answers(k) + [Response(x, false)];
    assert Flush(f) == f;
    assert f == Busy(k + 1, []);
  }

  /** One interval of the second subscription: a notification is sent and kept for retransmission. */
  lemma Round(k: nat)
    requires k + 1 <= 8
    ensures Step(Busy(k, [k]), TickAll([2, 1], TickTimerFired, For(2, true)), Busy(k + 1, []))
  {
    hide Visit, VisitAll, Flush, Cleaned, Busy, Sending, Unacknowledged, Step;
    SenderVisit(k);
    OtherVisit(k);
    TwoVisits(Busy(k, [k]), 2, 1, TickTimerFired, For(2, true), Sending(k));
    SendingFlushes(k);
    BusyHasTwo(k + 1, []);
    BusyKeeps(k + 1);
    NothingPurged(k + 1, Busy(k + 1, []).subs);
    TickStep(Busy(k, [k]), TickTimerFired, For(2, true), Sending(k), Busy(k + 1, []));
  }

  lemma BusyKeeps(k: nat)
    requires k < MAX_U32
    ensures Busy(k, []).retransmission == Unacknowledged(k) && 2 in Busy(k, []).subs
  {
  }

  // ---------------------------------------------------------------- the run

  lemma Extends(states: seq<Engine>, ops: seq<Operation>, op: Operation, t: Engine)
    requires IsRun(states, ops) && Allowed(states[|ops|], op) && Step(states[|ops|], op, t)
    ensures IsRun(states + [t], ops + [op]) && (states + [t])[|ops + [op]|] == t
  {
    hide Allowed, Step;
  }

  /** Both subscriptions are inserted. */
  function Inserted(n: nat): Engine {
    if n == 0 then EMPTY
    else if n == 1 then Engine(0, [], {}, map[1 := Member(255, NEW)], {1}, [], map[], [])
    else Engine(0, [], {}, map[1 := Member(255, NEW), 2 := Member(0, NEW)], {1, 2}, [], map[], [])
  }

  lemma BothEnter()
    ensures Allowed(Inserted(0), Insert(1, 255, 10, 3, true)) && Step(Inserted(0), Insert(1, 255, 10, 3, true), Inserted(1))
    ensures Allowed(Inserted(1), Insert(2, 0, 10, 3, true)) && Step(Inserted(1), Insert(2, 0, 10, 3, true), Inserted(2))
  {
  }

  lemma BothAreCreated()
    ensures Step(Inserted(2), TickAll([2, 1], TickTimerFired, CALM), Busy(0, []))
  {
    Laws.Created(10, 3, true, false);
    assert Tick(NEW, TickTimerFired, false, true, false) == Done(NORMAL);
    SenderIsQuiet(0);
    hide Tick, Visit, VisitAll, NEW, NORMAL, Flush, Cleaned, Step;
    var e := Inserted(2);
    var half := e.(subs := map[1 := Member(255, NEW), 2 := Member(0, NORMAL)]);
    QuietVisit(e, 2, TickTimerFired, CALM, NORMAL);
    assert WithState(e, 2, NORMAL).subs == half.subs;
    QuietVisit(half, 1, TickTimerFired, CALM, NORMAL);
    assert WithState(half, 1, NORMAL).subs == Busy(0, []).subs && Answers(0) == [];
    TwoVisits(e, 2, 1, TickTimerFired, CALM, half);
    NothingToFlush(Busy(0, []));
    TickStep(e, TickTimerFired, CALM, Busy(0, []), Busy(0, []));
  }

  lemma Beginning() returns (states: seq<Engine>, ops: seq<Operation>)
    ensures IsRun(states, ops) && states[|ops|] == Busy(0, [])
  {
    assert IsRun([EMPTY], []) && Inserted(0) == EMPTY;
    BothEnter();
    BothAreCreated();
    hide Step, IsRun, Busy, Inserted, EMPTY, CALM;
    states, ops := [EMPTY], [];
    Extends(states, ops, Insert(1, 255, 10, 3, true), Inserted(1));
    states, ops := states + [Inserted(1)], ops + [Insert(1, 255, 10, 3, true)];
    Extends(states, ops, Insert(2, 0, 10, 3, true), Inserted(2));
    states, ops := states + [Inserted(2)], ops + [Insert(2, 0, 10, 3, true)];
    var create := TickAll([2, 1], TickTimerFired, CALM);
    Extends(states, ops, create, Busy(0, []));
    states, ops := states + [Busy(0, [])], ops + [create];
  }

  /** A request arrives. */
  lemma Arrival(k: nat, clock: Clock, states: seq<Engine>, ops: seq<Operation>)
      returns (states': seq<Engine>, ops': seq<Operation>)
    requires k <= 8 && IsRun(states, ops) && states[|ops|] == Busy(k, [])
    ensures IsRun(states', ops') && states'[|ops'|] == Busy(k, [k])
  {
    hide Step, IsRun, Busy;
    Accepts(k);
    Arrives(k, clock);
    Extends(states, ops, Accept, Busy(k, [k]));
    states', ops' := states + [Busy(k, [k])], ops + [Accept];
    var tick := TickAll([2, 1], ReceivePublishRequest, clock);
    Extends(states', ops', tick, Busy(k, [k]));
    states', ops' := states' + [Busy(k, [k])], ops' + [tick];
  }

  lemma {:induction false} Rounds(k: nat) returns (states: seq<Engine>, ops: seq<Operation>)
    requires k <= 8
    ensures IsRun(states, ops) && states[|ops|] == Busy(k, [])
  {
    hide Step, IsRun, Busy;
    if k == 0 {
      states, ops := Beginning();
    } else {
      states, ops := Rounds(k - 1);
      states, ops := Arrival(k - 1, For(2, true), states, ops);
      Round(k - 1);
      var tick := TickAll([2, 1], TickTimerFired, For(2, true));
      Extends(states, ops, tick, Busy(k, []));
      states, ops := states + [Busy(k, [])], ops + [tick];
    }
  }

  /** The first subscription sends its first message, and eight of the other wait for acknowledgement. */
  function Purging(): Engine {
    Busy(8, [8]).(requests := [], transmission := [Entry(8, 1, Message(1, Alive))],
                  subs := map[1 := Member(255, Laws.Counted(10, 3, 9, 3, Normal)), 2 := Member(0, Sender(8))])
  }

  lemma FirstMessage(alive: State)
    requires alive == Laws.Counted(10, 3, 9, 3, Normal)
    ensures Tick(NORMAL, TickTimerFired, true, true, false) == Done(alive.(queue := [Message(1, Alive)]))
    ensures alive.queue == [] && !alive.core.phase.Closed?
  {
    hide Tick;
    Laws.FirstKeepAlive(10, 3);
  }

  lemma LastVisit(alive: State)
    requires alive == Laws.Counted(10, 3, 9, 3, Normal)
    ensures Visit(Busy(8, [8]), 1, TickTimerFired, For(1, false)) == Some(Purging())
  {
    hide Tick, Visit, NORMAL, Sender, Unacknowledged, Answers, Laws.Counted;
    var e := Busy(8, [8]);
    FirstMessage(alive);
    var s := alive.(queue := [Message(1, Alive)]);
    OneMessageVisit(e, 1, TickTimerFired, For(1, false), s);
    assert s.(queue := []) == alive;
    assert e.subs[1 := Member(255, alive)] == Purging().subs;
    assert [] + [Entry(8, 1, Message(1, Alive))] == [Entry(8, 1, Message(1, Alive))];
  }

  lemma LastVisits()
    ensures VisitAll(Busy(8, [8]), [2, 1], TickTimerFired, For(1, false)) == Some(Purging())
  {
    hide Tick, Visit, VisitAll, Sender, WithState;
    var e := Busy(8, [8]);
    SenderIsQuiet(8);
    SameSender(8, [8]);
    Rests(8, true, false, false);
    QuietVisit(e, 2, TickTimerFired, For(1, false), Sender(8));
    TwoVisits(e, 2, 1, TickTimerFired, For(1, false), e);
    LastVisit(Laws.Counted(10, 3, 9, 3, Normal));
  }

  lemma KeysMissing(small: set<(u32, u32)>, large: set<(u32, u32)>)
    requires small <= large && |small| < |large|
    ensures exists key :: key in large && key !in small
  {
    var rest := large - small;
    assert |rest| == |large| - |small| by { assert large * small == small; }
    var key :| key in rest;
    assert key in large && key !in small;
  }

  lemma SmallerMisses(small: map<(u32, u32), Message>, large: map<(u32, u32), Message>)
    requires small.Keys <= large.Keys && |small| < |large|
    ensures exists key :: key in large && key !in small
  {
    KeysMissing(small.Keys, large.Keys);
  }

  /** Cleaning up takes the message of the first subscription, whatever else it could take. */
  lemma NewestIsPurged(subs: map<u32, Member>, m: Message)
    requires |subs| == 2 && 1 in subs && 2 in subs
    ensures
      var queue := Unacknowledged(8)[(1, 1) := m];
      && Cleaned(queue, subs, Unacknowledged(8))
      && forall left :: Cleaned(queue, subs, left) ==> (1, 1) !in left
  {
    var queue := Unacknowledged(8)[(1, 1) := m];
    UnacknowledgedIs(8);
    hide Unacknowledged;
    assert queue.Keys == Unacknowledged(8).Keys + {(1, 1)} && |queue| == 9;
    assert Current(queue, subs) == queue;
    forall left | Cleaned(queue, subs, left) ensures (1, 1) !in left {
      SmallerMisses(left, queue);
    }
  }

  lemma PurgingFlushes(t: Engine)
    requires t == Purging().(transmission := [], responses := Answers(8) + [Response(Entry(8, 1, Message(1, Alive)), false)])
    ensures Flush(Purging()) == t.(retransmission := Unacknowledged(8)[(1, 1) := Message(1, Alive)])
  {
    hide Sender, NORMAL, Unacknowledged, Answers, Laws.Counted;
    var v, x := Purging(), Entry(8, 1, Message(1, Alive));
    assert v.transmission[0] == x && v.transmission[1..] == [] && !HasMore([], 1);
    var f := t.(retransmission := Unacknowledged(8)[(1, 1) := Message(1, Alive)]);
    assert Flush(f) == f;
  }

  /** A run in which the message sent last is purged at once, while eight older ones are kept. */
  lemma JustSentIsPurged() returns (states: seq<Engine>, ops: seq<Operation>)
    ensures IsRun(states, ops) && ops != [] && ops[|ops| - 1].TickAll?
    ensures
      var t := states[|ops|];
      && t.responses == Answers(8) + [Response(Entry(8, 1, Message(1, Alive)), false)]
      && 1 in t.subs && t.retransmission == Unacknowledged(8) && (1, 1) !in t.retransmission
  {
    var t := Purging().(transmission := [], responses := Answers(8) + [Response(Entry(8, 1, Message(1, Alive)), false)]);
    var tick := TickAll([2, 1], TickTimerFired, For(1, false));
    assert t.retransmission == Unacknowledged(8) && t.subs.Keys == {1, 2} && |t.subs| == 2;
    UnacknowledgedIs(8);
    hide VisitAll, Flush, Cleaned, Busy, Unacknowledged, Answers, IsRun, Step;
    LastVisits();
    PurgingFlushes(t);
    NewestIsPurged(t.subs, Message(1, Alive));
    TickStep(Busy(8, [8]), TickTimerFired, For(1, false), Purging(), t);
    states, ops := Rounds(8);
    states, ops := Arrival(8, For(1, false), states, ops);
    Extends(states, ops, tick, t);
    states, ops := states + [t], ops + [tick];
  }
}
