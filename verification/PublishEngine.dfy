/** The publish engine of a server session: publish requests are paired with the notification messages of its
    subscriptions (lib/src/server/subscriptions/subscriptions.rs). */
module PublishEngine {
  import opened Prelude
  import opened MessageQueues
  import opened ServerSubscription
  import opened ServerSubscriptionLaws

  datatype Member = Member(priority: u8, state: State)

  /** A request is known by its position among all that were accepted. */
  datatype Entry = Entry(request: nat, sub: u32, message: Message)

  datatype Response = Response(entry: Entry, more: bool)

  /** Queues are kept oldest first. `used` holds every subscription id so far. */
  datatype Engine = Engine(
    accepted: nat,
    requests: seq<nat>,
    expired: set<nat>,
    subs: map<u32, Member>,
    used: set<u32>,
    transmission: seq<Entry>,
    retransmission: map<(u32, u32), Message>,
    responses: seq<Response>)

  /** What the clock and the monitored items of each subscription answer during one tick. */
  datatype Clock = Clock(elapsed: u32 -> bool, changed: u32 -> bool)

  // ---------------------------------------------------------------- one tick

  /** The oldest message of a subscription takes the oldest request. */
  function PairOnce(e: Engine, id: u32): (r: Engine)
    requires id in e.subs && e.requests != [] && e.subs[id].state.queue != []
    ensures r.subs.Keys == e.subs.Keys && |r.requests| < |e.requests|
  {
    var m := e.subs[id];
    e.(requests := e.requests[1..],
       transmission := e.transmission + [Entry(e.requests[0], id, m.state.queue[0])],
       subs := e.subs[id := m.(state := m.state.(queue := m.state.queue[1..]))])
  }

  /** While there are both. */
  function Pair(e: Engine, id: u32): (r: Engine)
    requires id in e.subs
    ensures r.subs.Keys == e.subs.Keys
    decreases |e.requests|
  {
    if e.requests == [] || e.subs[id].state.queue == [] then e else Pair(PairOnce(e, id), id)
  }

  function WithState(e: Engine, id: u32, s: State): (r: Engine)
    requires id in e.subs
    ensures r.subs.Keys == e.subs.Keys
  {
    e.(subs := e.subs[id := e.subs[id].(state := s)])
  }

  /** A subscription leaves when it is closed and has nothing more to say. */
  function Finish(e: Engine, id: u32): Engine
    requires id in e.subs
  {
    var paired := Pair(e, id);
    var s := paired.subs[id].state;
    if s.core.phase.Closed? && s.queue == [] then paired.(subs := paired.subs - {id}) else paired
  }

  /** One subscription ticks and is paired with requests. */
  function Visit(e: Engine, id: u32, reason: Reason, clock: Clock): Option<Engine> {
    if id !in e.subs then None
    else
      var r := Tick(e.subs[id].state, reason, e.requests != [], clock.elapsed(id), clock.changed(id));
      if r.Panic? then None else Some(Finish(WithState(e, id, r.state), id))
  }

  function VisitAll(e: Engine, ids: seq<u32>, reason: Reason, clock: Clock): Option<Engine> {
    if ids == [] then Some(e)
    else
      var r := VisitAll(e, ids[..|ids| - 1], reason, clock);
      if r.None? then None else Visit(r.value, ids[|ids| - 1], reason, clock)
  }

  lemma {:induction false} PairKeepsCore(e: Engine, id: u32)
    requires id in e.subs
    ensures Pair(e, id).subs[id].state.core == e.subs[id].state.core && Pair(e, id).subs[id].priority == e.subs[id].priority
    decreases |e.requests|
  {
    if e.requests != [] && e.subs[id].state.queue != [] { PairKeepsCore(PairOnce(e, id), id); }
  }

  /** A subscription leaves at its visit exactly when that finds or makes it closed, with nothing left to send. */
  lemma LeavesIff(e: Engine, id: u32, reason: Reason, clock: Clock)
    requires id in e.subs && Visit(e, id, reason, clock).Some?
    ensures
      var r := Tick(e.subs[id].state, reason, e.requests != [], clock.elapsed(id), clock.changed(id));
      && r.Done?
      && (id !in Visit(e, id, reason, clock).value.subs <==>
          r.state.core.phase.Closed? && |r.state.queue| <= |e.requests|)
  {
    hide Tick, Pair;
    var r := Tick(e.subs[id].state, reason, e.requests != [], clock.elapsed(id), clock.changed(id));
    PairKeepsCore(WithState(e, id, r.state), id);
    PairLeaves(WithState(e, id, r.state), id);
  }

  /** Pairing ends when requests or messages do. */
  lemma {:induction false} PairLeaves(e: Engine, id: u32)
    requires id in e.subs
    ensures Pair(e, id).subs[id].state.queue == [] <==> |e.subs[id].state.queue| <= |e.requests|
    decreases |e.requests|
  {
    if e.requests != [] && e.subs[id].state.queue != [] { PairLeaves(PairOnce(e, id), id); }
  }

  lemma VisitAllNext(e: Engine, ids: seq<u32>, id: u32, reason: Reason, clock: Clock)
    ensures VisitAll(e, ids + [id], reason, clock) ==
            var r := VisitAll(e, ids, reason, clock);
            if r.None? then None else Visit(r.value, id, reason, clock)
  {
    assert (ids + [id])[..|ids|] == ids;
  }

  predicate HasMore(entries: seq<Entry>, id: u32) { exists i :: 0 <= i < |entries| && entries[i].sub == id }

  /** Transmissions become responses, oldest first, and are kept until acknowledged. */
  function Flush(e: Engine): Engine
    decreases |e.transmission|
  {
    if e.transmission == [] then e
    else
      var x, rest := e.transmission[0], e.transmission[1..];
      Flush(e.(transmission := rest,
               retransmission := e.retransmission[(x.sub, x.message.number) := x.message],
               responses := e.responses + [Response(x, HasMore(rest, x.sub))]))
  }

  // ---------------------------------------------------------------- requests are answered in order

  function Serials(entries: seq<Entry>): (r: seq<nat>)
    ensures |r| == |entries| && forall i :: 0 <= i < |r| ==> r[i] == entries[i].request
  {
    seq(|entries|, i requires 0 <= i < |entries| => entries[i].request)
  }

  function Entries(responses: seq<Response>): (r: seq<Entry>)
    ensures |r| == |responses| && forall i :: 0 <= i < |r| ==> r[i] == responses[i].entry
  {
    seq(|responses|, i requires 0 <= i < |responses| => responses[i].entry)
  }

  /** Everything paired so far, in order: first what was answered, then what is on its way. */
  function Paired(e: Engine): seq<Entry> { Entries(e.responses) + e.transmission }

  /** The requests that were paired, followed by those that wait. */
  function Line(e: Engine): seq<nat> { Serials(Paired(e)) + e.requests }

  lemma {:induction false} PairKeepsLine(e: Engine, id: u32)
    requires id in e.subs
    ensures Line(Pair(e, id)) == Line(e)
    decreases |e.requests|
  {
    if e.requests != [] && e.subs[id].state.queue != [] {
      var t := PairOnce(e, id);
      var x := Entry(e.requests[0], id, e.subs[id].state.queue[0]);
      assert Paired(t) == Paired(e) + [x];
      assert Serials(Paired(t)) == Serials(Paired(e)) + [x.request];
      assert e.requests == [x.request] + t.requests;
      PairKeepsLine(t, id);
    }
  }

  lemma VisitKeepsLine(e: Engine, id: u32, reason: Reason, clock: Clock)
    ensures var r := Visit(e, id, reason, clock); r.Some? ==> Line(r.value) == Line(e)
  {
    if id in e.subs {
      hide Tick, Pair;
      var r := Tick(e.subs[id].state, reason, e.requests != [], clock.elapsed(id), clock.changed(id));
      if r.Done? { PairKeepsLine(WithState(e, id, r.state), id); }
    }
  }

  lemma {:induction false} VisitAllKeepsLine(e: Engine, ids: seq<u32>, reason: Reason, clock: Clock)
    ensures var r := VisitAll(e, ids, reason, clock); r.Some? ==> Line(r.value) == Line(e)
  {
    if ids != [] {
      hide Visit, Line;
      var front := ids[..|ids| - 1];
      VisitAllKeepsLine(e, front, reason, clock);
      var r := VisitAll(e, front, reason, clock);
      if r.Some? { VisitKeepsLine(r.value, ids[|ids| - 1], reason, clock); }
    }
  }

  /** Flushing changes nothing about what is paired with what. */
  lemma {:induction false} FlushKeepsPaired(e: Engine)
    ensures
      var r := Flush(e);
      && Paired(r) == Paired(e) && r.transmission == [] && r.requests == e.requests && r.subs == e.subs
      && r.accepted == e.accepted && r.expired == e.expired && r.used == e.used
    decreases |e.transmission|
  {
    if e.transmission != [] {
      var x, rest := e.transmission[0], e.transmission[1..];
      var t := e.(transmission := rest,
                  retransmission := e.retransmission[(x.sub, x.message.number) := x.message],
                  responses := e.responses + [Response(x, HasMore(rest, x.sub))]);
      assert Entries(t.responses) == Entries(e.responses) + [x];
      assert e.transmission == [x] + rest;
      assert Paired(t) == Paired(e);
      FlushKeepsPaired(t);
    }
  }

  /** Each transmission becomes a response, in order, which announces more exactly when a later transmission belongs to
      the same subscription. */
  lemma {:induction false} FlushAnnounces(e: Engine, i: nat)
    requires i < |e.transmission|
    ensures
      var r := Flush(e).responses;
      && |r| == |e.responses| + |e.transmission| && e.responses <= r
      && r[|e.responses| + i].entry == e.transmission[i]
      && (r[|e.responses| + i].more <==> exists j :: i < j < |e.transmission| && e.transmission[j].sub == e.transmission[i].sub)
    decreases |e.transmission|
  {
    var x, rest := e.transmission[0], e.transmission[1..];
    var t := e.(transmission := rest,
                retransmission := e.retransmission[(x.sub, x.message.number) := x.message],
                responses := e.responses + [Response(x, HasMore(rest, x.sub))]);
    FlushGrows(t);
    if i == 0 {
      MoreLater(e.transmission);
    } else {
      FlushAnnounces(t, i - 1);
      assert rest[i - 1] == e.transmission[i];
      assert (exists j :: i - 1 < j < |rest| && rest[j].sub == rest[i - 1].sub) <==>
             (exists j :: i < j < |e.transmission| && e.transmission[j].sub == e.transmission[i].sub) by {
        if j :| i < j < |e.transmission| && e.transmission[j].sub == e.transmission[i].sub {
          assert rest[j - 1].sub == rest[i - 1].sub;
        }
        if j :| i - 1 < j < |rest| && rest[j].sub == rest[i - 1].sub {
          assert e.transmission[j + 1].sub == e.transmission[i].sub;
        }
      }
    }
  }

  lemma MoreLater(entries: seq<Entry>)
    requires entries != []
    ensures HasMore(entries[1..], entries[0].sub) <==> exists j :: 0 < j < |entries| && entries[j].sub == entries[0].sub
  {
    if j :| 0 < j < |entries| && entries[j].sub == entries[0].sub { assert entries[1..][j - 1].sub == entries[0].sub; }
  }

  lemma {:induction false} FlushGrows(e: Engine)
    ensures e.responses <= Flush(e).responses && |Flush(e).responses| == |e.responses| + |e.transmission|
    decreases |e.transmission|
  {
    if e.transmission != [] {
      var x, rest := e.transmission[0], e.transmission[1..];
      FlushGrows(e.(transmission := rest,
                    retransmission := e.retransmission[(x.sub, x.message.number) := x.message],
                    responses := e.responses + [Response(x, HasMore(rest, x.sub))]));
    }
  }

  predicate HasKey(entries: seq<Entry>, key: (u32, u32)) {
    exists i :: 0 <= i < |entries| && (entries[i].sub, entries[i].message.number) == key
  }

  /** Exactly the messages sent are added to those kept for retransmission, each under its subscription and number. */
  lemma {:induction false} FlushRetains(e: Engine, key: (u32, u32))
    ensures key in Flush(e).retransmission <==> key in e.retransmission || HasKey(e.transmission, key)
    ensures !HasKey(e.transmission, key) && key in e.retransmission ==>
              Flush(e).retransmission[key] == e.retransmission[key]
    ensures HasKey(e.transmission, key) ==>
              exists i :: 0 <= i < |e.transmission| && (e.transmission[i].sub, e.transmission[i].message.number) == key
                          && Flush(e).retransmission[key] == e.transmission[i].message
    decreases |e.transmission|
  {
    if e.transmission != [] {
      var x, rest := e.transmission[0], e.transmission[1..];
      var t := e.(transmission := rest,
                  retransmission := e.retransmission[(x.sub, x.message.number) := x.message],
                  responses := e.responses + [Response(x, HasMore(rest, x.sub))]);
      FlushRetains(t, key);
      HasKeyNext(e.transmission, key);
      if HasKey(rest, key) {
        var i :| 0 <= i < |rest| && (rest[i].sub, rest[i].message.number) == key
                 && Flush(t).retransmission[key] == rest[i].message;
        assert e.transmission[i + 1] == rest[i];
      }
    }
  }

  lemma HasKeyNext(entries: seq<Entry>, key: (u32, u32))
    requires entries != []
    ensures HasKey(entries, key) <==> (entries[0].sub, entries[0].message.number) == key || HasKey(entries[1..], key)
  {
    if HasKey(entries, key) {
      var i :| 0 <= i < |entries| && (entries[i].sub, entries[i].message.number) == key;
      if i > 0 { assert entries[1..][i - 1] == entries[i]; }
    }
    if HasKey(entries[1..], key) {
      var i :| 0 <= i < |entries[1..]| && (entries[1..][i].sub, entries[1..][i].message.number) == key;
      assert entries[i + 1] == entries[1..][i];
    }
  }

  // ---------------------------------------------------------------- messages are delivered in order

  /** The messages of one subscription among the entries. */
  function MessagesOf(entries: seq<Entry>, id: u32): seq<Message> {
    if entries == [] then []
    else
      var last := entries[|entries| - 1];
      MessagesOf(entries[..|entries| - 1], id) + if last.sub == id then [last.message] else []
  }

  lemma MessagesOfNext(entries: seq<Entry>, x: Entry, id: u32)
    ensures MessagesOf(entries + [x], id) == MessagesOf(entries, id) + if x.sub == id then [x.message] else []
  {
    assert (entries + [x])[..|entries|] == entries;
  }

  /** All that a subscription has queued is paired with requests or still waits, in order. */
  predicate Delivers(e: Engine, id: u32)
    requires id in e.subs
  {
    MessagesOf(Paired(e), id) + e.subs[id].state.queue == e.subs[id].state.queued
  }

  predicate AllDeliver(e: Engine) { forall id <- e.subs :: Delivers(e, id) }

  lemma Shift(done: seq<Message>, queue: seq<Message>)
    requires queue != []
    ensures done + [queue[0]] + queue[1..] == done + queue
  {
  }

  lemma PairOnceDeliversTo(e: Engine, id: u32, other: u32)
    requires id in e.subs && e.requests != [] && e.subs[id].state.queue != []
    requires other in e.subs && Delivers(e, other)
    ensures Delivers(PairOnce(e, id), other)
  {
    var t := PairOnce(e, id);
    var x := Entry(e.requests[0], id, e.subs[id].state.queue[0]);
    assert Paired(t) == Paired(e) + [x];
    hide Paired, MessagesOf;
    MessagesOfNext(Paired(e), x, other);
    var done := MessagesOf(Paired(e), other);
    if other == id { Shift(done, e.subs[id].state.queue); } else { assert done + [] == done; }
  }

  lemma PairOnceDelivers(e: Engine, id: u32)
    requires id in e.subs && e.requests != [] && e.subs[id].state.queue != [] && AllDeliver(e)
    ensures AllDeliver(PairOnce(e, id))
  {
    hide Delivers, PairOnce;
    forall other | other in PairOnce(e, id).subs ensures Delivers(PairOnce(e, id), other) {
      PairOnceDeliversTo(e, id, other);
    }
  }

  predicate AllSound(e: Engine) { forall id <- e.subs :: Sound(e.subs[id].state) }

  lemma PairOnceSound(e: Engine, id: u32)
    requires id in e.subs && e.requests != [] && e.subs[id].state.queue != [] && AllSound(e)
    ensures AllSound(PairOnce(e, id))
  {
    hide Sound;
    assert Step(e.subs[id].state, Take).state == PairOnce(e, id).subs[id].state;
    StepKeepsSound(e.subs[id].state, Take);
  }

  /** Messages numbered from one in turn, of which only the last may announce the end. */
  predicate Consecutive(ms: seq<Message>) {
    && (forall i :: 0 <= i < |ms| ==> ms[i].number == HandleAt(1, i))
    && (forall i :: 0 <= i < |ms| - 1 ==> !ms[i].kind.StatusChange?)
  }

  /** What was sent for any subscription, whether or not it still exists. */
  ghost predicate AllConsecutive(e: Engine) { forall id: u32 :: Consecutive(MessagesOf(Paired(e), id)) }

  lemma QueuedIsConsecutive(s: State, done: seq<Message>)
    requires Sound(s) && done + s.queue == s.queued
    ensures Consecutive(done)
  {
    forall i | 0 <= i < |done| ensures done[i] == s.queued[i] { assert (done + s.queue)[i] == done[i]; }
  }

  lemma SentIsConsecutive(e: Engine, id: u32)
    requires id in e.subs && Delivers(e, id) && Sound(e.subs[id].state)
    ensures Consecutive(MessagesOf(Paired(e), id))
  {
    hide Sound, MessagesOf, Paired;
    QueuedIsConsecutive(e.subs[id].state, MessagesOf(Paired(e), id));
  }

  lemma OthersGetNothing(e: Engine, id: u32, other: u32)
    requires id in e.subs && e.requests != [] && e.subs[id].state.queue != [] && other != id
    ensures MessagesOf(Paired(PairOnce(e, id)), other) == MessagesOf(Paired(e), other)
  {
    var x := Entry(e.requests[0], id, e.subs[id].state.queue[0]);
    assert Paired(PairOnce(e, id)) == Paired(e) + [x];
    hide Paired, MessagesOf;
    MessagesOfNext(Paired(e), x, other);
  }

  lemma PairOnceConsecutive(e: Engine, id: u32)
    requires id in e.subs && e.requests != [] && e.subs[id].state.queue != []
    requires AllDeliver(e) && AllSound(e) && AllConsecutive(e)
    ensures AllConsecutive(PairOnce(e, id))
  {
    PairOnceDelivers(e, id);
    PairOnceSound(e, id);
    var t := PairOnce(e, id);
    assert Delivers(t, id) && Sound(t.subs[id].state);
    hide PairOnce, Paired, MessagesOf, Delivers, Consecutive, Sound, AllDeliver, AllSound;
    SentIsConsecutive(t, id);
    forall other: u32 ensures Consecutive(MessagesOf(Paired(t), other)) {
      if other != id {
        OthersGetNothing(e, id, other);
        assert Consecutive(MessagesOf(Paired(e), other));
      }
    }
  }

  lemma SameConsecutive(e: Engine, t: Engine)
    requires AllConsecutive(e) && Paired(t) == Paired(e)
    ensures AllConsecutive(t)
  {
  }

  lemma {:induction false} PairKeeps(e: Engine, id: u32)
    requires id in e.subs && AllDeliver(e) && AllSound(e) && AllConsecutive(e)
    ensures AllDeliver(Pair(e, id)) && AllSound(Pair(e, id)) && AllConsecutive(Pair(e, id))
    decreases |e.requests|
  {
    if e.requests != [] && e.subs[id].state.queue != [] {
      PairOnceDelivers(e, id);
      PairOnceSound(e, id);
      PairOnceConsecutive(e, id);
      hide AllDeliver, AllSound, AllConsecutive, PairOnce;
      PairKeeps(PairOnce(e, id), id);
    }
  }

  /** Pairing leaves the requests accepted and expired, the responses and the ids alone. */
  lemma {:induction false} PairFrame(e: Engine, id: u32)
    requires id in e.subs
    ensures
      var r := Pair(e, id);
      && r.accepted == e.accepted && r.expired == e.expired && r.used == e.used && r.responses == e.responses
      && (r.requests == [] || r.subs[id].state.queue == [])
    decreases |e.requests|
  {
    if e.requests != [] && e.subs[id].state.queue != [] { PairFrame(PairOnce(e, id), id); }
  }

  /** At most one message is added, to what waits and to what was ever queued alike. */
  ghost predicate Grows(s: State, t: State) {
    (t.queue == s.queue && t.queued == s.queued) || exists m :: t.queued == s.queued + [m] && t.queue == s.queue + [m]
  }

  lemma TickGrows(s: State, reason: Reason, queued: bool, elapsed: bool, changed: bool)
    requires Sound(s)
    ensures var r := Tick(s, reason, queued, elapsed, changed); r.Done? ==> Sound(r.state) && Grows(s, r.state)
  {
    hide Tick, Sound;
    var r := Tick(s, reason, queued, elapsed, changed);
    if r.Done? {
      TickKeepsSound(s, reason, queued, elapsed, changed);
      TickQueues(s, reason, queued, elapsed, changed);
    }
  }

  lemma GrowsDelivers(e: Engine, id: u32, s: State)
    requires id in e.subs && Delivers(e, id) && Grows(e.subs[id].state, s)
    ensures Delivers(WithState(e, id, s), id)
  {
    var before := e.subs[id].state;
    var done := MessagesOf(Paired(e), id);
    if s.queued != before.queued {
      var m :| s.queued == before.queued + [m] && s.queue == before.queue + [m];
      assert done + (before.queue + [m]) == done + before.queue + [m];
    }
  }

  lemma TickDelivers(e: Engine, id: u32, s: State)
    requires id in e.subs && AllDeliver(e) && AllSound(e) && Sound(s) && Grows(e.subs[id].state, s)
    ensures AllDeliver(WithState(e, id, s)) && AllSound(WithState(e, id, s))
  {
    hide Sound, Grows;
    var t := WithState(e, id, s);
    GrowsDelivers(e, id, s);
    forall other | other in t.subs ensures Delivers(t, other) { assert Delivers(e, other); }
  }

  lemma FinishKeeps(e: Engine, id: u32)
    requires id in e.subs && AllDeliver(e) && AllSound(e) && AllConsecutive(e)
    ensures AllDeliver(Finish(e, id)) && AllSound(Finish(e, id)) && AllConsecutive(Finish(e, id))
  {
    hide AllDeliver, AllSound, AllConsecutive, Pair;
    PairKeeps(e, id);
    Leaves(Pair(e, id), id);
  }

  lemma VisitKeeps(e: Engine, id: u32, reason: Reason, clock: Clock)
    requires AllDeliver(e) && AllSound(e) && AllConsecutive(e)
    ensures
      var r := Visit(e, id, reason, clock);
      r.Some? ==> AllDeliver(r.value) && AllSound(r.value) && AllConsecutive(r.value)
  {
    hide Tick, Sound, AllDeliver, AllSound, AllConsecutive, Grows, Finish, WithState, Paired;
    if id in e.subs {
      var s := e.subs[id].state;
      SoundMember(e, id);
      TickGrows(s, reason, e.requests != [], clock.elapsed(id), clock.changed(id));
      var r := Tick(s, reason, e.requests != [], clock.elapsed(id), clock.changed(id));
      if r.Done? {
        TickDelivers(e, id, r.state);
        WithStatePairs(e, id, r.state);
        SameConsecutive(e, WithState(e, id, r.state));
        FinishKeeps(WithState(e, id, r.state), id);
      }
    }
  }

  lemma SoundMember(e: Engine, id: u32)
    requires AllSound(e) && id in e.subs
    ensures Sound(e.subs[id].state)
  {
  }

  lemma WithStatePairs(e: Engine, id: u32, s: State)
    requires id in e.subs
    ensures Paired(WithState(e, id, s)) == Paired(e)
  {
  }

  lemma Leaves(e: Engine, id: u32)
    requires AllDeliver(e) && AllSound(e) && AllConsecutive(e)
    ensures var t := e.(subs := e.subs - {id}); AllDeliver(t) && AllSound(t) && AllConsecutive(t)
  {
    var t := e.(subs := e.subs - {id});
    assert Paired(t) == Paired(e);
    SameConsecutive(e, t);
    forall other | other in t.subs ensures Delivers(t, other) { assert Delivers(e, other); }
  }
}
