/** What the server subscription keeps over whole runs, and exactly when it sends what it should
    (lib/src/server/subscriptions/subscription.rs). */
module ServerSubscriptionLaws {
  import opened Prelude
  import opened ServerSubscription

  // ---------------------------------------------------------------- counters

  /** The revised counters of a subscription: the lifetime is at least two intervals, the keep-alive count one. */
  predicate Counting(c: Core) { c.lifetime >= 1 && c.maxLifetime >= 2 && c.keepAlive >= 1 && c.maxKeepAlive >= 1 }

  lemma RowKeepsCounting(c: Core, reason: Reason, p: Inputs)
    requires Counting(c) && Possible(reason, p)
    ensures var n := Row(c, reason, p); !Underflows(n, c) && Counting(Effect(n, c))
  {
  }

  /** With such counters a tick panics exactly when the subscription expires while its items have something to report. */
  lemma PanicsIff(s: State, reason: Reason, queued: bool, elapsed: bool, changed: bool)
    requires Numbered(s) && Counting(s.core)
    ensures Tick(s, reason, queued, elapsed, changed).Panic? <==>
            s.core.Live() && s.core.lifetime == 1 && reason.TickTimerFired? && elapsed && changed
  {
    hide Numbered, Row;
    var p := InputsOf(s, reason, queued, elapsed, changed);
    TickKeepsNumbered(s, reason, queued, elapsed, changed);
    RowKeepsCounting(s.core, reason, p);
  }

  lemma TickKeepsCounting(s: State, reason: Reason, queued: bool, elapsed: bool, changed: bool)
    requires Counting(s.core)
    ensures var r := Tick(s, reason, queued, elapsed, changed); r.Done? ==> Counting(r.state.core)
  {
    hide Row;
    RowKeepsCounting(s.core, reason, InputsOf(s, reason, queued, elapsed, changed));
  }

  // ---------------------------------------------------------------- notifications

  /** A notification made in a tick is queued exactly when publishing is enabled, a request waits and the subscription
      is not late; otherwise it is dropped and its number used again. */
  lemma NotificationQueuedIff(s: State, reason: Reason, queued: bool, elapsed: bool, changed: bool)
    requires Numbered(s) && Counting(s.core)
    requires Produces(s, reason, elapsed, changed) && s.core.lifetime != 1
    ensures
      var r := Tick(s, reason, queued, elapsed, changed);
      && r.Done?
      && (r.state.queued == s.queued + [Message(s.next, Data)] <==> s.core.enabled && queued && !s.core.phase.Late?)
      && (!(s.core.enabled && queued && !s.core.phase.Late?) ==>
            (r.state.queued == s.queued && r.state.next == s.next)
            || r.state.queued == s.queued + [Message(s.next, Alive)])
  {
    hide Numbered, Row;
    var p := InputsOf(s, reason, queued, elapsed, changed);
    RowKeepsCounting(s.core, reason, p);
    TickKeepsNumbered(s, reason, queued, elapsed, changed);
    NumberIsExpected(s);
    ProducedRow(s.core, reason, p);
    assert s.queued + [Message(s.next, Data)] != s.queued + [Message(s.next, Alive)] by {
      assert (s.queued + [Message(s.next, Data)])[|s.queued|].kind.Data?;
    }
  }

  lemma NumberIsExpected(s: State)
    requires Numbered(s)
    ensures s.next == Expected(s.last)
  {
  }

  lemma ProducedRow(c: Core, reason: Reason, p: Inputs)
    requires Possible(reason, p) && c.Live() && c.lifetime != 1 && Counting(c) && p.timerExpired && p.notificationsAvailable
    ensures ActionOf(Row(c, reason, p)) ==
            if c.enabled && p.requestQueued && !c.phase.Late? then ReturnNotifications
            else if p.requestQueued && !c.enabled && ((c.phase.Normal? && !c.messageSent) || (c.phase.KeepAlive? && c.keepAlive == 1))
            then ReturnKeepAlive else NoAction
  {
    var n :=
      if c.phase.Late? then 12
      else if c.phase.Normal? then
        if c.enabled then (if p.requestQueued then 6 else 8) else if c.messageSent then 9 else if p.requestQueued then 7 else 8
      else if c.enabled then (if p.requestQueued then 14 else 17)
      else if c.keepAlive > 1 then 16 else if p.requestQueued then 15 else 17;
    RowIs(n, c, reason, p);
  }

  // ---------------------------------------------------------------- keep-alive

  /** When the keep-alive count has run out and a request waits, a keep-alive is sent exactly when publishing is
      disabled. */
  lemma KeepAliveSentIff(c: Core, p: Inputs)
    requires c.phase.KeepAlive? && c.keepAlive == 1 && c.lifetime != 1 && p.timerExpired && p.requestQueued
    ensures ActionOf(Row(c, TickTimerFired, p)) == ReturnKeepAlive <==> !c.enabled
  {
    if !c.enabled {
      RowIs(15, c, TickTimerFired, p);
    } else if p.notificationsAvailable {
      RowIs(14, c, TickTimerFired, p);
    } else {
      assert forall n: nat :: !Guard(n, c, TickTimerFired, p);
    }
  }

  /** The count has run out, publishing is enabled and there is nothing to send. */
  predicate Stalled(s: State) {
    s.core.phase.KeepAlive? && s.core.keepAlive == 1 && s.core.lifetime != 1 && s.core.enabled && s.queue == []
  }

  lemma StalledTick(s: State, reason: Reason, elapsed: bool, changed: bool)
    requires Stalled(s) && (reason.TickTimerFired? ==> !changed)
    ensures Tick(s, reason, true, elapsed, changed) == Done(s)
  {
    var p := InputsOf(s, reason, true, elapsed, changed);
    if reason.TickTimerFired? {
      assert forall n: nat :: !Guard(n, s.core, reason, p);
    } else {
      RowIs(13, s.core, reason, p);
    }
  }

  // ---------------------------------------------------------------- lifetime

  /** An interval without a publish request; `changed` is whether items report in it. */
  function Idle(s: State, changed: bool): Ticked { Tick(s, TickTimerFired, false, true, changed) }

  function IdleFor(s: State, changes: seq<bool>): Ticked {
    if changes == [] then Done(s)
    else
      var r := IdleFor(s, changes[..|changes| - 1]);
      if r.Panic? then r else Idle(r.state, changes[|changes| - 1])
  }

  lemma IdleStep(s: State, changed: bool)
    requires s.core.Live() && Numbered(s) && Counting(s.core)
    ensures
      var r := Idle(s, changed);
      if s.core.lifetime == 1 && changed then r.Panic?
      else
        && r.Done? && Numbered(r.state) && Counting(r.state.core)
        && if s.core.lifetime == 1 then r.state.core.phase.Closed?
           else r.state.core.Live() && r.state.core.lifetime == s.core.lifetime - 1 && r.state.queue == s.queue
  {
    hide Numbered, Row;
    var p := InputsOf(s, TickTimerFired, false, true, changed);
    TickKeepsNumbered(s, TickTimerFired, false, true, changed);
    TickKeepsCounting(s, TickTimerFired, false, true, changed);
    RowKeepsCounting(s.core, TickTimerFired, p);
    IdleRow(s.core, p);
  }

  lemma IdleRow(c: Core, p: Inputs)
    requires c.Live() && Counting(c) && p.timerExpired && !p.requestQueued
    ensures
      var n := Row(c, TickTimerFired, p);
      if c.lifetime == 1 then n == 27
      else n == 8 || n == 9 || n == 12 || n == 16 || n == 17
  {
    var publishable := c.enabled && p.notificationsAvailable;
    var n :=
      if c.lifetime == 1 then 27
      else if c.phase.Late? then 12
      else if c.phase.Normal? then (if !c.messageSent || publishable then 8 else 9)
      else if c.keepAlive == 1 || publishable then 17 else 16;
    RowIs(n, c, TickTimerFired, p);
  }

  /** Without publish requests a subscription lives exactly as many intervals as its lifetime counter says, whatever its
      items report; in the last one it closes, or stops the server when they do. */
  lemma {:induction false} LivesForLifetime(s: State, changes: seq<bool>)
    requires s.core.Live() && Numbered(s) && Counting(s.core) && |changes| <= s.core.lifetime
    ensures
      var r := IdleFor(s, changes);
      if |changes| == s.core.lifetime && changes[|changes| - 1] then r.Panic?
      else
        && r.Done? && Numbered(r.state) && Counting(r.state.core)
        && if |changes| == s.core.lifetime then r.state.core.phase.Closed?
           else r.state.core.Live() && r.state.core.lifetime == s.core.lifetime - |changes|
  {
    if changes != [] {
      var front, last := changes[..|changes| - 1], changes[|changes| - 1];
      LivesForLifetime(s, front);
      IdleStep(IdleFor(s, front).state, last);
    }
  }

  // ---------------------------------------------------------------- runs

  /** Ticks, taking a message, and what the services do: `Modify` sets both limits and resets both counters. */
  datatype Event =
    | TickEvent(reason: Reason, waiting: bool, elapsed: bool, changed: bool)
    | Take
    | Modify(maxLifetime: u32, maxKeepAlive: u32)
    | Enable(enabled: bool)
    | ResetLifetime

  function Step(s: State, e: Event): Ticked {
    match e
    case TickEvent(reason, waiting, elapsed, changed) => Tick(s, reason, waiting, elapsed, changed)
    case Take => Done(if s.queue == [] then s else s.(queue := s.queue[1..]))
    case Modify(maxLifetime, maxKeepAlive) =>
      Done(s.(core := s.core.(maxLifetime := maxLifetime, lifetime := maxLifetime,
                              maxKeepAlive := maxKeepAlive, keepAlive := maxKeepAlive)))
    case Enable(enabled) => Done(s.(core := s.core.(enabled := enabled, lifetime := s.core.maxLifetime)))
    case ResetLifetime => Done(s.(core := s.core.(lifetime := s.core.maxLifetime)))
  }

  function Run(s: State, events: seq<Event>): Ticked {
    if events == [] then Done(s)
    else
      var r := Run(s, events[..|events| - 1]);
      if r.Panic? then r else Step(r.state, events[|events| - 1])
  }

  predicate Revised(e: Event) { e.Modify? ==> e.maxLifetime >= 2 && e.maxKeepAlive >= 1 }

  /** The queue holds the latest of the messages ever queued, in order. */
  predicate IsTail(s: State) { |s.queue| <= |s.queued| && s.queue == s.queued[|s.queued| - |s.queue|..] }

  /** A closed subscription has announced it, and that was its last message. */
  predicate ClosedLast(s: State) {
    && (forall i :: 0 <= i < |s.queued| - 1 ==> !s.queued[i].kind.StatusChange?)
    && (s.core.phase.Closed? <==> s.queued != [] && s.queued[|s.queued| - 1].kind.StatusChange?)
  }

  lemma ClosedIsFinal(s: State, reason: Reason, queued: bool, elapsed: bool, changed: bool)
    requires s.core.phase.Closed?
    ensures Tick(s, reason, queued, elapsed, changed) == Done(s)
  {
    assert Row(s.core, reason, InputsOf(s, reason, queued, elapsed, changed)) == 0;
  }

  /** A tick queues nothing, or one message; a status change exactly when it closes the subscription. */
  lemma TickQueues(s: State, reason: Reason, queued: bool, elapsed: bool, changed: bool)
    requires Tick(s, reason, queued, elapsed, changed).Done?
    ensures
      var t := Tick(s, reason, queued, elapsed, changed).state;
      (t.queued == s.queued && t.queue == s.queue && t.core.phase.Closed? == s.core.phase.Closed?)
      || exists m :: t.queued == s.queued + [m] && t.queue == s.queue + [m] && !s.core.phase.Closed?
                     && (m.kind.StatusChange? <==> t.core.phase.Closed?)
  {
    var p := InputsOf(s, reason, queued, elapsed, changed);
    var n := Row(s.core, reason, p);
    hide Row;
    var t := Tick(s, reason, queued, elapsed, changed).state;
    if s.core.phase.Closed? {
      ClosedIsFinal(s, reason, queued, elapsed, changed);
    } else if t.queued != s.queued {
      var kind := if n == 27 then StatusChange else if ActionOf(n).ReturnKeepAlive? then Alive else Data;
      assert t.queued == s.queued + [Message(t.last, kind)];
    }
  }

  lemma QueueMessage(s: State, t: State, m: Message)
    requires IsTail(s) && ClosedLast(s) && !s.core.phase.Closed?
    requires t.queued == s.queued + [m] && t.queue == s.queue + [m]
    requires m.kind.StatusChange? <==> t.core.phase.Closed?
    ensures IsTail(t) && ClosedLast(t)
  {
  }

  predicate Sound(s: State) { Numbered(s) && Counting(s.core) && IsTail(s) && ClosedLast(s) }

  lemma TickKeepsSound(s: State, reason: Reason, queued: bool, elapsed: bool, changed: bool)
    requires Sound(s) && Tick(s, reason, queued, elapsed, changed).Done?
    ensures Sound(Tick(s, reason, queued, elapsed, changed).state)
  {
    hide Tick, Numbered, Counting, IsTail, ClosedLast;
    var t := Tick(s, reason, queued, elapsed, changed).state;
    TickKeepsNumbered(s, reason, queued, elapsed, changed);
    TickKeepsCounting(s, reason, queued, elapsed, changed);
    TickQueues(s, reason, queued, elapsed, changed);
    if t.queued == s.queued && t.queue == s.queue && t.core.phase.Closed? == s.core.phase.Closed? {
      SameMessages(s, t);
    } else {
      var m :| t.queued == s.queued + [m] && t.queue == s.queue + [m] && !s.core.phase.Closed?
               && (m.kind.StatusChange? <==> t.core.phase.Closed?);
      QueueMessage(s, t, m);
    }
  }

  lemma SameMessages(s: State, t: State)
    requires IsTail(s) && ClosedLast(s)
    requires t.queued == s.queued && t.queue == s.queue && t.core.phase.Closed? == s.core.phase.Closed?
    ensures IsTail(t) && ClosedLast(t)
  {
  }

  lemma TakeKeepsTail(s: State)
    requires IsTail(s) && ClosedLast(s) && s.queue != []
    ensures var t := s.(queue := s.queue[1..]); IsTail(t) && ClosedLast(t)
  {
  }

  lemma StepKeepsSound(s: State, e: Event)
    requires Sound(s) && Revised(e) && Step(s, e).Done?
    ensures Sound(Step(s, e).state)
  {
    hide Tick, Numbered, IsTail, ClosedLast;
    var t := Step(s, e).state;
    if e.TickEvent? {
      TickKeepsSound(s, e.reason, e.waiting, e.elapsed, e.changed);
    } else {
      SameNumbers(s, t);
      if e.Take? {
        if s.queue != [] { TakeKeepsTail(s); }
      } else {
        SameMessages(s, t);
      }
    }
  }

  /** In every run: messages are numbered consecutively from one, wrapping to one; the queue holds the latest of them
      in order; the counters never run out; and a status change is sent once, last, when the subscription closes. */
  lemma {:induction false} EveryRunIsSound(maxLifetime: u32, maxKeepAlive: u32, enabled: bool, events: seq<Event>)
    requires maxLifetime >= 2 && maxKeepAlive >= 1 && forall e <- events :: Revised(e)
    requires Run(Start(maxLifetime, maxKeepAlive, enabled), events).Done?
    ensures Sound(Run(Start(maxLifetime, maxKeepAlive, enabled), events).state)
  {
    if events != [] {
      var front := events[..|events| - 1];
      EveryRunIsSound(maxLifetime, maxKeepAlive, enabled, front);
      StepKeepsSound(Run(Start(maxLifetime, maxKeepAlive, enabled), front).state, events[|events| - 1]);
    }
  }

  /** In every run the server is stopped only by an expiry that coincides with a notification. */
  lemma {:induction false} EveryPanicIsExpiry(maxLifetime: u32, maxKeepAlive: u32, enabled: bool, events: seq<Event>)
    requires maxLifetime >= 2 && maxKeepAlive >= 1 && forall e <- events :: Revised(e)
    requires Run(Start(maxLifetime, maxKeepAlive, enabled), events).Panic?
    ensures exists k: nat | k < |events| ::
      var r := Run(Start(maxLifetime, maxKeepAlive, enabled), events[..k]);
      && r.Done? && r.state.core.Live() && r.state.core.lifetime == 1
      && events[k].TickEvent? && events[k].reason.TickTimerFired? && events[k].elapsed && events[k].changed
  {
    var start := Start(maxLifetime, maxKeepAlive, enabled);
    var last := |events| - 1;
    var front := events[..last];
    if Run(start, front).Panic? {
      EveryPanicIsExpiry(maxLifetime, maxKeepAlive, enabled, front);
      var k: nat :| k < |front|
                    && (var r := Run(start, front[..k]);
                        && r.Done? && r.state.core.Live() && r.state.core.lifetime == 1
                        && front[k].TickEvent? && front[k].reason.TickTimerFired? && front[k].elapsed && front[k].changed);
      assert front[..k] == events[..k] && front[k] == events[k];
    } else {
      EveryRunIsSound(maxLifetime, maxKeepAlive, enabled, front);
      var s, e := Run(start, front).state, events[last];
      if e.TickEvent? { PanicsIff(s, e.reason, e.waiting, e.elapsed, e.changed); }
      assert events[..last] == front;
    }
  }

  // ---------------------------------------------------------------- reachable inputs

  lemma RunNext(s: State, events: seq<Event>, e: Event)
    ensures Run(s, events + [e]) ==
            var r := Run(s, events);
            if r.Panic? then r else Step(r.state, e)
  {
    assert (events + [e])[..|events|] == events;
  }

  lemma RunNothing(s: State)
    ensures Run(s, []) == Done(s)
  {
  }

  lemma {:induction false} RunConcat(s: State, a: seq<Event>, b: seq<Event>)
    requires Run(s, a).Done?
    ensures Run(s, a + b) == Run(Run(s, a).state, b)
  {
    hide Run, Step;
    if b == [] {
      assert a + b == a;
      RunNothing(Run(s, a).state);
    } else {
      var front, e := b[..|b| - 1], b[|b| - 1];
      RunConcat(s, a, front);
      assert a + b == a + front + [e] && b == front + [e];
      RunNext(s, a + front, e);
      RunNext(Run(s, a).state, front, e);
    }
  }

  /** A timer tick at the end of an interval. */
  function Timer(waiting: bool, changed: bool): Event { TickEvent(TickTimerFired, waiting, true, changed) }

  lemma Created(maxLifetime: u32, maxKeepAlive: u32, enabled: bool, waiting: bool)
    ensures
      var s := Start(maxLifetime, maxKeepAlive, enabled);
      Step(s, Timer(waiting, false)) == Done(s.(core := s.core.(phase := Normal)))
  {
    var s := Start(maxLifetime, maxKeepAlive, enabled);
    RowIs(3, s.core, TickTimerFired, InputsOf(s, TickTimerFired, waiting, true, false));
    hide Row;
  }

  /** The state of a subscription that was created and has sent nothing. */
  function Fresh(maxLifetime: u32, maxKeepAlive: u32, lifetime: u32, phase: Phase): State {
    State(Core(phase, lifetime, maxLifetime, maxKeepAlive, maxKeepAlive, false, true), 1, 0, [], [])
  }

  /** An interval without request makes a new subscription late; what its items report in it is dropped. */
  lemma BecomesLate(maxLifetime: u32, maxKeepAlive: u32, changed: bool)
    requires maxLifetime >= 2
    ensures Step(Fresh(maxLifetime, maxKeepAlive, maxLifetime, Normal), Timer(false, changed)) ==
            Done(Fresh(maxLifetime, maxKeepAlive, maxLifetime - 1, Late))
  {
    var s := Fresh(maxLifetime, maxKeepAlive, maxLifetime, Normal);
    RowIs(8, s.core, TickTimerFired, InputsOf(s, TickTimerFired, false, true, changed));
    hide Row;
  }

  /** A notification that is never sent: it is made in an interval without request. */
  lemma NotificationIsDropped()
    ensures Run(Start(10, 3, true), [Timer(false, false), Timer(false, true)]) == Done(Fresh(10, 3, 9, Late))
    ensures Produces(Fresh(10, 3, 10, Normal), TickTimerFired, true, true)
  {
    var s := Start(10, 3, true);
    Created(10, 3, true, false);
    BecomesLate(10, 3, true);
    hide Step, Run;
    RunNothing(s);
    RunNext(s, [], Timer(false, false));
    RunNext(s, [Timer(false, false)], Timer(false, true));
    assert [] + [Timer(false, false)] == [Timer(false, false)];
    assert [Timer(false, false)] + [Timer(false, true)] == [Timer(false, false), Timer(false, true)];
  }

  /** A subscription that expires in the interval in which its items report. */
  lemma ExpiryStopsServer()
    ensures Run(Start(2, 1, true), [Timer(false, false), Timer(false, false), Timer(false, true)]).Panic?
  {
    var s, late := Start(2, 1, true), Fresh(2, 1, 1, Late);
    var quiet, report := Timer(false, false), Timer(false, true);
    Created(2, 1, true, false);
    BecomesLate(2, 1, false);
    PanicsIff(late, TickTimerFired, false, true, true);
    assert Step(late, report).Panic?;
    hide Step, Run;
    RunNothing(s);
    RunNext(s, [], quiet);
    RunNext(s, [quiet], quiet);
    RunNext(s, [quiet, quiet], report);
    assert [] + [quiet] == [quiet] && [quiet] + [quiet] == [quiet, quiet];
    assert [quiet, quiet] + [report] == [quiet, quiet, report];
  }

  // ---------------------------------------------------------------- the keep-alive that never comes

  /** A timer tick in which no item reports, or the arrival of a publish request; a request waits. */
  predicate Quiet(e: Event) { e.TickEvent? && e.waiting && (e.reason.TickTimerFired? ==> !e.changed) }

  /** A stalled subscription stays as it is for ever: it sends no keep-alive, and its lifetime does not run. */
  lemma {:induction false} StallsForEver(s: State, events: seq<Event>)
    requires Stalled(s) && forall e <- events :: Quiet(e)
    ensures Run(s, events) == Done(s)
  {
    if events != [] {
      StallsForEver(s, events[..|events| - 1]);
      var e := events[|events| - 1];
      assert Quiet(e);
      StalledTick(s, e.reason, e.elapsed, e.changed);
    }
  }

  /** `k` intervals with a request waiting and nothing to report. */
  function Calm(k: nat): seq<Event> { seq(k, _ => Timer(true, false)) }

  /** A subscription with nothing to send that has sent one keep-alive. */
  function Counted(maxLifetime: u32, maxKeepAlive: u32, lifetime: u32, keepAlive: u32, phase: Phase): State {
    State(Core(phase, lifetime, maxLifetime, keepAlive, maxKeepAlive, true, true), 2, 1, [], [Message(1, Alive)])
  }

  lemma CountsDown(maxLifetime: u32, maxKeepAlive: u32, lifetime: u32, keepAlive: u32)
    requires lifetime >= 2 && keepAlive >= 2
    ensures Step(Counted(maxLifetime, maxKeepAlive, lifetime, keepAlive, KeepAlive), Timer(true, false)) ==
            Done(Counted(maxLifetime, maxKeepAlive, lifetime - 1, keepAlive - 1, KeepAlive))
  {
    var s := Counted(maxLifetime, maxKeepAlive, lifetime, keepAlive, KeepAlive);
    RowIs(16, s.core, TickTimerFired, InputsOf(s, TickTimerFired, true, true, false));
    hide Row;
  }

  lemma {:induction false} CountsDownFor(maxLifetime: u32, maxKeepAlive: u32, lifetime: u32, keepAlive: u32, k: nat)
    requires k < keepAlive < lifetime
    ensures Run(Counted(maxLifetime, maxKeepAlive, lifetime, keepAlive, KeepAlive), Calm(k)) ==
            Done(Counted(maxLifetime, maxKeepAlive, lifetime - k, keepAlive - k, KeepAlive))
  {
    hide Run, Step, Counted;
    var s := Counted(maxLifetime, maxKeepAlive, lifetime, keepAlive, KeepAlive);
    if k == 0 {
      RunNothing(s);
      assert Calm(0) == [];
    } else {
      CountsDownFor(maxLifetime, maxKeepAlive, lifetime, keepAlive, k - 1);
      CountsDown(maxLifetime, maxKeepAlive, lifetime - (k - 1), keepAlive - (k - 1));
      assert Calm(k) == Calm(k - 1) + [Timer(true, false)];
      RunNext(s, Calm(k - 1), Timer(true, false));
    }
  }

  /** Creation, the first keep-alive, and the interval after it, with which the countdown begins. */
  const OPENING: seq<Event> := [Timer(true, false), Timer(true, false), Take, Timer(true, false)]

  lemma FirstKeepAlive(maxLifetime: u32, maxKeepAlive: u32)
    requires maxLifetime >= 2
    ensures
      var s := Fresh(maxLifetime, maxKeepAlive, maxLifetime, Normal);
      var t := Counted(maxLifetime, maxKeepAlive, maxLifetime - 1, maxKeepAlive, Normal);
      && Step(s, Timer(true, false)) == Done(t.(queue := [Message(1, Alive)]))
      && Step(t.(queue := [Message(1, Alive)]), Take) == Done(t)
  {
    var s := Fresh(maxLifetime, maxKeepAlive, maxLifetime, Normal);
    RowIs(7, s.core, TickTimerFired, InputsOf(s, TickTimerFired, true, true, false));
    hide Row;
  }

  lemma BeginsCountdown(maxLifetime: u32, maxKeepAlive: u32, lifetime: u32)
    requires lifetime >= 2
    ensures Step(Counted(maxLifetime, maxKeepAlive, lifetime, maxKeepAlive, Normal), Timer(true, false)) ==
            Done(Counted(maxLifetime, maxKeepAlive, lifetime - 1, maxKeepAlive, KeepAlive))
  {
    var s := Counted(maxLifetime, maxKeepAlive, lifetime, maxKeepAlive, Normal);
    RowIs(9, s.core, TickTimerFired, InputsOf(s, TickTimerFired, true, true, false));
    hide Row;
  }

  lemma FourSteps(s: State, a: Event, b: Event, c: Event, d: Event, s1: State, s2: State, s3: State, s4: State)
    requires Step(s, a) == Done(s1) && Step(s1, b) == Done(s2) && Step(s2, c) == Done(s3) && Step(s3, d) == Done(s4)
    ensures Run(s, [a, b, c, d]) == Done(s4)
  {
    hide Step, Run;
    RunNothing(s);
    RunNext(s, [], a);
    RunNext(s, [a], b);
    RunNext(s, [a, b], c);
    RunNext(s, [a, b, c], d);
    assert [] + [a] == [a] && [a] + [b] == [a, b] && [a, b] + [c] == [a, b, c] && [a, b, c] + [d] == [a, b, c, d];
  }

  lemma Opens(maxLifetime: u32, maxKeepAlive: u32)
    requires maxLifetime >= 3
    ensures Run(Start(maxLifetime, maxKeepAlive, true), OPENING) ==
            Done(Counted(maxLifetime, maxKeepAlive, maxLifetime - 2, maxKeepAlive, KeepAlive))
  {
    hide Step, Run;
    var e, alive := Timer(true, false), Counted(maxLifetime, maxKeepAlive, maxLifetime - 1, maxKeepAlive, Normal);
    Created(maxLifetime, maxKeepAlive, true, true);
    FirstKeepAlive(maxLifetime, maxKeepAlive);
    BeginsCountdown(maxLifetime, maxKeepAlive, maxLifetime - 1);
    FourSteps(Start(maxLifetime, maxKeepAlive, true), e, e, Take, e,
              Fresh(maxLifetime, maxKeepAlive, maxLifetime, Normal), alive.(queue := [Message(1, Alive)]), alive,
              Counted(maxLifetime, maxKeepAlive, maxLifetime - 2, maxKeepAlive, KeepAlive));
  }

  /** From its creation on: a subscription with publishing enabled counts down to its keep-alive and then, however long
      its items are quiet and requests wait, sends none and does not expire. */
  lemma KeepAliveNeverComes(maxLifetime: u32, maxKeepAlive: u32, quiet: seq<Event>)
    requires maxKeepAlive >= 1 && maxLifetime >= maxKeepAlive + 3 && forall e <- quiet :: Quiet(e)
    ensures Run(Start(maxLifetime, maxKeepAlive, true), OPENING + Calm(maxKeepAlive - 1) + quiet) ==
            Done(Counted(maxLifetime, maxKeepAlive, maxLifetime - maxKeepAlive - 1, 1, KeepAlive))
  {
    var s := Start(maxLifetime, maxKeepAlive, true);
    hide Run, Calm, OPENING;
    Opens(maxLifetime, maxKeepAlive);
    CountsDownFor(maxLifetime, maxKeepAlive, maxLifetime - 2, maxKeepAlive, maxKeepAlive - 1);
    RunConcat(s, OPENING, Calm(maxKeepAlive - 1));
    RunConcat(s, OPENING + Calm(maxKeepAlive - 1), quiet);
    StallsForEver(Counted(maxLifetime, maxKeepAlive, maxLifetime - maxKeepAlive - 1, 1, KeepAlive), quiet);
  }
}
