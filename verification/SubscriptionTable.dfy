/** What a tick does to a server subscription, phase by phase, and how long the subscription lives after a request was
    served (lib/src/server/subscriptions/subscription.rs; OPC UA Part 4, section 5.13.1.2). */
module SubscriptionTable {
  import opened Prelude
  import opened ServerSubscription
  import opened ServerSubscriptionLaws

  /** The subscription with a message of its own, under the next number. */
  function With(s: State, kind: Kind): State {
    s.(next := if s.next == 0xFFFF_FFFF then 1 else s.next + 1, last := s.next,
       queue := s.queue + [Message(s.next, kind)], queued := s.queued + [Message(s.next, kind)])
  }

  /** A subscription whose next number is in turn and whose counters have not run out. */
  predicate Ready(s: State) { s.next == Expected(s.last) && Counting(s.core) }

  // ---------------------------------------------------------------- creation and expiry

  /** The first tick that has anything to do makes a new subscription normal. */
  lemma CreatingTick(s: State, reason: Reason, waiting: bool, elapsed: bool, changed: bool)
    requires s.core.phase.Creating?
    ensures Tick(s, reason, waiting, elapsed, changed) ==
            Done(if reason.TickTimerFired? || waiting || s.queue != []
                 then s.(core := s.core.(phase := Normal, messageSent := false)) else s)
  {
    RowIs(3, s.core, reason, InputsOf(s, reason, waiting, elapsed, changed));
    hide Row;
  }

  /** With the lifetime run out, the next tick that has anything to do closes the subscription, and says so. */
  lemma ExpiringTick(s: State, reason: Reason, waiting: bool, elapsed: bool, changed: bool)
    requires s.core.Live() && s.core.lifetime == 1 && Ready(s)
    ensures Tick(s, reason, waiting, elapsed, changed) ==
            if reason.TickTimerFired? && elapsed && changed then Panic
            else if waiting || s.queue != [] || (reason.TickTimerFired? && elapsed)
            then Done(With(s.(core := s.core.(phase := Closed)), StatusChange)) else Done(s)
  {
    RowIs(27, s.core, reason, InputsOf(s, reason, waiting, elapsed, changed));
    hide Row;
  }

  // ---------------------------------------------------------------- the arrival of a request

  /** A normal subscription with several messages to send counts its lifetime anew; nothing else happens. */
  lemma NormalArrival(s: State, waiting: bool, elapsed: bool, changed: bool)
    requires s.core.phase.Normal? && s.core.lifetime != 1
    ensures Tick(s, ReceivePublishRequest, waiting, elapsed, changed) ==
            Done(if s.core.enabled && |s.queue| > 1
                 then s.(core := s.core.(lifetime := s.core.maxLifetime, messageSent := true)) else s)
  {
    var p := InputsOf(s, ReceivePublishRequest, waiting, elapsed, changed);
    RowIs(if s.core.enabled && p.moreNotifications then 5 else 4, s.core, ReceivePublishRequest, p);
    hide Row;
  }

  /** A late subscription that a request reaches counts its whole lifetime anew. It is normal again when it may publish
      and has something to send; otherwise it sends a keep-alive and keeps alive. The request may be gone by the time the
      subscription is visited, which then matters only when it has nothing to send. */
  lemma LateArrival(s: State, waiting: bool, elapsed: bool, changed: bool)
    requires s.core.phase.Late? && s.core.lifetime != 1 && Ready(s)
    ensures Tick(s, ReceivePublishRequest, waiting, elapsed, changed) ==
            var served := s.core.(lifetime := s.core.maxLifetime, messageSent := true);
            Done(if !waiting && s.queue == [] then s
                 else if s.core.enabled && s.queue != [] then s.(core := served.(phase := Normal))
                 else With(s.(core := served.(phase := KeepAlive)), Alive))
  {
    var p := InputsOf(s, ReceivePublishRequest, waiting, elapsed, changed);
    RowIs(if s.core.enabled && s.queue != [] then 10 else 11, s.core, ReceivePublishRequest, p);
    hide Row;
  }

  /** A subscription that keeps alive takes no notice. */
  lemma KeepAliveArrival(s: State, waiting: bool, elapsed: bool, changed: bool)
    requires s.core.phase.KeepAlive? && s.core.lifetime != 1
    ensures Tick(s, ReceivePublishRequest, waiting, elapsed, changed) == Done(s)
  {
    RowIs(13, s.core, ReceivePublishRequest, InputsOf(s, ReceivePublishRequest, waiting, elapsed, changed));
    hide Row;
  }

  // ---------------------------------------------------------------- the end of an interval

  /** There is something to send and publishing is enabled. */
  predicate Publishable(s: State, changed: bool) { s.core.enabled && (s.queue != [] || changed) }

  /** The notification made in this interval, if any, is queued. */
  function Notified(s: State, changed: bool): State { if changed then With(s, Data) else s }

  lemma NormalInterval(s: State, waiting: bool, changed: bool)
    requires s.core.phase.Normal? && s.core.lifetime != 1 && Ready(s)
    ensures Tick(s, TickTimerFired, waiting, true, changed) ==
            var c := s.core;
            Done(
              if waiting && Publishable(s, changed)
              then Notified(s.(core := c.(lifetime := c.maxLifetime - 1, messageSent := true)), changed)
              else if waiting && !c.messageSent
              then With(s.(core := c.(lifetime := c.maxLifetime - 1, messageSent := true)), Alive)
              else if !waiting && (!c.messageSent || Publishable(s, changed))
              then s.(core := c.(phase := Late, lifetime := c.lifetime - 1))
              else s.(core := c.(phase := KeepAlive, lifetime := c.lifetime - 1, keepAlive := c.maxKeepAlive)))
  {
    var p := InputsOf(s, TickTimerFired, waiting, true, changed);
    var n := if waiting && Publishable(s, changed) then 6
             else if waiting && !s.core.messageSent then 7
             else if !waiting && (!s.core.messageSent || Publishable(s, changed)) then 8 else 9;
    RowIs(n, s.core, TickTimerFired, p);
    hide Row;
  }

  /** An interval costs a late subscription one of its lifetime; what its items report is dropped. */
  lemma LateInterval(s: State, waiting: bool, changed: bool)
    requires s.core.phase.Late? && s.core.lifetime != 1 && Ready(s)
    ensures Tick(s, TickTimerFired, waiting, true, changed) == Done(s.(core := s.core.(lifetime := s.core.lifetime - 1)))
  {
    RowIs(12, s.core, TickTimerFired, InputsOf(s, TickTimerFired, waiting, true, changed));
    hide Row;
  }

  lemma KeepAliveInterval(s: State, waiting: bool, changed: bool)
    requires s.core.phase.KeepAlive? && s.core.lifetime != 1 && Ready(s)
    ensures Tick(s, TickTimerFired, waiting, true, changed) ==
            var c := s.core;
            Done(
              if waiting && Publishable(s, changed)
              then Notified(s.(core := c.(phase := Normal, messageSent := true)), changed)
              else if waiting && c.keepAlive == 1 && !c.enabled
              then With(s.(core := c.(lifetime := c.lifetime - 1, keepAlive := c.maxKeepAlive)), Alive)
              else if waiting && c.keepAlive == 1 then s
              else if c.keepAlive > 1 && !Publishable(s, changed)
              then s.(core := c.(lifetime := c.lifetime - 1, keepAlive := c.keepAlive - 1))
              else s.(core := c.(phase := Late, lifetime := c.lifetime - 1)))
  {
    var c := s.core;
    var p := InputsOf(s, TickTimerFired, waiting, true, changed);
    if waiting && c.keepAlive == 1 && c.enabled && !Publishable(s, changed) {
      assert forall n: nat :: !Guard(n, c, TickTimerFired, p);
    } else {
      var n := if waiting && Publishable(s, changed) then 14
               else if waiting && c.keepAlive == 1 then 15
               else if c.keepAlive > 1 && !Publishable(s, changed) then 16 else 17;
      RowIs(n, c, TickTimerFired, p);
    }
    hide Row;
  }

  /** Between intervals the timer does nothing. */
  lemma BetweenIntervals(s: State, waiting: bool, changed: bool)
    requires s.core.Live() && s.core.lifetime != 1
    ensures Tick(s, TickTimerFired, waiting, false, changed) == Done(s)
  {
    var p := InputsOf(s, TickTimerFired, waiting, false, changed);
    assert forall n: nat :: !Guard(n, s.core, TickTimerFired, p);
    hide Row;
  }

  // ---------------------------------------------------------------- counters

  /** Both counters after every tick that sends a message: a late subscription counts its whole lifetime anew, a normal
      one all but the interval just over; one that keeps alive goes on counting, and only its own keep-alive starts the
      keep-alive count again. */
  lemma CountersAfterSending(s: State, reason: Reason, waiting: bool, elapsed: bool, changed: bool, m: Message)
    requires s.core.Live() && s.core.lifetime != 1 && Ready(s)
    requires Tick(s, reason, waiting, elapsed, changed).Done?
    requires Tick(s, reason, waiting, elapsed, changed).state.queued == s.queued + [m]
    ensures
      var c := Tick(s, reason, waiting, elapsed, changed).state.core;
      match s.core.phase
      case Late => reason.ReceivePublishRequest? && c.lifetime == s.core.maxLifetime && c.keepAlive == s.core.keepAlive
      case Normal => elapsed && c.lifetime == s.core.maxLifetime - 1 && c.keepAlive == s.core.keepAlive
      case _ =>
        if m.kind.Alive? then c.lifetime == s.core.lifetime - 1 && c.keepAlive == s.core.maxKeepAlive
        else c.lifetime == s.core.lifetime && c.keepAlive == s.core.keepAlive
  {
    hide Tick, Counting;
    assert |s.queued + [m]| != |s.queued| && (s.queued + [m])[|s.queued|] == m;
    if reason.TickTimerFired? && !elapsed {
      BetweenIntervals(s, waiting, changed);
    } else {
      match s.core.phase
      case Late =>
        if reason.TickTimerFired? { LateInterval(s, waiting, changed); } else { LateArrival(s, waiting, elapsed, changed); }
      case Normal =>
        if reason.TickTimerFired? { NormalInterval(s, waiting, changed); } else { NormalArrival(s, waiting, elapsed, changed); }
      case _ =>
        if reason.TickTimerFired? { KeepAliveInterval(s, waiting, changed); } else { KeepAliveArrival(s, waiting, elapsed, changed); }
    }
  }

  // ---------------------------------------------------------------- life after a request

  /** The intervals without request that a late subscription lives after a request reached it: as many as its maximum. */
  lemma LivesAfterLateService(s: State, elapsed: bool, changed: bool, changes: seq<bool>)
    requires Sound(s) && s.core.phase.Late? && s.core.lifetime != 1 && |changes| <= s.core.maxLifetime
    ensures
      var served := Tick(s, ReceivePublishRequest, true, elapsed, changed);
      && served.Done?
      && var r := IdleFor(served.state, changes);
         if |changes| == s.core.maxLifetime && changes[|changes| - 1] then r.Panic?
         else r.Done? && (r.state.core.phase.Closed? <==> |changes| == s.core.maxLifetime)
  {
    hide Tick, IdleFor, Numbered, IsTail, ClosedLast;
    NumberIsExpected(s);
    LateArrival(s, true, elapsed, changed);
    TickKeepsSound(s, ReceivePublishRequest, true, elapsed, changed);
    LivesForLifetime(Tick(s, ReceivePublishRequest, true, elapsed, changed).state, changes);
  }

  /** The same after an interval in which a normal subscription answers a request: one fewer. */
  lemma LivesAfterNormalService(s: State, changed: bool, changes: seq<bool>)
    requires Sound(s) && s.core.phase.Normal? && s.core.lifetime != 1 && |changes| <= s.core.maxLifetime - 1
    requires Publishable(s, changed) || !s.core.messageSent
    ensures
      var served := Tick(s, TickTimerFired, true, true, changed);
      && served.Done?
      && var r := IdleFor(served.state, changes);
         if |changes| == s.core.maxLifetime - 1 && changes[|changes| - 1] then r.Panic?
         else r.Done? && (r.state.core.phase.Closed? <==> |changes| == s.core.maxLifetime - 1)
  {
    hide Tick, IdleFor, Numbered, IsTail, ClosedLast;
    NumberIsExpected(s);
    NormalInterval(s, true, changed);
    TickKeepsSound(s, TickTimerFired, true, true, changed);
    LivesForLifetime(Tick(s, TickTimerFired, true, true, changed).state, changes);
  }

  // ---------------------------------------------------------------- services

  /** What the services do between ticks: a modification sets both limits and starts both counts, a change of the
      publishing mode starts the lifetime, and so does any service that names the subscription. */
  lemma Services(s: State, maxLifetime: u32, maxKeepAlive: u32, enabled: bool)
    ensures Step(s, Modify(maxLifetime, maxKeepAlive)) ==
            Done(s.(core := Core(s.core.phase, maxLifetime, maxLifetime, maxKeepAlive, maxKeepAlive, s.core.messageSent,
                                 s.core.enabled)))
    ensures Step(s, Enable(enabled)) == Done(s.(core := s.core.(enabled := enabled, lifetime := s.core.maxLifetime)))
    ensures Step(s, ResetLifetime) == Done(s.(core := s.core.(lifetime := s.core.maxLifetime)))
    ensures Start(maxLifetime, maxKeepAlive, enabled) ==
            State(Core(Creating, maxLifetime, maxLifetime, maxKeepAlive, maxKeepAlive, false, enabled), 1, 0, [], [])
  {
  }
}
