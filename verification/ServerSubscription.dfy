/** A server subscription: the state table of OPC UA Part 4, section 5.13.1.2, as the server runs it, and the numbering
    of its notification messages (lib/src/server/subscriptions/subscription.rs). */
module ServerSubscription {
  import opened Prelude
  import opened MessageQueues

  datatype Phase = Closed | Creating | Normal | Late | KeepAlive

  datatype Reason = ReceivePublishRequest | TickTimerFired

  /** `SubscriptionStateParams` */
  datatype Inputs = Inputs(
    notificationsAvailable: bool,
    moreNotifications: bool,
    requestQueued: bool,
    timerExpired: bool)

  datatype Action = NoAction | ReturnKeepAlive | ReturnNotifications | SubscriptionCreated | SubscriptionExpired

  /** What the state table reads and writes. */
  datatype Core = Core(
    phase: Phase,
    lifetime: u32,
    maxLifetime: u32,
    keepAlive: u32,
    maxKeepAlive: u32,
    messageSent: bool,
    enabled: bool)
  {
    predicate Live() { phase.Normal? || phase.Late? || phase.KeepAlive? }
  }

  // ---------------------------------------------------------------- the table

  /** The test that the code makes for row `n` of the table. Row 27 is tested before the others, which are reached only
      with another lifetime. */
  predicate Guard(n: nat, c: Core, reason: Reason, p: Inputs) {
    var received := reason.ReceivePublishRequest?;
    var publishable := c.enabled && p.notificationsAvailable;
    if n == 3 then c.phase.Creating?
    else if n == 27 then c.Live() && c.lifetime == 1
    else
      && c.Live() && c.lifetime != 1
      && match n
         case 4 => c.phase.Normal? && received && !(c.enabled && p.moreNotifications)
         case 5 => c.phase.Normal? && received && c.enabled && p.moreNotifications
         case 6 => c.phase.Normal? && p.timerExpired && p.requestQueued && publishable
         case 7 => c.phase.Normal? && p.timerExpired && p.requestQueued && !c.messageSent && !publishable
         case 8 => c.phase.Normal? && p.timerExpired && !p.requestQueued && (!c.messageSent || publishable)
         case 9 => c.phase.Normal? && p.timerExpired && c.messageSent && !publishable
         case 10 => c.phase.Late? && received && c.enabled && (p.notificationsAvailable || p.moreNotifications)
         case 11 => c.phase.Late? && received && !(c.enabled && (p.notificationsAvailable || p.moreNotifications))
         case 12 => c.phase.Late? && p.timerExpired
         case 13 => c.phase.KeepAlive? && received
         case 14 => c.phase.KeepAlive? && p.timerExpired && p.requestQueued && publishable
         case 15 => c.phase.KeepAlive? && p.timerExpired && p.requestQueued && c.keepAlive == 1
                    && (!c.enabled || (c.enabled && p.notificationsAvailable))
         case 16 => c.phase.KeepAlive? && p.timerExpired && c.keepAlive > 1 && !publishable
         case 17 => c.phase.KeepAlive? && p.timerExpired && !p.requestQueued
                    && (c.keepAlive == 1 || (c.keepAlive > 1 && publishable))
         case _ => false
  }

  /** The publishing timer is started, which costs one of the lifetime counter. */
  predicate StartsTimer(n: nat) { n == 6 || n == 7 || n == 8 || n == 9 || n == 12 || n == 15 || n == 16 || n == 17 }

  predicate ResetsLifetime(n: nat) { n == 5 || n == 6 || n == 7 || n == 10 || n == 11 }

  /** The lifetime counter before the timer is started. */
  function LifetimeBefore(n: nat, c: Core): u32 { if ResetsLifetime(n) then c.maxLifetime else c.lifetime }

  /** The counter is taken below zero. */
  predicate Underflows(n: nat, c: Core) { StartsTimer(n) && LifetimeBefore(n, c) == 0 }

  function PhaseAfter(n: nat, c: Core): Phase {
    match n
    case 3 => Normal
    case 8 => Late
    case 9 => KeepAlive
    case 10 => Normal
    case 11 => KeepAlive
    case 14 => Normal
    case 17 => Late
    case 27 => Closed
    case _ => c.phase
  }

  function Effect(n: nat, c: Core): Core
    requires !Underflows(n, c) && (n == 16 ==> c.keepAlive > 0)
  {
    c.(phase := PhaseAfter(n, c),
       lifetime := LifetimeBefore(n, c) - if StartsTimer(n) then 1 else 0,
       keepAlive := if n == 9 || n == 15 then c.maxKeepAlive else if n == 16 then c.keepAlive - 1 else c.keepAlive,
       messageSent :=
         if n == 3 then false else c.messageSent || n == 5 || n == 6 || n == 7 || n == 10 || n == 11 || n == 14)
  }

  function ActionOf(n: nat): Action {
    match n
    case 3 => SubscriptionCreated
    case 5 => ReturnNotifications
    case 6 => ReturnNotifications
    case 7 => ReturnKeepAlive
    case 10 => ReturnNotifications
    case 11 => ReturnKeepAlive
    case 14 => ReturnNotifications
    case 15 => ReturnKeepAlive
    case 27 => SubscriptionExpired
    case _ => NoAction
  }

  /** A request and the timer never come together. */
  predicate Possible(reason: Reason, p: Inputs) { reason.ReceivePublishRequest? ==> !p.timerExpired }

  lemma GuardBelow28(n: nat, c: Core, reason: Reason, p: Inputs)
    requires Guard(n, c, reason, p)
    ensures n == 3 || 4 <= n <= 17 || n == 27
  {
  }

  /** Where two tests hold together: rows 14 and 15 do when publishing is enabled, with notifications to send. */
  predicate Overlap(c: Core, p: Inputs) {
    && c.phase.KeepAlive? && c.lifetime != 1 && c.keepAlive == 1 && c.enabled
    && p.timerExpired && p.requestQueued && p.notificationsAvailable
  }

  /** Two tests hold together exactly there, so the order of the tests matters for rows 14 and 15 and for no others. */
  lemma TestsOverlapIff(m: nat, n: nat, c: Core, reason: Reason, p: Inputs)
    requires Possible(reason, p) && m < n
    ensures Guard(m, c, reason, p) && Guard(n, c, reason, p) <==> m == 14 && n == 15 && Overlap(c, p)
  {
    if Guard(m, c, reason, p) && Guard(n, c, reason, p) {
      GuardBelow28(m, c, reason, p);
      GuardBelow28(n, c, reason, p);
    }
  }

  /** There the order decides between sending notifications and sending a keep-alive. */
  lemma OverlapExample()
    ensures
      var c := Core(KeepAlive, 5, 10, 1, 3, true, true);
      var p := Inputs(true, false, true, true);
      && Guard(14, c, TickTimerFired, p) && Guard(15, c, TickTimerFired, p)
      && ActionOf(14) == ReturnNotifications && ActionOf(15) == ReturnKeepAlive
      && Row(c, TickTimerFired, p) == 14
  {
    RowIs(14, Core(KeepAlive, 5, 10, 1, 3, true, true), TickTimerFired, Inputs(true, false, true, true));
  }

  /** The first test that holds. */
  ghost predicate IsFirst(n: nat, c: Core, reason: Reason, p: Inputs) {
    Guard(n, c, reason, p) && forall m: nat | m < n :: !Guard(m, c, reason, p)
  }

  /** The row found by trying the tests in order, or zero. */
  function Row(c: Core, reason: Reason, p: Inputs): (n: nat)
    ensures if n == 0 then forall m: nat :: !Guard(m, c, reason, p) else IsFirst(n, c, reason, p)
  {
    var n := FirstRow(c, reason, p, 3);
    assert forall m: nat :: Guard(m, c, reason, p) ==> 3 <= m < 28 by {
      forall m: nat | Guard(m, c, reason, p) ensures 3 <= m < 28 { GuardBelow28(m, c, reason, p); }
    }
    n
  }

  /** The first row from `k` on whose test holds. */
  function FirstRow(c: Core, reason: Reason, p: Inputs, k: nat): (n: nat)
    requires k <= 28
    ensures
      if n == 0 then forall m: nat | k <= m < 28 :: !Guard(m, c, reason, p)
      else k <= n < 28 && Guard(n, c, reason, p) && forall m: nat | k <= m < n :: !Guard(m, c, reason, p)
    decreases 28 - k
  {
    if k == 28 then 0 else if Guard(k, c, reason, p) then k else FirstRow(c, reason, p, k + 1)
  }

  lemma RowIs(n: nat, c: Core, reason: Reason, p: Inputs)
    requires Possible(reason, p) && Guard(n, c, reason, p) && (n == 15 ==> !c.enabled)
    ensures Row(c, reason, p) == n
  {
    GuardBelow28(n, c, reason, p);
    var r := Row(c, reason, p);
    if r < n { TestsOverlapIff(r, n, c, reason, p); }
  }

  lemma RowFound(n: nat, c: Core, reason: Reason, p: Inputs)
    requires Possible(reason, p)
    requires if n == 0 then forall m: nat :: !Guard(m, c, reason, p) else Guard(n, c, reason, p) && (n == 15 ==> !c.enabled)
    ensures Row(c, reason, p) == n
  {
    if n != 0 { RowIs(n, c, reason, p); }
  }

  /** The rows that depend on nothing but the subscription itself. */
  lemma EarlyRows(c: Core, reason: Reason, p: Inputs)
    ensures !Underflows(27, c) && !Underflows(3, c) && !Underflows(0, c)
    ensures c.Live() && c.lifetime == 1 ==> Guard(27, c, reason, p) && Effect(27, c) == c.(phase := Closed)
    ensures c.phase.Creating? ==> Guard(3, c, reason, p) && Effect(3, c) == c.(phase := Normal, messageSent := false)
    ensures c.phase.Closed? ==> (forall m: nat :: !Guard(m, c, reason, p)) && Effect(0, c) == c
  {
  }

  // ---------------------------------------------------------------- messages

  datatype Kind = Data | Alive | StatusChange

  datatype Message = Message(number: u32, kind: Kind)

  /** A subscription with the messages it has ever queued. */
  datatype State = State(core: Core, next: u32, last: u32, queue: seq<Message>, queued: seq<Message>)

  datatype Ticked = Done(state: State) | Panic

  function Expected(last: u32): u32 { if last == MAX_U32 then 1 else last + 1 }

  /** `enqueue_notification`, which stops the server when the number is not the expected one. */
  function Enqueue(s: State, m: Message): Ticked {
    if m.number != Expected(s.last) then Panic
    else Done(s.(last := m.number, queue := s.queue + [m], queued := s.queued + [m]))
  }

  /** A message made by the subscription itself takes the next number. */
  function EnqueueOwn(s: State, kind: Kind): Ticked {
    Enqueue(s.(next := NextHandle(s.next, 1)), Message(s.next, kind))
  }

  /** `handle_state_result`; `number` is that of the notification made in this tick, if any. */
  function HandleResult(s: State, action: Action, number: Option<u32>): Ticked {
    var restored := if number.Some? then s.(next := number.value) else s;
    match action
    case NoAction => Done(restored)
    case ReturnKeepAlive => EnqueueOwn(restored, Alive)
    case ReturnNotifications => if number.Some? then Enqueue(s, Message(number.value, Data)) else Done(s)
    case SubscriptionCreated => if number.Some? then Panic else Done(s)
    case SubscriptionExpired => if number.Some? then Panic else EnqueueOwn(s, StatusChange)
  }

  /** One tick. `elapsed` is whether the publishing interval is over, `changed` whether items then have something to
      report, `queued` whether a publish request waits. */
  function Tick(s: State, reason: Reason, queued: bool, elapsed: bool, changed: bool): Ticked {
    var expired := TimerExpired(s, reason, elapsed);
    var produced := Produces(s, reason, elapsed, changed);
    var number := if produced then Some(s.next) else None;
    var t := if produced then s.(next := NextHandle(s.next, 1)) else s;
    var p := InputsOf(s, reason, queued, elapsed, changed);
    if p.notificationsAvailable || expired || queued then
      var n := Row(s.core, reason, p);
      if Underflows(n, s.core) then Panic else HandleResult(t.(core := Effect(n, s.core)), ActionOf(n), number)
    else Done(t)
  }

  predicate TimerExpired(s: State, reason: Reason, elapsed: bool) {
    reason.TickTimerFired? && (s.core.phase.Creating? || elapsed)
  }

  /** Items are asked only in a live phase, and report only when the interval is over. */
  predicate Produces(s: State, reason: Reason, elapsed: bool, changed: bool) {
    s.core.Live() && TimerExpired(s, reason, elapsed) && changed
  }

  function InputsOf(s: State, reason: Reason, queued: bool, elapsed: bool, changed: bool): (p: Inputs)
    ensures Possible(reason, p)
  {
    Inputs(s.queue != [] || Produces(s, reason, elapsed, changed), |s.queue| > 1, queued, TimerExpired(s, reason, elapsed))
  }

  function Start(maxLifetime: u32, maxKeepAlive: u32, enabled: bool): State {
    State(Core(Creating, maxLifetime, maxLifetime, maxKeepAlive, maxKeepAlive, false, enabled), 1, 0, [], [])
  }

  // ---------------------------------------------------------------- numbering

  /** The next number is the one expected, and every message so far has carried the next one in turn. */
  predicate Numbered(s: State) {
    && s.next == Expected(s.last)
    && (if s.queued == [] then s.last == 0 else s.last == s.queued[|s.queued| - 1].number)
    && forall i :: 0 <= i < |s.queued| ==> s.queued[i].number == HandleAt(1, i)
  }

  lemma NextIsNumbered(s: State)
    requires Numbered(s)
    ensures s.next == HandleAt(1, |s.queued|)
  {
  }

  lemma EnqueueKeepsNumbered(s: State, m: Message)
    requires Numbered(s) && m.number == s.next
    ensures
      var t := s.(next := NextHandle(s.next, 1));
      var r := Enqueue(t, m);
      r.Done? && Numbered(r.state) && r.state.queued == s.queued + [m] && r.state.queue == s.queue + [m]
  {
    NextIsNumbered(s);
  }

  /** No tick queues a message out of turn: the only panics left are an expiry that coincides with a notification, and a
      lifetime counter taken below zero. */
  lemma TickKeepsNumbered(s: State, reason: Reason, queued: bool, elapsed: bool, changed: bool)
    requires Numbered(s)
    ensures
      var p := InputsOf(s, reason, queued, elapsed, changed);
      var r := Tick(s, reason, queued, elapsed, changed);
      && (r.Done? ==> Numbered(r.state))
      && (r.Panic? <==> Underflows(Row(s.core, reason, p), s.core)
                        || (s.core.lifetime == 1 && Produces(s, reason, elapsed, changed)))
  {
    hide Numbered, Row, IsFirst, Guard;
    var p := InputsOf(s, reason, queued, elapsed, changed);
    var n := Row(s.core, reason, p);
    var produced := Produces(s, reason, elapsed, changed);
    RowWhenProduced(s, reason, queued, elapsed, changed);
    if !Underflows(n, s.core) {
      var u := s.(core := Effect(n, s.core));
      SameNumbers(s, u);
      EnqueueKeepsNumbered(u, Message(s.next, Data));
      EnqueueKeepsNumbered(u, Message(s.next, Alive));
      EnqueueKeepsNumbered(u, Message(s.next, StatusChange));
      assert u.(next := NextHandle(s.next, 1)).(next := s.next) == u;
    }
  }

  lemma SameNumbers(s: State, t: State)
    requires Numbered(s) && t.next == s.next && t.last == s.last && t.queued == s.queued
    ensures Numbered(t)
  {
  }

  lemma RowWhenProduced(s: State, reason: Reason, queued: bool, elapsed: bool, changed: bool)
    ensures
      var n := Row(s.core, reason, InputsOf(s, reason, queued, elapsed, changed));
      && (Produces(s, reason, elapsed, changed) ==> n != 3 && (n == 27 <==> s.core.lifetime == 1))
      && (n == 16 ==> s.core.keepAlive > 0)
      && (StartsTimer(n) ==> TimerExpired(s, reason, elapsed))
  {
    var p := InputsOf(s, reason, queued, elapsed, changed);
    var n := Row(s.core, reason, p);
    if Produces(s, reason, elapsed, changed) && s.core.lifetime == 1 {
      RowIs(27, s.core, reason, p);
    }
  }

  // ---------------------------------------------------------------- the class

  class Subscription {
    var state: Phase
    var lifetimeCounter: u32
    var maxLifetimeCounter: u32
    var keepAliveCounter: u32
    var maxKeepAliveCounter: u32
    var firstMessageSent: bool
    var publishingEnabled: bool
    var sequenceNumber: u32
    var lastSequenceNumber: u32
    var notifications: seq<Message>
    ghost var everQueued: seq<Message>

    ghost function CoreOf(): Core
      reads this
    {
      Core(state, lifetimeCounter, maxLifetimeCounter, keepAliveCounter, maxKeepAliveCounter, firstMessageSent,
           publishingEnabled)
    }

    ghost function Content(): State
      reads this
    {
      State(CoreOf(), sequenceNumber, lastSequenceNumber, notifications, everQueued)
    }

    constructor (publishingEnabled: bool, lifetimeCounter: u32, keepAliveCounter: u32)
      ensures Content() == Start(lifetimeCounter, keepAliveCounter, publishingEnabled)
    {
      state := Creating;
      this.lifetimeCounter, maxLifetimeCounter := lifetimeCounter, lifetimeCounter;
      this.keepAliveCounter, maxKeepAliveCounter := keepAliveCounter, keepAliveCounter;
      firstMessageSent := false;
      this.publishingEnabled := publishingEnabled;
      sequenceNumber, lastSequenceNumber := 1, 0;
      notifications, everQueued := [], [];
    }

    method ResetLifetimeCounter()
      modifies `lifetimeCounter
      ensures lifetimeCounter == maxLifetimeCounter
    {
      lifetimeCounter := maxLifetimeCounter;
    }

    method ResetKeepAliveCounter()
      modifies `keepAliveCounter
      ensures keepAliveCounter == maxKeepAliveCounter
    {
      keepAliveCounter := maxKeepAliveCounter;
    }

    /** `panicked` is the subtraction below zero. */
    method StartPublishingTimer() returns (panicked: bool)
      modifies `lifetimeCounter
      ensures panicked == (old(lifetimeCounter) == 0)
      ensures !panicked ==> lifetimeCounter == old(lifetimeCounter) - 1
    {
      if lifetimeCounter == 0 { return true; }
      lifetimeCounter := lifetimeCounter - 1;
      panicked := false;
    }

    method UpdateNormal(reason: Reason, p: Inputs) returns (row: nat, panicked: bool)
      requires state.Normal? && lifetimeCounter != 1 && Possible(reason, p)
      modifies `state, `lifetimeCounter, `keepAliveCounter, `firstMessageSent
      ensures row != 0 ==> Guard(row, old(CoreOf()), reason, p) && (row == 15 ==> !publishingEnabled)
      ensures row == 0 ==> forall n: nat :: !Guard(n, old(CoreOf()), reason, p)
      ensures panicked == Underflows(row, old(CoreOf()))
      ensures !panicked ==> CoreOf() == Effect(row, old(CoreOf()))
    {
      panicked := false;
      if reason.ReceivePublishRequest? && (!publishingEnabled || (publishingEnabled && !p.moreNotifications)) {
        row := 4;
      } else if reason.ReceivePublishRequest? && publishingEnabled && p.moreNotifications {
        row := 5;
        ResetLifetimeCounter();
        firstMessageSent := true;
      } else if p.timerExpired && p.requestQueued && publishingEnabled && p.notificationsAvailable {
        row := 6;
        ResetLifetimeCounter();
        panicked := StartPublishingTimer();
        firstMessageSent := true;
      } else if p.timerExpired && p.requestQueued && !firstMessageSent
                && (!publishingEnabled || (publishingEnabled && !p.notificationsAvailable)) {
        row := 7;
        ResetLifetimeCounter();
        panicked := StartPublishingTimer();
        firstMessageSent := true;
      } else if p.timerExpired && !p.requestQueued
                && (!firstMessageSent || (publishingEnabled && p.notificationsAvailable)) {
        row := 8;
        panicked := StartPublishingTimer();
        state := Late;
      } else if p.timerExpired && firstMessageSent
                && (!publishingEnabled || (publishingEnabled && !p.notificationsAvailable)) {
        row := 9;
        panicked := StartPublishingTimer();
        ResetKeepAliveCounter();
        state := KeepAlive;
      } else {
        row := 0;
      }
    }

    method UpdateLate(reason: Reason, p: Inputs) returns (row: nat, panicked: bool)
      requires state.Late? && lifetimeCounter != 1 && Possible(reason, p)
      modifies `state, `lifetimeCounter, `keepAliveCounter, `firstMessageSent
      ensures row != 0 ==> Guard(row, old(CoreOf()), reason, p) && (row == 15 ==> !publishingEnabled)
      ensures row == 0 ==> forall n: nat :: !Guard(n, old(CoreOf()), reason, p)
      ensures panicked == Underflows(row, old(CoreOf()))
      ensures !panicked ==> CoreOf() == Effect(row, old(CoreOf()))
    {
      panicked := false;
      if reason.ReceivePublishRequest? && publishingEnabled && (p.notificationsAvailable || p.moreNotifications) {
        row := 10;
        ResetLifetimeCounter();
        state := Normal;
        firstMessageSent := true;
      } else if reason.ReceivePublishRequest?
                && (!publishingEnabled || (publishingEnabled && !p.notificationsAvailable && !p.moreNotifications)) {
        row := 11;
        ResetLifetimeCounter();
        state := KeepAlive;
        firstMessageSent := true;
      } else if p.timerExpired {
        row := 12;
        panicked := StartPublishingTimer();
      } else {
        row := 0;
      }
    }

    method UpdateKeepAlive(reason: Reason, p: Inputs) returns (row: nat, panicked: bool)
      requires state.KeepAlive? && lifetimeCounter != 1 && Possible(reason, p)
      modifies `state, `lifetimeCounter, `keepAliveCounter, `firstMessageSent
      ensures row != 0 ==> Guard(row, old(CoreOf()), reason, p) && (row == 15 ==> !publishingEnabled)
      ensures row == 0 ==> forall n: nat :: !Guard(n, old(CoreOf()), reason, p)
      ensures panicked == Underflows(row, old(CoreOf()))
      ensures !panicked ==> CoreOf() == Effect(row, old(CoreOf()))
    {
      panicked := false;
      if reason.ReceivePublishRequest? {
        row := 13;
      } else if p.timerExpired && publishingEnabled && p.notificationsAvailable && p.requestQueued {
        row := 14;
        firstMessageSent := true;
        state := Normal;
      } else if p.timerExpired && p.requestQueued && keepAliveCounter == 1
                && (!publishingEnabled || (publishingEnabled && p.notificationsAvailable)) {
        row := 15;
        panicked := StartPublishingTimer();
        ResetKeepAliveCounter();
      } else if p.timerExpired && keepAliveCounter > 1
                && (!publishingEnabled || (publishingEnabled && !p.notificationsAvailable)) {
        row := 16;
        panicked := StartPublishingTimer();
        keepAliveCounter := keepAliveCounter - 1;
      } else if p.timerExpired && !p.requestQueued
                && (keepAliveCounter == 1 || (keepAliveCounter > 1 && publishingEnabled && p.notificationsAvailable)) {
        row := 17;
        panicked := StartPublishingTimer();
        state := Late;
      } else {
        row := 0;
      }
    }

    /** `update_state` */
    method UpdateState(reason: Reason, p: Inputs) returns (row: nat, panicked: bool)
      modifies `state, `lifetimeCounter, `keepAliveCounter, `firstMessageSent
      ensures panicked <==> !Possible(reason, p) || Underflows(Row(old(CoreOf()), reason, p), old(CoreOf()))
      ensures !panicked ==> row == Row(old(CoreOf()), reason, p) && CoreOf() == Effect(row, old(CoreOf()))
    {
      if reason.ReceivePublishRequest? && p.timerExpired { return 0, true; }
      ghost var c := CoreOf();
      EarlyRows(c, reason, p);
      hide Row, Guard, Effect, Underflows;
      panicked := false;
      if (state.Normal? || state.Late? || state.KeepAlive?) && lifetimeCounter == 1 {
        row := 27;
        state := Closed;
      } else {
        match state {
          case Creating =>
            row := 3;
            state := Normal;
            firstMessageSent := false;
          case Normal => row, panicked := UpdateNormal(reason, p);
          case Late => row, panicked := UpdateLate(reason, p);
          case KeepAlive => row, panicked := UpdateKeepAlive(reason, p);
          case Closed => row := 0;
        }
      }
      RowFound(row, c, reason, p);
    }

    /** `enqueue_notification` */
    method EnqueueNotification(m: Message) returns (panicked: bool)
      modifies `lastSequenceNumber, `notifications, `everQueued
      ensures var r := Enqueue(old(Content()), m); panicked == r.Panic? && (!panicked ==> Content() == r.state)
    {
      var expected := if lastSequenceNumber == MAX_U32 then 1 else lastSequenceNumber + 1;
      if m.number != expected { return true; }
      lastSequenceNumber := m.number;
      notifications := notifications + [m];
      everQueued := everQueued + [m];
      panicked := false;
    }

    /** `handle_state_result` */
    method HandleStateResult(action: Action, number: Option<u32>) returns (panicked: bool)
      modifies `sequenceNumber, `lastSequenceNumber, `notifications, `everQueued
      ensures var r := HandleResult(old(Content()), action, number); panicked == r.Panic? && (!panicked ==> Content() == r.state)
    {
      panicked := false;
      match action {
        case NoAction =>
          if number.Some? { sequenceNumber := number.value; }
        case ReturnKeepAlive =>
          if number.Some? { sequenceNumber := number.value; }
          var next := sequenceNumber;
          sequenceNumber := NextHandle(sequenceNumber, 1);
          panicked := EnqueueNotification(Message(next, Alive));
        case ReturnNotifications =>
          if number.Some? { panicked := EnqueueNotification(Message(number.value, Data)); }
        case SubscriptionCreated =>
          panicked := number.Some?;
        case SubscriptionExpired =>
          if number.Some? { return true; }
          var next := sequenceNumber;
          sequenceNumber := NextHandle(sequenceNumber, 1);
          panicked := EnqueueNotification(Message(next, StatusChange));
      }
    }

    /** `tick`; `elapsed` and `changed` are what the clock and the monitored items would answer. */
    method RunTick(reason: Reason, queued: bool, elapsed: bool, changed: bool) returns (panicked: bool)
      modifies this
      ensures
        var r := Tick(old(Content()), reason, queued, elapsed, changed);
        panicked == r.Panic? && (!panicked ==> Content() == r.state)
    {
      hide Row, Effect, HandleResult, Underflows;
      ghost var s := Content();
      var expired := reason.TickTimerFired? && (state.Creating? || elapsed);
      var number: Option<u32> := None;
      if !state.Closed? && !state.Creating? && expired && changed {
        number := Some(sequenceNumber);
        sequenceNumber := NextHandle(sequenceNumber, 1);
      }
      var p := Inputs(notifications != [] || number.Some?, |notifications| > 1, queued, expired);
      assert p == InputsOf(s, reason, queued, elapsed, changed);
      panicked := false;
      if p.notificationsAvailable || expired || queued {
        var row, failed := UpdateState(reason, p);
        if failed { return true; }
        panicked := HandleStateResult(ActionOf(row), number);
      }
    }

    method TakeNotification() returns (m: Option<Message>)
      modifies `notifications
      ensures m == if old(notifications) == [] then None else Some(old(notifications)[0])
      ensures notifications == if old(notifications) == [] then [] else old(notifications)[1..]
    {
      if notifications == [] { return None; }
      m := Some(notifications[0]);
      notifications := notifications[1..];
    }
  }
}
