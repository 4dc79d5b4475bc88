/** The subscriptions of a client session and their cached keep-alive timeout (lib/src/client/subscription_state.rs). */
module SubscriptionStates {
  import opened Prelude
  import ClientSubscription

  datatype Subscription<V> = Subscription(
    publishingInterval: real,
    lifetimeCount: u32,
    maxKeepAliveCount: u32,
    maxNotificationsPerPublish: u32,
    priority: u8,
    publishingEnabled: bool,
    content: ClientSubscription.State<V>)

  const MAX_U64: int := 0xFFFF_FFFF_FFFF_FFFF

  /** The cast of a float to 64 bits, which saturates. */
  function ToU64(n: int): (r: u64) { if n < 0 then 0 else if n > MAX_U64 then MAX_U64 else n }

  function Timeout<V>(s: Subscription<V>): u64 { ToU64((s.publishingInterval * s.lifetimeCount as real).Floor) }

  /** `t` is the least timeout of the subscriptions, and there is one exactly when there are subscriptions. */
  predicate IsLeast<V>(subscriptions: map<u32, Subscription<V>>, t: Option<u64>) {
    if t.None? then subscriptions.Keys == {}
    else
      && (exists id <- subscriptions :: Timeout(subscriptions[id]) == t.value)
      && (forall id <- subscriptions :: t.value <= Timeout(subscriptions[id]))
  }

  function Smaller(t: u64, other: Option<u64>): Option<u64> {
    if other.Some? && other.value < t then other else Some(t)
  }

  /** The minimum over the subscriptions, one after another in any order. */
  ghost function LeastTimeout<V>(subscriptions: map<u32, Subscription<V>>): Option<u64>
    decreases |subscriptions|
  {
    if subscriptions.Keys == {} then None
    else
      var id :| id in subscriptions;
      assert (subscriptions - {id}).Keys == subscriptions.Keys - {id};
      Smaller(Timeout(subscriptions[id]), LeastTimeout(subscriptions - {id}))
  }

  lemma SmallerIsLeast<V>(subscriptions: map<u32, Subscription<V>>, id: u32, t: Option<u64>)
    requires id in subscriptions && IsLeast(subscriptions - {id}, t)
    ensures IsLeast(subscriptions, Smaller(Timeout(subscriptions[id]), t))
  {
    hide Timeout;
    var others := subscriptions - {id};
    assert subscriptions.Keys == others.Keys + {id};
    assert forall x <- subscriptions :: x == id || (x in others && others[x] == subscriptions[x]);
  }

  /** That is the least timeout, whatever the order. */
  lemma {:induction false} LeastTimeoutIsLeast<V>(subscriptions: map<u32, Subscription<V>>)
    ensures IsLeast(subscriptions, LeastTimeout(subscriptions))
    decreases |subscriptions|
  {
    hide Timeout, IsLeast;
    if subscriptions.Keys == {} {
      NoneIsLeast(subscriptions);
    } else {
      var id :| id in subscriptions && LeastTimeout(subscriptions) ==
                                       Smaller(Timeout(subscriptions[id]), LeastTimeout(subscriptions - {id}));
      assert (subscriptions - {id}).Keys == subscriptions.Keys - {id};
      LeastTimeoutIsLeast(subscriptions - {id});
      SmallerIsLeast(subscriptions, id, LeastTimeout(subscriptions - {id}));
    }
  }

  lemma NoneIsLeast<V>(subscriptions: map<u32, Subscription<V>>)
    requires subscriptions.Keys == {}
    ensures IsLeast(subscriptions, None)
  {
  }

  lemma LeastIsUnique<V>(subscriptions: map<u32, Subscription<V>>, t: Option<u64>)
    requires IsLeast(subscriptions, t)
    ensures t == LeastTimeout(subscriptions)
  {
    LeastTimeoutIsLeast(subscriptions);
    hide Timeout, LeastTimeout;
  }

  // ---------------------------------------------------------------- operations

  /** What a session asks for; `Update` is any operation on the items of one subscription. */
  datatype Operation<V> =
    | Add(id: u32, subscription: Subscription<V>)
    | Alter(id: u32, publishingInterval: real, lifetimeCount: u32, maxKeepAliveCount: u32,
            maxNotificationsPerPublish: u32, priority: u8)
    | Remove(id: u32)
    | SetMode(ids: seq<u32>, enabled: bool)
    | Update(id: u32, op: ClientSubscription.Operation<V>)

  function Altered<V>(s: Subscription<V>, op: Operation<V>): Subscription<V>
    requires op.Alter?
  {
    s.(publishingInterval := op.publishingInterval, lifetimeCount := op.lifetimeCount,
       maxKeepAliveCount := op.maxKeepAliveCount, maxNotificationsPerPublish := op.maxNotificationsPerPublish,
       priority := op.priority)
  }

  function SetModes<V>(subscriptions: map<u32, Subscription<V>>, ids: seq<u32>, enabled: bool): map<u32, Subscription<V>> {
    map id | id in subscriptions ::
      if id in ids then subscriptions[id].(publishingEnabled := enabled) else subscriptions[id]
  }

  function After<V>(subscriptions: map<u32, Subscription<V>>, op: Operation<V>): map<u32, Subscription<V>> {
    match op
    case Add(id, subscription) => subscriptions[id := subscription]
    case Alter(id, _, _, _, _, _) =>
      if id in subscriptions then subscriptions[id := Altered(subscriptions[id], op)] else subscriptions
    case Remove(id) => subscriptions - {id}
    case SetMode(ids, enabled) => SetModes(subscriptions, ids, enabled)
    case Update(id, change) =>
      if id in subscriptions
      then subscriptions[id := subscriptions[id].(content := ClientSubscription.Apply(subscriptions[id].content, change))]
      else subscriptions
  }

  /** The operations that compute the cached value again. */
  predicate Refreshes<V>(subscriptions: map<u32, Subscription<V>>, op: Operation<V>) {
    op.Add? || op.Remove? || (op.Alter? && op.id in subscriptions)
  }

  datatype State<V> = State(subscriptions: map<u32, Subscription<V>>, keepAliveTimeout: Option<u64>)

  /** One step: the cache is computed again, or left alone. */
  ghost predicate Step<V>(s: State<V>, op: Operation<V>, t: State<V>) {
    && t.subscriptions == After(s.subscriptions, op)
    && if Refreshes(s.subscriptions, op)
       then t.keepAliveTimeout == LeastTimeout(t.subscriptions) else t.keepAliveTimeout == s.keepAliveTimeout
  }

  // ---------------------------------------------------------------- what changes

  /** The timeout is the interval times the lifetime count, rounded down and kept within 64 bits. */
  lemma TimeoutIs<V>(s: Subscription<V>, interval: nat)
    ensures
      var product := s.publishingInterval * s.lifetimeCount as real;
      var t := Timeout(s);
      && (product < 0.0 ==> t == 0)
      && (0.0 <= product < 18446744073709551616.0 ==> t as real <= product < t as real + 1.0)
      && (product >= 18446744073709551616.0 ==> t == 18446744073709551615)
    ensures
      s.publishingInterval == interval as real ==>
        Timeout(s) == if interval * s.lifetimeCount < 18446744073709551616 then interval * s.lifetimeCount
                      else 18446744073709551615
  {
    if s.publishingInterval == interval as real {
      WholeProduct(interval, s.lifetimeCount);
    }
  }

  lemma WholeProduct(a: nat, b: nat)
    ensures a as real * b as real == (a * b) as real
  {
  }

  /** An alteration changes five fields of one subscription; a new mode changes one field of those named. */
  lemma AlterChanges<V>(subscriptions: map<u32, Subscription<V>>, op: Operation<V>, id: u32)
    requires id in subscriptions
    ensures
      var s := subscriptions[id];
      match op
      case Alter(x, interval, lifetime, keepAlive, notifications, priority) =>
        && After(subscriptions, op).Keys == subscriptions.Keys
        && After(subscriptions, op)[id] ==
             if x == id
             then Subscription(interval, lifetime, keepAlive, notifications, priority, s.publishingEnabled, s.content)
             else s
      case SetMode(ids, enabled) =>
        && After(subscriptions, op).Keys == subscriptions.Keys
        && After(subscriptions, op)[id] ==
             if id in ids
             then Subscription(s.publishingInterval, s.lifetimeCount, s.maxKeepAliveCount, s.maxNotificationsPerPublish,
                               s.priority, enabled, s.content)
             else s
      case Add(x, _) => x != id ==> id in After(subscriptions, op) && After(subscriptions, op)[id] == s
      case Remove(x) => if x == id then id !in After(subscriptions, op)
                        else id in After(subscriptions, op) && After(subscriptions, op)[id] == s
      case Update(x, _) => x != id ==> id in After(subscriptions, op) && After(subscriptions, op)[id] == s
  {
    hide ClientSubscription.Apply;
  }

  // ---------------------------------------------------------------- the cache is right

  /** Computing the cache again gives the least timeout, and leaving it alone is justified: those operations change no
      timeout. */
  lemma StepKeepsLeast<V>(s: State<V>, op: Operation<V>, t: State<V>)
    requires IsLeast(s.subscriptions, s.keepAliveTimeout) && Step(s, op, t)
    ensures IsLeast(t.subscriptions, t.keepAliveTimeout)
  {
    hide Timeout, LeastTimeout;
    if Refreshes(s.subscriptions, op) {
      LeastTimeoutIsLeast(t.subscriptions);
    } else {
      assert s.subscriptions.Keys == t.subscriptions.Keys;
      forall id | id in s.subscriptions ensures Timeout(t.subscriptions[id]) == Timeout(s.subscriptions[id]) {
        SameTimeout(s.subscriptions[id], t.subscriptions[id]);
      }
      if s.keepAliveTimeout.Some? {
        var id :| id in s.subscriptions && Timeout(s.subscriptions[id]) == s.keepAliveTimeout.value;
        assert Timeout(t.subscriptions[id]) == t.keepAliveTimeout.value;
      }
    }
  }

  lemma SameTimeout<V>(a: Subscription<V>, b: Subscription<V>)
    requires a.publishingInterval == b.publishingInterval && a.lifetimeCount == b.lifetimeCount
    ensures Timeout(a) == Timeout(b)
  {
  }

  /** A run: its states, one more than its operations. */
  ghost predicate IsRun<V>(states: seq<State<V>>, ops: seq<Operation<V>>) {
    && |states| == |ops| + 1
    && states[0] == State(map[], None)
    && forall i :: 0 <= i < |ops| ==> Step(states[i], ops[i], states[i + 1])
  }

  /** In every state of every run the cache is the least timeout of the live subscriptions. */
  lemma {:induction false} EveryRunIsLeast<V>(states: seq<State<V>>, ops: seq<Operation<V>>, k: nat)
    requires IsRun(states, ops) && k < |states|
    ensures IsLeast(states[k].subscriptions, states[k].keepAliveTimeout)
    decreases k
  {
    if k > 0 {
      EveryRunIsLeast(states, ops, k - 1);
      assert Step(states[k - 1], ops[k - 1], states[k - 1 + 1]);
      StepKeepsLeast(states[k - 1], ops[k - 1], states[k]);
    }
  }

  // ---------------------------------------------------------------- the class

  class SubscriptionState<V> {
    var subscriptions: map<u32, Subscription<V>>
    var keepAliveTimeout: Option<u64>

    ghost function Content(): State<V>
      reads this
    {
      State(subscriptions, keepAliveTimeout)
    }

    constructor ()
      ensures Content() == State(map[], None)
    {
      subscriptions, keepAliveTimeout := map[], None;
    }

    /** The minimum over the values of the map. */
    method SetKeepAliveTimeout()
      modifies `keepAliveTimeout
      ensures keepAliveTimeout == LeastTimeout(subscriptions) && IsLeast(subscriptions, keepAliveTimeout)
    {
      var left := subscriptions.Keys;
      var least: Option<u64> := None;
      while left != {}
        invariant left <= subscriptions.Keys
        invariant if least.None? then left == subscriptions.Keys
                  else exists id <- subscriptions.Keys - left :: Timeout(subscriptions[id]) == least.value
        invariant least.Some? ==> forall id <- subscriptions.Keys - left :: least.value <= Timeout(subscriptions[id])
      {
        var id :| id in left;
        var t := Timeout(subscriptions[id]);
        if least.None? || t < least.value { least := Some(t); }
        left := left - {id};
      }
      keepAliveTimeout := least;
      LeastIsUnique(subscriptions, keepAliveTimeout);
    }

    method AddSubscription(id: u32, subscription: Subscription<V>)
      modifies this
      ensures Step(old(Content()), Add(id, subscription), Content())
    {
      subscriptions := subscriptions[id := subscription];
      SetKeepAliveTimeout();
    }

    method ModifySubscription(id: u32, publishingInterval: real, lifetimeCount: u32, maxKeepAliveCount: u32,
                              maxNotificationsPerPublish: u32, priority: u8)
      modifies this
      ensures Step(old(Content()),
                   Alter(id, publishingInterval, lifetimeCount, maxKeepAliveCount, maxNotificationsPerPublish, priority),
                   Content())
    {
      if id in subscriptions {
        subscriptions := subscriptions[id := subscriptions[id].(
          publishingInterval := publishingInterval, lifetimeCount := lifetimeCount,
          maxKeepAliveCount := maxKeepAliveCount, maxNotificationsPerPublish := maxNotificationsPerPublish,
          priority := priority)];
        SetKeepAliveTimeout();
      }
    }

    method DeleteSubscription(id: u32) returns (removed: Option<Subscription<V>>)
      modifies this
      ensures Step(old(Content()), Remove(id), Content())
      ensures removed == if id in old(subscriptions) then Some(old(subscriptions)[id]) else None
    {
      removed := if id in subscriptions then Some(subscriptions[id]) else None;
      subscriptions := subscriptions - {id};
      SetKeepAliveTimeout();
    }

    method SetPublishingMode(ids: seq<u32>, enabled: bool)
      modifies `subscriptions
      ensures Step(old(Content()), SetMode(ids, enabled), Content())
    {
      for i := 0 to |ids|
        invariant subscriptions == SetModes(old(subscriptions), ids[..i], enabled)
      {
        assert ids[..i + 1] == ids[..i] + [ids[i]];
        if ids[i] in subscriptions {
          subscriptions := subscriptions[ids[i] := subscriptions[ids[i]].(publishingEnabled := enabled)];
        }
      }
      assert ids[..|ids|] == ids;
    }

    /** The operations that are passed on to one subscription. */
    method UpdateSubscription(id: u32, op: ClientSubscription.Operation<V>)
      modifies `subscriptions
      ensures Step(old(Content()), Update(id, op), Content())
    {
      if id in subscriptions {
        var s := subscriptions[id];
        subscriptions := subscriptions[id := s.(content := ClientSubscription.Apply(s.content, op))];
      }
    }
  }
}
