/** Whole runs of a session's message queue, with the factory that names its requests: what becomes of every request,
    past any number of cycles of handles, and the order in which responses are taken
    (lib/src/client/message_queue.rs, lib/src/core/handle.rs). */
module MessageRuns {
  import opened Prelude
  import opened Arithmetic
  import opened MessageQueues

  /** The queue, with what has become of every request so far. Requests are numbered in order of issue; `flying` and
      `stored` say which request a handle in flight and a stored response belong to. */
  datatype Trace<R> = Trace(
    next: u32,
    queue: Queue<R>,
    issued: nat,
    flying: map<u32, nat>,
    stored: map<u32, nat>,
    delivered: set<nat>,
    taken: set<nat>,
    timedOut: set<nat>,
    cleared: set<nat>,
    lost: set<nat>)

  datatype Event<R> =
    | Issue(waits: bool)
    | Respond(h: u32, r: R)
    | TimeOut(h: u32)
    | Take
    | Clear

  function Start<R>(first: u32): Trace<R> { Trace(first, Queue(map[], map[]), 0, map[], map[], {}, {}, {}, {}, {}) }

  /** The request that a map gives to a handle. */
  function At(requests: map<u32, nat>, h: u32): set<nat> { if h in requests then {requests[h]} else {} }

  /** What an event does to the queue itself. */
  function Changed<R>(q: Queue<R>, next: u32, e: Event<R>): Queue<R> {
    match e
    case Issue(waits) => q.(inflight := q.inflight[next := waits])
    case Respond(h, r) => Stored(q, h, r)
    case TimeOut(h) => q.(inflight := q.inflight - {h})
    case Take => q.(responses := map[])
    case Clear => Queue(map[], map[])
  }

  /** A request whose entry in one of the two maps is replaced is lost. */
  function Step<R>(t: Trace<R>, first: u32, e: Event<R>): Trace<R> {
    var u := t.(queue := Changed(t.queue, t.next, e));
    match e
    case Issue(_) =>
      u.(next := NextHandle(t.next, first), issued := t.issued + 1,
         flying := t.flying[t.next := t.issued], lost := t.lost + At(t.flying, t.next))
    case Respond(h, _) =>
      if h !in t.flying || h !in t.queue.inflight then u
      else if t.queue.inflight[h] then u.(flying := t.flying - {h}, delivered := t.delivered + {t.flying[h]})
      else
        u.(flying := t.flying - {h}, stored := t.stored[h := t.flying[h]], lost := t.lost + At(t.stored, h))
    case TimeOut(h) => u.(flying := t.flying - {h}, timedOut := t.timedOut + At(t.flying, h))
    case Take => u.(stored := map[], taken := t.taken + t.stored.Values)
    case Clear => u.(flying := map[], stored := map[], cleared := t.cleared + t.flying.Values + t.stored.Values)
  }

  function Run<R>(first: u32, events: seq<Event<R>>): Trace<R> {
    if events == [] then Start(first) else Step(Run(first, events[..|events| - 1]), first, events[|events| - 1])
  }

  lemma RunNext<R>(first: u32, events: seq<Event<R>>, e: Event<R>)
    ensures Run(first, events + [e]) == Step(Run(first, events), first, e)
  {
    assert (events + [e])[..|events|] == events;
  }

  // ---------------------------------------------------------------- the books

  predicate InFlight<R>(t: Trace<R>, first: u32, i: nat) {
    var h := HandleAt(first, i);
    h in t.flying && t.flying[h] == i
  }

  predicate IsStored<R>(t: Trace<R>, first: u32, i: nat) {
    var h := HandleAt(first, i);
    h in t.stored && t.stored[h] == i
  }

  /** The books agree with the queue, every entry stands under the handle of its request, and what is in flight is the
      latest request with its handle. */
  ghost predicate Booked<R>(t: Trace<R>, first: u32) {
    && t.next == HandleAt(first, t.issued)
    && t.flying.Keys == t.queue.inflight.Keys
    && t.stored.Keys == t.queue.responses.Keys
    && (forall h <- t.flying :: HandleAt(first, t.flying[h]) == h)
    && (forall h <- t.stored :: HandleAt(first, t.stored[h]) == h)
    && (forall i: nat | i < t.issued && HandleAt(first, i) in t.flying :: i <= t.flying[HandleAt(first, i)])
  }

  lemma StepKeepsBooked<R>(t: Trace<R>, first: u32, e: Event<R>)
    requires Booked(t, first)
    ensures Booked(Step(t, first, e), first)
  {
    var u := Step(t, first, e);
    assert u.next == HandleAt(first, u.issued);
    hide HandleAt, NextHandle;
  }

  // ---------------------------------------------------------------- conservation

  function One(b: bool): nat { if b then 1 else 0 }

  /** In how many places a request is. */
  function Places<R>(t: Trace<R>, first: u32, i: nat): nat {
    One(InFlight(t, first, i)) + One(IsStored(t, first, i)) + One(i in t.delivered) + One(i in t.taken)
    + One(i in t.timedOut) + One(i in t.cleared) + One(i in t.lost)
  }

  /** Every request issued is in exactly one place, and nothing else is anywhere. */
  ghost predicate Conserved<R>(t: Trace<R>, first: u32) {
    forall i: nat :: Places(t, first, i) == One(i < t.issued)
  }

  lemma ValuesAreStored<R>(t: Trace<R>, first: u32, i: nat)
    requires Booked(t, first)
    ensures i in t.stored.Values <==> IsStored(t, first, i)
    ensures i in t.flying.Values <==> InFlight(t, first, i)
  {
  }

  lemma StepConservesOne<R>(t: Trace<R>, first: u32, e: Event<R>, i: nat)
    requires Booked(t, first) && Places(t, first, i) == One(i < t.issued)
    requires Places(t, first, t.issued) == 0
    ensures Places(Step(t, first, e), first, i) == One(i < Step(t, first, e).issued)
  {
    ValuesAreStored(t, first, i);
    hide HandleAt, NextHandle;
  }

  lemma StepConserves<R>(t: Trace<R>, first: u32, e: Event<R>)
    requires Booked(t, first) && Conserved(t, first)
    ensures Conserved(Step(t, first, e), first)
  {
    var u := Step(t, first, e);
    hide Places, Booked, Step;
    assert Places(t, first, t.issued) == One(t.issued < t.issued);
    forall i: nat ensures Places(u, first, i) == One(i < u.issued) {
      assert Places(t, first, i) == One(i < t.issued);
      StepConservesOne(t, first, e, i);
    }
  }

  function Issues<R>(events: seq<Event<R>>): nat {
    if events == [] then 0 else Issues(events[..|events| - 1]) + One(events[|events| - 1].Issue?)
  }

  /** In every run, of any length, every request is in exactly one place. */
  lemma {:induction false} EveryRunConserves<R>(first: u32, events: seq<Event<R>>)
    ensures
      var t := Run(first, events);
      Booked(t, first) && Conserved(t, first) && t.issued == Issues(events)
  {
    if events == [] {
      StartConserves<R>(first);
    } else {
      hide Run, Booked, Conserved;
      var front, e := events[..|events| - 1], events[|events| - 1];
      assert events == front + [e];
      RunNext(first, front, e);
      EveryRunConserves(first, front);
      StepKeepsBooked(Run(first, front), first, e);
      StepConserves(Run(first, front), first, e);
    }
  }

  lemma StartConserves<R>(first: u32)
    ensures Booked(Start<R>(first), first) && Conserved(Start<R>(first), first)
  {
    forall i: nat ensures Places(Start<R>(first), first, i) == 0 {}
  }

  // ---------------------------------------------------------------- what each event does to a request

  predicate Answers<R>(t: Trace<R>, first: u32, e: Event<R>, i: nat) {
    e.Respond? && InFlight(t, first, i) && e.h == HandleAt(first, i)
  }

  /** A response goes to the caller that waits for it and is stored otherwise; requests in flight time out one by one,
      and stored responses are all taken at once. */
  lemma StepFates<R>(t: Trace<R>, first: u32, e: Event<R>, i: nat)
    requires Booked(t, first)
    ensures
      var u, h := Step(t, first, e), HandleAt(first, i);
      && (i in u.delivered <==> i in t.delivered || (Answers(t, first, e, i) && t.queue.inflight[h]))
      && (i in u.timedOut <==> i in t.timedOut || (e == TimeOut(h) && InFlight(t, first, i)))
      && (i in u.taken <==> i in t.taken || (e.Take? && IsStored(t, first, i)))
      && (i in u.cleared <==> i in t.cleared || (e.Clear? && (InFlight(t, first, i) || IsStored(t, first, i))))
      && (Answers(t, first, e, i) ==>
            !InFlight(u, first, i) && (IsStored(u, first, i) <==> !t.queue.inflight[h] || IsStored(t, first, i)))
      && (e.Issue? && i == t.issued ==> InFlight(u, first, i) && u.queue.inflight[h] == e.waits)
  {
    ValuesAreStored(t, first, i);
    hide HandleAt, NextHandle;
  }

  /** Whether a caller waits does not change while the request is in flight, and a stored response is the one that
      answered the request. */
  lemma StepKeepsEntries<R>(t: Trace<R>, first: u32, e: Event<R>, i: nat)
    requires Booked(t, first)
    ensures
      var u, h := Step(t, first, e), HandleAt(first, i);
      && u.flying.Keys == u.queue.inflight.Keys && u.stored.Keys == u.queue.responses.Keys
      && (InFlight(t, first, i) && InFlight(u, first, i) && !(e.Issue? && i == t.issued) ==>
            u.queue.inflight[h] == t.queue.inflight[h])
      && (IsStored(t, first, i) && IsStored(u, first, i) && !Answers(t, first, e, i) ==>
            u.queue.responses[h] == t.queue.responses[h])
      && (Answers(t, first, e, i) && !t.queue.inflight[h] ==> u.queue.responses[h] == e.r)
  {
    hide HandleAt, NextHandle;
    StepKeepsBooked(t, first, e);
  }

  // ---------------------------------------------------------------- what is lost

  /** The event replaces the entry of the request: its handle is issued again while it is in flight, or the response to
      a later request with its handle is stored while its own is. */
  predicate Replaces<R>(t: Trace<R>, first: u32, e: Event<R>, i: nat) {
    match e
    case Issue(_) => InFlight(t, first, i) && HandleAt(first, i) == t.next
    case Respond(h, _) =>
      IsStored(t, first, i) && HandleAt(first, i) == h && h in t.queue.inflight && !t.queue.inflight[h]
    case _ => false
  }

  lemma StepLoses<R>(t: Trace<R>, first: u32, e: Event<R>, i: nat)
    requires Booked(t, first)
    ensures i in Step(t, first, e).lost <==> i in t.lost || Replaces(t, first, e, i)
  {
    hide HandleAt, NextHandle;
  }

  predicate ReplacedAt<R>(first: u32, events: seq<Event<R>>, k: nat, i: nat)
    requires k < |events|
  {
    Replaces(Run(first, events[..k]), first, events[k], i)
  }

  lemma ReplacedBefore<R>(first: u32, events: seq<Event<R>>, e: Event<R>, k: nat, i: nat)
    requires k <= |events|
    ensures ReplacedAt(first, events + [e], k, i) ==
            if k < |events| then ReplacedAt(first, events, k, i) else Replaces(Run(first, events), first, e, i)
  {
    assert (events + [e])[..k] == events[..k] && events[..|events|] == events;
  }

  /** A request is lost exactly when, at some point of the run, its entry is replaced. */
  lemma {:induction false} LostIff<R>(first: u32, events: seq<Event<R>>, i: nat)
    ensures i in Run(first, events).lost <==> exists k: nat | k < |events| :: ReplacedAt(first, events, k, i)
  {
    if events != [] {
      var last := |events| - 1;
      var front, e := events[..last], events[last];
      LostIff(first, front, i);
      EveryRunConserves(first, front);
      assert events == front + [e];
      RunNext(first, front, e);
      hide Run, Step, Replaces, ReplacedAt, Booked, Conserved;
      StepLoses(Run(first, front), first, e, i);
      forall k: nat | k <= last
        ensures ReplacedAt(first, events, k, i) ==
                if k < last then ReplacedAt(first, front, k, i) else Replaces(Run(first, front), first, e, i)
      {
        ReplacedBefore(first, front, e, k, i);
      }
      assert Replaces(Run(first, front), first, e, i) ==> ReplacedAt(first, events, last, i);
    }
  }

  lemma AtLeastOneCycle(d: nat, n: nat)
    requires 0 < d && 0 < n && d % n == 0
    ensures n <= d
  {
    if d < n { DivisionIs(d, n, 0, d); }
  }

  /** What replaces an entry is a later request, a whole number of cycles away. */
  lemma ReplacedByLater<R>(t: Trace<R>, first: u32, e: Event<R>, i: nat) returns (j: nat)
    requires Booked(t, first) && Conserved(t, first) && Replaces(t, first, e, i)
    ensures i + Cycle(first) <= j < Step(t, first, e).issued && HandleAt(first, i) == HandleAt(first, j)
  {
    assert Places(t, first, i) == One(i < t.issued);
    j := if e.Issue? then t.issued else t.flying[e.h];
    assert Places(t, first, j) == One(j < t.issued);
    HandlesRepeatIff(first, i, j);
    hide HandleAt;
    AtLeastOneCycle(j - i, Cycle(first));
  }

  lemma {:induction false} IssuedGrows<R>(first: u32, events: seq<Event<R>>, k: nat)
    requires k <= |events|
    ensures Run(first, events[..k]).issued <= Run(first, events).issued
  {
    if k < |events| {
      var front := events[..|events| - 1];
      assert front[..k] == events[..k];
      IssuedGrows(first, front, k);
    } else {
      assert events[..k] == events;
    }
  }

  /** Only a request whose handle was issued again is ever lost, so none is within one cycle of handles. */
  lemma LostIsReissued<R>(first: u32, events: seq<Event<R>>, i: nat)
    requires i in Run(first, events).lost
    ensures i + Cycle(first) < Issues(events)
  {
    hide Run, Step, Replaces, Conserved, HandleAt, Cycle, Places;
    LostIff(first, events, i);
    var k: nat :| k < |events| && ReplacedAt(first, events, k, i);
    var before, e := events[..k], events[k];
    EveryRunConserves(first, events);
    EveryRunConserves(first, before);
    hide Booked;
    var j := ReplacedByLater(Run(first, before), first, e, i);
    RunNext(first, before, e);
    assert events[..k + 1] == before + [e];
    IssuedGrows(first, events, k + 1);
  }

  /** A response to a request that is no longer in flight changes nothing, exactly when no later request with the same
      handle is in flight; otherwise it is taken for the response to that one. */
  lemma LateResponseIsIgnoredIff<R>(first: u32, events: seq<Event<R>>, i: nat, r: R)
    requires i < Issues(events) && !InFlight(Run(first, events), first, i)
    ensures
      var t := Run(first, events);
      var u := Step(t, first, Respond(HandleAt(first, i), r));
      && (u == t <==> forall j: nat | i < j && InFlight(t, first, j) :: (j - i) % Cycle(first) != 0)
      && (u != t ==> exists j: nat | i < j ::
            (j - i) % Cycle(first) == 0 && InFlight(t, first, j) && !InFlight(u, first, j))
  {
    EveryRunConserves(first, events);
    var t, h := Run(first, events), HandleAt(first, i);
    var u := Step(t, first, Respond(h, r));
    forall j: nat | i < j && InFlight(t, first, j)
      ensures (j - i) % Cycle(first) == 0 <==> HandleAt(first, j) == h
    {
      HandlesRepeatIff(first, i, j);
    }
    hide HandleAt, Cycle;
    if h in t.flying {
      var j := t.flying[h];
      assert i < j && InFlight(t, first, j) && !InFlight(u, first, j);
      assert u.queue.inflight != t.queue.inflight;
    }
  }

  // ---------------------------------------------------------------- order

  /** Handles are issued again only when they are free. */
  ghost predicate Frugal<R>(first: u32, events: seq<Event<R>>) {
    forall k: nat | k < |events| && events[k].Issue? ::
      var t := Run(first, events[..k]);
      t.next !in t.queue.inflight && t.next !in t.queue.responses
  }

  /** What is in flight or stored is among the last cycle of requests. */
  ghost predicate Recent<R>(t: Trace<R>, first: u32) {
    forall i: nat | InFlight(t, first, i) || IsStored(t, first, i) :: i < t.issued <= i + Cycle(first)
  }

  lemma OneCycleOn(first: u32, i: nat)
    ensures HandleAt(first, i + Cycle(first)) == HandleAt(first, i)
  {
    hide HandleAt, Cycle;
    CycleIsPositive(first);
    DivisionIs(Cycle(first), Cycle(first), 1, 0);
    HandlesRepeatIff(first, i, i + Cycle(first));
  }

  lemma StepKeepsRecent<R>(t: Trace<R>, first: u32, e: Event<R>)
    requires Booked(t, first) && Conserved(t, first) && Recent(t, first)
    requires e.Issue? ==> t.next !in t.queue.inflight && t.next !in t.queue.responses
    ensures Recent(Step(t, first, e), first)
  {
    var u := Step(t, first, e);
    CycleIsPositive(first);
    hide HandleAt, NextHandle, Cycle, Conserved;
    forall i: nat | InFlight(u, first, i) || IsStored(u, first, i) ensures i < u.issued <= i + Cycle(first) {
      OneCycleOn(first, i);
      if !e.Issue? || i != t.issued { assert InFlight(t, first, i) || IsStored(t, first, i); }
    }
  }

  lemma {:induction false} FrugalRunIsRecent<R>(first: u32, events: seq<Event<R>>)
    requires Frugal(first, events)
    ensures Recent(Run(first, events), first)
  {
    if events != [] {
      var last := |events| - 1;
      var front := events[..last];
      assert forall k: nat | k < last :: front[..k] == events[..k] && front[k] == events[k];
      FrugalRunIsRecent(first, front);
      EveryRunConserves(first, front);
      StepKeepsRecent(Run(first, front), first, events[last]);
    }
  }

  /** The requests whose responses `async_responses` returns, in its order. */
  ghost function TakenOrder<R>(t: Trace<R>): (order: seq<nat>)
    ensures |order| == |Sorted(t.stored.Keys)|
    ensures forall k :: 0 <= k < |order| ==> Sorted(t.stored.Keys)[k] in t.stored && order[k] == t.stored[Sorted(t.stored.Keys)[k]]
  {
    var hs := Sorted(t.stored.Keys);
    assert forall h <- hs :: h in t.stored;
    seq(|hs|, k requires 0 <= k < |hs| => t.stored[hs[k]])
  }

  predicate Rising(s: seq<nat>) { forall i, j :: 0 <= i < j < |s| ==> s[i] < s[j] }

  /** The cycle of handles that a request belongs to. */
  function CycleOf(first: u32, i: nat): nat { i / Cycle(first) }

  ghost predicate OneCycle<R>(t: Trace<R>, first: u32) {
    forall i: nat, j: nat | IsStored(t, first, i) && IsStored(t, first, j) :: CycleOf(first, i) == CycleOf(first, j)
  }

  /** Handles are in the order of their requests within a cycle, and in the opposite order across its end. */
  lemma HandleOrder(first: u32, i: nat, j: nat)
    requires i < j < i + Cycle(first)
    ensures HandleAt(first, i) < HandleAt(first, j) <==> CycleOf(first, i) == CycleOf(first, j)
    ensures HandleAt(first, i) != HandleAt(first, j)
  {
    HandleIs(first, i);
    HandleIs(first, j);
    CycleIsPositive(first);
    hide HandleAt, Cycle;
    RemaindersCross(i, j, Cycle(first));
  }

  lemma WithinCycle(first: u32, i: nat, j: nat)
    requires i < j && CycleOf(first, i) == CycleOf(first, j)
    ensures HandleAt(first, i) < HandleAt(first, j)
  {
    CycleIsPositive(first);
    hide HandleAt, Cycle;
    HandleOrder(first, i, j);
  }

  lemma RecentKeepsEntries<R>(t: Trace<R>, first: u32, e: Event<R>, i: nat)
    requires Booked(t, first) && Conserved(t, first) && Recent(t, first)
    requires e.Issue? ==> t.next !in t.queue.inflight && t.next !in t.queue.responses
    ensures !Replaces(t, first, e, i)
  {
    hide HandleAt, Cycle;
    if Replaces(t, first, e, i) && e.Respond? {
      var j := t.flying[e.h];
      assert InFlight(t, first, j) && Places(t, first, i) == One(i < t.issued);
      HandleOrder(first, i, j);
    }
  }

  lemma FrugalPrefix<R>(first: u32, events: seq<Event<R>>, n: nat)
    requires Frugal(first, events) && n <= |events|
    ensures Frugal(first, events[..n])
  {
    hide Run;
    assert forall k: nat | k < n :: events[..n][..k] == events[..k] && events[..n][k] == events[k];
  }

  /** A run that issues handles again only when they are free loses no request. */
  lemma FrugalRunLosesNothing<R>(first: u32, events: seq<Event<R>>)
    requires Frugal(first, events)
    ensures Run(first, events).lost == {}
  {
    hide Run, Booked, Conserved, Recent, Replaces;
    forall i: nat ensures i !in Run(first, events).lost {
      LostIff(first, events, i);
      if k: nat :| k < |events| && ReplacedAt(first, events, k, i) {
        FrugalPrefix(first, events, k);
        FrugalRunIsRecent(first, events[..k]);
        EveryRunConserves(first, events[..k]);
        RecentKeepsEntries(Run(first, events[..k]), first, events[k], i);
      }
    }
  }

  /** What is taken first has the smaller handle. */
  lemma TakenByHandle<R>(t: Trace<R>, first: u32, i: nat, j: nat)
    requires IsStored(t, first, i) && IsStored(t, first, j) && HandleAt(first, i) < HandleAt(first, j)
    ensures exists a, b :: 0 <= a < b < |TakenOrder(t)| && TakenOrder(t)[a] == i && TakenOrder(t)[b] == j
  {
    hide HandleAt;
    var hs := Sorted(t.stored.Keys);
    assert HandleAt(first, i) in hs && HandleAt(first, j) in hs;
    var a :| 0 <= a < |hs| && hs[a] == HandleAt(first, i);
    var b :| 0 <= b < |hs| && hs[b] == HandleAt(first, j);
    assert a < b && TakenOrder(t)[a] == i && TakenOrder(t)[b] == j;
  }

  lemma TakenIsStored<R>(t: Trace<R>, first: u32, a: nat)
    requires Booked(t, first) && a < |TakenOrder(t)|
    ensures IsStored(t, first, TakenOrder(t)[a]) && HandleAt(first, TakenOrder(t)[a]) == Sorted(t.stored.Keys)[a]
  {
    hide HandleAt;
  }

  lemma OneCycleRises<R>(t: Trace<R>, first: u32)
    requires Booked(t, first) && OneCycle(t, first)
    ensures Rising(TakenOrder(t))
  {
    var hs, order := Sorted(t.stored.Keys), TakenOrder(t);
    hide HandleAt, Cycle, CycleOf, Booked, IsStored;
    forall a, b | 0 <= a < b < |order| ensures order[a] < order[b] {
      var i, j := order[a], order[b];
      TakenIsStored(t, first, a);
      TakenIsStored(t, first, b);
      if j < i { WithinCycle(first, j, i); }
    }
  }

  lemma RisingIsOneCycle<R>(t: Trace<R>, first: u32, i: nat, j: nat)
    requires Recent(t, first) && Rising(TakenOrder(t))
    requires IsStored(t, first, i) && IsStored(t, first, j) && i < j
    ensures CycleOf(first, i) == CycleOf(first, j)
  {
    hide HandleAt, Cycle, CycleOf;
    HandleOrder(first, i, j);
    if HandleAt(first, j) < HandleAt(first, i) { TakenByHandle(t, first, j, i); }
  }

  lemma RisingIffOneCycle<R>(t: Trace<R>, first: u32)
    requires Booked(t, first) && Recent(t, first)
    ensures Rising(TakenOrder(t)) <==> OneCycle(t, first)
  {
    hide HandleAt, Cycle, CycleOf, Booked, Recent, IsStored, TakenOrder, Rising;
    if Rising(TakenOrder(t)) {
      forall i: nat, j: nat | IsStored(t, first, i) && IsStored(t, first, j)
        ensures CycleOf(first, i) == CycleOf(first, j)
      {
        if i < j { RisingIsOneCycle(t, first, i, j); }
        if j < i { RisingIsOneCycle(t, first, j, i); }
      }
    }
    if OneCycle(t, first) { OneCycleRises(t, first); }
  }

  /** In every run that issues handles again only when they are free, responses are taken in the order of their
      requests exactly when all those requests belong to the same cycle of handles. */
  lemma TakesInOrderIff<R>(first: u32, events: seq<Event<R>>)
    requires Frugal(first, events)
    ensures
      var t := Run(first, events);
      && t.stored.Keys == t.queue.responses.Keys
      && (Rising(TakenOrder(t)) <==> OneCycle(t, first))
  {
    hide Run, Frugal, Recent, Conserved, OneCycle, Rising, TakenOrder, HandleAt;
    EveryRunConserves(first, events);
    FrugalRunIsRecent(first, events);
    RisingIffOneCycle(Run(first, events), first);
  }

  /** In every run within one cycle of handles, responses are taken in the order of their requests. */
  lemma EveryRunTakesInOrder<R>(first: u32, events: seq<Event<R>>)
    requires Issues(events) <= Cycle(first)
    ensures Rising(TakenOrder(Run(first, events)))
  {
    var t := Run(first, events);
    EveryRunConserves(first, events);
    forall i: nat | IsStored(t, first, i) ensures CycleOf(first, i) == 0 {
      assert Places(t, first, i) == One(i < t.issued);
      DivisionIs(i, Cycle(first), 0, i);
    }
    OneCycleRises(t, first);
  }

  lemma PrefixRun<R>(first: u32, events: seq<Event<R>>, k: nat)
    requires k < |events|
    ensures Run(first, events[..k + 1]) == Step(Run(first, events[..k]), first, events[k])
  {
    assert events[..k + 1] == events[..k] + [events[k]];
    RunNext(first, events[..k], events[k]);
  }

  /** A run that loses a request in flight: its handle is issued again, from a factory with two handles. */
  lemma InFlightIsLost<R>()
    ensures
      var events: seq<Event<R>> := [Issue(false), Issue(false), Issue(false)];
      Run(MAX_U32 - 1, events).lost == {0}
  {
    var first, events: seq<Event<R>> := MAX_U32 - 1, [Issue(false), Issue(false), Issue(false)];
    assert Run(first, events[..0]) == Start(first);
    PrefixRun(first, events, 0);
    PrefixRun(first, events, 1);
    PrefixRun(first, events, 2);
    assert events[..3] == events;
    hide Run;
  }

  /** A stored response, then the other handle and the same handle again. */
  function Replacing<R>(a: R, b: R): seq<Event<R>> {
    [Issue(false), Respond(MAX_U32 - 1, a), Issue(false), Issue(false), Respond(MAX_U32 - 1, b)]
  }

  lemma ReplacingStart<R>(a: R, b: R)
    ensures
      var first := MAX_U32 - 1;
      Run(first, Replacing(a, b)[..2]) == Start(first).(
        next := MAX_U32, issued := 1, queue := Queue(map[], map[first := a]), stored := map[first := 0])
  {
    var first, events := MAX_U32 - 1, Replacing(a, b);
    assert Run(first, events[..0]) == Start(first);
    PrefixRun(first, events, 0);
    PrefixRun(first, events, 1);
    hide Run;
  }

  lemma ReplacingMiddle<R>(a: R, b: R)
    ensures
      var first := MAX_U32 - 1;
      Run(first, Replacing(a, b)[..4]) == Start(first).(
        next := MAX_U32, issued := 3, queue := Queue(map[first := false, MAX_U32 := false], map[first := a]),
        flying := map[first := 2, MAX_U32 := 1], stored := map[first := 0])
  {
    hide Run;
    var first, events := MAX_U32 - 1, Replacing(a, b);
    ReplacingStart(a, b);
    PrefixRun(first, events, 2);
    PrefixRun(first, events, 3);
  }

  /** A run that loses a stored response: the response to a later request replaces it before it is taken. */
  lemma StoredIsLost<R>(a: R, b: R)
    ensures
      var first, events := MAX_U32 - 1, Replacing(a, b);
      Run(first, events[..4]).lost == {} && Run(first, events).lost == {0}
  {
    hide Run;
    var first, events := MAX_U32 - 1, Replacing(a, b);
    ReplacingMiddle(a, b);
    PrefixRun(first, events, 4);
    assert events[..5] == events;
  }

  /** From a factory with two handles: one is used up, the next two are given out across the end of the cycle. */
  function Wrapping<R>(a: R, b: R, c: R): seq<Event<R>> {
    [Issue(false), Respond(MAX_U32 - 1, a), Take, Issue(false), Issue(false), Respond(MAX_U32, b), Respond(MAX_U32 - 1, c)]
  }

  lemma WrappingStart<R>(a: R, b: R, c: R)
    ensures
      var first, events := MAX_U32 - 1, Wrapping(a, b, c);
      && Run(first, events[..0]) == Start(first)
      && Run(first, events[..3]) == Start(first).(next := MAX_U32, issued := 1, taken := {0})
  {
    var first, events := MAX_U32 - 1, Wrapping(a, b, c);
    PrefixRun(first, events, 0);
    PrefixRun(first, events, 1);
    PrefixRun(first, events, 2);
    hide Run;
  }

  lemma WrappingEnd<R>(a: R, b: R, c: R)
    ensures
      var first, events := MAX_U32 - 1, Wrapping(a, b, c);
      && Run(first, events[..4]) == Start(first).(
           next := first, issued := 2, taken := {0}, queue := Queue(map[MAX_U32 := false], map[]), flying := map[MAX_U32 := 1])
      && Run(first, events[..7]).stored == map[MAX_U32 := 1, first := 2]
  {
    var first, events := MAX_U32 - 1, Wrapping(a, b, c);
    WrappingStart(a, b, c);
    PrefixRun(first, events, 3);
    PrefixRun(first, events, 4);
    PrefixRun(first, events, 5);
    PrefixRun(first, events, 6);
    hide Run;
  }

  /** A run past the last handle of the factory, in which handles are issued only when they are free, and after which the
      request issued last is taken first. */
  lemma WrappedOrderIsLost<R>(a: R, b: R, c: R)
    ensures
      var first, events := MAX_U32 - 1, Wrapping(a, b, c);
      Frugal(first, events) && TakenOrder(Run(first, events)) == [2, 1]
  {
    var first, events := MAX_U32 - 1, Wrapping(a, b, c);
    WrappingStart(a, b, c);
    WrappingEnd(a, b, c);
    hide Run;
    assert events[..7] == events;
    IncreasingIsUnique(Sorted(Run(first, events).stored.Keys), [first, MAX_U32]);
  }
}
