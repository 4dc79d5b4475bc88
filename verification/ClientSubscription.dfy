/** A client subscription: its items by id, their ids by client handle, and the dispatch of notifications
    (lib/src/client/subscription.rs). */
module ClientSubscription {
  import opened Prelude

  /** `values` holds what the current notification brought. */
  datatype Item<V> = Item(
    id: u32, clientHandle: u32, samplingInterval: real, queueSize: nat, discardOldest: bool, lastValue: V, values: seq<V>)

  datatype Create = Create(id: u32, clientHandle: u32, samplingInterval: real, queueSize: nat, discardOldest: bool)
  datatype Modify = Modify(id: u32, samplingInterval: real, queueSize: nat)
  datatype Change<V> = Change(clientHandle: u32, value: V)

  /** One data change notification; the list may be null. */
  type Notification<V> = Option<seq<Change<V>>>

  /** The two maps of a subscription; `empty` is the value of an item that has received none. */
  datatype State<V> = State(items: map<u32, Item<V>>, handles: map<u32, u32>, empty: V)

  // ---------------------------------------------------------------- what each operation does

  function InsertOne<V>(s: State<V>, c: Create): State<V> {
    s.(items := s.items[c.id := Item(c.id, c.clientHandle, c.samplingInterval, c.queueSize, c.discardOldest, s.empty, [])],
       handles := s.handles[c.clientHandle := c.id])
  }

  function InsertAll<V>(s: State<V>, cs: seq<Create>): State<V> {
    if cs == [] then s else InsertOne(InsertAll(s, cs[..|cs| - 1]), cs[|cs| - 1])
  }

  function ModifyOne<V>(s: State<V>, m: Modify): State<V> {
    if m.id !in s.items then s
    else
      s.(items := s.items[m.id := s.items[m.id].(samplingInterval := m.samplingInterval, queueSize := m.queueSize)])
  }

  function ModifyAll<V>(s: State<V>, ms: seq<Modify>): State<V> {
    if ms == [] then s else ModifyOne(ModifyAll(s, ms[..|ms| - 1]), ms[|ms| - 1])
  }

  function DeleteOne<V>(s: State<V>, id: u32): State<V> {
    if id !in s.items then s
    else s.(items := s.items - {id}, handles := s.handles - {s.items[id].clientHandle})
  }

  function DeleteAll<V>(s: State<V>, ids: seq<u32>): State<V> {
    if ids == [] then s else DeleteOne(DeleteAll(s, ids[..|ids| - 1]), ids[|ids| - 1])
  }

  /** The values a notification brings for one item, in order. */
  function ValuesFor<V>(handles: map<u32, u32>, cs: seq<Change<V>>, id: u32): seq<V> {
    if cs == [] then []
    else
      var last := cs[|cs| - 1];
      ValuesFor(handles, cs[..|cs| - 1], id) +
      if last.clientHandle in handles && handles[last.clientHandle] == id then [last.value] else []
  }

  /** The items it has a value for. */
  function Touched<V>(handles: map<u32, u32>, cs: seq<Change<V>>): (ids: set<u32>)
    ensures forall id <- ids :: id in handles.Values
  {
    if cs == [] then {}
    else
      var last := cs[|cs| - 1];
      Touched(handles, cs[..|cs| - 1]) +
      if last.clientHandle in handles then {handles[last.clientHandle]} else {}
  }

  function LastOr<V>(v: V, vs: seq<V>): V { if vs == [] then v else vs[|vs| - 1] }

  function Receive<V>(item: Item<V>, vs: seq<V>): Item<V> {
    item.(lastValue := LastOr(item.lastValue, vs), values := item.values + vs)
  }

  function ReceiveAll<V>(s: State<V>, cs: seq<Change<V>>): map<u32, Item<V>> {
    map id | id in s.items :: Receive(s.items[id], ValuesFor(s.handles, cs, id))
  }

  /** What the callback is given: each touched item with what it received. */
  function Delivered<V>(s: State<V>, cs: seq<Change<V>>): map<u32, Item<V>> {
    map id | id in s.items && id in Touched(s.handles, cs) :: Receive(s.items[id], ValuesFor(s.handles, cs, id))
  }

  /** The items of `ids` without their values. */
  function Cleared<V>(items: map<u32, Item<V>>, ids: set<u32>): map<u32, Item<V>> {
    map id | id in items :: if id in ids then items[id].(values := []) else items[id]
  }

  /** Afterwards each touched item keeps its last value, and no values. */
  function Settle<V>(s: State<V>, cs: seq<Change<V>>): State<V> {
    s.(items := Cleared(ReceiveAll(s, cs), Touched(s.handles, cs)))
  }

  function NotifyOne<V>(s: State<V>, n: Notification<V>): State<V> {
    if n.None? then s else Settle(s, n.value)
  }

  /** The calls made for one notification: at most one. */
  function CallOf<V>(s: State<V>, n: Notification<V>): seq<map<u32, Item<V>>> {
    if n.None? || Touched(s.handles, n.value) == {} then [] else [Delivered(s, n.value)]
  }

  function NotifyAll<V>(s: State<V>, ns: seq<Notification<V>>): State<V> {
    if ns == [] then s else NotifyOne(NotifyAll(s, ns[..|ns| - 1]), ns[|ns| - 1])
  }

  function CallsOf<V>(s: State<V>, ns: seq<Notification<V>>): seq<map<u32, Item<V>>> {
    if ns == [] then []
    else CallsOf(s, ns[..|ns| - 1]) + CallOf(NotifyAll(s, ns[..|ns| - 1]), ns[|ns| - 1])
  }

  // ---------------------------------------------------------------- the invariant

  /** The two maps are each other's inverse. */
  predicate Inverse<V>(s: State<V>) {
    && (forall id <- s.items :: s.items[id].id == id && s.items[id].clientHandle in s.handles
                                && s.handles[s.items[id].clientHandle] == id)
    && (forall h <- s.handles :: s.handles[h] in s.items && s.items[s.handles[h]].clientHandle == h)
  }

  /** No item holds values between notifications. */
  predicate Settled<V>(s: State<V>) { forall id <- s.items :: s.items[id].values == [] }

  /** Every handle leads to an item, which is what the unwrapping in the dispatch relies on. */
  predicate Dispatchable<V>(s: State<V>) { forall h <- s.handles :: s.handles[h] in s.items }

  /** The change names a handle that leads to no item. */
  predicate Dangles<V>(s: State<V>, c: Change<V>) {
    c.clientHandle in s.handles && s.handles[c.clientHandle] !in s.items
  }

  ghost predicate Stops<V>(s: State<V>, n: Notification<V>) { n.Some? && exists c <- n.value :: Dangles(s, c) }

  /** Id and handle are both new, or already belong together. */
  predicate Compatible<V>(s: State<V>, c: Create) {
    && (c.id in s.items ==> s.items[c.id].clientHandle == c.clientHandle)
    && (c.clientHandle in s.handles ==> s.handles[c.clientHandle] == c.id)
  }

  // ---------------------------------------------------------------- the class

  class Subscription<V> {
    var monitoredItems: map<u32, Item<V>>
    var clientHandles: map<u32, u32>
    const empty: V

    constructor (empty: V)
      ensures this.empty == empty && Content() == State(map[], map[], empty)
    {
      monitoredItems, clientHandles := map[], map[];
      this.empty := empty;
    }

    ghost function Content(): State<V>
      reads this
    {
      State(monitoredItems, clientHandles, empty)
    }

    method InsertMonitoredItems(cs: seq<Create>)
      modifies this
      ensures Content() == InsertAll(old(Content()), cs)
    {
      for i := 0 to |cs|
        invariant Content() == InsertAll(old(Content()), cs[..i])
      {
        assert cs[..i + 1][..i] == cs[..i];
        var c := cs[i];
        var item := Item(c.id, c.clientHandle, c.samplingInterval, c.queueSize, c.discardOldest, empty, []);
        monitoredItems := monitoredItems[c.id := item];
        clientHandles := clientHandles[item.clientHandle := c.id];
      }
      assert cs[..|cs|] == cs;
    }

    method ModifyMonitoredItems(ms: seq<Modify>)
      modifies this
      ensures Content() == ModifyAll(old(Content()), ms)
    {
      for i := 0 to |ms|
        invariant Content() == ModifyAll(old(Content()), ms[..i])
      {
        assert ms[..i + 1][..i] == ms[..i];
        var m := ms[i];
        if m.id in monitoredItems {
          var item := monitoredItems[m.id];
          monitoredItems := monitoredItems[m.id := item.(samplingInterval := m.samplingInterval, queueSize := m.queueSize)];
        }
      }
      assert ms[..|ms|] == ms;
    }

    method DeleteMonitoredItems(ids: seq<u32>)
      modifies this
      ensures Content() == DeleteAll(old(Content()), ids)
    {
      for i := 0 to |ids|
        invariant Content() == DeleteAll(old(Content()), ids[..i])
      {
        assert ids[..i + 1][..i] == ids[..i];
        if ids[i] in monitoredItems {
          var item := monitoredItems[ids[i]];
          monitoredItems := monitoredItems - {ids[i]};
          clientHandles := clientHandles - {item.clientHandle};
        }
      }
      assert ids[..|ids|] == ids;
    }

    /** One value goes to its item, if its handle is known. `panicked` is the unwrapping of an item that is not there. */
    method ReceiveChange(c: Change<V>) returns (touched: set<u32>, panicked: bool)
      modifies `monitoredItems
      ensures panicked == Dangles(old(Content()), c)
      ensures !panicked ==>
                if c.clientHandle !in clientHandles then touched == {} && monitoredItems == old(monitoredItems)
                else
                  var id := clientHandles[c.clientHandle];
                  var item := old(monitoredItems)[id];
                  && touched == {id}
                  && monitoredItems == old(monitoredItems)[id := item.(lastValue := c.value, values := item.values + [c.value])]
    {
      if c.clientHandle !in clientHandles { return {}, false; }
      var id := clientHandles[c.clientHandle];
      if id !in monitoredItems { return {}, true; }
      var item := monitoredItems[id];
      monitoredItems := monitoredItems[id := item.(lastValue := c.value, values := item.values + [c.value])];
      return {id}, false;
    }

    /** The inner loop: values go to their items; the touched ids are collected. */
    method Collect(cs: seq<Change<V>>) returns (ids: set<u32>, panicked: bool)
      modifies `monitoredItems
      ensures panicked <==> exists c <- cs :: Dangles(old(Content()), c)
      ensures !panicked ==> ids == Touched(clientHandles, cs) && ids <= monitoredItems.Keys
      ensures !panicked ==> monitoredItems == ReceiveAll(old(Content()), cs)
    {
      ids := {};
      ghost var before := Content();
      NothingReceived(before);
      assert cs[..0] == [] && Touched(clientHandles, cs[..0]) == {};
      hide Touched, ReceiveAll;
      for i := 0 to |cs|
        invariant forall j :: 0 <= j < i ==> !Dangles(before, cs[j])
        invariant ids == Touched(clientHandles, cs[..i]) && ids <= monitoredItems.Keys == before.items.Keys
        invariant monitoredItems == ReceiveAll(before, cs[..i])
      {
        assert cs[..i + 1] == cs[..i] + [cs[i]];
        if !Dangles(before, cs[i]) { ReceiveNext(before, cs[..i], cs[i]); }
        var touched, failed := ReceiveChange(cs[i]);
        if failed {
          assert Dangles(before, cs[i]) && cs[i] in cs;
          return ids, true;
        }
        ids := ids + touched;
      }
      assert cs[..|cs|] == cs;
      panicked := false;
    }

    /** The last loop: the touched items drop their values. */
    method ClearValues(ids: set<u32>)
      requires forall id <- ids :: id in monitoredItems
      modifies `monitoredItems
      ensures monitoredItems == Cleared(old(monitoredItems), ids)
    {
      var left := ids;
      while left != {}
        invariant left <= ids && monitoredItems == Cleared(old(monitoredItems), ids - left)
      {
        var id :| id in left;
        left := left - {id};
        monitoredItems := monitoredItems[id := monitoredItems[id].(values := [])];
      }
    }

    /** The handling of one notification. */
    method Dispatch(n: Notification<V>) returns (calls: seq<map<u32, Item<V>>>, panicked: bool)
      modifies `monitoredItems
      ensures panicked <==> Stops(old(Content()), n)
      ensures !panicked ==> Content() == NotifyOne(old(Content()), n) && calls == CallOf(old(Content()), n)
    {
      calls, panicked := [], false;
      if n.Some? {
        ghost var start := Content();
        var ids;
        ids, panicked := Collect(n.value);
        if panicked { return; }
        hide Touched, ValuesFor, Receive;
        if ids != {} {
          var delivered := map id | id in ids :: monitoredItems[id];
          assert delivered == Delivered(start, n.value);
          calls := [delivered];
          ClearValues(ids);
        } else {
          assert Cleared(monitoredItems, ids) == monitoredItems;
        }
      }
    }

    /** `on_data_change`; `calls` is what the callback is given, in order. */
    method OnDataChange(ns: seq<Notification<V>>) returns (calls: seq<map<u32, Item<V>>>, panicked: bool)
      modifies `monitoredItems
      ensures panicked <==> exists n <- ns :: Stops(old(Content()), n)
      ensures !panicked ==> Content() == NotifyAll(old(Content()), ns) && calls == CallsOf(old(Content()), ns)
    {
      hide NotifyOne, CallOf, Stops;
      calls := [];
      ghost var before := Content();
      for i := 0 to |ns|
        invariant forall j :: 0 <= j < i ==> !Stops(before, ns[j])
        invariant Content() == NotifyAll(before, ns[..i]) && calls == CallsOf(before, ns[..i])
      {
        assert ns[..i + 1][..i] == ns[..i];
        NotifyingKeepsStops(before, ns[..i], ns[i]);
        var more, failed := Dispatch(ns[i]);
        if failed {
          assert ns[i] in ns;
          return calls, true;
        }
        calls := calls + more;
      }
      assert ns[..|ns|] == ns;
      panicked := false;
    }
  }

  lemma {:induction false} NotifyAllFrame<V>(s: State<V>, ns: seq<Notification<V>>)
    ensures NotifyAll(s, ns).handles == s.handles && NotifyAll(s, ns).items.Keys == s.items.Keys
  {
    if ns != [] {
      hide Touched, ValuesFor, Receive;
      NotifyAllFrame(s, ns[..|ns| - 1]);
    }
  }

  /** Earlier notifications change nothing about what a later one can be dispatched to. */
  lemma NotifyingKeepsStops<V>(s: State<V>, ns: seq<Notification<V>>, n: Notification<V>)
    ensures Stops(NotifyAll(s, ns), n) == Stops(s, n)
  {
    NotifyAllFrame(s, ns);
    hide NotifyAll;
    if n.Some? {
      assert forall c <- n.value :: Dangles(NotifyAll(s, ns), c) == Dangles(s, c);
    }
  }

  lemma NothingReceived<V>(s: State<V>)
    ensures ReceiveAll(s, []) == s.items
  {
    forall id | id in s.items ensures Receive(s.items[id], []) == s.items[id] { ReceiveNothing(s.items[id]); }
  }

  lemma ReceiveNothing<V>(item: Item<V>)
    ensures Receive(item, []) == item
  {
    assert item.values + [] == item.values;
  }

  lemma ReceiveMore<V>(item: Item<V>, vs: seq<V>, v: V)
    ensures var r := Receive(item, vs); Receive(item, vs + [v]) == r.(lastValue := v, values := r.values + [v])
  {
    assert item.values + (vs + [v]) == item.values + vs + [v];
  }

  lemma ReceiveNext<V>(s: State<V>, cs: seq<Change<V>>, c: Change<V>)
    requires !Dangles(s, c)
    ensures
      if c.clientHandle !in s.handles then
        ReceiveAll(s, cs + [c]) == ReceiveAll(s, cs) && Touched(s.handles, cs + [c]) == Touched(s.handles, cs)
      else
        var id := s.handles[c.clientHandle];
        var all := ReceiveAll(s, cs);
        && ReceiveAll(s, cs + [c]) == all[id := all[id].(lastValue := c.value, values := all[id].values + [c.value])]
        && Touched(s.handles, cs + [c]) == Touched(s.handles, cs) + {id}
  {
    hide Receive;
    assert (cs + [c])[..|cs|] == cs;
    forall id | id in s.items
      ensures
        var vs, item := ValuesFor(s.handles, cs, id), s.items[id];
        && Receive(item, vs + []) == Receive(item, vs)
        && var r := Receive(item, vs); Receive(item, vs + [c.value]) == r.(lastValue := c.value, values := r.values + [c.value])
    {
      var vs := ValuesFor(s.handles, cs, id);
      assert vs + [] == vs;
      ReceiveMore(s.items[id], vs, c.value);
    }
  }

  /** An item that is not touched receives nothing. */
  lemma {:induction false} UntouchedReceivesNothing<V>(handles: map<u32, u32>, cs: seq<Change<V>>, id: u32)
    ensures id !in Touched(handles, cs) <==> ValuesFor(handles, cs, id) == []
  {
    if cs != [] {
      var front, last := cs[..|cs| - 1], cs[|cs| - 1];
      assert cs == front + [last];
      UntouchedReceivesNothing(handles, front, id);
    }
  }

  // ---------------------------------------------------------------- what each operation changes

  /** The last creation of an id decides its item, and the last creation with a handle where the handle leads. */
  lemma {:induction false} InsertAllChanges<V>(s: State<V>, cs: seq<Create>, k: nat)
    requires k < |cs|
    ensures
      var t, c := InsertAll(s, cs), cs[k];
      && t.empty == s.empty
      && ((forall j :: k < j < |cs| ==> cs[j].id != c.id) ==>
            c.id in t.items &&
            t.items[c.id] ==
            Item(c.id, c.clientHandle, c.samplingInterval, c.queueSize, c.discardOldest, s.empty, []))
      && ((forall j :: k < j < |cs| ==> cs[j].clientHandle != c.clientHandle) ==>
            c.clientHandle in t.handles && t.handles[c.clientHandle] == c.id)
  {
    var front := cs[..|cs| - 1];
    if front != [] {
      InsertAllChanges(s, front, if k < |front| then k else 0);
      assert forall j :: 0 <= j < |front| ==> front[j] == cs[j];
    }
  }

  /** What no creation names stays. */
  lemma {:induction false} InsertAllFrame<V>(s: State<V>, cs: seq<Create>, id: u32, h: u32)
    ensures
      var t := InsertAll(s, cs);
      && ((forall c <- cs :: c.id != id) ==>
            (id in t.items <==> id in s.items) && (id in s.items ==> t.items[id] == s.items[id]))
      && ((forall c <- cs :: c.clientHandle != h) ==>
            (h in t.handles <==> h in s.handles) && (h in s.handles ==> t.handles[h] == s.handles[h]))
  {
    if cs != [] {
      InsertAllFrame(s, cs[..|cs| - 1], id, h);
      assert forall c <- cs[..|cs| - 1] :: c in cs;
      assert cs[|cs| - 1] in cs;
    }
  }

  /** Modifications change two fields of the items they name. */
  lemma {:induction false} ModifyAllFrame<V>(s: State<V>, ms: seq<Modify>, id: u32)
    ensures
      var t := ModifyAll(s, ms);
      && t.items.Keys == s.items.Keys && t.handles == s.handles && t.empty == s.empty
      && (id in s.items ==>
            var was, now := s.items[id], t.items[id];
            now == Item(was.id, was.clientHandle, now.samplingInterval, now.queueSize, was.discardOldest,
                         was.lastValue, was.values))
      && (id in s.items && (forall m <- ms :: m.id != id) ==> t.items[id] == s.items[id])
  {
    if ms != [] {
      var front := ms[..|ms| - 1];
      assert ms == front + [ms[|ms| - 1]];
      ModifyAllFrame(s, front, id);
    }
  }

  /** The last modification of an item decides. */
  lemma {:induction false} ModifyAllChanges<V>(s: State<V>, ms: seq<Modify>, k: nat)
    requires k < |ms| && ms[k].id in s.items && forall j :: k < j < |ms| ==> ms[j].id != ms[k].id
    ensures ms[k].id in ModifyAll(s, ms).items
    ensures
      var was := s.items[ms[k].id];
      ModifyAll(s, ms).items[ms[k].id] ==
      Item(was.id, was.clientHandle, ms[k].samplingInterval, ms[k].queueSize, was.discardOldest, was.lastValue, was.values)
  {
    var front := ms[..|ms| - 1];
    ModifyAllFrame(s, front, ms[k].id);
    if k < |front| { ModifyAllChanges(s, front, k); }
  }

  /** Deletion removes the items named and the handles that led to them. */
  lemma {:induction false} DeleteAllChanges<V>(s: State<V>, ids: seq<u32>)
    requires Inverse(s)
    ensures DeleteAll(s, ids) ==
            State(map id | id in s.items && id !in ids :: s.items[id],
                  map h | h in s.handles && s.handles[h] !in ids :: s.handles[h],
                  s.empty)
  {
    if ids != [] {
      var front := ids[..|ids| - 1];
      assert ids == front + [ids[|ids| - 1]];
      DeleteAllChanges(s, front);
    } else {
      assert s == DeleteAll(s, ids);
    }
  }

  /** Values reach an item in the order of the notification, each by its handle. */
  lemma {:induction false} ValuesInOrder<V>(handles: map<u32, u32>, a: seq<Change<V>>, b: seq<Change<V>>, id: u32)
    ensures ValuesFor(handles, a + b, id) == ValuesFor(handles, a, id) + ValuesFor(handles, b, id)
    ensures |b| == 1 ==>
              ValuesFor(handles, b, id) ==
              if b[0].clientHandle in handles && handles[b[0].clientHandle] == id then [b[0].value] else []
  {
    if b == [] {
      assert a + b == a && ValuesFor(handles, a, id) + [] == ValuesFor(handles, a, id);
    } else {
      var front := b[..|b| - 1];
      ValuesInOrder(handles, a, front, id);
      assert (a + b)[..|a + b| - 1] == a + front;
      if |b| == 1 { assert ValuesFor(handles, front, id) == []; }
    }
  }

  /** Notifications are dispatched in order. */
  lemma {:induction false} CallsInOrder<V>(s: State<V>, a: seq<Notification<V>>, b: seq<Notification<V>>)
    ensures NotifyAll(s, a + b) == NotifyAll(NotifyAll(s, a), b)
    ensures CallsOf(s, a + b) == CallsOf(s, a) + CallsOf(NotifyAll(s, a), b)
  {
    hide NotifyOne, CallOf;
    if b == [] {
      assert a + b == a && CallsOf(s, a) + [] == CallsOf(s, a);
    } else {
      var front := b[..|b| - 1];
      CallsInOrder(s, a, front);
      assert (a + b)[..|a + b| - 1] == a + front;
    }
  }

  /** Afterwards an item holds the last value it received and is otherwise as it was. */
  lemma SettledItem<V>(s: State<V>, cs: seq<Change<V>>, id: u32)
    requires Settled(s) && id in s.items
    ensures
      var t, was, vs := Settle(s, cs), s.items[id], ValuesFor(s.handles, cs, id);
      && t.items.Keys == s.items.Keys && t.handles == s.handles && t.empty == s.empty
      && t.items[id] == Item(was.id, was.clientHandle, was.samplingInterval, was.queueSize, was.discardOldest,
                             if vs == [] then was.lastValue else vs[|vs| - 1], [])
  {
    UntouchedReceivesNothing(s.handles, cs, id);
    hide Touched, ValuesFor;
    assert s.items[id].values == [] && [] + ValuesFor(s.handles, cs, id) == ValuesFor(s.handles, cs, id);
  }

  // ---------------------------------------------------------------- what every operation keeps

  /** An insertion keeps the maps inverse exactly when id and handle are new or already belong together. */
  lemma InsertKeepsInverseIff<V>(s: State<V>, c: Create)
    requires Inverse(s)
    ensures Inverse(InsertOne(s, c)) <==> Compatible(s, c)
  {
    var t := InsertOne(s, c);
    if c.id in s.items && s.items[c.id].clientHandle != c.clientHandle {
      var h := s.items[c.id].clientHandle;
      assert h in t.handles && t.handles[h] == c.id && t.items[c.id].clientHandle != h;
    } else if c.clientHandle in s.handles && s.handles[c.clientHandle] != c.id {
      var id := s.handles[c.clientHandle];
      assert id in t.items && t.items[id] == s.items[id];
    }
  }

  /** Each creation is compatible when it is reached. */
  predicate AllCompatible<V>(s: State<V>, cs: seq<Create>) {
    forall i :: 0 <= i < |cs| ==> Compatible(InsertAll(s, cs[..i]), cs[i])
  }

  lemma {:induction false} InsertAllKeeps<V>(s: State<V>, cs: seq<Create>)
    requires Inverse(s) && Settled(s) && AllCompatible(s, cs)
    ensures Inverse(InsertAll(s, cs)) && Settled(InsertAll(s, cs))
  {
    if cs != [] {
      var front := cs[..|cs| - 1];
      assert forall i :: 0 <= i < |front| ==> front[..i] == cs[..i];
      InsertAllKeeps(s, front);
      InsertKeepsInverseIff(InsertAll(s, front), cs[|cs| - 1]);
    }
  }

  lemma {:induction false} ModifyAllKeeps<V>(s: State<V>, ms: seq<Modify>)
    requires Inverse(s) && Settled(s)
    ensures Inverse(ModifyAll(s, ms)) && Settled(ModifyAll(s, ms))
  {
    if ms != [] { ModifyAllKeeps(s, ms[..|ms| - 1]); }
  }

  lemma {:induction false} DeleteAllKeeps<V>(s: State<V>, ids: seq<u32>)
    requires Inverse(s) && Settled(s)
    ensures Inverse(DeleteAll(s, ids)) && Settled(DeleteAll(s, ids))
  {
    if ids != [] { DeleteAllKeeps(s, ids[..|ids| - 1]); }
  }

  lemma SettleKeeps<V>(s: State<V>, cs: seq<Change<V>>)
    requires Inverse(s) && Settled(s)
    ensures Inverse(Settle(s, cs)) && Settled(Settle(s, cs))
  {
    forall id | id in s.items && id !in Touched(s.handles, cs)
      ensures Receive(s.items[id], ValuesFor(s.handles, cs, id)) == s.items[id]
    {
      UntouchedReceivesNothing(s.handles, cs, id);
      ReceiveNothing(s.items[id]);
    }
  }

  lemma {:induction false} NotifyAllKeeps<V>(s: State<V>, ns: seq<Notification<V>>)
    requires Inverse(s) && Settled(s)
    ensures Inverse(NotifyAll(s, ns)) && Settled(NotifyAll(s, ns))
  {
    if ns != [] {
      NotifyAllKeeps(s, ns[..|ns| - 1]);
      if ns[|ns| - 1].Some? { SettleKeeps(NotifyAll(s, ns[..|ns| - 1]), ns[|ns| - 1].value); }
    }
  }

  // ---------------------------------------------------------------- runs

  datatype Operation<V> =
    | Insert(creates: seq<Create>)
    | Adjust(changes: seq<Modify>)
    | Delete(ids: seq<u32>)
    | Notify(notifications: seq<Notification<V>>)

  function Apply<V>(s: State<V>, op: Operation<V>): State<V> {
    match op
    case Insert(cs) => InsertAll(s, cs)
    case Adjust(ms) => ModifyAll(s, ms)
    case Delete(ids) => DeleteAll(s, ids)
    case Notify(ns) => NotifyAll(s, ns)
  }

  function Run<V>(s: State<V>, ops: seq<Operation<V>>): State<V> {
    if ops == [] then s else Apply(Run(s, ops[..|ops| - 1]), ops[|ops| - 1])
  }

  /** Every creation of the run is compatible when it is reached. */
  predicate CompatibleRun<V>(s: State<V>, ops: seq<Operation<V>>) {
    forall i :: 0 <= i < |ops| && ops[i].Insert? ==> AllCompatible(Run(s, ops[..i]), ops[i].creates)
  }

  /** In every such run from a new subscription the maps stay inverse and values are empty between operations, so every
      notification can be dispatched. */
  lemma {:induction false} EveryRunIsDispatchable<V>(empty: V, ops: seq<Operation<V>>)
    requires CompatibleRun(State(map[], map[], empty), ops)
    ensures
      var s := Run(State(map[], map[], empty), ops);
      Inverse(s) && Settled(s) && Dispatchable(s)
  {
    var s := State(map[], map[], empty);
    if ops != [] {
      var front, op := ops[..|ops| - 1], ops[|ops| - 1];
      assert forall i :: 0 <= i < |front| ==> front[..i] == ops[..i] && front[i] == ops[i];
      EveryRunIsDispatchable(empty, front);
      var t := Run(s, front);
      match op
      case Insert(cs) => InsertAllKeeps(t, cs);
      case Adjust(ms) => ModifyAllKeeps(t, ms);
      case Delete(ids) => DeleteAllKeeps(t, ids);
      case Notify(ns) => NotifyAllKeeps(t, ns);
    }
  }

  // ---------------------------------------------------------------- what the callback sees

  /** The callback gets exactly the items whose handles are known, each with its own values in order and the last of
      them as its last value. */
  lemma DeliveredIsExact<V>(s: State<V>, cs: seq<Change<V>>)
    requires Inverse(s) && Settled(s)
    ensures
      var d := Delivered(s, cs);
      && (forall id :: id in d <==> id in s.items && exists c: nat | c < |cs| :: cs[c].clientHandle == s.items[id].clientHandle)
      && (forall id <- d :: d[id].values == ValuesFor(s.handles, cs, id) != [])
      && (forall id <- d :: d[id].lastValue == d[id].values[|d[id].values| - 1] == Settle(s, cs).items[id].lastValue)
      && (forall id <- s.items :: id !in d ==> Settle(s, cs).items[id] == s.items[id])
  {
    forall id | id in s.items
      ensures id in Touched(s.handles, cs) <==> exists c: nat | c < |cs| :: cs[c].clientHandle == s.items[id].clientHandle
      ensures id !in Touched(s.handles, cs) ==> Receive(s.items[id], ValuesFor(s.handles, cs, id)) == s.items[id]
      ensures id in Touched(s.handles, cs) ==> ValuesFor(s.handles, cs, id) != []
      ensures s.items[id].values + ValuesFor(s.handles, cs, id) == ValuesFor(s.handles, cs, id)
    {
      TouchedByHandle(s, cs, id);
      UntouchedReceivesNothing(s.handles, cs, id);
      ReceiveNothing(s.items[id]);
    }
  }

  lemma {:induction false} TouchedByHandle<V>(s: State<V>, cs: seq<Change<V>>, id: u32)
    requires Inverse(s) && id in s.items
    ensures id in Touched(s.handles, cs) <==> exists c: nat | c < |cs| :: cs[c].clientHandle == s.items[id].clientHandle
  {
    if cs != [] {
      var front, last := cs[..|cs| - 1], cs[|cs| - 1];
      TouchedByHandle(s, front, id);
      if exists c: nat | c < |cs| :: cs[c].clientHandle == s.items[id].clientHandle {
        var c: nat :| c < |cs| && cs[c].clientHandle == s.items[id].clientHandle;
        if c < |front| { assert front[c] == cs[c]; }
      }
      if exists c: nat | c < |front| :: front[c].clientHandle == s.items[id].clientHandle {
        var c: nat :| c < |front| && front[c].clientHandle == s.items[id].clientHandle;
        assert cs[c] == front[c];
      }
      if last.clientHandle in s.handles && s.handles[last.clientHandle] == id {
        assert cs[|cs| - 1].clientHandle == s.items[id].clientHandle;
      }
    }
  }

  // ---------------------------------------------------------------- an incompatible run

  /** Creating an item again under a new handle and then deleting it leaves its first handle behind, and a value for
      that handle stops the client. */
  lemma ReinsertionLeavesHandle<V>(empty: V, id: u32, first: u32, second: u32, v: V)
    requires first != second
    ensures
      var s0 := State(map[], map[], empty);
      var s1 := InsertAll(s0, [Create(id, first, 0.0, 1, false), Create(id, second, 0.0, 1, false)]);
      var s2 := DeleteAll(s1, [id]);
      && !Inverse(s1)
      && s2.items == map[] && s2.handles == map[first := id] && Stops(s2, Some([Change(first, v)]))
  {
    var s0 := State(map[], map[], empty);
    var c1, c2 := Create(id, first, 0.0, 1, false), Create(id, second, 0.0, 1, false);
    assert [c1, c2][..1] == [c1] && [c1][..0] == [];
    assert InsertAll(s0, [c1]) == InsertOne(s0, c1);
    var s1 := InsertAll(s0, [c1, c2]);
    assert s1 == InsertOne(InsertOne(s0, c1), c2);
    assert s1.handles[first] == id && s1.items[id].clientHandle == second;
    assert [id][..0] == [] && DeleteAll(s1, []) == s1;
    var s2 := DeleteAll(s1, [id]);
    assert s2 == DeleteOne(s1, id);
    assert s2.handles[first] == id;
    assert Dangles(s2, Change(first, v)) && Change(first, v) in [Change(first, v)];
  }
}
