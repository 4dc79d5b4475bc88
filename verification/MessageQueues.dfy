/** Requests in flight, their responses, and the handles that name them
    (lib/src/client/message_queue.rs, lib/src/core/handle.rs). */
module MessageQueues {
  import opened Prelude
  import opened Arithmetic

  const MAX_U32: u32 := 0xFFFF_FFFF

  // ---------------------------------------------------------------- handles

  function NextHandle(next: u32, first: u32): u32 { if next == MAX_U32 then first else next + 1 }

  class Handle {
    var next: u32
    const first: u32

    constructor (first: u32)
      ensures this.first == first && next == first
    {
      this.first := first;
      next := first;
    }

    method Next() returns (h: u32)
      modifies this
      ensures h == old(next) && next == NextHandle(old(next), first)
    {
      h := next;
      if next == MAX_U32 { next := first; } else { next := next + 1; }
    }

    method SetNext(n: u32)
      modifies this
      ensures next == n
    {
      next := n;
    }

    method Reset()
      modifies this
      ensures next == first
    {
      SetNext(first);
    }
  }

  /** The handle issued after `k` others by a new factory. */
  function HandleAt(first: u32, k: nat): u32 { if k == 0 then first else NextHandle(HandleAt(first, k - 1), first) }

  /** How many handles there are before the factory wraps. */
  function Cycle(first: u32): nat { MAX_U32 - first + 1 }

  lemma {:induction false} HandleIs(first: u32, k: nat)
    ensures HandleAt(first, k) == first + k % Cycle(first)
  {
    if k > 0 {
      HandleIs(first, k - 1);
      NextRemainder(k - 1, Cycle(first));
    }
  }

  /** Two handles are equal exactly when a whole number of cycles lies between them. */
  lemma HandlesRepeatIff(first: u32, i: nat, j: nat)
    requires i <= j
    ensures HandleAt(first, i) == HandleAt(first, j) <==> (j - i) % Cycle(first) == 0
  {
    hide Cycle;
    HandleIs(first, i);
    HandleIs(first, j);
    CycleIsPositive(first);
    SameRemainderIff(i, j - i, Cycle(first));
  }

  lemma CycleIsPositive(first: u32)
    ensures Cycle(first) > 0 && first + Cycle(first) == 0x1_0000_0000
  {
  }

  // ---------------------------------------------------------------- the queue

  /** Requests in flight by handle, marked when a caller waits for them; responses not yet taken. */
  datatype Queue<R> = Queue(inflight: map<u32, bool>, responses: map<u32, R>)

  function Stored<R>(q: Queue<R>, h: u32, r: R): Queue<R> {
    if h !in q.inflight then q
    else Queue(q.inflight - {h}, if q.inflight[h] then q.responses else q.responses[h := r])
  }

  predicate Increasing(hs: seq<u32>) { forall i, j :: 0 <= i < j < |hs| ==> hs[i] < hs[j] }

  predicate IsLeast(m: u32, s: set<u32>) { m in s && forall x <- s :: m <= x }

  lemma {:induction false} LeastExists(s: set<u32>)
    requires s != {}
    ensures exists m :: IsLeast(m, s)
  {
    var y :| y in s;
    if s == {y} {
      assert IsLeast(y, s);
    } else {
      var rest := s - {y};
      LeastExists(rest);
      var m :| IsLeast(m, rest);
      assert forall x <- s :: x == y || x in rest;
      assert IsLeast(if y < m then y else m, s);
    }
  }

  /** The members of a set in increasing order. */
  ghost function Sorted(s: set<u32>): (hs: seq<u32>)
    ensures Increasing(hs)
    ensures forall x :: x in s <==> x in hs
  {
    if s == {} then []
    else
      LeastExists(s);
      var m :| IsLeast(m, s);
      [m] + Sorted(s - {m})
  }

  /** There is only one increasing sequence of the members of a set. */
  lemma {:induction false} IncreasingIsUnique(a: seq<u32>, b: seq<u32>)
    requires Increasing(a) && Increasing(b)
    requires forall x :: x in a <==> x in b
    ensures a == b
  {
    if a == [] || b == [] {
      NoMembers(a);
      NoMembers(b);
    } else {
      assert a[0] in b && b != [];
      assert b[0] in a;
      assert a[0] == b[0];
      forall x ensures x in a[1..] <==> x in b[1..] {
        TailMembers(a, x);
        TailMembers(b, x);
      }
      IncreasingIsUnique(a[1..], b[1..]);
    }
  }

  lemma NoMembers(a: seq<u32>)
    ensures a == [] <==> forall x :: x !in a
  {
    if a != [] { assert a[0] in a; }
  }

  lemma TailMembers(a: seq<u32>, x: u32)
    requires a != [] && Increasing(a)
    ensures x in a[1..] <==> x in a && x != a[0]
  {
  }

  class MessageQueue<R> {
    var inflightRequests: map<u32, bool>
    var responses: map<u32, R>

    ghost function Content(): Queue<R>
      reads this
    {
      Queue(inflightRequests, responses)
    }

    constructor ()
      ensures Content() == Queue(map[], map[])
    {
      inflightRequests, responses := map[], map[];
    }

    method Clear()
      modifies this
      ensures Content() == Queue(map[], map[])
    {
      inflightRequests, responses := map[], map[];
    }

    method AddRequest(h: u32, waits: bool)
      modifies `inflightRequests
      ensures inflightRequests == old(inflightRequests)[h := waits]
    {
      inflightRequests := inflightRequests[h := waits];
    }

    method RequestHasTimedOut(h: u32)
      modifies `inflightRequests
      ensures inflightRequests == old(inflightRequests) - {h}
    {
      inflightRequests := inflightRequests - {h};
    }

    /** `delivered` is what the waiting caller is sent. */
    method StoreResponse(h: u32, r: R) returns (delivered: Option<R>)
      modifies this
      ensures Content() == Stored(old(Content()), h, r)
      ensures delivered == if h in old(inflightRequests) && old(inflightRequests)[h] then Some(r) else None
    {
      delivered := None;
      if h in inflightRequests {
        var waits := inflightRequests[h];
        inflightRequests := inflightRequests - {h};
        if waits { delivered := Some(r); } else { responses := responses[h := r]; }
      }
    }

    /** Removes the responses with the given handles, one by one. */
    method TakeAll(hs: seq<u32>) returns (rs: seq<R>)
      requires Increasing(hs) && (forall h <- hs :: h in responses)
      modifies `responses
      ensures responses == Except(old(responses), hs)
      ensures rs == ValuesOf(old(responses), hs)
    {
      ghost var all := responses;
      assert Except(all, hs[..0]) == all;
      hide Except, Increasing;
      rs := [];
      for i := 0 to |hs|
        invariant responses == Except(all, hs[..i]) && rs == ValuesOf(all, hs)[..i]
      {
        TakeNext(all, hs, i);
        rs := rs + [responses[hs[i]]];
        responses := responses - {hs[i]};
      }
      assert hs[..|hs|] == hs;
    }

    /** Takes every response, in increasing order of handle. */
    method AsyncResponses() returns (rs: seq<R>)
      modifies `responses
      ensures responses == map[]
      ensures rs == ValuesOf(old(responses), Sorted(old(responses).Keys))
    {
      var hs := SortHandles(responses.Keys);
      AllTaken(responses, hs);
      rs := TakeAll(hs);
    }
  }

  function ValuesOf<R>(all: map<u32, R>, hs: seq<u32>): seq<R>
    requires forall h <- hs :: h in all
  {
    seq(|hs|, i requires 0 <= i < |hs| => all[hs[i]])
  }

  lemma TakeNext<R>(all: map<u32, R>, hs: seq<u32>, i: nat)
    requires Increasing(hs) && i < |hs| && forall h <- hs :: h in all
    ensures
      var left := Except(all, hs[..i]);
      hs[i] in left && left[hs[i]] == all[hs[i]] && left - {hs[i]} == Except(all, hs[..i + 1])
  {
    assert hs[i] in hs && hs[i] !in hs[..i] && hs[..i + 1] == hs[..i] + [hs[i]];
  }

  lemma AllTaken<R>(all: map<u32, R>, hs: seq<u32>)
    requires forall h <- all :: h in hs
    ensures Except(all, hs) == map[]
  {
  }

  /** What is left of a map when some keys are gone. */
  ghost function Except<R>(all: map<u32, R>, gone: seq<u32>): map<u32, R> {
    map h | h in all && h !in gone :: all[h]
  }

  method Least(s: set<u32>) returns (m: u32)
    requires s != {}
    ensures IsLeast(m, s)
  {
    m :| m in s;
    var left := s - {m};
    while left != {}
      invariant left <= s && m in s && forall x :: x in s && x !in left ==> m <= x
    {
      var x :| x in left;
      left := left - {x};
      if x < m { m := x; }
    }
  }

  method SortHandles(s: set<u32>) returns (hs: seq<u32>)
    ensures hs == Sorted(s)
  {
    hs := [];
    var left := s;
    while left != {}
      invariant left <= s && Increasing(hs)
      invariant forall x :: x in hs <==> x in s && x !in left
      invariant forall i, y :: 0 <= i < |hs| && y in left ==> hs[i] < y
    {
      var m := Least(left);
      left := left - {m};
      hs := hs + [m];
    }
    IncreasingIsUnique(hs, Sorted(s));
  }
}
