/** The RPC pool: endpoints tried in cyclic order from the active one, synchronously and under interleaving. */
module RpcFailover {
  import opened Numbers
  import opened Results
  import opened Sequences

  // The endpoint list.

  function IndexOf(s: seq<string>, v: string): (i: nat)
    requires v in s
    ensures i < |s| && s[i] == v && forall j :: 0 <= j < i ==> s[j] != v
  {
    if s[0] == v then 0 else IndexOf(s[1..], v) + 1
  }

  // Cyclic order.

  /** The position tried at the given offset. */
  function Visit(start: nat, offset: nat, n: nat): (p: nat)
    requires n > 0
    ensures p < n
  {
    (start + offset) % n
  }

  lemma RemainderUnique(x: nat, q: nat, r: nat, n: nat)
    requires r < n && x == q * n + r
    ensures x % n == r && x / n == q
  {
    assert (q + 1) * n == q * n + n;
    FloorUnique(x, n, q);
    assert x == n * (x / n) + x % n;
  }

  /** Within one round no position repeats. */
  lemma VisitsAreDistinct(start: nat, i: nat, j: nat, n: nat)
    requires i < j < n
    ensures Visit(start, i, n) != Visit(start, j, n)
  {
    var a, gap := start + i, j - i;
    var q, r := a / n, a % n;
    assert a == q * n + r;
    if r + gap < n {
      RemainderUnique(start + j, q, r + gap, n);
    } else {
      assert (q + 1) * n == q * n + n;
      RemainderUnique(start + j, q + 1, r + gap - n, n);
    }
  }

  /** One round reaches every position. */
  lemma VisitsCoverAll(start: nat, p: nat, n: nat) returns (offset: nat)
    requires p < n
    ensures offset < n && Visit(start, offset, n) == p
  {
    var q, s := start / n, start % n;
    assert start == q * n + s;
    if p >= s {
      offset := p - s;
      RemainderUnique(start + offset, q, p, n);
    } else {
      offset := p + n - s;
      assert (q + 1) * n == q * n + n;
      RemainderUnique(start + offset, q + 1, p, n);
    }
  }

  /** The positions tried so far by a call that started at `start`. */
  function Visited(start: nat, count: nat, n: nat): (r: seq<nat>)
    requires n > 0
    ensures |r| == count && forall k :: 0 <= k < count ==> r[k] == Visit(start, k, n)
  {
    seq(count, k requires 0 <= k < count => Visit(start, k, n))
  }

  // Interleaved calls.

  datatype CallStatus = Running | Succeeded | Exhausted

  /**
   A call remembers where it started and which positions it has tried; the last of them is being tried while it runs.
   */
  datatype Call = Call(start: nat, tried: seq<nat>, status: CallStatus)

  /** A pool of `n` distinct endpoints shared by any number of calls. */
  datatype Pool = Pool(n: nat, active: nat, calls: map<nat, Call>)

  /** What can happen next: a call begins, or the attempt a call is waiting for fails or succeeds. */
  datatype Action = Begin(id: nat) | Fail(id: nat) | Succeed(id: nat)

  predicate Enabled(p: Pool, a: Action) {
    match a
    case Begin(id) => id !in p.calls
    case Fail(id) => id in p.calls && p.calls[id].status.Running?
    case Succeed(id) => id in p.calls && p.calls[id].status.Running?
  }

  function Next(p: Pool, a: Action): Pool
    requires p.n > 0 && Enabled(p, a)
  {
    match a
    case Begin(id) => p.(calls := p.calls[id := Call(p.active, [p.active % p.n], Running)])
    case Fail(id) =>
      var c := p.calls[id];
      var c' := if |c.tried| >= p.n then c.(status := Exhausted)
                else c.(tried := c.tried + [(c.start + |c.tried|) % p.n]);
      p.(calls := p.calls[id := c'])
    case Succeed(id) =>
      var c := p.calls[id];
      var endpoint := if c.tried == [] then 0 else c.tried[|c.tried| - 1];
      p.(active := endpoint, calls := p.calls[id := c.(status := Succeeded)])
  }

  predicate CallInOrder(c: Call, n: nat)
    requires n > 0
  {
    && 0 < |c.tried| <= n
    && c.tried == Visited(c.start, |c.tried|, n)
    && (c.status.Exhausted? ==> |c.tried| == n)
  }

  predicate PoolInOrder(p: Pool) {
    p.active < p.n && forall id :: id in p.calls ==> CallInOrder(p.calls[id], p.n)
  }

  function RunPool(p: Pool, actions: seq<Action>): Pool
    requires p.n > 0
    decreases |actions|
  {
    if actions == [] then p
    else RunPool(if Enabled(p, actions[0]) then Next(p, actions[0]) else p, actions[1..])
  }

  /** One more action takes the run one step further when it can happen, and nowhere when it cannot. */
  lemma {:induction false} RunPoolOneMore(p: Pool, actions: seq<Action>, a: Action)
    requires PoolInOrder(p)
    ensures var last := RunPool(p, actions);
            && last.n == p.n
            && RunPool(p, actions + [a]) == if Enabled(last, a) then Next(last, a) else last
    decreases |actions|
  {
    if actions == [] {
      assert ([] + [a])[1..] == [];
    } else {
      assert (actions + [a])[1..] == actions[1..] + [a];
      if Enabled(p, actions[0]) {
        NextKeepsOrder(p, actions[0]);
        RunPoolOneMore(Next(p, actions[0]), actions[1..], a);
      } else {
        RunPoolOneMore(p, actions[1..], a);
      }
    }
  }

  lemma {:induction false} NextKeepsOrder(p: Pool, a: Action)
    requires PoolInOrder(p) && Enabled(p, a)
    ensures PoolInOrder(Next(p, a)) && Next(p, a).n == p.n
    ensures !a.Succeed? ==> Next(p, a).active == p.active
  {
    match a
    case Begin(id) =>
      assert Visit(p.active, 0, p.n) == p.active % p.n;
    case Fail(id) =>
      var c := p.calls[id];
      assert CallInOrder(c, p.n);
      if |c.tried| < p.n {
        assert c.tried + [(c.start + |c.tried|) % p.n] == Visited(c.start, |c.tried| + 1, p.n);
      }
    case Succeed(id) =>
      assert CallInOrder(p.calls[id], p.n);
  }

  /** The endpoint that a call is trying, or tried last. */
  function LastTried(c: Call): nat
    requires c.tried != []
  {
    c.tried[|c.tried| - 1]
  }

  /**
   What each step does to its call, and that it leaves the others alone: a call begins at the active endpoint; a failure
   moves it to the next position of its round, or ends it when the round is over; a success ends it where it is.
   */
  lemma {:induction false} AttemptEffect(p: Pool, a: Action)
    requires PoolInOrder(p) && Enabled(p, a)
    ensures a.id in Next(p, a).calls && Next(p, a).calls - {a.id} == p.calls - {a.id}
    ensures a.id in p.calls ==> p.calls[a.id].tried != []
    ensures var c' := Next(p, a).calls[a.id];
            match a
            case Begin(_) => c' == Call(p.active, [p.active], Running)
            case Fail(id) =>
              var c := p.calls[id];
              if |c.tried| < p.n then c' == c.(tried := c.tried + [(c.start + |c.tried|) % p.n])
              else c' == c.(status := Exhausted)
            case Succeed(id) => c' == p.calls[id].(status := Succeeded) && Next(p, a).active == LastTried(c')
  {
    if a.id in p.calls {
      assert CallInOrder(p.calls[a.id], p.n);
    }
    if a.Begin? {
      RemainderUnique(p.active, 0, p.active, p.n);
    }
  }

  /** Under any interleaving of calls the active index stays in range and every call walks its own cyclic order. */
  lemma {:induction false} InterleavingKeepsOrder(p: Pool, actions: seq<Action>)
    requires PoolInOrder(p)
    ensures PoolInOrder(RunPool(p, actions)) && RunPool(p, actions).n == p.n
    decreases |actions|
  {
    if actions != [] {
      if Enabled(p, actions[0]) {
        NextKeepsOrder(p, actions[0]);
        InterleavingKeepsOrder(Next(p, actions[0]), actions[1..]);
      } else {
        InterleavingKeepsOrder(p, actions[1..]);
      }
    }
  }

  /** A pool that no call has used yet. */
  function FreshPool(n: nat, active: nat): Pool {
    Pool(n, active, map[])
  }

  /** After any interleaving, a call has tried no endpoint twice, and one that gave up has tried them all. */
  lemma {:induction false} CallTriesEachOnce(n: nat, active: nat, actions: seq<Action>, id: nat)
    requires active < n && id in RunPool(FreshPool(n, active), actions).calls
    ensures var c := RunPool(FreshPool(n, active), actions).calls[id];
            && c.tried == Visited(c.start, |c.tried|, n)
            && (forall i, j :: 0 <= i < j < |c.tried| ==> c.tried[i] != c.tried[j])
            && (c.status.Exhausted? ==> forall e: nat :: e < n ==> e in c.tried)
  {
    InterleavingKeepsOrder(FreshPool(n, active), actions);
    var c := RunPool(FreshPool(n, active), actions).calls[id];
    assert CallInOrder(c, n);
    forall i, j | 0 <= i < j < |c.tried|
      ensures c.tried[i] != c.tried[j]
    {
      VisitsAreDistinct(c.start, i, j, n);
    }
    if c.status.Exhausted? {
      forall e: nat | e < n
        ensures e in c.tried
      {
        var offset := VisitsCoverAll(c.start, e, n);
        assert c.tried[offset] == e;
      }
    }
  }

  /**
   After any interleaving, the active index is in range; a further step moves it only when a call succeeds, and then to
   the endpoint that call was trying.
   */
  lemma {:induction false} OnlySuccessMovesActive(n: nat, active: nat, actions: seq<Action>, a: Action)
    requires active < n && Enabled(RunPool(FreshPool(n, active), actions), a)
    ensures var p := RunPool(FreshPool(n, active), actions);
            && p.n == n && p.active < n
            && (a.Succeed? ==> |p.calls[a.id].tried| > 0)
            && Next(p, a).active == if a.Succeed? then p.calls[a.id].tried[|p.calls[a.id].tried| - 1] else p.active
  {
    InterleavingKeepsOrder(FreshPool(n, active), actions);
    if a.Succeed? {
      assert CallInOrder(RunPool(FreshPool(n, active), actions).calls[a.id], n);
    }
  }

  /**
   The pool. `WithFailover` is the loop of one synchronous call; what its callback does is a function of the endpoint,
   because no call tries an endpoint twice. An asynchronous call is the same loop cut at its awaits, one method for each
   piece, so that any number of calls interleave.
   */
  class RpcPool {
    const httpEndpoints: seq<string>
    var activeIndex: nat
    var connections: set<string>
    var calls: map<nat, Call>

    /** The pool as the interleaved calls see it. */
    function Value(): Pool
      reads this
    {
      Pool(|httpEndpoints|, activeIndex, calls)
    }

    predicate Valid()
      reads this
    {
      Distinct(httpEndpoints) && |httpEndpoints| > 0 && PoolInOrder(Value())
    }

    constructor (configured: seq<string>)
      requires configured != []
      ensures Valid() && httpEndpoints == Unique(configured) && Value() == FreshPool(|httpEndpoints|, 0)
    {
      UniqueKeepsValues(configured);
      httpEndpoints := Unique(configured);
      activeIndex := 0;
      connections := {};
      calls := map[];
    }

    function EndpointAt(index: nat): string
      requires |httpEndpoints| > 0
    {
      httpEndpoints[index % |httpEndpoints|]
    }

    ghost function Endpoints(positions: seq<nat>): set<string> {
      set k | 0 <= k < |positions| && positions[k] < |httpEndpoints| :: httpEndpoints[positions[k]]
    }

    /** The connections after one more attempt: dropped with the failed ones, or kept after all. */
    lemma OneMoreAttempt(before: set<string>, tried: seq<nat>, p: nat)
      requires p < |httpEndpoints|
      ensures var now := before - Endpoints(tried);
              && now + {httpEndpoints[p]} == before - Endpoints(tried + [p]) + {httpEndpoints[p]}
              && now - {httpEndpoints[p]} == before - Endpoints(tried + [p])
    {
      var all := tried + [p];
      assert all[|tried|] == p;
      assert forall k :: 0 <= k < |tried| ==> all[k] == tried[k];
      assert Endpoints(all) == Endpoints(tried) + {httpEndpoints[p]};
    }

    lemma {:induction false} AllFailed<T>(fn: string -> Result<T, string>, start: nat)
      requires |httpEndpoints| > 0
      requires forall k :: 0 <= k < |httpEndpoints| ==> fn(httpEndpoints[Visit(start, k, |httpEndpoints|)]).Err?
      ensures forall i :: 0 <= i < |httpEndpoints| ==> fn(httpEndpoints[i]).Err?
    {
      forall i | 0 <= i < |httpEndpoints|
        ensures fn(httpEndpoints[i]).Err?
      {
        var offset := VisitsCoverAll(start, i, |httpEndpoints|);
        assert fn(httpEndpoints[Visit(start, offset, |httpEndpoints|)]).Err?;
      }
    }

    /** One attempt, at the endpoint that `index` falls on: it becomes active, or its connection is dropped. */
    method TryEndpoint<T>(fn: string -> Result<T, string>, index: nat) returns (r: Result<T, string>)
      requires Valid()
      modifies this`activeIndex, this`connections
      ensures r == fn(httpEndpoints[index % |httpEndpoints|])
      ensures activeIndex == if r.Ok? then index % |httpEndpoints| else old(activeIndex)
      ensures connections == if r.Ok? then old(connections) + {httpEndpoints[index % |httpEndpoints|]}
                             else old(connections) - {httpEndpoints[index % |httpEndpoints|]}
    {
      var endpoint := EndpointAt(index);
      connections := connections + {endpoint};
      r := fn(endpoint);
      if r.Ok? {
        activeIndex := IndexOf(httpEndpoints, endpoint);
      } else {
        connections := connections - {endpoint};
      }
    }

    /**
     Tries the endpoints in cyclic order until one succeeds; the first success becomes active. The connections of those
     that failed are dropped, and the last error is the one reported.
     */
    method WithFailover<T>(fn: string -> Result<T, string>) returns (r: Result<T, string>, ghost tried: seq<nat>)
      requires Valid()
      modifies this`activeIndex, this`connections
      ensures Valid()
      ensures tried == Visited(old(activeIndex), |tried|, |httpEndpoints|) && 0 < |tried| <= |httpEndpoints|
      ensures forall k :: 0 <= k < |tried| - 1 ==> fn(httpEndpoints[tried[k]]).Err?
      ensures r == fn(httpEndpoints[tried[|tried| - 1]])
      ensures r.Ok? ==> activeIndex == tried[|tried| - 1]
      ensures r.Err? ==> activeIndex == old(activeIndex) && |tried| == |httpEndpoints|
                         && forall i :: 0 <= i < |httpEndpoints| ==> fn(httpEndpoints[i]).Err?
      ensures connections == old(connections) - Endpoints(tried) + if r.Ok? then {httpEndpoints[activeIndex]} else {}
    {
      var start := activeIndex;
      var n := |httpEndpoints|;
      var lastError := "RPC failover exhausted";
      tried := [];
      for offset := 0 to n
        invariant activeIndex == start
        invariant tried == Visited(start, offset, n)
        invariant forall k :: 0 <= k < offset ==> fn(httpEndpoints[Visit(start, k, n)]).Err?
        invariant connections == old(connections) - Endpoints(tried)
        invariant offset > 0 ==> fn(httpEndpoints[Visit(start, offset - 1, n)]) == Err(lastError)
      {
        OneMoreAttempt(old(connections), tried, Visit(start, offset, n));
        tried := tried + [Visit(start, offset, n)];
        assert tried == Visited(start, offset + 1, n);
        r := TryEndpoint(fn, start + offset);
        if r.Ok? {
          return;
        }
        lastError := r.error;
      }
      AllFailed(fn, start);
      r := Err(lastError);
    }

    /** The endpoint that call `id` is trying, or tried last. */
    ghost function Trying(id: nat): set<string>
      requires Valid() && id in calls
      reads this
    {
      assert CallInOrder(calls[id], |httpEndpoints|);
      {httpEndpoints[LastTried(calls[id])]}
    }

    /** Remembers where the call starts and begins its first attempt. */
    method BeginCall(id: nat)
      requires Valid() && id !in calls
      modifies this`connections, this`calls
      ensures Valid() && Value() == Next(old(Value()), Begin(id))
      ensures connections == old(connections) + {httpEndpoints[activeIndex]}
    {
      NextKeepsOrder(Value(), Begin(id));
      var position := Attempt(activeIndex);
      calls := calls[id := Call(activeIndex, [position], Running)];
    }

    /** Opens a connection to the endpoint at `index`, and gives its position. */
    method Attempt(index: nat) returns (position: nat)
      requires Valid()
      modifies this`connections
      ensures position == index % |httpEndpoints|
      ensures connections == old(connections) + {httpEndpoints[position]}
    {
      var endpoint := EndpointAt(index);
      connections := connections + {endpoint};
      position := IndexOf(httpEndpoints, endpoint);
    }

    /** The awaited attempt failed: its connection is dropped, and the next endpoint tried, if one is left. */
    method AttemptFailed(id: nat)
      requires Valid() && Enabled(Value(), Action.Fail(id))
      modifies this`connections, this`calls
      ensures Valid() && Value() == Next(old(Value()), Action.Fail(id))
      ensures id in calls
      ensures connections == old(connections) - old(Trying(id)) + if calls[id].status.Running? then Trying(id) else {}
    {
      NextKeepsOrder(Value(), Action.Fail(id));
      var c := calls[id];
      assert CallInOrder(c, |httpEndpoints|);
      var offset := |c.tried|;
      connections := connections - {httpEndpoints[c.tried[offset - 1]]};
      if offset < |httpEndpoints| {
        var position := Attempt(c.start + offset);
        calls := calls[id := c.(tried := c.tried + [position])];
      } else {
        calls := calls[id := c.(status := Exhausted)];
      }
    }

    /** The awaited attempt succeeded: its endpoint becomes the active one. */
    method AttemptSucceeded(id: nat)
      requires Valid() && Enabled(Value(), Succeed(id))
      modifies this`activeIndex, this`calls
      ensures Valid() && Value() == Next(old(Value()), Succeed(id))
    {
      NextKeepsOrder(Value(), Succeed(id));
      var c := calls[id];
      assert CallInOrder(c, |httpEndpoints|);
      var endpoint := httpEndpoints[c.tried[|c.tried| - 1]];
      activeIndex := IndexOf(httpEndpoints, endpoint);
      calls := calls[id := c.(status := Succeeded)];
    }
  }
}
