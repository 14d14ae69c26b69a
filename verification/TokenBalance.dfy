/**
 The token balance hook: a shared cache, one load in flight per key, and a latest-request guard per hook instance.
 Everything between two awaits is one atomic step; any interleaving of steps is a run.
 */
module TokenBalance {
  import opened Results

  const CACHE_TTL: int := 15_000

  datatype Balance = Balance(balance: int, rawBalance: int, decimals: Option<nat>)

  datatype Cached = Cached(ts: int, data: Balance)

  /** What a load has come to: still pending, a balance, or a failure. */
  datatype Outcome = Pending | Loaded(data: Balance) | LoadFailed

  datatype Load = Load(key: string, outcome: Outcome)

  /** What a request awaits: a value from the cache, or a load. */
  datatype Promise = Resolved(data: Balance) | Awaiting(load: nat)

  datatype Request = Request(key: string, promise: Promise)

  /**
   One hook instance: its request counter, what it shows, and the requests it still awaits. `applied` lists the ids of
   the requests whose results it has applied.
   */
  datatype Hook = Hook(
    reqRef: nat,
    balance: Option<int>,
    rawBalance: Option<int>,
    decimals: Option<nat>,
    error: Option<string>,
    loading: bool,
    waiting: map<nat, Request>,
    applied: seq<nat>)

  const MOUNTED: Hook := Hook(0, None, None, None, None, false, map[], [])

  /** The module's maps, every load ever started, and the hook instances. */
  datatype State = State(
    balanceCache: map<string, Cached>,
    inflight: map<string, nat>,
    loads: seq<Load>,
    hooks: map<nat, Hook>)

  const INITIAL: State := State(map[], map[], [], map[])

  datatype Action =
    | Mount(hook: nat)
    | Fetch(hook: nat, key: string, force: bool, now: int)
    | FetchWithoutWallet(hook: nat)
    | FetchInvalidMint(hook: nat)
    | Settle(load: nat, result: Option<Balance>, now: int)
    | Resume(hook: nat, request: nat)
    | Cleanup(hook: nat)

  predicate Fresh(st: State, key: string, now: int) {
    key in st.balanceCache && now - st.balanceCache[key].ts < CACHE_TTL
  }

  /** `fetchBalanceShared`: the promise to await, and the maps after it. */
  function FetchShared(st: State, key: string, force: bool, now: int): (State, Promise) {
    if !force && Fresh(st, key, now) then (st, Resolved(st.balanceCache[key].data))
    else if key in st.inflight then (st, Awaiting(st.inflight[key]))
    else
      var id := |st.loads|;
      (st.(loads := st.loads + [Load(key, Pending)], inflight := st.inflight[key := id]), Awaiting(id))
  }

  /** What a settled promise delivers: a balance, or nothing when the load failed. */
  function Delivered(st: State, p: Promise): (r: Option<Balance>)
    requires p.Awaiting? ==> p.load < |st.loads|
  {
    if p.Resolved? then Some(p.data)
    else match st.loads[p.load].outcome
         case Loaded(data) => Some(data)
         case _ => None
  }

  predicate IsSettled(st: State, p: Promise) {
    p.Awaiting? ==> p.load < |st.loads| && !st.loads[p.load].outcome.Pending?
  }

  predicate Enabled(st: State, a: Action) {
    match a
    case Mount(h) => h !in st.hooks
    case Fetch(h, _, _, _) => h in st.hooks
    case FetchWithoutWallet(h) => h in st.hooks
    case FetchInvalidMint(h) => h in st.hooks
    case Settle(load, _, _) => load < |st.loads| && st.loads[load].outcome.Pending?
    case Resume(h, r) => h in st.hooks && r in st.hooks[h].waiting && IsSettled(st, st.hooks[h].waiting[r].promise)
    case Cleanup(h) => h in st.hooks
  }

  /** The continuation after the await: results of superseded requests are dropped. */
  function Resumed(hook: Hook, request: nat, delivered: Option<Balance>): Hook {
    var h := hook.(waiting := hook.waiting - {request});
    if request != hook.reqRef then h
    else
      var done := h.(applied := h.applied + [request], loading := false);
      match delivered
      case Some(d) => done.(rawBalance := Some(d.rawBalance), decimals := d.decimals, balance := Some(d.balance))
      case None => done.(error := Some("Failed to fetch balance"), balance := None, rawBalance := None)
  }

  function Step(st: State, a: Action): State
    requires Enabled(st, a)
  {
    match a
    case Mount(h) => st.(hooks := st.hooks[h := MOUNTED])
    case Fetch(h, key, force, now) =>
      var hook := st.hooks[h];
      var reqId := hook.reqRef + 1;
      var (shared, promise) := FetchShared(st, key, force, now);
      var hook' := hook.(reqRef := reqId, loading := true, error := None,
                         waiting := hook.waiting[reqId := Request(key, promise)]);
      shared.(hooks := st.hooks[h := hook'])
    case FetchWithoutWallet(h) =>
      st.(hooks := st.hooks[h := st.hooks[h].(balance := None, rawBalance := None, decimals := None, error := None)])
    case FetchInvalidMint(h) =>
      var hook := st.hooks[h].(error := Some("Invalid mint address"), balance := None, rawBalance := None);
      st.(hooks := st.hooks[h := hook])
    case Settle(load, result, now) =>
      var key := st.loads[load].key;
      var outcome := if result.Some? then Loaded(result.value) else LoadFailed;
      st.(loads := st.loads[load := Load(key, outcome)],
          balanceCache := if result.Some? then st.balanceCache[key := Cached(now, result.value)] else st.balanceCache,
          inflight := st.inflight - {key})
    case Resume(h, r) =>
      if IsSettled(st, st.hooks[h].waiting[r].promise) then
        st.(hooks := st.hooks[h := Resumed(st.hooks[h], r, Delivered(st, st.hooks[h].waiting[r].promise))])
      else assert false; st
    case Cleanup(h) => st.(hooks := st.hooks[h := st.hooks[h].(reqRef := st.hooks[h].reqRef + 1)])
  }

  function Run(st: State, actions: seq<Action>): State
    decreases |actions|
  {
    if actions == [] then st
    else Run(if Enabled(st, actions[0]) then Step(st, actions[0]) else st, actions[1..])
  }

  /** One more action takes the run one step further when it can happen, and nowhere when it cannot. */
  lemma {:induction false} RunOneMore(st: State, actions: seq<Action>, a: Action)
    ensures var last := Run(st, actions);
            Run(st, actions + [a]) == if Enabled(last, a) then Step(last, a) else last
    decreases |actions|
  {
    if actions == [] {
      assert ([] + [a])[1..] == [];
    } else {
      assert (actions + [a])[1..] == actions[1..] + [a];
      RunOneMore(if Enabled(st, actions[0]) then Step(st, actions[0]) else st, actions[1..], a);
    }
  }

  // The invariant.

  /** The load recorded in flight for a key is the key's one pending load. */
  predicate OneLoadPerKey(st: State) {
    && (forall key :: key in st.inflight ==>
          st.inflight[key] < |st.loads| && st.loads[st.inflight[key]] == Load(key, Pending))
    && (forall i :: 0 <= i < |st.loads| && st.loads[i].outcome.Pending? ==>
          st.loads[i].key in st.inflight && st.inflight[st.loads[i].key] == i)
  }

  /** `data` is what some finished load of `key` returned. */
  predicate CameFromLoad(st: State, key: string, data: Balance) {
    exists i :: 0 <= i < |st.loads| && st.loads[i] == Load(key, Loaded(data))
  }

  predicate CacheIsGenuine(st: State) {
    forall key :: key in st.balanceCache ==> CameFromLoad(st, key, st.balanceCache[key].data)
  }

  /** A request awaits a load of its own key, or holds what such a load returned. */
  predicate RequestIsGenuine(st: State, r: Request) {
    match r.promise
    case Resolved(data) => CameFromLoad(st, r.key, data)
    case Awaiting(load) => load < |st.loads| && st.loads[load].key == r.key
  }

  predicate Increasing(ids: seq<nat>) {
    forall i, j :: 0 <= i < j < |ids| ==> ids[i] < ids[j]
  }

  /** Awaited requests were issued, applied ones increase, and no applied request is awaited again. */
  predicate HookInOrder(st: State, hook: Hook) {
    && (forall r :: r in hook.waiting ==>
          0 < r <= hook.reqRef && r !in hook.applied && RequestIsGenuine(st, hook.waiting[r]))
    && Increasing(hook.applied)
    && (forall i :: 0 <= i < |hook.applied| ==> hook.applied[i] <= hook.reqRef)
  }

  predicate InOrder(st: State) {
    OneLoadPerKey(st) && CacheIsGenuine(st) && forall h :: h in st.hooks ==> HookInOrder(st, st.hooks[h])
  }

  /** Loads keep their key, and a finished load keeps its outcome. */
  predicate LoadsExtend(st: State, st': State) {
    && |st.loads| <= |st'.loads|
    && forall i :: 0 <= i < |st.loads| ==>
         st'.loads[i].key == st.loads[i].key && (!st.loads[i].outcome.Pending? ==> st'.loads[i] == st.loads[i])
  }

  lemma StepExtendsLoads(st: State, a: Action)
    requires Enabled(st, a)
    ensures LoadsExtend(st, Step(st, a))
  {
  }

  lemma GenuineStays(st: State, st': State, r: Request)
    requires LoadsExtend(st, st') && RequestIsGenuine(st, r)
    ensures RequestIsGenuine(st', r)
  {
    if r.promise.Resolved? {
      CameFromLoadStays(st, st', r.key, r.promise.data);
    }
  }

  lemma CameFromLoadStays(st: State, st': State, key: string, data: Balance)
    requires LoadsExtend(st, st') && CameFromLoad(st, key, data)
    ensures CameFromLoad(st', key, data)
  {
    var i :| 0 <= i < |st.loads| && st.loads[i] == Load(key, Loaded(data));
    assert st'.loads[i] == Load(key, Loaded(data));
  }

  lemma HookStaysInOrder(st: State, st': State, hook: Hook)
    requires LoadsExtend(st, st') && HookInOrder(st, hook)
    ensures HookInOrder(st', hook)
  {
    forall r | r in hook.waiting
      ensures RequestIsGenuine(st', hook.waiting[r])
    {
      GenuineStays(st, st', hook.waiting[r]);
    }
  }

  /** Only the acting hook changes, so only it needs a second look. */
  lemma HooksStayInOrder(st: State, st': State, h: nat)
    requires LoadsExtend(st, st') && InOrder(st)
    requires h in st'.hooks && HookInOrder(st', st'.hooks[h]) && st'.hooks == st.hooks[h := st'.hooks[h]]
    ensures forall k :: k in st'.hooks ==> HookInOrder(st', st'.hooks[k])
  {
    forall k | k in st'.hooks
      ensures HookInOrder(st', st'.hooks[k])
    {
      if k != h {
        HookStaysInOrder(st, st', st.hooks[k]);
      }
    }
  }

  /** Starting the one load of a key that has none in flight. */
  lemma StartedLoadIsTheOnlyOne(st: State, key: string)
    requires OneLoadPerKey(st) && key !in st.inflight
    ensures OneLoadPerKey(st.(loads := st.loads + [Load(key, Pending)], inflight := st.inflight[key := |st.loads|]))
  {
    var loads, inflight := st.loads + [Load(key, Pending)], st.inflight[key := |st.loads|];
    forall i | 0 <= i < |loads| && loads[i].outcome.Pending?
      ensures loads[i].key in inflight && inflight[loads[i].key] == i
    {
      if i < |st.loads| {
        assert loads[i] == st.loads[i];
      }
    }
  }

  lemma FetchSharedKeepsLoads(st: State, key: string, force: bool, now: int)
    requires OneLoadPerKey(st)
    ensures var (st', promise) := FetchShared(st, key, force, now);
            OneLoadPerKey(st') && LoadsExtend(st, st') && st'.hooks == st.hooks && st'.balanceCache == st.balanceCache
  {
    if key !in st.inflight {
      StartedLoadIsTheOnlyOne(st, key);
    }
  }

  lemma FetchSharedIsGenuine(st: State, key: string, force: bool, now: int)
    requires OneLoadPerKey(st) && CacheIsGenuine(st)
    ensures var (st', promise) := FetchShared(st, key, force, now); RequestIsGenuine(st', Request(key, promise))
  {
  }

  /** A request id not issued before joins the awaited ones. */
  lemma AskedInOrder(st: State, hook: Hook, request: Request)
    requires HookInOrder(st, hook) && RequestIsGenuine(st, request)
    ensures HookInOrder(st, hook.(reqRef := hook.reqRef + 1, loading := true, error := None,
                                  waiting := hook.waiting[hook.reqRef + 1 := request]))
  {
    assert hook.reqRef + 1 !in hook.applied;
  }

  lemma FetchKeepsOrder(st: State, h: nat, key: string, force: bool, now: int)
    requires InOrder(st) && h in st.hooks
    ensures InOrder(Step(st, Fetch(h, key, force, now)))
  {
    FetchSharedKeepsLoads(st, key, force, now);
    FetchSharedIsGenuine(st, key, force, now);
    var (shared, promise) := FetchShared(st, key, force, now);
    var st' := Step(st, Fetch(h, key, force, now));
    HookStaysInOrder(st, st', st.hooks[h]);
    GenuineStays(shared, st', Request(key, promise));
    AskedInOrder(st', st.hooks[h], Request(key, promise));
    HooksStayInOrder(st, st', h);
    CacheUntouched(st, st');
  }

  lemma FetchInOrder(st: State, h: nat, key: string, force: bool, now: int)
    requires h in st.hooks
    ensures InOrder(st) ==> InOrder(Step(st, Fetch(h, key, force, now)))
  {
    if InOrder(st) {
      FetchKeepsOrder(st, h, key, force, now);
    }
  }

  lemma SettleKeepsOrder(st: State, load: nat, result: Option<Balance>, now: int)
    requires InOrder(st) && Enabled(st, Settle(load, result, now))
    ensures InOrder(Step(st, Settle(load, result, now)))
  {
    var st' := Step(st, Settle(load, result, now));
    StepExtendsLoads(st, Settle(load, result, now));
    forall k | k in st'.balanceCache
      ensures CameFromLoad(st', k, st'.balanceCache[k].data)
    {
      if result.Some? && k == st.loads[load].key {
        assert st'.loads[load] == Load(k, Loaded(result.value));
      } else {
        CameFromLoadStays(st, st', k, st.balanceCache[k].data);
      }
    }
    forall h | h in st'.hooks
      ensures HookInOrder(st', st'.hooks[h])
    {
      HookStaysInOrder(st, st', st.hooks[h]);
    }
  }

  lemma ResumedInOrder(st: State, hook: Hook, r: nat, delivered: Option<Balance>)
    requires HookInOrder(st, hook) && r in hook.waiting
    ensures HookInOrder(st, Resumed(hook, r, delivered))
  {
    if r == hook.reqRef {
      forall i | 0 <= i < |hook.applied|
        ensures hook.applied[i] < r
      {
        assert hook.applied[i] in hook.applied;
      }
    }
  }

  lemma ResumeKeepsOrder(st: State, h: nat, r: nat)
    requires InOrder(st) && Enabled(st, Resume(h, r))
    ensures InOrder(Step(st, Resume(h, r)))
  {
    var st' := Step(st, Resume(h, r));
    ResumedInOrder(st, st.hooks[h], r, Delivered(st, st.hooks[h].waiting[r].promise));
    HookStaysInOrder(st, st', st'.hooks[h]);
    HooksStayInOrder(st, st', h);
    CacheUntouched(st, st');
  }

  lemma CacheUntouched(st: State, st': State)
    requires CacheIsGenuine(st) && st'.balanceCache == st.balanceCache && LoadsExtend(st, st')
    ensures CacheIsGenuine(st')
  {
    forall k | k in st'.balanceCache
      ensures CameFromLoad(st', k, st'.balanceCache[k].data)
    {
      CameFromLoadStays(st, st', k, st.balanceCache[k].data);
    }
  }

  lemma LocalStepKeepsOrder(st: State, a: Action)
    requires InOrder(st) && Enabled(st, a)
    requires a.Mount? || a.FetchWithoutWallet? || a.FetchInvalidMint? || a.Cleanup?
    ensures InOrder(Step(st, a))
  {
    var st' := Step(st, a);
    CacheUntouched(st, st');
    if !a.Mount? {
      assert HookInOrder(st, st.hooks[a.hook]);
    }
    HookStaysInOrder(st, st', st'.hooks[a.hook]);
    HooksStayInOrder(st, st', a.hook);
  }

  lemma StepKeepsOrder(st: State, a: Action)
    requires InOrder(st) && Enabled(st, a)
    ensures InOrder(Step(st, a))
  {
    match a
    case Fetch(h, key, force, now) => FetchKeepsOrder(st, h, key, force, now);
    case Settle(load, result, now) => SettleKeepsOrder(st, load, result, now);
    case Resume(h, r) => ResumeKeepsOrder(st, h, r);
    case Mount(_) => LocalStepKeepsOrder(st, a);
    case FetchWithoutWallet(_) => LocalStepKeepsOrder(st, a);
    case FetchInvalidMint(_) => LocalStepKeepsOrder(st, a);
    case Cleanup(_) => LocalStepKeepsOrder(st, a);
  }

  /** The invariant holds after every interleaving. */
  lemma {:induction false} InterleavingKeepsOrder(st: State, actions: seq<Action>)
    requires InOrder(st)
    ensures InOrder(Run(st, actions))
    decreases |actions|
  {
    if actions != [] {
      if Enabled(st, actions[0]) {
        StepKeepsOrder(st, actions[0]);
        InterleavingKeepsOrder(Step(st, actions[0]), actions[1..]);
      } else {
        InterleavingKeepsOrder(st, actions[1..]);
      }
    }
  }

  // What the protocol promises, from the start, over every interleaving.

  /** At most one load per key is outstanding, and whoever still awaits a pending load of a key awaits that one. */
  lemma {:induction false} AtMostOneLoadPerKey(actions: seq<Action>, i: nat, j: nat)
    requires var st := Run(INITIAL, actions);
             && i < |st.loads| && j < |st.loads| && st.loads[i].key == st.loads[j].key
             && st.loads[i].outcome.Pending? && st.loads[j].outcome.Pending?
    ensures i == j
  {
    InterleavingKeepsOrder(INITIAL, actions);
  }

  /**
   Requests for the same key that await unfinished loads await the same one, so they are delivered the same result.
   */
  lemma {:induction false} JoinersShareTheLoad(actions: seq<Action>, h: nat, r: nat, h': nat, r': nat)
    requires var st := Run(INITIAL, actions);
             && h in st.hooks && r in st.hooks[h].waiting && !IsSettled(st, st.hooks[h].waiting[r].promise)
             && h' in st.hooks && r' in st.hooks[h'].waiting && !IsSettled(st, st.hooks[h'].waiting[r'].promise)
             && st.hooks[h].waiting[r].key == st.hooks[h'].waiting[r'].key
    ensures var st := Run(INITIAL, actions); st.hooks[h].waiting[r].promise == st.hooks[h'].waiting[r'].promise
  {
    InterleavingKeepsOrder(INITIAL, actions);
    var st := Run(INITIAL, actions);
    assert HookInOrder(st, st.hooks[h]) && HookInOrder(st, st.hooks[h']);
    assert RequestIsGenuine(st, st.hooks[h].waiting[r]) && RequestIsGenuine(st, st.hooks[h'].waiting[r']);
  }

  /** The result a request resumes with was returned by a load of the very key it asked for. */
  lemma {:induction false} RequestsGetTheirOwnKey(actions: seq<Action>, h: nat, r: nat)
    requires Enabled(Run(INITIAL, actions), Resume(h, r))
    ensures var st := Run(INITIAL, actions);
            var request := st.hooks[h].waiting[r];
            var d := Delivered(st, request.promise);
            d.Some? ==> CameFromLoad(st, request.key, d.value)
  {
    InterleavingKeepsOrder(INITIAL, actions);
    var st := Run(INITIAL, actions);
    assert HookInOrder(st, st.hooks[h]);
    var request := st.hooks[h].waiting[r];
    if request.promise.Awaiting? && Delivered(st, request.promise).Some? {
      var load := request.promise.load;
      assert st.loads[load] == Load(request.key, Loaded(Delivered(st, request.promise).value));
    }
  }

  /** The ids of the requests whose results a hook applies strictly increase. */
  lemma {:induction false} AppliedIdsIncrease(actions: seq<Action>, h: nat)
    requires h in Run(INITIAL, actions).hooks
    ensures Increasing(Run(INITIAL, actions).hooks[h].applied)
  {
    InterleavingKeepsOrder(INITIAL, actions);
    assert HookInOrder(Run(INITIAL, actions), Run(INITIAL, actions).hooks[h]);
  }

  predicate SameDisplay(a: Hook, b: Hook) {
    (a.balance, a.rawBalance, a.decimals, a.error, a.loading)
    == (b.balance, b.rawBalance, b.decimals, b.error, b.loading)
  }

  /** A superseded request changes nothing on screen; the latest one shows its result and stops the spinner. */
  lemma OnlyTheLatestShows(st: State, h: nat, r: nat)
    requires InOrder(st) && Enabled(st, Resume(h, r))
    ensures var before, after := st.hooks[h], Step(st, Resume(h, r)).hooks[h];
            var d := Delivered(st, before.waiting[r].promise);
            && r <= before.reqRef && after.reqRef == before.reqRef && after.waiting == before.waiting - {r}
            && (r < before.reqRef ==> SameDisplay(before, after))
            && (r == before.reqRef ==> !after.loading)
            && (r == before.reqRef && d.Some? ==>
                  && (after.balance, after.rawBalance) == (Some(d.value.balance), Some(d.value.rawBalance))
                  && (after.decimals, after.error) == (d.value.decimals, before.error))
            && (r == before.reqRef && d.None? ==>
                  && after.balance == after.rawBalance == None
                  && (after.decimals, after.error) == (before.decimals, Some("Failed to fetch balance")))
  {
    assert HookInOrder(st, st.hooks[h]);
  }

  predicate Superseded(st: State, h: nat, r: nat) {
    h in st.hooks && r < st.hooks[h].reqRef && r !in st.hooks[h].applied
  }

  lemma StepKeepsSuperseded(st: State, a: Action, h: nat, r: nat)
    requires Enabled(st, a) && Superseded(st, h, r)
    ensures Superseded(Step(st, a), h, r)
  {
    assert st.hooks[h].reqRef <= Step(st, a).hooks[h].reqRef;
    if a.Resume? && a.hook == h {
      var hook, d := st.hooks[h], Delivered(st, st.hooks[h].waiting[a.request].promise);
      assert Step(st, a).hooks[h] == Resumed(hook, a.request, d);
    }
  }

  /** Once a newer request or a cleanup has moved the counter past it, a request can never show again. */
  lemma {:induction false} SupersededForever(st: State, actions: seq<Action>, h: nat, r: nat)
    requires Superseded(st, h, r)
    ensures Superseded(Run(st, actions), h, r)
    decreases |actions|
  {
    if actions != [] {
      if Enabled(st, actions[0]) {
        StepKeepsSuperseded(st, actions[0], h, r);
        SupersededForever(Step(st, actions[0]), actions[1..], h, r);
      } else {
        SupersededForever(st, actions[1..], h, r);
      }
    }
  }

  // The spinner.

  /** The hook shows a spinner that no awaited request will ever clear. */
  predicate Stuck(hook: Hook) {
    hook.loading && hook.reqRef !in hook.waiting
  }

  /**
   Exactly when the spinner gets stuck and comes loose: a cleanup while loading sticks it, and nothing but a further
   request of the same hook frees it.
   */
  lemma StuckExactlyAfterCleanup(st: State, a: Action, h: nat)
    requires h in st.hooks && HookInOrder(st, st.hooks[h]) && Enabled(st, a)
    ensures h in Step(st, a).hooks
    ensures Stuck(Step(st, a).hooks[h]) <==>
            if Stuck(st.hooks[h]) then !(a.Fetch? && a.hook == h) else a == Cleanup(h) && st.hooks[h].loading
  {
    var hook := st.hooks[h];
    if a == Cleanup(h) {
      assert hook.reqRef + 1 !in hook.waiting;
    }
  }

  /** A dependency change to no wallet, a cleanup and no new request, leaves the spinner on whatever then settles. */
  lemma {:induction false} StuckStays(st: State, actions: seq<Action>, h: nat)
    requires InOrder(st) && h in st.hooks && Stuck(st.hooks[h])
    requires forall i :: 0 <= i < |actions| ==> !(actions[i].Fetch? && actions[i].hook == h)
    ensures h in Run(st, actions).hooks && Stuck(Run(st, actions).hooks[h])
    decreases |actions|
  {
    if actions != [] {
      if Enabled(st, actions[0]) {
        StuckExactlyAfterCleanup(st, actions[0], h);
        StepKeepsOrder(st, actions[0]);
        StuckStays(Step(st, actions[0]), actions[1..], h);
      } else {
        StuckStays(st, actions[1..], h);
      }
    }
  }

  /** It is reached by mounting with a wallet and losing it before the first load settles. */
  lemma SpinnerCanStick()
    ensures var st := Step(Step(Step(INITIAL, Mount(0)), Fetch(0, "k", false, 0)), Cleanup(0));
            0 in st.hooks && Stuck(st.hooks[0])
  {
  }

  // When the cache answers, and what each step shows.

  /**
   A request is answered from the cache if and only if it is not forced and the entry is less than 15 seconds old;
   otherwise it awaits the load in flight, if there is one; and a load starts if and only if neither applies.
   */
  lemma CacheAnswersExactlyWhen(st: State, key: string, force: bool, now: int)
    ensures var (st', promise) := FetchShared(st, key, force, now);
            var recent := key in st.balanceCache && now - st.balanceCache[key].ts < 15_000;
            && (promise.Resolved? <==> !force && recent)
            && (promise.Resolved? ==> promise.data == st.balanceCache[key].data)
            && (promise.Awaiting? && key in st.inflight ==> promise.load == st.inflight[key])
            && (st' != st <==> (force || !recent) && key !in st.inflight)
            && (st' != st ==>
                  && promise == Awaiting(|st.loads|) && st'.loads == st.loads + [Load(key, Pending)]
                  && key in st'.inflight && st'.inflight[key] == |st.loads| && st'.inflight - {key} == st.inflight
                  && (st'.balanceCache, st'.hooks) == (st.balanceCache, st.hooks))
  {
    var (st', promise) := FetchShared(st, key, force, now);
    if promise.Awaiting? && key !in st.inflight {
      assert |st'.loads| == |st.loads| + 1;
    }
  }

  /** A load that settles is no longer in flight; only its success reaches the cache, with the time it came. */
  lemma SettlementEffect(st: State, load: nat, result: Option<Balance>, now: int)
    requires Enabled(st, Settle(load, result, now))
    ensures var st', key := Step(st, Settle(load, result, now)), st.loads[load].key;
            && st'.hooks == st.hooks && st'.inflight == st.inflight - {key} && |st'.loads| == |st.loads|
            && st'.loads[load] == Load(key, if result.Some? then Loaded(result.value) else LoadFailed)
            && (forall i :: 0 <= i < |st.loads| && i != load ==> st'.loads[i] == st.loads[i])
            && (result.None? ==> st'.balanceCache == st.balanceCache)
            && (result.Some? ==> st'.balanceCache == st.balanceCache[key := Cached(now, result.value)])
  {
  }

  /** `a` is the success of a load of `key`. */
  predicate Loads(st: State, a: Action, key: string) {
    Enabled(st, a) && a.Settle? && a.result.Some? && st.loads[a.load].key == key
  }

  /** No load of `key` succeeds during the run. */
  predicate NoNewerLoad(st: State, actions: seq<Action>, key: string)
    decreases |actions|
  {
    actions == []
    || (!Loads(st, actions[0], key)
        && NoNewerLoad(if Enabled(st, actions[0]) then Step(st, actions[0]) else st, actions[1..], key))
  }

  lemma EntryStays(st: State, a: Action, key: string)
    requires Enabled(st, a) && !Loads(st, a, key) && key in st.balanceCache
    ensures key in Step(st, a).balanceCache && Step(st, a).balanceCache[key] == st.balanceCache[key]
  {
    if a.Fetch? {
      CacheAnswersExactlyWhen(st, a.key, a.force, a.now);
    }
  }

  lemma {:induction false} EntryStaysThroughout(st: State, actions: seq<Action>, key: string)
    requires key in st.balanceCache && NoNewerLoad(st, actions, key)
    ensures key in Run(st, actions).balanceCache && Run(st, actions).balanceCache[key] == st.balanceCache[key]
    decreases |actions|
  {
    if actions != [] {
      if Enabled(st, actions[0]) {
        EntryStays(st, actions[0], key);
        EntryStaysThroughout(Step(st, actions[0]), actions[1..], key);
      } else {
        EntryStaysThroughout(st, actions[1..], key);
      }
    }
  }

  /** A request answered from the cache starts no load, and shows the cached balance as soon as it resumes. */
  lemma CachedBalanceShows(st: State, h: nat, key: string, now: int)
    requires h in st.hooks && key in st.balanceCache && now - st.balanceCache[key].ts < 15_000
    ensures var asked, r := Step(st, Fetch(h, key, false, now)), st.hooks[h].reqRef + 1;
            var data := st.balanceCache[key].data;
            && asked.loads == st.loads && Enabled(asked, Resume(h, r))
            && var shown := Step(asked, Resume(h, r)).hooks[h];
               && (shown.balance, shown.rawBalance) == (Some(data.balance), Some(data.rawBalance))
               && (shown.decimals, shown.error, shown.loading) == (data.decimals, None, false)
  {
    CacheAnswersExactlyWhen(st, key, false, now);
  }

  /**
   Whatever happens after a load has succeeded, short of a newer success for its key: for 15 seconds every unforced
   request for the key starts no load and shows the balance that was loaded.
   */
  lemma {:induction false} LoadedBalanceShows(
    st: State, load: nat, data: Balance, t: int, actions: seq<Action>, h: nat, now: int)
    requires Enabled(st, Settle(load, Some(data), t)) && now - t < 15_000
    requires NoNewerLoad(Step(st, Settle(load, Some(data), t)), actions, st.loads[load].key)
    requires h in Run(Step(st, Settle(load, Some(data), t)), actions).hooks
    ensures var later, key := Run(Step(st, Settle(load, Some(data), t)), actions), st.loads[load].key;
            var asked, r := Step(later, Fetch(h, key, false, now)), later.hooks[h].reqRef + 1;
            && asked.loads == later.loads && Enabled(asked, Resume(h, r))
            && var shown := Step(asked, Resume(h, r)).hooks[h];
               && (shown.balance, shown.rawBalance) == (Some(data.balance), Some(data.rawBalance))
               && (shown.decimals, shown.error, shown.loading) == (data.decimals, None, false)
  {
    var key := st.loads[load].key;
    SettlementEffect(st, load, Some(data), t);
    EntryStaysThroughout(Step(st, Settle(load, Some(data), t)), actions, key);
    CachedBalanceShows(Run(Step(st, Settle(load, Some(data), t)), actions), h, key, now);
  }

  predicate ActsOn(a: Action, k: nat) {
    match a
    case Mount(h) => h == k
    case Fetch(h, _, _, _) => h == k
    case FetchWithoutWallet(h) => h == k
    case FetchInvalidMint(h) => h == k
    case Settle(_, _, _) => false
    case Resume(h, _) => h == k
    case Cleanup(h) => h == k
  }

  /** A step changes no other hook; a settlement changes none. */
  lemma OtherHooksStay(st: State, a: Action, k: nat)
    requires Enabled(st, a) && k in st.hooks && !ActsOn(a, k)
    ensures k in Step(st, a).hooks && Step(st, a).hooks[k] == st.hooks[k]
  {
    if a.Fetch? {
      CacheAnswersExactlyWhen(st, a.key, a.force, a.now);
    }
  }

  /** A new hook shows nothing; a cleanup changes nothing on screen and supersedes whatever is awaited. */
  lemma MountAndCleanupShow(st: State, a: Action)
    requires Enabled(st, a) && (a.Mount? || a.Cleanup?)
    ensures var after := Step(st, a).hooks[a.hook];
            && (a.Mount? ==>
                  && after.balance == after.rawBalance == None && after.decimals == None && after.error == None
                  && !after.loading && after.waiting == map[] && after.applied == [])
            && (a.Cleanup? ==>
                  && SameDisplay(st.hooks[a.hook], after) && after.reqRef == st.hooks[a.hook].reqRef + 1
                  && (after.waiting, after.applied) == (st.hooks[a.hook].waiting, st.hooks[a.hook].applied))
  {
  }

  /** What a request shows while it waits, and what stops one before it is made. */
  lemma RequestShows(st: State, a: Action)
    requires Enabled(st, a) && (a.Fetch? || a.FetchWithoutWallet? || a.FetchInvalidMint?)
    ensures var before, after := st.hooks[a.hook], Step(st, a).hooks[a.hook];
            && after.applied == before.applied
            && (a.Fetch? ==>
                  && (after.balance, after.rawBalance) == (before.balance, before.rawBalance)
                  && after.decimals == before.decimals
                  && after.error == None && after.loading && after.reqRef == before.reqRef + 1
                  && after.reqRef in after.waiting && after.waiting[after.reqRef].key == a.key
                  && after.waiting - {after.reqRef} == before.waiting - {after.reqRef})
            && (!a.Fetch? ==>
                  && (after.reqRef, after.loading, after.waiting) == (before.reqRef, before.loading, before.waiting)
                  && after.balance == after.rawBalance == None)
            && (a.FetchWithoutWallet? ==> after.decimals == None && after.error == None)
            && (a.FetchInvalidMint? ==>
                  after.decimals == before.decimals && after.error == Some("Invalid mint address"))
  {
  }

  // The module and its hooks as the state they share.

  class BalanceService {
    var balanceCache: map<string, Cached>
    var inflight: map<string, nat>
    var loads: seq<Load>
    var hooks: map<nat, Hook>

    function Value(): State
      reads this
    {
      State(balanceCache, inflight, loads, hooks)
    }

    constructor ()
      ensures Value() == INITIAL
    {
      balanceCache, inflight, loads, hooks := map[], map[], [], map[];
    }

    method FetchBalanceShared(key: string, force: bool, now: int) returns (promise: Promise)
      modifies this`inflight, this`loads
      ensures (Value(), promise) == FetchShared(old(Value()), key, force, now)
      ensures old(InOrder(Value())) ==> OneLoadPerKey(Value()) && RequestIsGenuine(Value(), Request(key, promise))
    {
      ghost var before := Value();
      if InOrder(before) {
        FetchSharedKeepsLoads(before, key, force, now);
        FetchSharedIsGenuine(before, key, force, now);
      }
      if !force {
        if key in balanceCache && now - balanceCache[key].ts < CACHE_TTL {
          return Resolved(balanceCache[key].data);
        }
      }
      if key in inflight {
        return Awaiting(inflight[key]);
      }
      promise := Awaiting(|loads|);
      inflight := inflight[key := |loads|];
      loads := loads + [Load(key, Pending)];
    }

    /** A new hook instance. */
    method MountHook(h: nat)
      requires h !in hooks
      modifies this`hooks
      ensures Value() == Step(old(Value()), Mount(h))
    {
      hooks := hooks[h := MOUNTED];
    }

    /** `fetchBalance` up to its await, or to its early return. */
    method FetchBalance(h: nat, hasTarget: bool, validMint: bool, key: string, force: bool, now: int)
      requires h in hooks
      modifies this
      ensures Value() == Step(old(Value()), if !hasTarget then FetchWithoutWallet(h)
                                            else if !validMint then FetchInvalidMint(h)
                                            else Fetch(h, key, force, now))
    {
      if !hasTarget {
        hooks := hooks[h := hooks[h].(balance := None, rawBalance := None, decimals := None, error := None)];
        return;
      }
      if !validMint {
        hooks := hooks[h := hooks[h].(error := Some("Invalid mint address"), balance := None, rawBalance := None)];
        return;
      }
      RequestBalance(h, key, force, now);
    }

    method RequestBalance(h: nat, key: string, force: bool, now: int)
      requires h in hooks
      modifies this
      ensures Value() == Step(old(Value()), Fetch(h, key, force, now))
      ensures old(InOrder(Value())) ==> InOrder(Value())
    {
      ghost var before := Value();
      var reqId := hooks[h].reqRef + 1;
      hooks := hooks[h := hooks[h].(reqRef := reqId, loading := true, error := None)];
      var promise := FetchBalanceShared(key, force, now);
      hooks := hooks[h := hooks[h].(waiting := hooks[h].waiting[reqId := Request(key, promise)])];
      assert hooks == before.hooks[h := hooks[h]];
      FetchInOrder(before, h, key, force, now);
    }

    /** The handlers attached to a load: both drop the in-flight entry, success also fills the cache. */
    method SettleLoad(load: nat, result: Option<Balance>, now: int)
      requires Enabled(Value(), Settle(load, result, now))
      modifies this`balanceCache, this`inflight, this`loads
      ensures Value() == Step(old(Value()), Settle(load, result, now))
      ensures old(InOrder(Value())) ==> InOrder(Value())
    {
      ghost var before := Value();
      if InOrder(before) {
        StepKeepsOrder(before, Settle(load, result, now));
      }
      var key := loads[load].key;
      if result.Some? {
        balanceCache := balanceCache[key := Cached(now, result.value)];
        loads := loads[load := Load(key, Loaded(result.value))];
      } else {
        loads := loads[load := Load(key, LoadFailed)];
      }
      inflight := inflight - {key};
    }

    /** `fetchBalance` after its await. */
    method Continue(h: nat, reqId: nat)
      requires Enabled(Value(), Resume(h, reqId))
      modifies this`hooks
      ensures Value() == Step(old(Value()), Resume(h, reqId))
      ensures old(InOrder(Value())) ==> InOrder(Value())
      ensures old(InOrder(Value())) && reqId != old(hooks[h].reqRef) ==> SameDisplay(old(hooks[h]), hooks[h])
    {
      ghost var before := Value();
      if InOrder(before) {
        StepKeepsOrder(before, Resume(h, reqId));
      }
      var delivered := Delivered(Value(), hooks[h].waiting[reqId].promise);
      var hook := hooks[h].(waiting := hooks[h].waiting - {reqId});
      if reqId == hook.reqRef {
        match delivered {
          case Some(data) =>
            hook := hook.(rawBalance := Some(data.rawBalance), decimals := data.decimals,
                          balance := Some(data.balance));
          case None =>
            hook := hook.(error := Some("Failed to fetch balance"), balance := None, rawBalance := None);
        }
        hook := hook.(applied := hook.applied + [reqId], loading := false);
      }
      hooks := hooks[h := hook];
    }

    method CleanUp(h: nat)
      requires h in hooks
      modifies this`hooks
      ensures Value() == Step(old(Value()), Cleanup(h))
      ensures old(InOrder(Value())) ==> InOrder(Value()) && Stuck(hooks[h]) == old(hooks[h].loading)
    {
      ghost var before := Value();
      if InOrder(before) {
        StepKeepsOrder(before, Cleanup(h));
        StuckExactlyAfterCleanup(before, Cleanup(h), h);
      }
      hooks := hooks[h := hooks[h].(reqRef := hooks[h].reqRef + 1)];
    }
  }
}
