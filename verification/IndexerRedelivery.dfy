/** However often and in whatever order events arrive, an unlock counts at most once. */
module IndexerRedelivery {
  import opened Numbers
  import opened Results
  import opened Text
  import opened Indexer
  import opened IndexerColumns
  import opened IndexerEvents

  ghost function SumOver(signatures: set<string>, amount: map<string, u64>): nat
    requires signatures <= amount.Keys
    decreases |signatures|
  {
    if signatures == {} then 0
    else
      var s :| s in signatures;
      amount[s] + SumOver(signatures - {s}, amount)
  }

  lemma {:induction false} SumOverAdds(signatures: set<string>, s: string, amount: map<string, u64>)
    requires signatures <= amount.Keys && s in amount && s !in signatures
    ensures SumOver(signatures + {s}, amount) == amount[s] + SumOver(signatures, amount)
    decreases |signatures|
  {
    var all := signatures + {s};
    var t :| t in all && SumOver(all, amount) == amount[t] + SumOver(all - {t}, amount);
    if t == s {
      assert all - {t} == signatures;
    } else {
      assert all - {t} == (signatures - {t}) + {s};
      SumOverAdds(signatures - {t}, s, amount);
      assert signatures == (signatures - {t}) + {t};
      SumOverAdds(signatures - {t}, t, amount);
    }
  }

  lemma {:induction false} DeliverAppends(db: Database, ds: seq<Delivery>, d: Delivery)
    ensures Deliver(db, ds + [d]) == Handle(Deliver(db, ds), d)
    decreases |ds|
  {
    if ds == [] {
      assert ([] + [d])[1..] == [];
    } else {
      assert (ds + [d])[1..] == ds[1..] + [d];
      DeliverAppends(Handle(db, ds[0]), ds[1..], d);
    }
  }

  /** By delivery `i` the stream's creation has been delivered. */
  predicate BornBefore(ds: seq<Delivery>, id: string, i: nat)
    requires i <= |ds|
  {
    exists j :: 0 <= j < i && ds[j].streamId == id && ds[j].event.StreamCreated?
  }

  /** Delivery `i` is an unlock of the stream and its row exists. */
  predicate UnlocksRow(ds: seq<Delivery>, id: string, i: nat) {
    i < |ds| && ds[i].streamId == id && ds[i].event.MilestoneUnlocked? && BornBefore(ds, id, i)
  }

  /** The signatures of unlocks delivered at least once while the row exists. */
  function Unlocking(ds: seq<Delivery>, id: string): set<string> {
    set i: nat | i < |ds| && UnlocksRow(ds, id, i) :: ds[i].signature
  }

  /** A transaction carries at most one event of the stream; redelivery repeats that event. */
  predicate OneEventPerTransaction(ds: seq<Delivery>, id: string) {
    forall i, j | 0 <= i < |ds| && 0 <= j < |ds| && SameTransaction(ds[i], ds[j], id) :: ds[i].event == ds[j].event
  }

  predicate SameTransaction(d: Delivery, d': Delivery, id: string) {
    d.streamId == id && d'.streamId == id && d.signature == d'.signature
  }

  /** `amount` gives the amount that each unlocking transaction of the stream unlocks. */
  predicate AmountsOf(ds: seq<Delivery>, id: string, amount: map<string, u64>) {
    forall i :: 0 <= i < |ds| && ds[i].streamId == id && ds[i].event.MilestoneUnlocked? ==>
      ds[i].signature in amount && amount[ds[i].signature] == ds[i].event.amount
  }

  /** Delivery `i` records a transaction row under the stream: the row exists, or this delivery creates it. */
  predicate RecordsUnder(ds: seq<Delivery>, id: string, i: nat) {
    i < |ds| && ds[i].streamId == id && (ds[i].event.StreamCreated? || BornBefore(ds, id, i))
  }

  function RecordedUnder(ds: seq<Delivery>, id: string): set<string> {
    set i: nat | i < |ds| && RecordsUnder(ds, id, i) :: ds[i].signature
  }

  ghost predicate NothingKnown(db: Database, id: string) {
    id !in db.rows && forall sig :: Free(sig, ':') ==> TxRowId(sig, Some(id)) !in db.transactions
  }

  lemma PrefixFacts(ds: seq<Delivery>, d: Delivery, id: string)
    ensures BornBefore(ds + [d], id, |ds| + 1)
            <==> BornBefore(ds, id, |ds|) || (d.streamId == id && d.event.StreamCreated?)
    ensures Unlocking(ds + [d], id)
            == Unlocking(ds, id)
               + (if d.streamId == id && d.event.MilestoneUnlocked? && BornBefore(ds, id, |ds|) then {d.signature}
                  else {})
    ensures RecordedUnder(ds + [d], id)
            == RecordedUnder(ds, id)
               + (if d.streamId == id && (d.event.StreamCreated? || BornBefore(ds, id, |ds|)) then {d.signature}
                  else {})
  {
    var all := ds + [d];
    assert all[|ds|] == d;
    assert forall i :: 0 <= i < |ds| ==> all[i] == ds[i];
    forall i: nat | i <= |ds|
      ensures BornBefore(all, id, i) <==> BornBefore(ds, id, i)
    {
      if BornBefore(ds, id, i) {
        var j :| 0 <= j < i && ds[j].streamId == id && ds[j].event.StreamCreated?;
        assert all[j] == ds[j];
      }
    }
    assert BornBefore(all, id, |all|) <==> BornBefore(ds, id, |ds|) || (d.streamId == id && d.event.StreamCreated?) by {
      if BornBefore(ds, id, |ds|) {
        var j :| 0 <= j < |ds| && ds[j].streamId == id && ds[j].event.StreamCreated?;
        assert all[j] == ds[j];
      }
    }
    assert forall i: nat :: i < |ds| ==> (UnlocksRow(all, id, i) <==> UnlocksRow(ds, id, i));
    assert forall i: nat :: i < |ds| ==> (RecordsUnder(all, id, i) <==> RecordsUnder(ds, id, i));
  }

  lemma OneMoreRow(db: Database, ds: seq<Delivery>, d: Delivery, id: string)
    requires id in db.rows <==> BornBefore(ds, id, |ds|)
    ensures id in Handle(db, d).rows <==> BornBefore(ds + [d], id, |ds| + 1)
  {
    PrefixFacts(ds, d, id);
  }

  ghost predicate RecordsAre(db: Database, id: string, signatures: set<string>) {
    forall sig :: Free(sig, ':') ==> (TxRowId(sig, Some(id)) in db.transactions <==> sig in signatures)
  }

  lemma OneMoreRecord(db: Database, ds: seq<Delivery>, d: Delivery, id: string)
    requires Plain(d) && id != "" && RecordsAre(db, id, RecordedUnder(ds, id))
    requires id in db.rows <==> BornBefore(ds, id, |ds|)
    ensures RecordsAre(Handle(db, d), id, RecordedUnder(ds + [d], id))
  {
    PrefixFacts(ds, d, id);
    forall sig | Free(sig, ':')
      ensures TxRowId(sig, Some(id)) in Handle(db, d).transactions <==> sig in RecordedUnder(ds + [d], id)
    {
      RecordFollows(db, d, id, sig);
    }
  }

  /** The row exists exactly when its creation was delivered; the records are those delivered with the row there. */
  lemma {:induction false} RowAndRecordsFollow(db: Database, ds: seq<Delivery>, id: string)
    requires AllPlain(ds) && id != "" && NothingKnown(db, id)
    ensures id in Deliver(db, ds).rows <==> BornBefore(ds, id, |ds|)
    ensures RecordsAre(Deliver(db, ds), id, RecordedUnder(ds, id))
    decreases |ds|
  {
    if ds != [] {
      var prefix, d := ds[..|ds| - 1], ds[|ds| - 1];
      assert prefix + [d] == ds;
      assert AllPlain(prefix) && Plain(d);
      RowAndRecordsFollow(db, prefix, id);
      DeliverAppends(db, prefix, d);
      OneMoreRow(Deliver(db, prefix), prefix, d, id);
      OneMoreRecord(Deliver(db, prefix), prefix, d, id);
    }
  }

  lemma RecordFollows(db: Database, d: Delivery, id: string, sig: string)
    requires Plain(d) && Free(sig, ':') && id != ""
    ensures TxRowId(sig, Some(id)) in Handle(db, d).transactions <==>
            || TxRowId(sig, Some(id)) in db.transactions
            || (d.streamId == id && d.signature == sig && (d.event.StreamCreated? || id in db.rows))
  {
    if d.event.StreamCreated? || d.streamId in db.rows {
      if TxRowId(sig, Some(id)) == TxRowId(d.signature, Some(d.streamId)) {
        TxRowIdIsInjective(sig, id, d.signature, d.streamId);
      }
    } else {
      BareRowIdIsNoStreamRow(d.signature, sig, id);
    }
  }

  /** Delivery `i` is the first event of transaction `sig` recorded under the stream. */
  predicate FirstRecorded(ds: seq<Delivery>, id: string, sig: string, i: nat) {
    && RecordsUnder(ds, id, i) && ds[i].signature == sig
    && forall j: nat :: j < i && RecordsUnder(ds, id, j) ==> ds[j].signature != sig
  }

  lemma FirstRecordedInPrefix(ds: seq<Delivery>, d: Delivery, id: string, sig: string, i: nat)
    requires i < |ds|
    ensures FirstRecorded(ds + [d], id, sig, i) <==> FirstRecorded(ds, id, sig, i)
  {
    forall j: nat | j < |ds|
      ensures RecordsUnder(ds + [d], id, j) <==> RecordsUnder(ds, id, j)
    {
      RecordsUnderInPrefix(ds, d, id, j);
    }
    assert forall j: nat :: j < |ds| ==> (ds + [d])[j] == ds[j];
  }

  lemma RecordsUnderInPrefix(ds: seq<Delivery>, d: Delivery, id: string, i: nat)
    requires i < |ds|
    ensures RecordsUnder(ds + [d], id, i) <==> RecordsUnder(ds, id, i)
  {
    assert forall j :: 0 <= j <= i ==> (ds + [d])[j] == ds[j];
  }

  lemma FirstRecordedAtEnd(ds: seq<Delivery>, d: Delivery, id: string, sig: string)
    requires sig !in RecordedUnder(ds, id) && sig in RecordedUnder(ds + [d], id)
    ensures FirstRecorded(ds + [d], id, sig, |ds|) && d.streamId == id && d.signature == sig
    ensures d.event.StreamCreated? || BornBefore(ds, id, |ds|)
  {
    PrefixFacts(ds, d, id);
    var all, n: nat := ds + [d], |ds|;
    assert all[n] == d;
    assert RecordsUnder(all, id, n) by {
      assert BornBefore(all, id, n) <==> BornBefore(ds, id, n) by {
        assert forall j :: 0 <= j < n ==> all[j] == ds[j];
      }
    }
    forall j: nat | j < n && RecordsUnder(all, id, j)
      ensures all[j].signature != sig
    {
      RecordsUnderInPrefix(ds, d, id, j);
      assert all[j].signature in RecordedUnder(ds, id);
    }
  }

  /** Whatever is delivered how often, a transaction's record tells of its first event recorded under the stream. */
  lemma {:induction false} FirstRecordStays(db: Database, ds: seq<Delivery>, id: string, sig: string)
    returns (i: nat)
    requires AllPlain(ds) && id != "" && NothingKnown(db, id) && Free(sig, ':') && sig in RecordedUnder(ds, id)
    ensures FirstRecorded(ds, id, sig, i) && TxRowId(sig, Some(id)) in Deliver(db, ds).transactions
    ensures Deliver(db, ds).transactions[TxRowId(sig, Some(id))] == TxRow(sig, Some(id), TransactionKind(ds[i].event))
    decreases |ds|
  {
    var prefix, d := ds[..|ds| - 1], ds[|ds| - 1];
    assert prefix + [d] == ds;
    assert AllPlain(prefix) && Plain(d);
    DeliverAppends(db, prefix, d);
    RowAndRecordsFollow(db, prefix, id);
    if sig in RecordedUnder(prefix, id) {
      i := FirstRecordStays(db, prefix, id, sig);
      FirstRecordedInPrefix(prefix, d, id, sig, i);
    } else {
      FirstRecordedAtEnd(prefix, d, id, sig);
      i := |prefix|;
    }
    RecordEffect(Deliver(db, prefix), d);
  }

  /** What one delivery does to the unlocked amount of a row. */
  lemma UnlockedAmountStep(db: Database, d: Delivery, id: string)
    requires id in Handle(db, d).rows
    ensures Handle(db, d).rows[id].unlockedAmount ==
            (if id in db.rows then db.rows[id].unlockedAmount else 0)
            + (if d.streamId == id && d.event.MilestoneUnlocked? && id in db.rows && !AlreadySeen(db, d)
               then d.event.amount else 0)
  {
  }

  lemma {:induction false} SeenExactlyWhenRecorded(db: Database, ds: seq<Delivery>, d: Delivery, id: string)
    requires AllPlain(ds) && Plain(d) && id != "" && NothingKnown(db, id)
    ensures d.streamId == id && d.event.MilestoneUnlocked? ==>
              (AlreadySeen(Deliver(db, ds), d) <==> d.signature in RecordedUnder(ds, id))
  {
    RowAndRecordsFollow(db, ds, id);
  }

  // Which deliveries count, whatever the transactions carry.

  /** Delivery `i` is an unlock with the row there and no earlier event of its transaction recorded under the stream. */
  predicate CountsAt(ds: seq<Delivery>, id: string, i: nat) {
    UnlocksRow(ds, id, i) && ds[i].signature !in RecordedUnder(ds[..i], id)
  }

  function CountedTotal(ds: seq<Delivery>, id: string): nat {
    if ds == [] then 0
    else
      var n := |ds| - 1;
      CountedTotal(ds[..n], id) + if CountsAt(ds, id, n) then ds[n].event.amount else 0
  }

  function Counted(ds: seq<Delivery>, id: string): set<string> {
    set i: nat | i < |ds| && CountsAt(ds, id, i) :: ds[i].signature
  }

  lemma CountsAtEnd(ds: seq<Delivery>, d: Delivery, id: string)
    ensures CountsAt(ds + [d], id, |ds|) <==>
            && d.streamId == id && d.event.MilestoneUnlocked? && BornBefore(ds, id, |ds|)
            && d.signature !in RecordedUnder(ds, id)
  {
    var all := ds + [d];
    assert all[|ds|] == d && all[..|ds|] == ds;
    assert BornBefore(all, id, |ds|) <==> BornBefore(ds, id, |ds|) by {
      assert forall j :: 0 <= j < |ds| ==> all[j] == ds[j];
    }
  }

  lemma {:induction false} CountedTotalOneMore(ds: seq<Delivery>, d: Delivery, id: string)
    ensures CountsAt(ds + [d], id, |ds|) ==> d.event.MilestoneUnlocked?
    ensures CountedTotal(ds + [d], id)
            == CountedTotal(ds, id) + if CountsAt(ds + [d], id, |ds|) then d.event.amount else 0
  {
    assert (ds + [d])[..|ds|] == ds && (ds + [d])[|ds|] == d;
  }

  lemma {:induction false} UnbornCountsNothing(ds: seq<Delivery>, id: string)
    requires !BornBefore(ds, id, |ds|)
    ensures CountedTotal(ds, id) == 0
  {
    if ds != [] {
      var prefix, d := ds[..|ds| - 1], ds[|ds| - 1];
      assert prefix + [d] == ds;
      PrefixFacts(prefix, d, id);
      UnbornCountsNothing(prefix, id);
      CountsAtEnd(prefix, d, id);
    }
  }

  lemma {:induction false} CountedStep(db: Database, ds: seq<Delivery>, d: Delivery, id: string)
    requires id in db.rows <==> BornBefore(ds, id, |ds|)
    requires id in db.rows ==> db.rows[id].unlockedAmount == CountedTotal(ds, id)
    requires d.streamId == id && d.event.MilestoneUnlocked? ==>
               (AlreadySeen(db, d) <==> d.signature in RecordedUnder(ds, id))
    ensures id in Handle(db, d).rows ==> Handle(db, d).rows[id].unlockedAmount == CountedTotal(ds + [d], id)
  {
    CountsAtEnd(ds, d, id);
    CountedTotalOneMore(ds, d, id);
    if id in Handle(db, d).rows {
      UnlockedAmountStep(db, d, id);
      if id !in db.rows {
        UnbornCountsNothing(ds, id);
      }
    }
  }

  /**
   For any deliveries whatever, the row's unlocked amount is the sum over the unlocks delivered with the row there and
   as the first of their transaction's events to be recorded: none counts twice.
   */
  lemma {:induction false} UnlocksCountWhenFirstRecorded(db: Database, ds: seq<Delivery>, id: string)
    requires AllPlain(ds) && id != "" && NothingKnown(db, id)
    ensures id in Deliver(db, ds).rows ==> Deliver(db, ds).rows[id].unlockedAmount == CountedTotal(ds, id)
    decreases |ds|
  {
    if ds != [] {
      var prefix, d := ds[..|ds| - 1], ds[|ds| - 1];
      assert prefix + [d] == ds;
      assert AllPlain(prefix) && Plain(d);
      UnlocksCountWhenFirstRecorded(db, prefix, id);
      RowAndRecordsFollow(db, prefix, id);
      SeenExactlyWhenRecorded(db, prefix, d, id);
      DeliverAppends(db, prefix, d);
      CountedStep(Deliver(db, prefix), prefix, d, id);
    }
  }

  // Sums over transactions, when each unlocks one amount.

  lemma CountedOneMore(ds: seq<Delivery>, d: Delivery, id: string)
    ensures Counted(ds + [d], id) == Counted(ds, id) + if CountsAt(ds + [d], id, |ds|) then {d.signature} else {}
  {
    var all := ds + [d];
    assert all[|ds|] == d;
    forall i: nat | i < |ds|
      ensures CountsAt(all, id, i) <==> CountsAt(ds, id, i)
    {
      assert all[..i] == ds[..i] && all[i] == ds[i];
      assert BornBefore(all, id, i) <==> BornBefore(ds, id, i) by {
        assert forall j :: 0 <= j < i ==> all[j] == ds[j];
      }
    }
  }

  lemma CountedIsUnlocking(ds: seq<Delivery>, id: string)
    ensures Counted(ds, id) <= Unlocking(ds, id) <= RecordedUnder(ds, id)
  {
    forall i: nat | i < |ds| && UnlocksRow(ds, id, i)
      ensures ds[i].signature in RecordedUnder(ds, id)
    {
      assert RecordsUnder(ds, id, i);
    }
  }

  lemma UnlockingHasAmounts(ds: seq<Delivery>, id: string, amount: map<string, u64>)
    requires AmountsOf(ds, id, amount)
    ensures Counted(ds, id) <= Unlocking(ds, id) <= amount.Keys
  {
    CountedIsUnlocking(ds, id);
  }

  lemma AmountsOfPrefix(ds: seq<Delivery>, d: Delivery, id: string, amount: map<string, u64>)
    requires AmountsOf(ds + [d], id, amount)
    ensures AmountsOf(ds, id, amount)
    ensures d.streamId == id && d.event.MilestoneUnlocked? ==>
              d.signature in amount && amount[d.signature] == d.event.amount
  {
    var all := ds + [d];
    assert all[|ds|] == d;
    assert forall i :: 0 <= i < |ds| ==> ds[i] == all[i];
  }

  lemma {:induction false} CountedTotalIsSum(ds: seq<Delivery>, id: string, amount: map<string, u64>)
    requires AmountsOf(ds, id, amount)
    ensures Counted(ds, id) <= amount.Keys && CountedTotal(ds, id) == SumOver(Counted(ds, id), amount)
  {
    UnlockingHasAmounts(ds, id, amount);
    if ds != [] {
      var prefix, d := ds[..|ds| - 1], ds[|ds| - 1];
      assert prefix + [d] == ds;
      AmountsOfPrefix(prefix, d, id, amount);
      CountedTotalIsSum(prefix, id, amount);
      SumOneMore(prefix, d, id, amount);
    }
  }

  lemma {:induction false} SumOneMore(ds: seq<Delivery>, d: Delivery, id: string, amount: map<string, u64>)
    requires Counted(ds, id) <= amount.Keys && Counted(ds + [d], id) <= amount.Keys
    requires CountedTotal(ds, id) == SumOver(Counted(ds, id), amount)
    requires d.streamId == id && d.event.MilestoneUnlocked? ==>
               d.signature in amount && amount[d.signature] == d.event.amount
    ensures CountedTotal(ds + [d], id) == SumOver(Counted(ds + [d], id), amount)
  {
    CountsAtEnd(ds, d, id);
    CountedTotalOneMore(ds, d, id);
    CountedOneMore(ds, d, id);
    CountedIsUnlocking(ds, id);
    if CountsAt(ds + [d], id, |ds|) {
      SumOverAdds(Counted(ds, id), d.signature, amount);
    } else {
      assert Counted(ds, id) + {} == Counted(ds, id);
    }
  }

  lemma {:induction false} SumOverSubset(a: set<string>, b: set<string>, amount: map<string, u64>)
    requires a <= b <= amount.Keys && forall s :: s in b ==> amount[s] > 0
    ensures SumOver(a, amount) <= SumOver(b, amount)
    ensures SumOver(a, amount) == SumOver(b, amount) <==> a == b
    decreases |b|
  {
    if b - a == {} {
      assert a == b;
    } else {
      var s :| s in b - a;
      assert b == (b - {s}) + {s};
      SumOverAdds(b - {s}, s, amount);
      SumOverSubset(a, b - {s}, amount);
    }
  }

  /**
   When each transaction unlocks one positive amount, the row's unlocked amount is the sum over the distinct
   transactions whose unlock was delivered with the row there, if and only if every one of those unlocks counted.
   */
  lemma {:induction false} UnlocksCountOnceExactlyWhen(
    db: Database, ds: seq<Delivery>, id: string, amount: map<string, u64>)
    requires AllPlain(ds) && id != "" && NothingKnown(db, id) && AmountsOf(ds, id, amount)
    requires BornBefore(ds, id, |ds|) && forall s :: s in amount ==> amount[s] > 0
    ensures id in Deliver(db, ds).rows && Unlocking(ds, id) <= amount.Keys
    ensures var u, all := Deliver(db, ds).rows[id].unlockedAmount, SumOver(Unlocking(ds, id), amount);
            u <= all && (u == all <==> Counted(ds, id) == Unlocking(ds, id))
  {
    RowAndRecordsFollow(db, ds, id);
    UnlocksCountWhenFirstRecorded(db, ds, id);
    CountedTotalIsSum(ds, id, amount);
    UnlockingHasAmounts(ds, id, amount);
    SumOverSubset(Counted(ds, id), Unlocking(ds, id), amount);
  }

  // Transactions with one event of the stream.

  /** An unlock is recorded under the stream exactly when it has been counted. */
  lemma RecordedExactlyWhenCounted(ds: seq<Delivery>, d: Delivery, id: string)
    requires d.streamId == id && d.event.MilestoneUnlocked? && OneEventPerTransaction(ds + [d], id)
    ensures d.signature in RecordedUnder(ds, id) <==> d.signature in Unlocking(ds, id)
  {
    var all := ds + [d];
    assert all[|ds|] == d;
    if d.signature in RecordedUnder(ds, id) {
      var i: nat :| i < |ds| && RecordsUnder(ds, id, i) && ds[i].signature == d.signature;
      assert all[i] == ds[i];
      assert UnlocksRow(ds, id, i);
    }
    if d.signature in Unlocking(ds, id) {
      var i: nat :| i < |ds| && UnlocksRow(ds, id, i) && ds[i].signature == d.signature;
      assert RecordsUnder(ds, id, i);
    }
  }

  lemma OneEventPerPrefix(ds: seq<Delivery>, d: Delivery, id: string)
    requires OneEventPerTransaction(ds + [d], id)
    ensures OneEventPerTransaction(ds, id)
  {
    var all := ds + [d];
    assert forall i :: 0 <= i < |ds| ==> ds[i] == all[i];
  }

  lemma {:induction false} EveryUnlockCounts(ds: seq<Delivery>, id: string)
    requires OneEventPerTransaction(ds, id)
    ensures Counted(ds, id) == Unlocking(ds, id)
  {
    if ds != [] {
      var prefix, d := ds[..|ds| - 1], ds[|ds| - 1];
      assert prefix + [d] == ds;
      OneEventPerPrefix(prefix, d, id);
      EveryUnlockCounts(prefix, id);
      OneMoreCounts(prefix, d, id);
    }
  }

  lemma OneMoreCounts(ds: seq<Delivery>, d: Delivery, id: string)
    requires OneEventPerTransaction(ds + [d], id) && Counted(ds, id) == Unlocking(ds, id)
    ensures Counted(ds + [d], id) == Unlocking(ds + [d], id)
  {
    PrefixFacts(ds, d, id);
    CountsAtEnd(ds, d, id);
    CountedOneMore(ds, d, id);
    if d.streamId == id && d.event.MilestoneUnlocked? {
      RecordedExactlyWhenCounted(ds, d, id);
    }
  }

  /**
   With one event per transaction and stream, for any delivery order with any repeats, every such unlock counts once;
   deliveries from before the row existed do not spoil that.
   */
  lemma {:induction false} UnlocksCountOnce(db: Database, ds: seq<Delivery>, id: string, amount: map<string, u64>)
    requires AllPlain(ds) && id != "" && NothingKnown(db, id)
    requires OneEventPerTransaction(ds, id) && AmountsOf(ds, id, amount)
    ensures Unlocking(ds, id) <= amount.Keys
    ensures id in Deliver(db, ds).rows ==>
              Deliver(db, ds).rows[id].unlockedAmount == SumOver(Unlocking(ds, id), amount)
  {
    UnlocksCountWhenFirstRecorded(db, ds, id);
    CountedTotalIsSum(ds, id, amount);
    UnlockingHasAmounts(ds, id, amount);
    EveryUnlockCounts(ds, id);
  }
}
