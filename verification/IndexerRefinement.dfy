/** The indexed row is a faithful picture of the on-chain stream, and exactly when. */
module IndexerRefinement {
  import opened Numbers
  import opened Results
  import opened Accounts
  import opened Vesting
  import opened Program
  import opened Invariants
  import opened Payouts
  import opened Indexer
  import opened IndexerColumns
  import opened IndexerEvents
  import opened IndexerLists

  // The simulation relation.

  function StatusCode(s: Status): nat {
    match s
    case Active => ACTIVE
    case Completed => COMPLETED
    case Cancelled => CANCELLED
  }

  /** When the last milestone was unlocked, if all are. */
  function CompletionTime(s: Stream): Option<int> {
    if 0 < |s.milestones| == s.nextMilestone then Some(s.milestones[|s.milestones| - 1].unlockTs) else None
  }

  /** The row agrees with the chain in everything but the milestone list; its `withdrawn` is all that was ever paid. */
  predicate MirrorsTotals(row: Row, e: Escrow) {
    var s := e.stream;
    && row.totalAmount == s.totalAmount
    && row.withdrawn == e.ledger.paidToRecipient
    && row.startTs == s.startTs && row.cliffTs == s.cliffTs && row.endTs == s.endTs
    && row.milestoneCount == |s.milestones| && row.unlockedAmount == s.unlockedAmount
    && row.status == StatusCode(s.status) && row.completedAt == CompletionTime(s)
  }

  /** The row agrees with the chain, milestone list included. */
  predicate MirrorsRow(row: Row, e: Escrow) {
    MirrorsTotals(row, e) && row.milestones == Listed(Amounts(e.stream.milestones))
  }

  // One committed instruction and its event.

  lemma WithdrawMirrored(row: Row, e: Escrow, ctx: Context, feed: Feed, lamports: u64)
    requires Valid(e, ctx.now) && MirrorsTotals(row, e) && AfterWithdraw(e, ctx, feed, lamports).Ok?
    ensures var r := AfterWithdraw(e, ctx, feed, lamports).value;
            MirrorsTotals(RowAfter(row, r.event), r.escrow)
  {
    WithdrawEffect(e, ctx.now, ctx, feed, lamports);
    VestedInReach(e, ctx.now, ctx.now);
    WithdrawalIsClaim(e, ctx, feed, lamports);
    ClaimOutcome(e, Entitlement(e.stream, ctx.now), FeeFrom(feed, ctx.now), lamports);
  }

  lemma CancelMirrored(row: Row, e: Escrow, ctx: Context)
    requires Valid(e, ctx.now) && MirrorsTotals(row, e) && AfterCancel(e, ctx).Ok?
    ensures var r := AfterCancel(e, ctx).value;
            MirrorsTotals(RowAfter(row, r.event), r.escrow)
  {
    VestedInReach(e, ctx.now, ctx.now);
    CancellationIsSettlement(e, ctx);
    SettlementOutcome(e, Entitlement(e.stream, ctx.now));
  }

  lemma UnlockMirrored(row: Row, e: Escrow, ctx: Context, index: nat)
    requires Valid(e, ctx.now) && MirrorsTotals(row, e) && AfterUnlock(e, ctx, index).Ok?
    ensures var r := AfterUnlock(e, ctx, index).value;
            MirrorsTotals(RowAfter(row, r.event), r.escrow)
  {
    UnlockKeepsValid(e, ctx, index);
    UnlockedAllExactlyWhenTotal(AfterUnlock(e, ctx, index).value.escrow.stream);
  }

  lemma EditMilestoneMirrored(row: Row, e: Escrow, ctx: Context, index: nat, newAmount: u64, wallet: u64)
    requires Valid(e, ctx.now) && MirrorsTotals(row, e) && AfterEditMilestone(e, ctx, index, newAmount, wallet).Ok?
    ensures var r := AfterEditMilestone(e, ctx, index, newAmount, wallet).value;
            MirrorsTotals(RowAfter(row, r.event), r.escrow)
  {
  }

  lemma EditCliffMirrored(row: Row, e: Escrow, ctx: Context, newCliffTs: i64)
    requires MirrorsTotals(row, e) && AfterEditCliff(e, ctx, newCliffTs).Ok?
    ensures var r := AfterEditCliff(e, ctx, newCliffTs).value;
            MirrorsTotals(RowAfter(row, r.event), r.escrow)
  {
  }

  lemma EditLinearMirrored(row: Row, e: Escrow, ctx: Context, newEndTs: i64, topup: u64, wallet: u64)
    requires MirrorsTotals(row, e) && AfterEditLinear(e, ctx, newEndTs, topup, wallet).Ok?
    ensures var r := AfterEditLinear(e, ctx, newEndTs, topup, wallet).value;
            MirrorsTotals(RowAfter(row, r.event), r.escrow)
  {
  }

  /** Applying the event of a committed instruction keeps the row a picture of the chain. */
  lemma StepMirrored(row: Row, e: Escrow, clock: i64, step: Step)
    requires Valid(e, clock) && clock <= step.ctx.now && MirrorsTotals(row, e) && Perform(e, step).Ok?
    ensures var r := Perform(e, step).value;
            !r.event.StreamCreated? && MirrorsTotals(RowAfter(row, r.event), r.escrow)
  {
    ClockAdvances(e, clock, step.ctx.now);
    EventKind(e, step);
    match step.instr
    case Withdraw(feed, lamports) => WithdrawMirrored(row, e, step.ctx, feed, lamports);
    case Cancel => CancelMirrored(row, e, step.ctx);
    case UnlockMilestone(index) => UnlockMirrored(row, e, step.ctx, index);
    case EditMilestone(index, newAmount, wallet) => EditMilestoneMirrored(row, e, step.ctx, index, newAmount, wallet);
    case EditCliff(newCliffTs) => EditCliffMirrored(row, e, step.ctx, newCliffTs);
    case EditLinear(newEndTs, topup, wallet) => EditLinearMirrored(row, e, step.ctx, newEndTs, topup, wallet);
  }

  // Whole runs.

  function RowAfterAll(row: Row, events: seq<Event>): Row
    requires NoCreation(events)
    decreases |events|
  {
    if events == [] then row else RowAfterAll(RowAfter(row, events[0]), events[1..])
  }

  lemma {:induction false} RowAfterOneMore(row: Row, event: Event, rest: seq<Event>)
    requires !event.StreamCreated? && NoCreation(rest)
    ensures NoCreation([event] + rest) && RowAfterAll(row, [event] + rest) == RowAfterAll(RowAfter(row, event), rest)
  {
    assert ([event] + rest)[1..] == rest;
  }

  /** Folding a run's events over a row that mirrors its start gives a row that mirrors its end. */
  lemma {:induction false} RunMirrored(row: Row, e: Escrow, clock: i64, steps: seq<Step>)
    requires Valid(e, clock) && Ordered(clock, steps) && MirrorsTotals(row, e)
    ensures NoCreation(EventsOf(e, steps))
    ensures MirrorsTotals(RowAfterAll(row, EventsOf(e, steps)), Run(e, steps))
    decreases |steps|
  {
    if steps != [] {
      var e', now, rest := Advance(e, steps[0]), steps[0].ctx.now, steps[1..];
      StepKeepsValid(e, clock, steps[0]);
      if Perform(e, steps[0]).Err? {
        RefusedStepChangesNothing(e, steps);
        RunMirrored(row, e', now, rest);
      } else {
        var event := Perform(e, steps[0]).value.event;
        CommittedHead(e, steps);
        StepMirrored(row, e, clock, steps[0]);
        RunMirrored(RowAfter(row, event), e', now, rest);
        RowAfterOneMore(row, event, EventsOf(e', rest));
      }
    }
  }

  // Deliveries of one stream among others.

  /**
   No unlock of the stream shares its transaction with an earlier event of the stream, or with one already recorded.
   */
  predicate UnlocksComeFirst(db: Database, ds: seq<Delivery>, id: string) {
    forall i :: 0 <= i < |ds| && ds[i].streamId == id && ds[i].event.MilestoneUnlocked? ==>
      FirstOfItsTransaction(db, ds, i)
  }

  predicate FirstOfItsTransaction(db: Database, ds: seq<Delivery>, i: nat)
    requires i < |ds|
  {
    && TxRowId(ds[i].signature, Some(ds[i].streamId)) !in db.transactions
    && forall j :: 0 <= j < i ==> !(ds[j].streamId == ds[i].streamId && ds[j].signature == ds[i].signature)
  }

  /** Delivery `d` leaves a transaction row under its stream. */
  predicate RecordsItself(db: Database, d: Delivery) {
    d.event.StreamCreated? || d.streamId in db.rows
  }

  /** Taking one delivery off: whether it is a lost unlock, and whether the rest holds one. */
  lemma UnlocksComeFirstHead(db: Database, ds: seq<Delivery>, id: string)
    requires ds != [] && AllPlain(ds) && (ds[0].streamId == id ==> RecordsItself(db, ds[0]))
    ensures UnlocksComeFirst(db, ds, id) <==>
            && (ds[0].streamId == id ==> !AlreadySeen(db, ds[0]))
            && UnlocksComeFirst(Handle(db, ds[0]), ds[1..], id)
  {
    var db', rest := Handle(db, ds[0]), ds[1..];
    AllPlainTail(ds);
    forall i: nat | i < |rest| && rest[i].streamId == id && rest[i].event.MilestoneUnlocked?
      ensures FirstOfItsTransaction(db', rest, i) <==> FirstOfItsTransaction(db, ds, i + 1)
    {
      FirstInRestExactlyWhen(db, ds, i);
    }
    if UnlocksComeFirst(db, ds, id) {
      assert ds[0].streamId == id && ds[0].event.MilestoneUnlocked? ==> FirstOfItsTransaction(db, ds, 0);
      forall i: nat | i < |rest| && rest[i].streamId == id && rest[i].event.MilestoneUnlocked?
        ensures FirstOfItsTransaction(db', rest, i)
      {
        assert rest[i] == ds[i + 1];
      }
    }
    if (ds[0].streamId == id ==> !AlreadySeen(db, ds[0])) && UnlocksComeFirst(db', rest, id) {
      forall i: nat | i < |ds| && ds[i].streamId == id && ds[i].event.MilestoneUnlocked?
        ensures FirstOfItsTransaction(db, ds, i)
      {
        if i > 0 {
          assert rest[i - 1] == ds[i];
        }
      }
    }
  }

  lemma FirstInRestExactlyWhen(db: Database, ds: seq<Delivery>, i: nat)
    requires ds != [] && AllPlain(ds) && i + 1 < |ds|
    requires ds[0].streamId == ds[i + 1].streamId ==> RecordsItself(db, ds[0])
    ensures FirstOfItsTransaction(Handle(db, ds[0]), ds[1..], i) <==> FirstOfItsTransaction(db, ds, i + 1)
  {
    var db', rest, d := Handle(db, ds[0]), ds[1..], ds[i + 1];
    assert Plain(ds[0]) && Plain(d) && rest[i] == d;
    if TxRowId(d.signature, Some(d.streamId)) in db'.transactions {
      HandleRecordsOnlyItself(db, ds[0], d.signature, d.streamId);
    }
    if FirstOfItsTransaction(db', rest, i) {
      forall j | 0 <= j < i + 1
        ensures !(ds[j].streamId == d.streamId && ds[j].signature == d.signature)
      {
        if j > 0 {
          assert rest[j - 1] == ds[j];
        }
      }
    }
    if FirstOfItsTransaction(db, ds, i + 1) {
      forall j | 0 <= j < i
        ensures !(rest[j].streamId == d.streamId && rest[j].signature == d.signature)
      {
        assert rest[j] == ds[j + 1];
      }
    }
  }

  lemma {:induction false} FoldIgnoresList(a: Row, b: Row, events: seq<Event>)
    requires SameButList(a, b) && NoCreation(events)
    ensures SameButList(RowAfterAll(a, events), RowAfterAll(b, events))
    decreases |events|
  {
    if events != [] {
      FoldIgnoresList(RowAfter(a, events[0]), RowAfter(b, events[0]), events[1..]);
    }
  }

  /**
   When no unlock is lost, delivering is folding the stream's own events, in every column but the list; creations
   delivered again make no difference to them.
   */
  lemma {:induction false} DeliveryIsFold(db: Database, ds: seq<Delivery>, id: string)
    requires id in db.rows && AllPlain(ds) && UnlocksComeFirst(db, ds, id)
    ensures id in Deliver(db, ds).rows
    ensures SameButList(Deliver(db, ds).rows[id], RowAfterAll(db.rows[id], NewsFor(ds, id)))
    decreases |ds|
  {
    if ds != [] {
      var d, db', rest := ds[0], Handle(db, ds[0]), ds[1..];
      UnlocksComeFirstHead(db, ds, id);
      AllPlainTail(ds);
      NewsForTail(ds, id);
      if d.streamId != id {
        OtherStreamsLeaveRow(db, d, id);
      } else if d.event.StreamCreated? {
        RepeatedCreationEffect(db, d);
        FoldIgnoresList(db'.rows[id], db.rows[id], NewsFor(rest, id));
      } else {
        RowAfterOneMore(db.rows[id], d.event, NewsFor(rest, id));
      }
      DeliveryIsFold(db', rest, id);
    }
  }

  // Unlocked amounts, lost unlocks or not.

  function UnlockTotal(events: seq<Event>): nat {
    if events == [] then 0
    else (if events[0].MilestoneUnlocked? then events[0].amount else 0) + UnlockTotal(events[1..])
  }

  lemma {:induction false} UnlockTotalOneMore(event: Event, rest: seq<Event>)
    ensures UnlockTotal([event] + rest) == (if event.MilestoneUnlocked? then event.amount else 0) + UnlockTotal(rest)
  {
    assert ([event] + rest)[1..] == rest;
  }

  predicate UnlocksPositive(events: seq<Event>) {
    forall i :: 0 <= i < |events| && events[i].MilestoneUnlocked? ==> events[i].amount > 0
  }

  lemma StepUnlocks(e: Escrow, clock: i64, step: Step)
    requires Valid(e, clock) && Perform(e, step).Ok?
    ensures var r := Perform(e, step).value;
            && (r.event.MilestoneUnlocked? ==> r.event.amount > 0)
            && r.escrow.stream.unlockedAmount
               == e.stream.unlockedAmount + if r.event.MilestoneUnlocked? then r.event.amount else 0
  {
    match step.instr
    case Withdraw(feed, lamports) =>
      WithdrawalIsClaim(e, step.ctx, feed, lamports);
      ClaimOutcome(e, VestedAmount(e.stream, step.ctx.now).value, FeeFrom(feed, step.ctx.now), lamports);
    case Cancel =>
      CancellationIsSettlement(e, step.ctx);
      SettlementOutcome(e, VestedAmount(e.stream, step.ctx.now).value);
    case UnlockMilestone(_) =>
    case EditMilestone(_, _, _) =>
    case EditCliff(_) =>
    case EditLinear(_, _, _) =>
  }

  /** On the chain the unlocked amount is what the run's unlock events add up to. */
  lemma {:induction false} RunUnlocks(e: Escrow, clock: i64, steps: seq<Step>)
    requires Valid(e, clock) && Ordered(clock, steps)
    ensures UnlocksPositive(EventsOf(e, steps))
    ensures Run(e, steps).stream.unlockedAmount == e.stream.unlockedAmount + UnlockTotal(EventsOf(e, steps))
    decreases |steps|
  {
    if steps != [] {
      StepKeepsValid(e, clock, steps[0]);
      RunUnlocks(Advance(e, steps[0]), steps[0].ctx.now, steps[1..]);
      if Perform(e, steps[0]).Err? {
        RefusedStepChangesNothing(e, steps);
      } else {
        CommittedHead(e, steps);
        StepUnlocks(e, clock, steps[0]);
        UnlockTotalOneMore(Perform(e, steps[0]).value.event, EventsOf(Advance(e, steps[0]), steps[1..]));
      }
    }
  }

  /** What the unlocks of the stream from delivery `k` on that do not come first in their transactions add up to. */
  function LostFrom(db: Database, ds: seq<Delivery>, id: string, k: nat): nat
    decreases |ds| - k
  {
    if k >= |ds| then 0
    else
      var d := ds[k];
      (if d.streamId == id && d.event.MilestoneUnlocked? && !FirstOfItsTransaction(db, ds, k) then d.event.amount
       else 0)
      + LostFrom(db, ds, id, k + 1)
  }

  lemma {:induction false} LostInRest(db: Database, ds: seq<Delivery>, id: string, k: nat)
    requires ds != [] && AllPlain(ds) && (ds[0].streamId == id ==> RecordsItself(db, ds[0]))
    ensures LostFrom(Handle(db, ds[0]), ds[1..], id, k) == LostFrom(db, ds, id, k + 1)
    decreases |ds| - k
  {
    if k + 1 < |ds| {
      LostInRest(db, ds, id, k + 1);
      assert ds[1..][k] == ds[k + 1];
      if ds[k + 1].streamId == id {
        FirstInRestExactlyWhen(db, ds, k);
      }
    }
  }

  lemma {:induction false} NothingLostExactlyWhen(db: Database, ds: seq<Delivery>, id: string, k: nat)
    requires k <= |ds| && forall i :: k <= i < |ds| && ds[i].streamId == id && ds[i].event.MilestoneUnlocked? ==>
               ds[i].event.amount > 0
    ensures LostFrom(db, ds, id, k) == 0 <==>
            forall i :: k <= i < |ds| && ds[i].streamId == id && ds[i].event.MilestoneUnlocked? ==>
              FirstOfItsTransaction(db, ds, i)
    decreases |ds| - k
  {
    if k < |ds| {
      NothingLostExactlyWhen(db, ds, id, k + 1);
    }
  }

  lemma {:induction false} DeliveredUnlocksPositive(ds: seq<Delivery>, id: string, i: nat)
    requires UnlocksPositive(NewsFor(ds, id))
    requires i < |ds| && ds[i].streamId == id && ds[i].event.MilestoneUnlocked?
    ensures ds[i].event.amount > 0
    decreases |ds|
  {
    NewsForTail(ds, id);
    if i == 0 {
      assert NewsFor(ds, id)[0] == ds[0].event;
    } else {
      if IsNews(ds[0], id) {
        assert NewsFor(ds, id)[1..] == NewsFor(ds[1..], id);
      }
      DeliveredUnlocksPositive(ds[1..], id, i - 1);
    }
  }

  /** In the row it is that sum less what the unlocks add up to that do not come first in their transactions. */
  lemma {:induction false} RowUnlocks(db: Database, ds: seq<Delivery>, id: string)
    requires id in db.rows && AllPlain(ds)
    ensures id in Deliver(db, ds).rows
    ensures Deliver(db, ds).rows[id].unlockedAmount + LostFrom(db, ds, id, 0)
            == db.rows[id].unlockedAmount + UnlockTotal(NewsFor(ds, id))
    decreases |ds|
  {
    if ds != [] {
      AllPlainTail(ds);
      OneRowUnlock(db, ds, id);
      RowUnlocks(Handle(db, ds[0]), ds[1..], id);
    }
  }

  lemma FirstSeenExactlyWhen(db: Database, ds: seq<Delivery>)
    requires ds != [] && ds[0].event.MilestoneUnlocked?
    ensures FirstOfItsTransaction(db, ds, 0) <==> !AlreadySeen(db, ds[0])
  {
  }

  /** One delivery adds its unlock to the row, or to what is lost. */
  lemma {:induction false} OneRowUnlock(db: Database, ds: seq<Delivery>, id: string)
    requires ds != [] && id in db.rows && AllPlain(ds)
    ensures var db', rest := Handle(db, ds[0]), ds[1..];
            && id in db'.rows
            && db'.rows[id].unlockedAmount + UnlockTotal(NewsFor(rest, id)) + LostFrom(db, ds, id, 0)
               == db.rows[id].unlockedAmount + UnlockTotal(NewsFor(ds, id)) + LostFrom(db', rest, id, 0)
  {
    NewsForTail(ds, id);
    LostInRest(db, ds, id, 0);
    if ds[0].streamId == id {
      if !ds[0].event.StreamCreated? {
        UnlockTotalOneMore(ds[0].event, NewsFor(ds[1..], id));
      }
      OneDeliveryUnlocks(db, ds[0]);
      if ds[0].event.MilestoneUnlocked? {
        FirstSeenExactlyWhen(db, ds);
      }
    } else {
      OtherStreamsLeaveRow(db, ds[0], id);
    }
  }

  lemma OneDeliveryUnlocks(db: Database, d: Delivery)
    requires d.streamId in db.rows
    ensures d.streamId in Handle(db, d).rows
    ensures Handle(db, d).rows[d.streamId].unlockedAmount == db.rows[d.streamId].unlockedAmount
            + if d.event.MilestoneUnlocked? && !AlreadySeen(db, d) then d.event.amount else 0
  {
  }

  // From creation on.

  /** The row that a creation inserts mirrors the stream it created. */
  lemma CreationMirrored(db: Database, d: Delivery, ctx: Context, req: CreateRequest)
    requires AfterCreate(ctx, req).Ok? && d.streamId !in db.rows
    requires d.event == AfterCreate(ctx, req).value.event
    ensures var e := AfterCreate(ctx, req).value.escrow;
            && d.streamId in Handle(db, d).rows
            && MirrorsTotals(Handle(db, d).rows[d.streamId], e)
            && Handle(db, d).rows[d.streamId].milestones == FetchedList(|e.stream.milestones|, d.readable)
  {
    assert |AfterCreate(ctx, req).value.escrow.stream.milestones| == |req.milestones|;
  }

  /** Some delivery is about the stream. */
  predicate Mentions(ds: seq<Delivery>, id: string) {
    ds != [] && (ds[0].streamId == id || Mentions(ds[1..], id))
  }

  /** The first of them. */
  function FirstFor(ds: seq<Delivery>, id: string): Delivery
    requires Mentions(ds, id)
  {
    if ds[0].streamId == id then ds[0] else FirstFor(ds[1..], id)
  }

  /** A creation, or an event of another stream, is no lost unlock and makes no later one lost or found. */
  lemma {:induction false} HeadLosesNothing(db: Database, ds: seq<Delivery>, id: string)
    requires ds != [] && AllPlain(ds) && (ds[0].streamId == id ==> ds[0].event.StreamCreated?)
    ensures UnlocksComeFirst(db, ds, id) <==> UnlocksComeFirst(Handle(db, ds[0]), ds[1..], id)
    ensures LostFrom(db, ds, id, 0) == LostFrom(Handle(db, ds[0]), ds[1..], id, 0)
  {
    UnlocksComeFirstHead(db, ds, id);
    LostInRest(db, ds, id, 0);
  }

  /** The database and the remaining deliveries once the stream's creation has been handled. */
  lemma {:induction false} SkipToBirth(db: Database, ds: seq<Delivery>, id: string)
    returns (before: Database, rest: seq<Delivery>)
    requires id !in db.rows && AllPlain(ds) && Mentions(ds, id) && FirstFor(ds, id).event.StreamCreated?
    ensures var d := FirstFor(ds, id);
            && d.streamId == id && id !in before.rows
            && Deliver(db, ds) == Deliver(Handle(before, d), rest)
            && (UnlocksComeFirst(db, ds, id) <==> UnlocksComeFirst(Handle(before, d), rest, id))
            && LostFrom(db, ds, id, 0) == LostFrom(Handle(before, d), rest, id, 0)
            && ReadingOf(UNREAD, ds, id) == ReadingOf(ReadingAfter(UNREAD, d), rest, id)
    ensures AllPlain(rest) && NewsFor(rest, id) == NewsFor(ds, id)
    ensures forall count: nat :: Announces(ds, id, count) ==> Announces(rest, id, count)
    decreases |ds|
  {
    NewsForTail(ds, id);
    HeadLosesNothing(db, ds, id);
    AllPlainTail(ds);
    if ds[0].streamId == id {
      before, rest := db, ds[1..];
      forall count: nat | Announces(ds, id, count)
        ensures Announces(rest, id, count)
      {
        AnnouncesTail(ds, id, count);
      }
    } else {
      OtherStreamsLeaveRow(db, ds[0], id);
      before, rest := SkipToBirth(Handle(db, ds[0]), ds[1..], id);
    }
  }

  /** Every creation of the stream that is delivered is `created`. */
  predicate CreatedAs(ds: seq<Delivery>, id: string, created: Event) {
    forall i :: 0 <= i < |ds| && ds[i].streamId == id && ds[i].event.StreamCreated? ==> ds[i].event == created
  }

  /**
   The deliveries are one stream's creation, first and perhaps again later, and the events of a run of it, among any
   events of other streams.
   */
  predicate DeliversRun(db: Database, id: string, ds: seq<Delivery>, ctx: Context, req: CreateRequest,
                        steps: seq<Step>)
  {
    && 0 <= ctx.now && AfterCreate(ctx, req).Ok? && Ordered(ctx.now, steps)
    && id !in db.rows && AllPlain(ds)
    && Mentions(ds, id) && FirstFor(ds, id).event == AfterCreate(ctx, req).value.event
    && CreatedAs(ds, id, AfterCreate(ctx, req).value.event)
    && NewsFor(ds, id) == EventsOf(AfterCreate(ctx, req).value.escrow, steps)
  }

  /** The row's unlocked amount falls short of the chain's by exactly the unlocks that do not come first. */
  lemma {:induction false} UnlockedFallsShortBy(
    db: Database, id: string, ds: seq<Delivery>, ctx: Context, req: CreateRequest, steps: seq<Step>)
    requires DeliversRun(db, id, ds, ctx, req, steps)
    ensures id in Deliver(db, ds).rows
    ensures Deliver(db, ds).rows[id].unlockedAmount + LostFrom(db, ds, id, 0)
            == Run(AfterCreate(ctx, req).value.escrow, steps).stream.unlockedAmount
  {
    var created := AfterCreate(ctx, req).value;
    var before, rest := SkipToBirth(db, ds, id);
    CreationMirrored(before, FirstFor(ds, id), ctx, req);
    CreateEstablishesValid(ctx, req);
    RunUnlocks(created.escrow, ctx.now, steps);
    RowUnlocks(Handle(before, FirstFor(ds, id)), rest, id);
  }

  lemma {:induction false} RunDeliversPositive(
    db: Database, id: string, ds: seq<Delivery>, ctx: Context, req: CreateRequest, steps: seq<Step>)
    requires DeliversRun(db, id, ds, ctx, req, steps)
    ensures UnlocksPositive(NewsFor(ds, id))
  {
    CreateEstablishesValid(ctx, req);
    RunUnlocks(AfterCreate(ctx, req).value.escrow, ctx.now, steps);
  }

  lemma {:induction false} NothingLostWhenAllComeFirst(db: Database, ds: seq<Delivery>, id: string)
    requires UnlocksPositive(NewsFor(ds, id))
    ensures LostFrom(db, ds, id, 0) == 0 <==> UnlocksComeFirst(db, ds, id)
  {
    forall i: nat | i < |ds| && ds[i].streamId == id && ds[i].event.MilestoneUnlocked?
      ensures ds[i].event.amount > 0
    {
      DeliveredUnlocksPositive(ds, id, i);
    }
    NothingLostExactlyWhen(db, ds, id, 0);
  }

  /**
   The row's unlocked amount never exceeds the chain's, and equals it if and only if every unlock is the first event of
   its stream in its transaction.
   */
  lemma {:induction false} UnlockedEqualsChainExactlyWhen(
    db: Database, id: string, ds: seq<Delivery>, ctx: Context, req: CreateRequest, steps: seq<Step>)
    requires DeliversRun(db, id, ds, ctx, req, steps)
    ensures id in Deliver(db, ds).rows
    ensures var u, e := Deliver(db, ds).rows[id].unlockedAmount, Run(AfterCreate(ctx, req).value.escrow, steps);
            u <= e.stream.unlockedAmount && (u == e.stream.unlockedAmount <==> UnlocksComeFirst(db, ds, id))
  {
    UnlockedFallsShortBy(db, id, ds, ctx, req, steps);
    RunDeliversPositive(db, id, ds, ctx, req, steps);
    NothingLostWhenAllComeFirst(db, ds, id);
  }

  /**
   Whatever the milestone reads returned, the row's totals, schedule, unlocked amount and status equal the chain's and
   its `withdrawn` is all that was ever paid, if and only if every unlock comes first in its transaction.
   */
  lemma {:induction false} TotalsEqualChainExactlyWhen(
    db: Database, id: string, ds: seq<Delivery>, ctx: Context, req: CreateRequest, steps: seq<Step>)
    requires DeliversRun(db, id, ds, ctx, req, steps)
    ensures id in Deliver(db, ds).rows
    ensures MirrorsTotals(Deliver(db, ds).rows[id], Run(AfterCreate(ctx, req).value.escrow, steps)) <==>
            UnlocksComeFirst(db, ds, id)
  {
    UnlockedEqualsChainExactlyWhen(db, id, ds, ctx, req, steps);
    if UnlocksComeFirst(db, ds, id) {
      var created := AfterCreate(ctx, req).value;
      var before, rest := SkipToBirth(db, ds, id);
      var born := Handle(before, FirstFor(ds, id));
      CreationMirrored(before, FirstFor(ds, id), ctx, req);
      CreateEstablishesValid(ctx, req);
      RunMirrored(born.rows[id], created.escrow, ctx.now, steps);
      DeliveryIsFold(born, rest, id);
    }
  }

  lemma {:induction false} FinalAmountsPositive(ctx: Context, req: CreateRequest, steps: seq<Step>)
    requires 0 <= ctx.now && AfterCreate(ctx, req).Ok? && Ordered(ctx.now, steps)
    ensures AmountsPositive(Run(AfterCreate(ctx, req).value.escrow, steps).stream.milestones)
  {
    CreateEstablishesValid(ctx, req);
    RunKeepsValid(AfterCreate(ctx, req).value.escrow, ctx.now, steps);
  }

  lemma BornListFollows(created: Escrow, d: Delivery)
    requires d.event.StreamCreated? && d.event.milestoneCount == |created.stream.milestones|
    ensures var parts := if Complete(d) then Decimals(d.readable[..d.event.milestoneCount]) else [];
            && Holds(FetchedList(d.event.milestoneCount, d.readable), parts)
            && Follow(parts, ReadingAfter(UNREAD, d), created.stream.milestones)
  {
    if Complete(d) {
      ListedHolds(d.readable[..d.event.milestoneCount]);
    }
  }

  /**
   The stored list equals the chain's if and only if every milestone was edited since the last complete read of the
   accounts, or found then at its final amount; lost unlocks make no difference to it.
   */
  lemma {:induction false} ListEqualsChainExactlyWhen(
    db: Database, id: string, ds: seq<Delivery>, ctx: Context, req: CreateRequest, steps: seq<Step>)
    requires DeliversRun(db, id, ds, ctx, req, steps)
    ensures id in Deliver(db, ds).rows
    ensures var final := Run(AfterCreate(ctx, req).value.escrow, steps).stream.milestones;
            Deliver(db, ds).rows[id].milestones == Listed(Amounts(final)) <==>
            ListComesRight(ReadingOf(UNREAD, ds, id), final)
  {
    var created := AfterCreate(ctx, req).value;
    var e, d := created.escrow, FirstFor(ds, id);
    var before, rest := SkipToBirth(db, ds, id);
    var parts := if Complete(d) then Decimals(d.readable[..d.event.milestoneCount]) else [];
    CreationMirrored(before, d, ctx, req);
    BornListFollows(e, d);
    var last := DeliveriesKeepFollowing(Handle(before, d), rest, id, parts, ReadingAfter(UNREAD, d), e, steps);
    FinalAmountsPositive(ctx, req, steps);
    EntriesRightExactlyWhen(last, ReadingOf(UNREAD, ds, id), Run(e, steps).stream.milestones);
    SameTextExactlyWhen(Deliver(db, ds).rows[id].milestones, last, Amounts(Run(e, steps).stream.milestones));
  }

  lemma SameTextExactlyWhen(text: string, parts: seq<string>, amounts: seq<u64>)
    requires Holds(text, parts)
    ensures text == Listed(amounts) <==> parts == Decimals(amounts)
  {
    ListedHolds(amounts);
    HeldPartsReadBack(text, parts);
    HeldPartsReadBack(Listed(amounts), Decimals(amounts));
  }

  /**
   In-order delivery, interleaved with other streams and with repeats of the creation: the row equals the chain if and
   only if every unlock comes first in its transaction and every milestone was edited since the last complete read, or
   found then at its final amount.
   */
  lemma {:induction false} RowEqualsChain(
    db: Database, id: string, ds: seq<Delivery>, ctx: Context, req: CreateRequest, steps: seq<Step>)
    requires DeliversRun(db, id, ds, ctx, req, steps)
    ensures id in Deliver(db, ds).rows
    ensures var final := Run(AfterCreate(ctx, req).value.escrow, steps);
            MirrorsRow(Deliver(db, ds).rows[id], final) <==>
            UnlocksComeFirst(db, ds, id) && ListComesRight(ReadingOf(UNREAD, ds, id), final.stream.milestones)
  {
    TotalsEqualChainExactlyWhen(db, id, ds, ctx, req, steps);
    ListEqualsChainExactlyWhen(db, id, ds, ctx, req, steps);
  }
}
