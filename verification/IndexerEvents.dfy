/** What a run tells the indexer: its events, which of them belong to a stream, and which milestones they edit. */
module IndexerEvents {
  import opened Numbers
  import opened Results
  import opened Accounts
  import opened Text
  import opened Vesting
  import opened Program
  import opened Indexer

  // Transaction row ids tell signatures and streams apart.

  /** Signatures and stream ids are base-58 text: no colon, and a stream id is never empty. */
  predicate Plain(d: Delivery) {
    Free(d.signature, ':') && Free(d.streamId, ':') && d.streamId != ""
  }

  lemma TxRowIdIsInjective(sig: string, id: string, sig': string, id': string)
    requires Free(sig, ':') && Free(sig', ':') && id != "" && id' != ""
    requires TxRowId(sig, Some(id)) == TxRowId(sig', Some(id'))
    ensures sig == sig' && id == id'
  {
    var row, row' := TxRowId(sig, Some(id)), TxRowId(sig', Some(id'));
    assert row[|sig|] == ':' && row'[|sig'|] == ':';
    assert forall i :: 0 <= i < |sig| ==> row[i] == sig[i];
    assert forall i :: 0 <= i < |sig'| ==> row'[i] == sig'[i];
    assert |sig| == |sig'|;
    assert sig == row[..|sig|] && sig' == row'[..|sig'|];
    assert id == row[|sig| + 1..] && id' == row'[|sig'| + 1..];
  }

  lemma BareRowIdIsNoStreamRow(sig: string, sig': string, id': string)
    requires Free(sig, ':') && id' != ""
    ensures TxRowId(sig, None) != TxRowId(sig', Some(id'))
  {
    assert TxRowId(sig', Some(id'))[|sig'|] == ':';
    assert !Free(TxRowId(sig', Some(id')), ':');
  }

  // The events of runs and of deliveries.

  function EditedBy(event: Event): set<nat> {
    if event.MilestoneEdited? then {event.index as nat} else {}
  }

  /** The events that the committed steps of a run emit. */
  function EventsOf(e: Escrow, steps: seq<Step>): seq<Event>
    decreases |steps|
  {
    if steps == [] then []
    else
      var r := Perform(e, steps[0]);
      (if r.Ok? then [r.value.event] else []) + EventsOf(Advance(e, steps[0]), steps[1..])
  }

  /** The milestones that some of the events edit. */
  function EditedIn(events: seq<Event>): set<nat>
    decreases |events|
  {
    if events == [] then {} else EditedBy(events[0]) + EditedIn(events[1..])
  }

  /** The milestones that committed edits of a run change. */
  function EditedIndices(e: Escrow, steps: seq<Step>): set<nat> {
    EditedIn(EventsOf(e, steps))
  }

  /** A delivery about the stream other than its creation, which may be delivered again and again. */
  predicate IsNews(d: Delivery, id: string) {
    d.streamId == id && !d.event.StreamCreated?
  }

  /** What the deliveries tell about one stream once it is created. */
  function NewsFor(ds: seq<Delivery>, id: string): (news: seq<Event>)
    ensures NoCreation(news)
  {
    if ds == [] then []
    else (if IsNews(ds[0], id) then [ds[0].event] else []) + NewsFor(ds[1..], id)
  }

  predicate AllPlain(ds: seq<Delivery>) {
    forall i :: 0 <= i < |ds| ==> Plain(ds[i])
  }

  lemma AllPlainTail(ds: seq<Delivery>)
    requires ds != [] && AllPlain(ds)
    ensures AllPlain(ds[1..])
  {
  }

  lemma {:induction false} NewsForTail(ds: seq<Delivery>, id: string)
    requires ds != []
    ensures NewsFor(ds, id) == if IsNews(ds[0], id) then [ds[0].event] + NewsFor(ds[1..], id) else NewsFor(ds[1..], id)
  {
    assert [] + NewsFor(ds[1..], id) == NewsFor(ds[1..], id);
  }

  lemma {:induction false} NewsForAppends(a: seq<Delivery>, b: seq<Delivery>, id: string)
    ensures NewsFor(a + b, id) == NewsFor(a, id) + NewsFor(b, id)
    decreases |a|
  {
    if a == [] {
      assert a + b == b;
    } else {
      assert (a + b)[1..] == a[1..] + b;
      NewsForAppends(a[1..], b, id);
    }
  }

  predicate NoCreation(events: seq<Event>) {
    forall i :: 0 <= i < |events| ==> !events[i].StreamCreated?
  }

  /** Only edits of milestones have an index, and no instruction emits a creation. */
  lemma EventKind(e: Escrow, step: Step)
    requires Perform(e, step).Ok?
    ensures var event := Perform(e, step).value.event;
            && !event.StreamCreated?
            && (event.MilestoneEdited? <==> step.instr.EditMilestone?)
            && (event.MilestoneEdited? ==> event.index == step.instr.index)
  {
  }

  lemma {:induction false} RefusedStepChangesNothing(e: Escrow, steps: seq<Step>)
    requires steps != [] && Perform(e, steps[0]).Err?
    ensures Advance(e, steps[0]) == e && EventsOf(e, steps) == EventsOf(e, steps[1..])
  {
    assert [] + EventsOf(e, steps[1..]) == EventsOf(e, steps[1..]);
  }

  lemma {:induction false} CommittedHead(e: Escrow, steps: seq<Step>)
    requires steps != [] && Perform(e, steps[0]).Ok?
    ensures var r := Perform(e, steps[0]).value;
            && EventsOf(e, steps) == [r.event] + EventsOf(r.escrow, steps[1..])
            && Run(e, steps) == Run(r.escrow, steps[1..])
  {
  }

  /** The step that emits a run's next event, if there is one, and the steps after it. */
  lemma {:induction false} NextEvent(e: Escrow, steps: seq<Step>) returns (step: Step, rest: seq<Step>)
    requires EventsOf(e, steps) != []
    ensures Perform(e, step).Ok?
    ensures var r := Perform(e, step).value;
            EventsOf(e, steps) == [r.event] + EventsOf(r.escrow, rest) && Run(e, steps) == Run(r.escrow, rest)
    decreases |steps|
  {
    if Perform(e, steps[0]).Ok? {
      CommittedHead(e, steps);
      step, rest := steps[0], steps[1..];
    } else {
      RefusedStepChangesNothing(e, steps);
      step, rest := NextEvent(e, steps[1..]);
    }
  }

  lemma {:induction false} NoEventsNoChange(e: Escrow, steps: seq<Step>)
    requires EventsOf(e, steps) == []
    ensures Run(e, steps) == e
    decreases |steps|
  {
    if steps != [] {
      if Perform(e, steps[0]).Ok? {
        CommittedHead(e, steps);
      } else {
        RefusedStepChangesNothing(e, steps);
        NoEventsNoChange(e, steps[1..]);
      }
    }
  }

  lemma {:induction false} EventsOfAppends(e: Escrow, a: seq<Step>, b: seq<Step>)
    ensures EventsOf(e, a + b) == EventsOf(e, a) + EventsOf(Run(e, a), b)
    decreases |a|
  {
    if a == [] {
      assert a + b == b;
    } else {
      assert (a + b)[1..] == a[1..] + b && (a + b)[0] == a[0];
      EventsOfAppends(Advance(e, a[0]), a[1..], b);
    }
  }

  lemma OtherStreamsLeaveRow(db: Database, d: Delivery, id: string)
    requires d.streamId != id
    ensures id in Handle(db, d).rows <==> id in db.rows
    ensures id in db.rows ==> Handle(db, d).rows[id] == db.rows[id]
  {
  }

  /** A delivery adds no transaction row but its own. */
  lemma HandleRecordsOnlyItself(db: Database, d: Delivery, signature: string, id: string)
    requires Plain(d) && Free(signature, ':') && id != ""
    requires TxRowId(signature, Some(id)) in Handle(db, d).transactions
    ensures TxRowId(signature, Some(id)) in db.transactions || (d.signature == signature && d.streamId == id)
  {
    if TxRowId(signature, Some(id)) !in db.transactions {
      if d.event.StreamCreated? || d.streamId in db.rows {
        TxRowIdIsInjective(d.signature, d.streamId, signature, id);
      } else {
        BareRowIdIsNoStreamRow(d.signature, signature, id);
      }
    }
  }

  // Milestone amounts along a run.

  lemma PayoutKeepsMilestones(e: Escrow, step: Step)
    requires step.instr.Withdraw? || step.instr.Cancel?
    ensures Advance(e, step).stream.milestones == e.stream.milestones
  {
    if Perform(e, step).Ok? {
      match step.instr
      case Withdraw(feed, lamports) => ClaimKeepsMilestones(e, step.ctx, feed, lamports);
      case Cancel => SettlementKeepsMilestones(e, step.ctx);
    }
  }

  lemma ClaimKeepsMilestones(e: Escrow, ctx: Context, feed: Feed, lamports: u64)
    requires AfterWithdraw(e, ctx, feed, lamports).Ok?
    ensures AfterWithdraw(e, ctx, feed, lamports).value.escrow.stream.milestones == e.stream.milestones
  {
    WithdrawalIsClaim(e, ctx, feed, lamports);
    ClaimOutcome(e, VestedAmount(e.stream, ctx.now).value, FeeFrom(feed, ctx.now), lamports);
  }

  lemma SettlementKeepsMilestones(e: Escrow, ctx: Context)
    requires AfterCancel(e, ctx).Ok?
    ensures AfterCancel(e, ctx).value.escrow.stream.milestones == e.stream.milestones
  {
    CancellationIsSettlement(e, ctx);
    SettlementOutcome(e, VestedAmount(e.stream, ctx.now).value);
  }

  lemma TimedEditKeepsMilestones(e: Escrow, step: Step)
    requires step.instr.EditCliff? || step.instr.EditLinear?
    ensures Advance(e, step).stream.milestones == e.stream.milestones
  {
  }

  lemma UnlockChangesNoAmount(e: Escrow, ctx: Context, index: nat, i: nat)
    requires AfterUnlock(e, ctx, index).Ok?
    ensures var ms := AfterUnlock(e, ctx, index).value.escrow.stream.milestones;
            |ms| == |e.stream.milestones| && (i < |ms| ==> ms[i].amount == e.stream.milestones[i].amount)
  {
  }

  lemma EditChangesOneAmount(e: Escrow, ctx: Context, index: nat, newAmount: u64, wallet: u64)
    requires AfterEditMilestone(e, ctx, index, newAmount, wallet).Ok?
    ensures index < |e.stream.milestones| && index <= 255
    ensures var r, m := AfterEditMilestone(e, ctx, index, newAmount, wallet).value, e.stream.milestones[index];
            && r.event == MilestoneEdited(index, m.amount, newAmount)
            && r.escrow.stream.milestones == e.stream.milestones[index := m.(amount := newAmount)]
  {
  }

  lemma StepChangesOnlyWhatItEdits(e: Escrow, step: Step, i: nat)
    requires Perform(e, step).Ok?
    ensures var r := Perform(e, step).value;
            && |r.escrow.stream.milestones| == |e.stream.milestones|
            && (i < |e.stream.milestones| && i !in EditedBy(r.event) ==>
                  r.escrow.stream.milestones[i].amount == e.stream.milestones[i].amount)
  {
    match step.instr
    case UnlockMilestone(index) => UnlockChangesNoAmount(e, step.ctx, index, i);
    case EditMilestone(index, newAmount, wallet) => EditChangesOneAmount(e, step.ctx, index, newAmount, wallet);
    case Withdraw(_, _) => PayoutKeepsMilestones(e, step);
    case Cancel => PayoutKeepsMilestones(e, step);
    case EditCliff(_) => TimedEditKeepsMilestones(e, step);
    case EditLinear(_, _, _) => TimedEditKeepsMilestones(e, step);
  }

  lemma {:induction false} EditedInOneMore(event: Event, rest: seq<Event>)
    ensures EditedIn([event] + rest) == EditedBy(event) + EditedIn(rest)
  {
    assert ([event] + rest)[1..] == rest;
  }

  /** A run changes milestone amounts only at the indices it edits. */
  lemma {:induction false} AmountsChangeOnlyWhereEdited(e: Escrow, steps: seq<Step>, i: nat)
    ensures |Run(e, steps).stream.milestones| == |e.stream.milestones|
    ensures i < |e.stream.milestones| && i !in EditedIndices(e, steps) ==>
              Run(e, steps).stream.milestones[i].amount == e.stream.milestones[i].amount
    decreases |steps|
  {
    if steps != [] {
      AmountsChangeOnlyWhereEdited(Advance(e, steps[0]), steps[1..], i);
      if Perform(e, steps[0]).Ok? {
        CommittedHead(e, steps);
        StepChangesOnlyWhatItEdits(e, steps[0], i);
        EditedInOneMore(Perform(e, steps[0]).value.event, EventsOf(Advance(e, steps[0]), steps[1..]));
      } else {
        RefusedStepChangesNothing(e, steps);
      }
    }
  }
}
