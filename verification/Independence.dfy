/**
 When the recipient withdraws changes what the recipient has withdrawn so far, and with two exceptions nothing else:
 a cliff can be moved only before the first withdrawal, and a cancellation is refused while the stream is overdrawn.
 */
module Independence {
  import opened Numbers
  import opened Accounts
  import opened Vesting
  import opened Program
  import opened Invariants
  import opened Payouts

  function WithoutWithdrawals(steps: seq<Step>): seq<Step> {
    if steps == [] then []
    else (if steps[0].instr.Withdraw? then [] else [steps[0]]) + WithoutWithdrawals(steps[1..])
  }

  /** The two differ at most in how much has been withdrawn so far. */
  predicate SameButWithdrawn(e: Escrow, f: Escrow) {
    && e.stream.(withdrawn := 0, status := Active) == f.stream.(withdrawn := 0, status := Active)
    && e.ledger.deposited == f.ledger.deposited
    && e.ledger.refundedByEdits == f.ledger.refundedByEdits
    && e.ledger.refundedByCancel == f.ledger.refundedByCancel
    && (e.stream.cancelled ==> e.ledger.paidToRecipient == f.ledger.paidToRecipient)
  }

  predicate Twins(e: Escrow, f: Escrow, clock: i64) {
    Valid(e, clock) && Valid(f, clock) && SameButWithdrawn(e, f)
  }

  // Which steps look at the withdrawn amount.

  /** Every guard of a cliff edit but the one on the withdrawn amount, for a date that is not the present cliff. */
  predicate CliffMayMove(s: Stream, ctx: Context, newCliffTs: i64) {
    && s.creator == ctx.signer && !ctx.paused && s.kind.Cliff? && s.status.Active? && ctx.now < s.endTs
    && s.startTs <= newCliffTs <= s.endTs && ctx.now <= newCliffTs && newCliffTs != s.cliffTs
  }

  /** Every guard of a cancellation but the one on the withdrawn amount. */
  predicate CancelMayPass(s: Stream, ctx: Context) {
    && s.mint == ctx.mint && !ctx.paused && s.creator == ctx.signer && !s.cancelled
    && ctx.creatorWallet == TokenAccount(s.creator, s.mint)
    && ctx.recipientWallet == TokenAccount(s.recipient, s.mint)
    && Entitlement(s, ctx.now) < s.totalAmount
  }

  /** The step does not tell the two streams apart. */
  predicate Indifferent(e: Escrow, f: Escrow, step: Step) {
    var s, t, now := e.stream, f.stream, step.ctx.now;
    match step.instr
    case EditCliff(newCliffTs) =>
      CliffMayMove(s, step.ctx, newCliffTs) ==> (s.withdrawn == 0 <==> t.withdrawn == 0)
    case Cancel =>
      CancelMayPass(s, step.ctx) ==> (s.withdrawn <= Entitlement(s, now) <==> t.withdrawn <= Entitlement(t, now))
    case _ => true
  }

  lemma WithdrawalKeepsTwins(e: Escrow, f: Escrow, clock: i64, step: Step)
    requires Twins(e, f, clock) && clock <= step.ctx.now && step.instr.Withdraw?
    ensures Twins(Advance(e, step), f, step.ctx.now)
  {
    StepKeepsValid(e, clock, step);
    ClockAdvances(f, clock, step.ctx.now);
    if Perform(e, step).Ok? {
      WithdrawEffect(e, clock, step.ctx, step.instr.feed, step.instr.lamports);
    }
  }

  lemma SameEntitlement(s: Stream, t: Stream, now: i64)
    requires s.(withdrawn := 0, status := Active) == t.(withdrawn := 0, status := Active)
    ensures Entitlement(s, now) == Entitlement(t, now)
  {
    var base := s.(withdrawn := 0, status := Active);
    assert Entitlement(s, now) == Entitlement(base, now);
    assert Entitlement(t, now) == Entitlement(base, now);
  }

  lemma CancelKeepsSameExactlyWhen(e: Escrow, f: Escrow, clock: i64, step: Step)
    requires Twins(e, f, clock) && clock <= step.ctx.now && step.instr.Cancel?
    ensures SameButWithdrawn(Advance(e, step), Advance(f, step)) <==> Indifferent(e, f, step)
  {
    var ctx := step.ctx;
    CancelSucceedsExactlyWhen(e, clock, ctx);
    CancelSucceedsExactlyWhen(f, clock, ctx);
    SameEntitlement(e.stream, f.stream, ctx.now);
    if AfterCancel(e, ctx).Ok? {
      CancelEffect(e, clock, ctx);
    }
    if AfterCancel(f, ctx).Ok? {
      CancelEffect(f, clock, ctx);
    }
  }

  /**
   A cliff edit that passes every other guard keeps the two alike exactly when both or neither were withdrawn from.
   */
  lemma CliffEditKeepsSameExactlyWhen(e: Escrow, f: Escrow, clock: i64, step: Step)
    requires Twins(e, f, clock) && clock <= step.ctx.now && step.instr.EditCliff?
    ensures SameButWithdrawn(Advance(e, step), Advance(f, step)) <==> Indifferent(e, f, step)
  {
    assert step.ctx.now < e.stream.endTs && e.stream.kind.Cliff? ==> e.stream.status == f.stream.status;
  }

  lemma UnlockKeepsSame(e: Escrow, f: Escrow, clock: i64, step: Step)
    requires Twins(e, f, clock) && step.instr.UnlockMilestone?
    ensures SameButWithdrawn(Advance(e, step), Advance(f, step))
  {
    UnlockSucceedsExactlyWhen(e, clock, step.ctx, step.instr.index);
    UnlockSucceedsExactlyWhen(f, clock, step.ctx, step.instr.index);
  }

  lemma MilestoneEditKeepsSame(e: Escrow, f: Escrow, clock: i64, step: Step)
    requires Twins(e, f, clock) && step.instr.EditMilestone?
    ensures SameButWithdrawn(Advance(e, step), Advance(f, step))
  {
    var EditMilestone(index, newAmount, wallet) := step.instr;
    EditMilestoneSucceedsExactlyWhen(e, clock, step.ctx, index, newAmount, wallet);
    EditMilestoneSucceedsExactlyWhen(f, clock, step.ctx, index, newAmount, wallet);
  }

  lemma LinearEditKeepsSame(e: Escrow, f: Escrow, clock: i64, step: Step)
    requires Twins(e, f, clock) && clock <= step.ctx.now && step.instr.EditLinear?
    ensures SameButWithdrawn(Advance(e, step), Advance(f, step))
  {
    var EditLinear(newEndTs, topup, wallet) := step.instr;
    EditLinearSucceedsExactlyWhen(e, clock, step.ctx, newEndTs, topup, wallet);
    EditLinearSucceedsExactlyWhen(f, clock, step.ctx, newEndTs, topup, wallet);
  }

  /** One step keeps the two alike exactly when it does not tell them apart; only cliff edits and cancellations can. */
  lemma StepKeepsSameExactlyWhen(e: Escrow, f: Escrow, clock: i64, step: Step)
    requires Twins(e, f, clock) && clock <= step.ctx.now && !step.instr.Withdraw?
    ensures SameButWithdrawn(Advance(e, step), Advance(f, step)) <==> Indifferent(e, f, step)
  {
    match step.instr
    case Cancel => CancelKeepsSameExactlyWhen(e, f, clock, step);
    case EditCliff(_) => CliffEditKeepsSameExactlyWhen(e, f, clock, step);
    case UnlockMilestone(_) => UnlockKeepsSame(e, f, clock, step);
    case EditMilestone(_, _, _) => MilestoneEditKeepsSame(e, f, clock, step);
    case EditLinear(_, _, _) => LinearEditKeepsSame(e, f, clock, step);
  }

  // Runs beside their withdrawal-free versions.

  /** What a step does in the run that leaves withdrawals out. */
  function Beside(f: Escrow, step: Step): Escrow {
    if step.instr.Withdraw? then f else Advance(f, step)
  }

  /** After every step, the run from `e` and the run from `f` without its withdrawals are alike. */
  predicate StayAlike(e: Escrow, f: Escrow, steps: seq<Step>)
    decreases |steps|
  {
    steps != [] ==>
      var e', f' := Advance(e, steps[0]), Beside(f, steps[0]);
      SameButWithdrawn(e', f') && StayAlike(e', f', steps[1..])
  }

  /** No step of the run tells it apart from the run without withdrawals. */
  predicate NoStepCares(e: Escrow, f: Escrow, steps: seq<Step>)
    decreases |steps|
  {
    steps != [] ==>
      && Indifferent(e, f, steps[0])
      && NoStepCares(Advance(e, steps[0]), Beside(f, steps[0]), steps[1..])
  }

  lemma StepKeepsTwins(e: Escrow, f: Escrow, clock: i64, step: Step)
    requires Twins(e, f, clock) && clock <= step.ctx.now
    ensures SameButWithdrawn(Advance(e, step), Beside(f, step)) <==> Indifferent(e, f, step)
    ensures Indifferent(e, f, step) ==> Twins(Advance(e, step), Beside(f, step), step.ctx.now)
  {
    if step.instr.Withdraw? {
      WithdrawalKeepsTwins(e, f, clock, step);
    } else {
      StepKeepsSameExactlyWhen(e, f, clock, step);
      StepKeepsValid(e, clock, step);
      StepKeepsValid(f, clock, step);
    }
  }

  /** A run and its version without withdrawals stay alike throughout if and only if no step tells them apart. */
  lemma {:induction false} WithdrawalsAreInertExactlyWhen(e: Escrow, f: Escrow, clock: i64, steps: seq<Step>)
    requires Twins(e, f, clock) && Ordered(clock, steps)
    ensures StayAlike(e, f, steps) <==> NoStepCares(e, f, steps)
    decreases |steps|
  {
    if steps != [] {
      StepKeepsTwins(e, f, clock, steps[0]);
      if Indifferent(e, f, steps[0]) {
        WithdrawalsAreInertExactlyWhen(Advance(e, steps[0]), Beside(f, steps[0]), steps[0].ctx.now, steps[1..]);
      }
    }
  }

  lemma {:induction false} RunWithoutWithdrawals(f: Escrow, steps: seq<Step>)
    requires steps != []
    ensures Run(f, WithoutWithdrawals(steps)) == Run(Beside(f, steps[0]), WithoutWithdrawals(steps[1..]))
  {
    var rest := WithoutWithdrawals(steps[1..]);
    assert ([steps[0]] + rest)[1..] == rest;
    assert [] + rest == rest;
  }

  lemma {:induction false} AlikeAtTheEnd(e: Escrow, f: Escrow, steps: seq<Step>)
    requires SameButWithdrawn(e, f) && StayAlike(e, f, steps)
    ensures SameButWithdrawn(Run(e, steps), Run(f, WithoutWithdrawals(steps)))
    decreases |steps|
  {
    if steps != [] {
      AlikeAtTheEnd(Advance(e, steps[0]), Beside(f, steps[0]), steps[1..]);
      RunWithoutWithdrawals(f, steps);
    }
  }

  /**
   Two runs from one stream that differ only in their withdrawals, none of which a step takes notice of, leave the same
   stream apart from the amount withdrawn: both or neither are cancelled, and after a cancellation both parties hold
   the same in each.
   */
  lemma {:induction false} PayoutsIndependentOfWithdrawals(e: Escrow, clock: i64, steps: seq<Step>, others: seq<Step>)
    requires Valid(e, clock) && Ordered(clock, steps) && Ordered(clock, others)
    requires WithoutWithdrawals(steps) == WithoutWithdrawals(others)
    requires NoStepCares(e, e, steps) && NoStepCares(e, e, others)
    ensures SameButWithdrawn(Run(e, steps), Run(e, others))
    ensures var a, b := Run(e, steps), Run(e, others);
            a.stream.cancelled ==> b.stream.cancelled && a.ledger.paidToRecipient == b.ledger.paidToRecipient
                                   && a.ledger.refundedByCancel == b.ledger.refundedByCancel
  {
    WithdrawalsAreInertExactlyWhen(e, e, clock, steps);
    WithdrawalsAreInertExactlyWhen(e, e, clock, others);
    AlikeAtTheEnd(e, e, steps);
    AlikeAtTheEnd(e, e, others);
  }

  lemma SameLastPayout(a: Escrow, clockA: i64, stepA: Step, b: Escrow, clockB: i64, stepB: Step)
    requires Valid(a, clockA) && Valid(b, clockB) && SameButWithdrawn(a, b)
    requires stepA.instr.Withdraw? && stepB.instr.Withdraw? && stepA.ctx.now == stepB.ctx.now
    requires Perform(a, stepA).Ok? && Perform(b, stepB).Ok?
    ensures Advance(a, stepA).ledger.paidToRecipient == Advance(b, stepB).ledger.paidToRecipient
  {
    PayoutReachesEntitlement(a, clockA, stepA);
    PayoutReachesEntitlement(b, clockB, stepB);
    SameEntitlement(a.stream, b.stream, stepA.ctx.now);
  }

  /** A recipient who withdraws last at the same moment in two such runs ends with the same lifetime total. */
  lemma {:induction false} LifetimeTotalIndependentOfWithdrawals(
    e: Escrow, clock: i64, steps: seq<Step>, others: seq<Step>, last: Step, otherLast: Step)
    requires Valid(e, clock) && Ordered(clock, steps) && Ordered(clock, others)
    requires WithoutWithdrawals(steps) == WithoutWithdrawals(others)
    requires NoStepCares(e, e, steps) && NoStepCares(e, e, others)
    requires last.instr.Withdraw? && otherLast.instr.Withdraw? && last.ctx.now == otherLast.ctx.now
    requires Perform(Run(e, steps), last).Ok? && Perform(Run(e, others), otherLast).Ok?
    ensures Advance(Run(e, steps), last).ledger.paidToRecipient
            == Advance(Run(e, others), otherLast).ledger.paidToRecipient
  {
    PayoutsIndependentOfWithdrawals(e, clock, steps, others);
    RunKeepsValid(e, clock, steps);
    RunKeepsValid(e, clock, others);
    SameLastPayout(Run(e, steps), LastTime(clock, steps), last, Run(e, others), LastTime(clock, others), otherLast);
  }

  // Runs that can be seen to be harmless by their edits alone.

  /** Each cliff edit finds both or neither withdrawn from, and no extension uncovers either. */
  predicate Harmless(e: Escrow, f: Escrow, steps: seq<Step>)
    decreases |steps|
  {
    steps != [] ==>
      && (steps[0].instr.EditCliff? ==> (e.stream.withdrawn == 0 <==> f.stream.withdrawn == 0))
      && !Uncovers(e, steps[0]) && !Uncovers(f, steps[0])
      && Harmless(Advance(e, steps[0]), Beside(f, steps[0]), steps[1..])
  }

  lemma CoveredTwinsCancelAlike(e: Escrow, f: Escrow, clock: i64, step: Step)
    requires Twins(e, f, clock) && Covered(e, clock) && Covered(f, clock) && clock <= step.ctx.now
    requires step.instr.EditCliff? ==> (e.stream.withdrawn == 0 <==> f.stream.withdrawn == 0)
    ensures Indifferent(e, f, step)
  {
    EntitlementGrowsWithTime(e.stream, clock, step.ctx.now);
    EntitlementGrowsWithTime(f.stream, clock, step.ctx.now);
  }

  lemma BesideStaysCovered(f: Escrow, clock: i64, step: Step)
    requires Valid(f, clock) && Covered(f, clock) && clock <= step.ctx.now && !Uncovers(f, step)
    ensures Covered(Beside(f, step), step.ctx.now)
  {
    CoverageKeptExactlyWhen(f, clock, step);
    EntitlementGrowsWithTime(f.stream, clock, step.ctx.now);
  }

  /** In such a run from covered streams no step cares, so withdrawals are inert in it. */
  lemma {:induction false} HarmlessRunsDoNotCare(e: Escrow, f: Escrow, clock: i64, steps: seq<Step>)
    requires Twins(e, f, clock) && Covered(e, clock) && Covered(f, clock)
    requires Ordered(clock, steps) && Harmless(e, f, steps)
    ensures NoStepCares(e, f, steps)
    decreases |steps|
  {
    if steps != [] {
      var step := steps[0];
      CoveredTwinsCancelAlike(e, f, clock, step);
      StepKeepsTwins(e, f, clock, step);
      CoverageKeptExactlyWhen(e, clock, step);
      BesideStaysCovered(f, clock, step);
      HarmlessRunsDoNotCare(Advance(e, step), Beside(f, step), step.ctx.now, steps[1..]);
    }
  }
}
