/** What no instruction ever takes back: who the parties are, what was paid, the end date, and unlocked milestones. */
module Progress {
  import opened Numbers
  import opened Results
  import opened Accounts
  import opened Vesting
  import opened Program
  import opened Invariants

  /** The parties and terms fixed at creation. */
  predicate SameParties(s: Stream, t: Stream) {
    && (s.creator, s.recipient, s.mint) == (t.creator, t.recipient, t.mint)
    && (s.kind, s.startTs, s.cancelable) == (t.kind, t.startTs, t.cancelable)
  }

  /** Amounts and dates that only grow; the cliff stays once anything was withdrawn. */
  predicate Grows(e: Escrow, f: Escrow) {
    var s, t := e.stream, f.stream;
    && s.withdrawn <= t.withdrawn && e.ledger.paidToRecipient <= f.ledger.paidToRecipient
    && e.ledger.deposited <= f.ledger.deposited
    && e.ledger.refundedByEdits <= f.ledger.refundedByEdits && e.ledger.refundedByCancel <= f.ledger.refundedByCancel
    && s.endTs <= t.endTs && s.unlockedAmount <= t.unlockedAmount && s.nextMilestone <= t.nextMilestone
    && (s.withdrawn > 0 ==> t.cliffTs == s.cliffTs)
    && (!s.kind.MilestoneBased? ==> s.totalAmount <= t.totalAmount)
  }

  /** An unlocked milestone is never touched again, and none is added or dropped. */
  predicate KeepsUnlocked(s: Stream, t: Stream) {
    && |s.milestones| == |t.milestones|
    && forall i :: 0 <= i < |s.milestones| && s.milestones[i].unlocked ==> t.milestones[i] == s.milestones[i]
  }

  predicate Progresses(e: Escrow, f: Escrow) {
    SameParties(e.stream, f.stream) && Grows(e, f) && KeepsUnlocked(e.stream, f.stream)
  }

  lemma UnlockProgresses(e: Escrow, ctx: Context, index: nat)
    requires MilestoneLedger(e.stream) && AfterUnlock(e, ctx, index).Ok?
    ensures Progresses(e, AfterUnlock(e, ctx, index).value.escrow)
  {
  }

  lemma MilestoneEditProgresses(e: Escrow, ctx: Context, index: nat, newAmount: u64, wallet: u64)
    requires AfterEditMilestone(e, ctx, index, newAmount, wallet).Ok?
    ensures Progresses(e, AfterEditMilestone(e, ctx, index, newAmount, wallet).value.escrow)
  {
  }

  lemma CliffEditProgresses(e: Escrow, ctx: Context, newCliffTs: i64)
    requires AfterEditCliff(e, ctx, newCliffTs).Ok?
    ensures Progresses(e, AfterEditCliff(e, ctx, newCliffTs).value.escrow)
  {
  }

  lemma LinearEditProgresses(e: Escrow, ctx: Context, newEndTs: i64, topup: u64, wallet: u64)
    requires AfterEditLinear(e, ctx, newEndTs, topup, wallet).Ok?
    ensures Progresses(e, AfterEditLinear(e, ctx, newEndTs, topup, wallet).value.escrow)
  {
  }

  lemma ClaimProgresses(e: Escrow, vested: u64, fee: Result<u64, ErrorCode>, lamports: u64)
    requires Claim(e, vested, fee, lamports).Ok?
    ensures Progresses(e, Claim(e, vested, fee, lamports).value.escrow)
  {
    ClaimOutcome(e, vested, fee, lamports);
  }

  lemma WithdrawalProgresses(e: Escrow, ctx: Context, feed: Feed, lamports: u64)
    requires AfterWithdraw(e, ctx, feed, lamports).Ok?
    ensures Progresses(e, AfterWithdraw(e, ctx, feed, lamports).value.escrow)
  {
    WithdrawalIsClaim(e, ctx, feed, lamports);
    ClaimProgresses(e, VestedAmount(e.stream, ctx.now).value, FeeFrom(feed, ctx.now), lamports);
  }

  lemma SettlementProgresses(e: Escrow, vested: u64)
    requires Settlement(e, vested).Ok?
    ensures Progresses(e, Settlement(e, vested).value.escrow)
  {
    SettlementOutcome(e, vested);
  }

  lemma CancellationProgresses(e: Escrow, ctx: Context)
    requires AfterCancel(e, ctx).Ok?
    ensures Progresses(e, AfterCancel(e, ctx).value.escrow)
  {
    CancellationIsSettlement(e, ctx);
    SettlementProgresses(e, VestedAmount(e.stream, ctx.now).value);
  }

  lemma StepProgresses(e: Escrow, clock: i64, step: Step)
    requires Valid(e, clock)
    ensures Progresses(e, Advance(e, step))
  {
    if Perform(e, step).Ok? {
      match step.instr
      case Withdraw(feed, lamports) => WithdrawalProgresses(e, step.ctx, feed, lamports);
      case Cancel => CancellationProgresses(e, step.ctx);
      case UnlockMilestone(index) => UnlockProgresses(e, step.ctx, index);
      case EditMilestone(index, newAmount, wallet) =>
        MilestoneEditProgresses(e, step.ctx, index, newAmount, wallet);
      case EditCliff(newCliffTs) => CliffEditProgresses(e, step.ctx, newCliffTs);
      case EditLinear(newEndTs, topup, wallet) => LinearEditProgresses(e, step.ctx, newEndTs, topup, wallet);
    }
  }

  lemma {:induction false} ProgressComposes(e: Escrow, f: Escrow, g: Escrow)
    requires Progresses(e, f) && Progresses(f, g)
    ensures Progresses(e, g)
  {
  }

  /** Over any run from a reachable stream. */
  lemma {:induction false} RunsOnlyMoveForward(e: Escrow, clock: i64, steps: seq<Step>)
    requires Reachable(e, clock) && Ordered(clock, steps)
    ensures Progresses(e, Run(e, steps))
    decreases |steps|
  {
    if steps != [] {
      var step := steps[0];
      ReachableIsValid(e, clock);
      StepProgresses(e, clock, step);
      ReachableStep(e, clock, step);
      RunsOnlyMoveForward(Advance(e, step), step.ctx.now, steps[1..]);
      ProgressComposes(e, Advance(e, step), Run(e, steps));
    }
  }
}
