/** How much the recipient is paid over a run: coverage, extensions, and the exact effect of every payout. */
module Payouts {
  import opened Numbers
  import opened Results
  import opened Accounts
  import opened Vesting
  import opened Oracle
  import opened Program
  import opened Invariants

  /** The recipient has not been paid more than is vested now. */
  predicate Covered(e: Escrow, now: i64) {
    e.stream.cancelled || e.stream.withdrawn <= Entitlement(e.stream, now)
  }

  /** `step` commits a later end date. */
  predicate Extends(e: Escrow, step: Step) {
    step.instr.EditLinear? && step.instr.newEndTs > e.stream.endTs && Perform(e, step).Ok?
  }

  lemma TopUpKeepsCoverage(e: Escrow, ctx: Context, newEndTs: i64, topup: u64, wallet: u64)
    requires Valid(e, ctx.now) && Covered(e, ctx.now) && newEndTs <= e.stream.endTs
    requires AfterEditLinear(e, ctx, newEndTs, topup, wallet).Ok?
    ensures Covered(AfterEditLinear(e, ctx, newEndTs, topup, wallet).value.escrow, ctx.now)
  {
    var after := AfterEditLinear(e, ctx, newEndTs, topup, wallet).value.escrow;
    assert after.stream == e.stream.(totalAmount := after.stream.totalAmount);
    EntitlementGrowsWithTotal(e.stream, after.stream.totalAmount, ctx.now);
  }

  lemma PayoutKeepsCoverage(e: Escrow, clock: i64, step: Step)
    requires Valid(e, clock) && (step.instr.Withdraw? || step.instr.Cancel?) && Perform(e, step).Ok?
    ensures Covered(Advance(e, step), step.ctx.now)
  {
    match step.instr
    case Withdraw(feed, lamports) => WithdrawEffect(e, clock, step.ctx, feed, lamports);
    case Cancel => CancelEffect(e, clock, step.ctx);
  }

  lemma MilestoneStepKeepsCoverage(e: Escrow, clock: i64, step: Step)
    requires Valid(e, clock) && Covered(e, step.ctx.now) && Perform(e, step).Ok?
    requires step.instr.UnlockMilestone? || step.instr.EditMilestone?
    ensures Covered(Advance(e, step), step.ctx.now)
  {
  }

  /** Time and every instruction except an end extension keep what was paid within what is vested. */
  lemma CoverageKept(e: Escrow, clock: i64, step: Step)
    requires Valid(e, clock) && clock <= step.ctx.now
    requires Covered(e, clock) && !Extends(e, step)
    ensures Covered(Advance(e, step), step.ctx.now)
  {
    ClockAdvances(e, clock, step.ctx.now);
    EntitlementGrowsWithTime(e.stream, clock, step.ctx.now);
    assert Covered(e, step.ctx.now);
    if Perform(e, step).Ok? {
      match step.instr
      case EditLinear(newEndTs, topup, wallet) => TopUpKeepsCoverage(e, step.ctx, newEndTs, topup, wallet);
      case EditCliff(_) =>
      case UnlockMilestone(_) => MilestoneStepKeepsCoverage(e, clock, step);
      case EditMilestone(_, _, _) => MilestoneStepKeepsCoverage(e, clock, step);
      case Withdraw(_, _) => PayoutKeepsCoverage(e, clock, step);
      case Cancel => PayoutKeepsCoverage(e, clock, step);
    }
  }

  /** `step` commits a later end date under which less is vested now than was already withdrawn. */
  predicate Uncovers(e: Escrow, step: Step) {
    var s := e.stream;
    && Extends(e, step) && s.withdrawn > 0
    && s.withdrawn * (step.instr.newEndTs - s.startTs)
       > (s.totalAmount + step.instr.topupAmount) * (step.ctx.now - s.startTs)
  }

  /** Which extensions keep coverage: those that find nothing withdrawn, or enough vested on the new schedule. */
  lemma ExtensionKeepsCoverageExactlyWhen(e: Escrow, ctx: Context, newEndTs: i64, topup: u64, wallet: u64)
    requires Valid(e, ctx.now) && Covered(e, ctx.now) && newEndTs > e.stream.endTs
    requires AfterEditLinear(e, ctx, newEndTs, topup, wallet).Ok?
    ensures var s := e.stream;
            Covered(AfterEditLinear(e, ctx, newEndTs, topup, wallet).value.escrow, ctx.now) <==>
            || s.withdrawn == 0
            || s.withdrawn * (newEndTs - s.startTs) <= (s.totalAmount + topup) * (ctx.now - s.startTs)
  {
    var s, after := e.stream, AfterEditLinear(e, ctx, newEndTs, topup, wallet).value.escrow;
    assert after.stream == s.(endTs := newEndTs, totalAmount := s.totalAmount + topup);
    if s.withdrawn > 0 {
      assert s.startTs <= ctx.now < s.endTs;
      var elapsed, duration := ctx.now - s.startTs, newEndTs - s.startTs;
      ProductAtMost(0, 0, s.totalAmount + topup, elapsed);
      FloorReaches((s.totalAmount + topup) * elapsed, duration, s.withdrawn);
    }
  }

  /** Exactly when coverage is lost. */
  lemma CoverageKeptExactlyWhen(e: Escrow, clock: i64, step: Step)
    requires Valid(e, clock) && clock <= step.ctx.now && Covered(e, clock)
    ensures Covered(Advance(e, step), step.ctx.now) <==> !Uncovers(e, step)
  {
    if Extends(e, step) {
      ClockAdvances(e, clock, step.ctx.now);
      EntitlementGrowsWithTime(e.stream, clock, step.ctx.now);
      var EditLinear(newEndTs, topup, wallet) := step.instr;
      ExtensionKeepsCoverageExactlyWhen(e, step.ctx, newEndTs, topup, wallet);
    } else {
      CoverageKept(e, clock, step);
    }
  }

  /** While less is vested than was paid, withdrawals and cancellations are refused and change nothing. */
  lemma OverdrawnRefusesPayout(e: Escrow, clock: i64, step: Step)
    requires Valid(e, clock) && !Covered(e, step.ctx.now)
    requires step.instr.Withdraw? || step.instr.Cancel?
    ensures Perform(e, step).Err? && Advance(e, step) == e
  {
    match step.instr
    case Withdraw(feed, lamports) => WithdrawSucceedsExactlyWhen(e, clock, step.ctx, feed, lamports);
    case Cancel => CancelSucceedsExactlyWhen(e, clock, step.ctx);
  }

  /** From the end of a timed stream on, a withdrawal that commits pays all that is left and empties the vault. */
  lemma FinalWithdrawalEmptiesVault(e: Escrow, clock: i64, step: Step)
    requires Valid(e, clock) && step.instr.Withdraw? && Perform(e, step).Ok?
    requires !e.stream.kind.MilestoneBased? && e.stream.endTs <= step.ctx.now
    ensures var after := Advance(e, step);
            && after.ledger.vault == 0
            && after.ledger.paidToRecipient == e.ledger.paidToRecipient + (e.stream.totalAmount - e.stream.withdrawn)
            && after.stream.status.Completed?
            && after.ledger.paidToRecipient == e.stream.totalAmount
  {
    VestedInReach(e, clock, step.ctx.now);
  }

  /** ... and one that finds something to pay and can be charged its fee does commit. */
  lemma FinalWithdrawalCommits(e: Escrow, clock: i64, step: Step)
    requires Valid(e, clock) && step.instr.Withdraw? && !e.stream.cancelled
    requires !e.stream.kind.MilestoneBased? && e.stream.endTs <= step.ctx.now
    requires step.ctx.mint == e.stream.mint && step.ctx.signer == e.stream.recipient && !step.ctx.paused
    requires step.ctx.recipientWallet == TokenAccount(e.stream.recipient, e.stream.mint)
    requires FeeCharged(step.instr.feed, step.ctx.now, step.instr.lamports)
    ensures Perform(e, step).Ok? <==> e.stream.withdrawn < e.stream.totalAmount
  {
    WithdrawSucceedsExactlyWhen(e, clock, step.ctx, step.instr.feed, step.instr.lamports);
    VestedInReach(e, clock, step.ctx.now);
  }

  /** The whole effect of a committed withdrawal. */
  lemma WithdrawEffect(e: Escrow, clock: i64, ctx: Context, feed: Feed, lamports: u64)
    requires Valid(e, clock) && AfterWithdraw(e, ctx, feed, lamports).Ok?
    ensures var s, due := e.stream, Entitlement(e.stream, ctx.now);
            && due <= s.totalAmount
            && AfterWithdraw(e, ctx, feed, lamports).value.escrow ==
               Escrow(s.(withdrawn := due, status := if due == s.totalAmount then Completed else s.status),
                      e.ledger.(vault := s.totalAmount - due, paidToRecipient := due))
  {
    VestedInReach(e, clock, ctx.now);
    WithdrawalIsClaim(e, ctx, feed, lamports);
    ClaimOutcome(e, Entitlement(e.stream, ctx.now), FeeFrom(feed, ctx.now), lamports);
  }

  /**
   The whole effect of a committed cancellation: the recipient's total becomes what is vested, the creator gets the
   rest.
   */
  lemma CancelEffect(e: Escrow, clock: i64, ctx: Context)
    requires Valid(e, clock) && AfterCancel(e, ctx).Ok?
    ensures var s, due := e.stream, Entitlement(e.stream, ctx.now);
            && due <= s.totalAmount
            && AfterCancel(e, ctx).value.escrow ==
               Escrow(s.(cancelled := true, status := Cancelled),
                      e.ledger.(vault := 0, paidToRecipient := due, refundedByCancel := s.totalAmount - due))
  {
    VestedInReach(e, clock, ctx.now);
    CancellationIsSettlement(e, ctx);
    SettlementOutcome(e, Entitlement(e.stream, ctx.now));
  }

  /** The events of the two payouts report what each party receives, and what the recipient holds afterwards. */
  lemma PayoutsAreReported(e: Escrow, clock: i64, step: Step)
    requires Valid(e, clock) && PaysOut(e, step)
    ensures var event, due, paid :=
              Perform(e, step).value.event, Entitlement(e.stream, step.ctx.now), e.stream.withdrawn;
            && paid <= due <= e.stream.totalAmount
            && (step.instr.Withdraw? ==>
                  event.TokensClaimed? && event.claimable == due - paid && event.withdrawnTotal == due)
            && (step.instr.Cancel? ==> event == StreamCancelled(due, e.stream.totalAmount - due, due - paid))
  {
    VestedInReach(e, clock, step.ctx.now);
    var due := Entitlement(e.stream, step.ctx.now);
    match step.instr
    case Withdraw(feed, lamports) =>
      WithdrawalIsClaim(e, step.ctx, feed, lamports);
      ClaimOutcome(e, due, FeeFrom(feed, step.ctx.now), lamports);
    case Cancel =>
      CancellationIsSettlement(e, step.ctx);
      SettlementOutcome(e, due);
  }

  lemma ClaimReportsItsFee(e: Escrow, ctx: Context, feed: Feed, lamports: u64)
    requires AfterWithdraw(e, ctx, feed, lamports).Ok?
    ensures var event := AfterWithdraw(e, ctx, feed, lamports).value.event;
            event.TokensClaimed? && Ok(event.feeLamports) == FeeFrom(feed, ctx.now) && 0 < event.feeLamports <= lamports
  {
    WithdrawalIsClaim(e, ctx, feed, lamports);
    ClaimOutcome(e, VestedAmount(e.stream, ctx.now).value, FeeFrom(feed, ctx.now), lamports);
  }

  /**
   Whatever bytes the feed holds, a committed withdrawal found a positive price in them and charges $0.99 at it, rounded
   down, exactly when that is below 2^64 lamports; with at most ten decimals it always is.
   */
  lemma WithdrawalChargesNinetyNineCents(e: Escrow, ctx: Context, feed: Feed, lamports: u64)
    requires AfterWithdraw(e, ctx, feed, lamports).Ok?
    ensures ReadChainlinkRound(feed.data, ctx.now).Ok?
    ensures var event, round :=
              AfterWithdraw(e, ctx, feed, lamports).value.event, ReadChainlinkRound(feed.data, ctx.now).value;
            && event.TokensClaimed? && 0 < event.feeLamports <= lamports && round.answer > 0
            && (WithinOneLamport(event.feeLamports, round) <==> FeeFits(round))
            && (round.decimals <= 10 ==> FeeFits(round))
  {
    ClaimReportsItsFee(e, ctx, feed, lamports);
    FeeIsNinetyNineCentsExactlyWhen(ReadChainlinkRound(feed.data, ctx.now).value);
  }

  // Cumulative claims over a run.

  /** The amount vested at the last payout of the run, or what was paid before it. */
  function VestedAtLastPayout(e: Escrow, steps: seq<Step>, before: nat): nat
    decreases |steps|
  {
    if steps == [] then before
    else
      var s := steps[0];
      VestedAtLastPayout(Advance(e, s), steps[1..], if PaysOut(e, s) then Entitlement(e.stream, s.ctx.now) else before)
  }

  predicate PaysOut(e: Escrow, step: Step) {
    (step.instr.Withdraw? || step.instr.Cancel?) && Perform(e, step).Ok?
  }

  lemma OthersPayNothing(e: Escrow, step: Step)
    requires !PaysOut(e, step)
    ensures Advance(e, step).ledger.paidToRecipient == e.ledger.paidToRecipient
  {
  }

  /** Every payout brings the recipient's total to exactly what is vested; nothing else pays the recipient. */
  lemma PayoutReachesEntitlement(e: Escrow, clock: i64, step: Step)
    requires Valid(e, clock)
    ensures Advance(e, step).ledger.paidToRecipient
            == if PaysOut(e, step) then Entitlement(e.stream, step.ctx.now) else e.ledger.paidToRecipient
  {
    if PaysOut(e, step) {
      match step.instr
      case Withdraw(feed, lamports) => WithdrawEffect(e, clock, step.ctx, feed, lamports);
      case Cancel => CancelEffect(e, clock, step.ctx);
    } else {
      OthersPayNothing(e, step);
    }
  }

  /** However the recipient spreads the withdrawals, what was paid is what was vested at the last payout. */
  lemma {:induction false} ClaimsEqualVestedAtLastPayout(e: Escrow, clock: i64, steps: seq<Step>)
    requires Valid(e, clock) && Ordered(clock, steps)
    ensures Run(e, steps).ledger.paidToRecipient == VestedAtLastPayout(e, steps, e.ledger.paidToRecipient)
    decreases |steps|
  {
    if steps != [] {
      PayoutReachesEntitlement(e, clock, steps[0]);
      StepKeepsValid(e, clock, steps[0]);
      ClaimsEqualVestedAtLastPayout(Advance(e, steps[0]), steps[0].ctx.now, steps[1..]);
    }
  }
}
