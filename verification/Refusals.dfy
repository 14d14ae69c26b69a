/** Why a valid stream refuses an instruction: every error that can be reported names a guard that does not hold. */
module Refusals {
  import opened Numbers
  import opened Results
  import opened Accounts
  import opened Vesting
  import opened Program
  import opened Invariants

  // Creation.

  predicate CreateCause(ctx: Context, req: CreateRequest, error: ErrorCode) {
    var parts, count := req.vestingType == 2, |req.milestones|;
    match error
    case ProtocolPaused => ctx.paused
    case InvalidAmount => req.amount == 0 || (parts && !AllPositive(req.milestones))
    case InvalidVestingType => req.vestingType > 2
    case InvalidMilestoneCount =>
      count > 255 || (if parts then count == 0 || req.remainingAccounts != count else count > 0)
    case MathOverflow => parts && Sum(req.milestones) >= TWO_64
    case InvalidMilestoneAmount => parts && Sum(req.milestones) != req.amount
    case InvalidStartDate => !parts && req.startTs < ctx.now
    case InvalidEndDate => !parts && req.endTs <= ctx.now
    case InvalidSchedule => !parts && !(req.startTs <= req.cliffTs <= req.endTs && req.startTs < req.endTs)
    case DurationTooShort => !parts && req.endTs - req.startTs < 60
    case InvalidRecipient => ctx.signer == req.recipient
    case MintNotAllowed => req.allowedMints != [] && ctx.mint !in req.allowedMints
    case InvalidMint => ctx.creatorWallet.mint != ctx.mint
    case InvalidTokenOwner => ctx.creatorWallet.owner != ctx.signer
    case InsufficientBalance => req.wallet < req.amount
    case InvalidMintDecimals => req.mintDecimals == 0
    case InvalidMilestonePda => parts && !req.accountsDerived
    case TransferFeeMintUnsupported => req.received != req.amount
    case _ => false
  }

  lemma {:induction false} SumRefused(amounts: seq<u64>, sofar: u64)
    requires SumChecked(amounts, sofar).Err?
    ensures var error := SumChecked(amounts, sofar).error;
            || (error == InvalidAmount && !AllPositive(amounts))
            || (error == MathOverflow && sofar + Sum(amounts) >= TWO_64)
    decreases |amounts|
  {
    if amounts[0] > 0 && sofar + amounts[0] < TWO_64 {
      SumRefused(amounts[1..], sofar + amounts[0]);
      if AllPositive(amounts) {
        assert forall i :: 0 <= i < |amounts[1..]| ==> amounts[1..][i] == amounts[i + 1];
      }
    }
  }

  lemma ScheduleRefused(ctx: Context, req: CreateRequest)
    requires 0 <= ctx.now && CheckSchedule(req, ctx.now).Err?
    ensures CreateCause(ctx, req, CheckSchedule(req, ctx.now).error)
  {
    if SumChecked(req.milestones, 0).Err? {
      SumRefused(req.milestones, 0);
    } else {
      SumCheckedIsSum(req.milestones, 0);
    }
  }

  /** The error of a refused creation is true of the request; the transfer of a funded one never fails. */
  lemma CreationRefusalNamesItsCause(ctx: Context, req: CreateRequest)
    requires 0 <= ctx.now && AfterCreate(ctx, req).Err?
    ensures CreateCause(ctx, req, AfterCreate(ctx, req).error)
  {
    if CheckSchedule(req, ctx.now).Err? {
      ScheduleRefused(ctx, req);
    }
  }

  // The other instructions.

  /** A guard stops the withdrawal before its claim. */
  predicate StopsWithdrawal(s: Stream, ctx: Context, feed: Feed, error: ErrorCode) {
    match error
    case InvalidMint => ctx.mint != s.mint || ctx.recipientWallet.mint != s.mint
    case Unauthorized => ctx.signer != s.recipient
    case StreamNotActive => s.status.Cancelled?
    case InvalidTokenOwner => ctx.recipientWallet.owner != s.recipient
    case InvalidOracleFeed => !feed.trusted
    case ProtocolPaused => ctx.paused
    case _ => false
  }

  /** There is nothing to claim, less than nothing, or no fee that can be charged. */
  predicate StopsClaim(s: Stream, vested: nat, fee: Result<u64, ErrorCode>, lamports: u64, error: ErrorCode) {
    || (error == MathOverflow && vested < s.withdrawn)
    || (error == NothingToWithdraw && vested == s.withdrawn)
    || (error == InvalidOraclePrice && fee == Ok(0))
    || (error == LamportTransferFailed && fee.Ok? && lamports < fee.value)
    || fee == Err(error)
  }

  predicate WithdrawCause(e: Escrow, ctx: Context, feed: Feed, lamports: u64, error: ErrorCode) {
    || StopsWithdrawal(e.stream, ctx, feed, error)
    || (!e.stream.cancelled
        && StopsClaim(e.stream, Entitlement(e.stream, ctx.now), FeeFrom(feed, ctx.now), lamports, error))
  }

  predicate CancelCause(e: Escrow, ctx: Context, error: ErrorCode) {
    var s := e.stream;
    match error
    case InvalidMint => ctx.mint != s.mint || ctx.creatorWallet.mint != s.mint || ctx.recipientWallet.mint != s.mint
    case InvalidTokenOwner => ctx.creatorWallet.owner != ctx.signer
    case InvalidRecipient => ctx.recipientWallet.owner != s.recipient
    case ProtocolPaused => ctx.paused
    case Unauthorized => ctx.signer != s.creator
    case AlreadyCancelled => s.cancelled
    case FullyVested => Entitlement(s, ctx.now) == s.totalAmount
    case MathOverflow => Entitlement(s, ctx.now) < s.withdrawn
    case _ => false
  }

  predicate UnlockCause(e: Escrow, ctx: Context, index: nat, error: ErrorCode) {
    var s := e.stream;
    match error
    case Unauthorized => ctx.signer != s.creator
    case InvalidVestingType => !s.kind.MilestoneBased?
    case ConstraintSeeds => index != s.nextMilestone
    case AccountNotInitialized => index >= |s.milestones|
    case ProtocolPaused => ctx.paused
    case StreamNotActive => !s.status.Active?
    case _ => false
  }

  predicate EditMilestoneCause(e: Escrow, ctx: Context, index: nat, newAmount: u64, wallet: u64, error: ErrorCode) {
    var s := e.stream;
    var known := index < |s.milestones|;
    var raise: int := if known then newAmount - s.milestones[index].amount else 0;
    match error
    case Unauthorized => ctx.signer != s.creator
    case InvalidMint => ctx.mint != s.mint || ctx.creatorWallet.mint != s.mint
    case AccountNotInitialized => !known
    case InvalidTokenOwner => ctx.creatorWallet.owner != s.creator
    case ProtocolPaused => ctx.paused
    case StreamNotActive => !s.status.Active?
    case MilestoneAlreadyUnlocked => index < s.nextMilestone
    case InvalidAmount => newAmount == 0
    case MathOverflow => s.totalAmount + raise >= TWO_64
    case TokenTransferFailed => wallet < raise
    case _ => false
  }

  predicate EditCliffCause(e: Escrow, ctx: Context, newCliffTs: i64, error: ErrorCode) {
    var s := e.stream;
    match error
    case Unauthorized => ctx.signer != s.creator
    case ProtocolPaused => ctx.paused
    case InvalidVestingType => !s.kind.Cliff?
    case StreamNotActive => !s.status.Active?
    case StreamExpired => s.endTs <= ctx.now
    case StreamAlreadyStarted => s.withdrawn > 0
    case InvalidCliff => newCliffTs < s.startTs || s.endTs < newCliffTs
    case InvalidStartDate => newCliffTs < ctx.now
    case _ => false
  }

  predicate EditLinearCause(e: Escrow, ctx: Context, newEndTs: i64, topup: u64, wallet: u64, error: ErrorCode) {
    var s := e.stream;
    match error
    case Unauthorized => ctx.signer != s.creator
    case InvalidMint => ctx.mint != s.mint || ctx.creatorWallet.mint != s.mint
    case InvalidTokenOwner => ctx.creatorWallet.owner != s.creator
    case ProtocolPaused => ctx.paused
    case InvalidVestingType => s.kind.MilestoneBased?
    case StreamNotActive => !s.status.Active?
    case StreamExpired => s.endTs <= ctx.now
    case InvalidAmount => newEndTs <= s.endTs && topup == 0
    case InsufficientBalance => wallet < topup
    case MathOverflow => s.totalAmount + topup >= TWO_64
    case _ => false
  }

  /** The guard that `error` names does not hold. */
  predicate Cause(e: Escrow, step: Step, error: ErrorCode) {
    match step.instr
    case Withdraw(feed, lamports) => WithdrawCause(e, step.ctx, feed, lamports, error)
    case Cancel => CancelCause(e, step.ctx, error)
    case UnlockMilestone(index) => UnlockCause(e, step.ctx, index, error)
    case EditMilestone(index, newAmount, wallet) => EditMilestoneCause(e, step.ctx, index, newAmount, wallet, error)
    case EditCliff(newCliffTs) => EditCliffCause(e, step.ctx, newCliffTs, error)
    case EditLinear(newEndTs, topup, wallet) => EditLinearCause(e, step.ctx, newEndTs, topup, wallet, error)
  }

  lemma ClaimRefused(e: Escrow, clock: i64, vested: u64, fee: Result<u64, ErrorCode>, lamports: u64)
    requires Valid(e, clock) && !e.stream.cancelled && vested <= e.stream.totalAmount
    requires Claim(e, vested, fee, lamports).Err?
    ensures StopsClaim(e.stream, vested, fee, lamports, Claim(e, vested, fee, lamports).error)
  {
  }

  lemma WithdrawStopped(e: Escrow, ctx: Context, feed: Feed, lamports: u64)
    requires AfterWithdraw(e, ctx, feed, lamports).Err? && VestedAmount(e.stream, ctx.now).Ok?
    ensures var error, vested := AfterWithdraw(e, ctx, feed, lamports).error, VestedAmount(e.stream, ctx.now).value;
            || StopsWithdrawal(e.stream, ctx, feed, error)
            || (!e.stream.status.Cancelled? && Claim(e, vested, FeeFrom(feed, ctx.now), lamports) == Err(error))
  {
  }

  lemma WithdrawRefused(e: Escrow, clock: i64, ctx: Context, feed: Feed, lamports: u64)
    requires Valid(e, clock) && AfterWithdraw(e, ctx, feed, lamports).Err?
    ensures WithdrawCause(e, ctx, feed, lamports, AfterWithdraw(e, ctx, feed, lamports).error)
  {
    VestedInReach(e, clock, ctx.now);
    WithdrawStopped(e, ctx, feed, lamports);
    if !StopsWithdrawal(e.stream, ctx, feed, AfterWithdraw(e, ctx, feed, lamports).error) {
      ClaimRefused(e, clock, Entitlement(e.stream, ctx.now), FeeFrom(feed, ctx.now), lamports);
    }
  }

  lemma CancelRefused(e: Escrow, clock: i64, ctx: Context)
    requires Valid(e, clock) && AfterCancel(e, ctx).Err?
    ensures CancelCause(e, ctx, AfterCancel(e, ctx).error)
  {
    VestedInReach(e, clock, ctx.now);
  }

  lemma UnlockRefused(e: Escrow, clock: i64, ctx: Context, index: nat)
    requires Valid(e, clock) && AfterUnlock(e, ctx, index).Err?
    ensures UnlockCause(e, ctx, index, AfterUnlock(e, ctx, index).error)
  {
    UnlockSucceedsExactlyWhen(e, clock, ctx, index);
  }

  lemma EditMilestoneRefused(e: Escrow, clock: i64, ctx: Context, index: nat, newAmount: u64, wallet: u64)
    requires Valid(e, clock) && AfterEditMilestone(e, ctx, index, newAmount, wallet).Err?
    ensures EditMilestoneCause(e, ctx, index, newAmount, wallet,
                               AfterEditMilestone(e, ctx, index, newAmount, wallet).error)
  {
    EditMilestoneSucceedsExactlyWhen(e, clock, ctx, index, newAmount, wallet);
  }

  lemma EditCliffRefused(e: Escrow, clock: i64, ctx: Context, newCliffTs: i64)
    requires Valid(e, clock) && AfterEditCliff(e, ctx, newCliffTs).Err?
    ensures EditCliffCause(e, ctx, newCliffTs, AfterEditCliff(e, ctx, newCliffTs).error)
  {
  }

  lemma EditLinearRefused(e: Escrow, clock: i64, ctx: Context, newEndTs: i64, topup: u64, wallet: u64)
    requires Valid(e, clock) && AfterEditLinear(e, ctx, newEndTs, topup, wallet).Err?
    ensures EditLinearCause(e, ctx, newEndTs, topup, wallet, AfterEditLinear(e, ctx, newEndTs, topup, wallet).error)
  {
  }

  /**
   The error of a refused instruction is true of the stream, and one of the few its instruction can report: no transfer
   out of the vault ever fails, and no overflow is reported but of an overdrawn stream, a fee or an amount out of range.
   */
  lemma RefusalNamesItsCause(e: Escrow, clock: i64, step: Step)
    requires Valid(e, clock) && Perform(e, step).Err?
    ensures Cause(e, step, Perform(e, step).error)
  {
    match step.instr
    case Withdraw(feed, lamports) => WithdrawRefused(e, clock, step.ctx, feed, lamports);
    case Cancel => CancelRefused(e, clock, step.ctx);
    case UnlockMilestone(index) => UnlockRefused(e, clock, step.ctx, index);
    case EditMilestone(index, newAmount, wallet) =>
      EditMilestoneRefused(e, clock, step.ctx, index, newAmount, wallet);
    case EditCliff(newCliffTs) => EditCliffRefused(e, clock, step.ctx, newCliffTs);
    case EditLinear(newEndTs, topup, wallet) => EditLinearRefused(e, clock, step.ctx, newEndTs, topup, wallet);
  }
}
