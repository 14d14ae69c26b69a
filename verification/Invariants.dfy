/** What every reachable stream keeps: solvency, the milestone ledger, and exact completion. */
module Invariants {
  import opened Numbers
  import opened Results
  import opened Accounts
  import opened Vesting
  import opened Program

  // Sums of milestone amounts.

  lemma {:induction false} SumSplits(amounts: seq<u64>, k: nat)
    requires k <= |amounts|
    ensures Sum(amounts) == Sum(amounts[..k]) + Sum(amounts[k..])
  {
    if k == 0 {
      assert amounts[0..] == amounts;
    } else {
      SumSplits(amounts[1..], k - 1);
      assert amounts[..k][1..] == amounts[1..][..k - 1];
      assert amounts[k..] == amounts[1..][k - 1..];
    }
  }

  lemma SumExtends(amounts: seq<u64>, k: nat)
    requires k < |amounts|
    ensures Sum(amounts[..k + 1]) == Sum(amounts[..k]) + amounts[k]
  {
    SumSplits(amounts[..k + 1], k);
    assert amounts[..k + 1][..k] == amounts[..k];
    assert amounts[..k + 1][k..] == [amounts[k]];
    assert Sum([amounts[k]]) == amounts[k] + Sum([]);
  }

  lemma {:induction false} SumUpdates(amounts: seq<u64>, k: nat, x: u64)
    requires k < |amounts|
    ensures Sum(amounts[k := x]) == Sum(amounts) - amounts[k] + x
  {
    if k > 0 {
      SumUpdates(amounts[1..], k - 1, x);
      assert amounts[k := x][1..] == amounts[1..][k - 1 := x];
    }
  }

  predicate AllPositive(amounts: seq<u64>) {
    forall i :: 0 <= i < |amounts| ==> amounts[i] > 0
  }

  lemma {:induction false} SumPositive(amounts: seq<u64>)
    requires AllPositive(amounts)
    ensures amounts != [] ==> Sum(amounts) > 0
  {
    if amounts != [] {
      SumPositive(amounts[1..]);
    }
  }

  /** The accumulating loop accepts exactly the positive amounts whose running sum fits, and returns their sum. */
  lemma {:induction false} SumCheckedIsSum(amounts: seq<u64>, sofar: u64)
    ensures SumChecked(amounts, sofar).Ok?
            <==> AllPositive(amounts) && sofar + Sum(amounts) < TWO_64
    ensures SumChecked(amounts, sofar).Ok? ==> SumChecked(amounts, sofar).value == sofar + Sum(amounts)
    decreases |amounts|
  {
    if amounts != [] {
      assert AllPositive(amounts) <==> amounts[0] > 0 && AllPositive(amounts[1..]) by {
        assert forall i :: 0 < i < |amounts| ==> amounts[i] == amounts[1..][i - 1];
      }
      if amounts[0] > 0 && sofar + amounts[0] < TWO_64 {
        SumCheckedIsSum(amounts[1..], sofar + amounts[0]);
      }
    }
  }

  // The invariant.

  /** The vault holds exactly what is owed until cancellation, and nothing after it. */
  predicate Solvent(e: Escrow) {
    var s, l := e.stream, e.ledger;
    && s.withdrawn <= s.totalAmount
    && l.vault == (if s.cancelled then 0 else s.totalAmount - s.withdrawn)
    && l.deposited == s.totalAmount + l.refundedByEdits
    && (if s.cancelled then l.paidToRecipient + l.refundedByCancel == s.totalAmount && s.withdrawn <= l.paidToRecipient
        else l.paidToRecipient == s.withdrawn && l.refundedByCancel == 0)
  }

  /** The milestone accounts agree with the stream's totals, cursor and status. */
  predicate MilestoneLedger(s: Stream) {
    var amounts, k := Amounts(s.milestones), s.nextMilestone;
    && 0 < |s.milestones| <= 255
    && k <= |s.milestones|
    && (forall i :: 0 <= i < |s.milestones| ==>
          (s.milestones[i].unlocked <==> i < k) && (s.milestones[i].approved <==> i < k) && s.milestones[i].amount > 0)
    && s.totalAmount == Sum(amounts)
    && s.unlockedAmount == Sum(amounts[..k])
    && s.withdrawn <= s.unlockedAmount
    && (if s.cancelled then k < |s.milestones| else (s.status.Completed? <==> k == |s.milestones|))
  }

  /** A timed stream keeps a valid schedule and is complete exactly when everything is withdrawn. */
  predicate TimedLedger(s: Stream, clock: i64) {
    && s.milestones == [] && s.nextMilestone == 0 && s.unlockedAmount == 0
    && WellTimed(s)
    && (!s.cancelled ==> (s.status.Completed? <==> s.withdrawn == s.totalAmount))
    && (s.status.Completed? ==> s.endTs <= clock)
  }

  predicate Valid(e: Escrow, clock: i64) {
    var s := e.stream;
    && 0 <= clock
    && 0 < s.totalAmount
    && s.cancelable
    && s.creator != s.recipient
    && (s.cancelled <==> s.status.Cancelled?)
    && Solvent(e)
    && (if s.kind.MilestoneBased? then MilestoneLedger(s) else TimedLedger(s, clock))
  }

  // Creation establishes it.

  lemma CreateEstablishesValid(ctx: Context, req: CreateRequest)
    requires 0 <= ctx.now && AfterCreate(ctx, req).Ok?
    ensures Valid(AfterCreate(ctx, req).value.escrow, ctx.now)
  {
    var s := AfterCreate(ctx, req).value.escrow.stream;
    if s.kind.MilestoneBased? {
      SumCheckedIsSum(req.milestones, 0);
      assert forall i :: 0 <= i < |s.milestones| ==>
        s.milestones[i].amount == req.milestones[i] && s.milestones[i] in s.milestones;
      assert Amounts(s.milestones)[..0] == [];
    } else {
      assert s.milestones == [];
    }
  }

  // Each instruction keeps it.

  lemma ClockAdvances(e: Escrow, clock: i64, now: i64)
    requires Valid(e, clock) && clock <= now
    ensures Valid(e, now)
  {
  }

  /** All milestones are unlocked exactly when the unlocked amount is the whole total. */
  lemma UnlockedAllExactlyWhenTotal(s: Stream)
    requires MilestoneLedger(s)
    ensures s.unlockedAmount <= s.totalAmount
    ensures s.nextMilestone == |s.milestones| <==> s.unlockedAmount == s.totalAmount
  {
    var amounts, k := Amounts(s.milestones), s.nextMilestone;
    SumSplits(amounts, k);
    if k < |amounts| {
      SumPositive(amounts[k..]);
    } else {
      assert amounts[..k] == amounts && amounts[k..] == [];
    }
  }

  /** What the program computes as vested is the entitlement, and never above the total. */
  lemma VestedInReach(e: Escrow, clock: i64, now: i64)
    requires Valid(e, clock)
    ensures VestedAmount(e.stream, now) == Ok(Entitlement(e.stream, now))
    ensures Entitlement(e.stream, now) <= e.stream.totalAmount
    ensures Entitlement(e.stream, now) == e.stream.totalAmount <==>
            if e.stream.kind.MilestoneBased? then e.stream.nextMilestone == |e.stream.milestones|
            else now >= e.stream.endTs
  {
    VestedAmountIsExact(e.stream, now);
    if e.stream.kind.MilestoneBased? {
      UnlockedAllExactlyWhenTotal(e.stream);
    } else {
      FullyVestedExactlyAtEnd(e.stream, now);
      EntitlementWithinTotal(e.stream, now);
    }
  }

  lemma ClaimKeepsValid(e: Escrow, now: i64, vested: u64, fee: Result<u64, ErrorCode>, lamports: u64)
    requires Valid(e, now) && vested == Entitlement(e.stream, now) && Claim(e, vested, fee, lamports).Ok?
    requires !e.stream.status.Cancelled?
    ensures Valid(Claim(e, vested, fee, lamports).value.escrow, now)
  {
    VestedInReach(e, now, now);
    ClaimOutcome(e, vested, fee, lamports);
  }

  lemma WithdrawKeepsValid(e: Escrow, ctx: Context, feed: Feed, lamports: u64)
    requires Valid(e, ctx.now)
    requires AfterWithdraw(e, ctx, feed, lamports).Ok?
    ensures Valid(AfterWithdraw(e, ctx, feed, lamports).value.escrow, ctx.now)
  {
    VestedInReach(e, ctx.now, ctx.now);
    WithdrawalIsClaim(e, ctx, feed, lamports);
    ClaimKeepsValid(e, ctx.now, Entitlement(e.stream, ctx.now), FeeFrom(feed, ctx.now), lamports);
  }

  lemma SettlementKeepsValid(e: Escrow, now: i64, vested: u64)
    requires Valid(e, now) && vested == Entitlement(e.stream, now) && Settlement(e, vested).Ok?
    requires !e.stream.cancelled
    ensures Valid(Settlement(e, vested).value.escrow, now)
  {
    VestedInReach(e, now, now);
    SettlementOutcome(e, vested);
  }

  lemma CancelKeepsValid(e: Escrow, ctx: Context)
    requires Valid(e, ctx.now)
    requires AfterCancel(e, ctx).Ok?
    ensures Valid(AfterCancel(e, ctx).value.escrow, ctx.now)
  {
    VestedInReach(e, ctx.now, ctx.now);
    CancellationIsSettlement(e, ctx);
    SettlementKeepsValid(e, ctx.now, Entitlement(e.stream, ctx.now));
  }

  lemma UnlockKeepsValid(e: Escrow, ctx: Context, index: nat)
    requires Valid(e, ctx.now)
    requires AfterUnlock(e, ctx, index).Ok?
    ensures Valid(AfterUnlock(e, ctx, index).value.escrow, ctx.now)
  {
    var s, s' := e.stream, AfterUnlock(e, ctx, index).value.escrow.stream;
    var amounts := Amounts(s.milestones);
    assert Amounts(s'.milestones) == amounts;
    SumExtends(amounts, index);
  }

  /** Replacing a locked amount shifts the total by the difference and leaves the unlocked part alone. */
  lemma AmountEdited(ms: seq<Milestone>, k: nat, index: nat, newAmount: u64)
    requires k <= index < |ms|
    ensures var edited := Amounts(ms[index := ms[index].(amount := newAmount)]);
            && Sum(edited) == Sum(Amounts(ms)) - ms[index].amount + newAmount
            && Sum(edited[..k]) == Sum(Amounts(ms)[..k])
            && Sum(edited[..k]) + newAmount <= Sum(edited)
  {
    var amounts, edited := Amounts(ms), Amounts(ms[index := ms[index].(amount := newAmount)]);
    assert edited == amounts[index := newAmount];
    SumUpdates(amounts, index, newAmount);
    assert edited[..k] == amounts[..k];
    SumSplits(edited, index);
    SumSplits(edited[..index], k);
    assert edited[..index][..k] == edited[..k];
    assert Sum(edited[index..]) == newAmount + Sum(edited[index..][1..]);
  }

  lemma EditedLedger(s: Stream, index: nat, newAmount: u64, total: u64)
    requires MilestoneLedger(s) && s.status.Active? && !s.cancelled && s.nextMilestone <= index < |s.milestones|
    requires newAmount > 0 && total == s.totalAmount - s.milestones[index].amount + newAmount
    ensures var m := s.milestones[index].(amount := newAmount);
            MilestoneLedger(s.(milestones := s.milestones[index := m], totalAmount := total))
    ensures s.withdrawn <= total && 0 < total
  {
    AmountEdited(s.milestones, s.nextMilestone, index, newAmount);
  }

  lemma EditMilestoneKeepsValid(e: Escrow, ctx: Context, index: nat, newAmount: u64, wallet: u64)
    requires Valid(e, ctx.now)
    requires AfterEditMilestone(e, ctx, index, newAmount, wallet).Ok?
    ensures Valid(AfterEditMilestone(e, ctx, index, newAmount, wallet).value.escrow, ctx.now)
  {
    var s, s' := e.stream, AfterEditMilestone(e, ctx, index, newAmount, wallet).value.escrow.stream;
    EditedLedger(s, index, newAmount, s'.totalAmount);
    assert s' == s.(milestones := s'.milestones, totalAmount := s'.totalAmount);
  }

  lemma EditCliffKeepsValid(e: Escrow, ctx: Context, newCliffTs: i64)
    requires Valid(e, ctx.now)
    requires AfterEditCliff(e, ctx, newCliffTs).Ok?
    ensures Valid(AfterEditCliff(e, ctx, newCliffTs).value.escrow, ctx.now)
  {
  }

  lemma EditLinearKeepsValid(e: Escrow, ctx: Context, newEndTs: i64, topupAmount: u64, wallet: u64)
    requires Valid(e, ctx.now)
    requires AfterEditLinear(e, ctx, newEndTs, topupAmount, wallet).Ok?
    ensures Valid(AfterEditLinear(e, ctx, newEndTs, topupAmount, wallet).value.escrow, ctx.now)
  {
  }

  lemma StepKeepsValid(e: Escrow, clock: i64, step: Step)
    requires Valid(e, clock) && clock <= step.ctx.now
    ensures Valid(Advance(e, step), step.ctx.now)
  {
    ClockAdvances(e, clock, step.ctx.now);
    if Perform(e, step).Ok? {
      match step.instr
      case Withdraw(feed, lamports) => WithdrawKeepsValid(e, step.ctx, feed, lamports);
      case Cancel => CancelKeepsValid(e, step.ctx);
      case UnlockMilestone(index) => UnlockKeepsValid(e, step.ctx, index);
      case EditMilestone(index, newAmount, wallet) => EditMilestoneKeepsValid(e, step.ctx, index, newAmount, wallet);
      case EditCliff(newCliffTs) => EditCliffKeepsValid(e, step.ctx, newCliffTs);
      case EditLinear(newEndTs, topup, wallet) => EditLinearKeepsValid(e, step.ctx, newEndTs, topup, wallet);
    }
  }

  /** The invariant holds after every run, whatever instructions it tries in whatever order. */
  lemma {:induction false} RunKeepsValid(e: Escrow, clock: i64, steps: seq<Step>)
    requires Valid(e, clock) && Ordered(clock, steps)
    ensures Valid(Run(e, steps), LastTime(clock, steps))
    decreases |steps|
  {
    if steps != [] {
      StepKeepsValid(e, clock, steps[0]);
      RunKeepsValid(Advance(e, steps[0]), steps[0].ctx.now, steps[1..]);
    }
  }

  /** `e` is a stream that a creation and some time-ordered run of instructions leave at time `clock`. */
  ghost predicate Reachable(e: Escrow, clock: i64) {
    exists ctx: Context, req: CreateRequest, steps: seq<Step> :: CreatedThenRan(ctx, req, steps, e, clock)
  }

  ghost predicate CreatedThenRan(ctx: Context, req: CreateRequest, steps: seq<Step>, e: Escrow, clock: i64) {
    && 0 <= ctx.now
    && AfterCreate(ctx, req).Ok?
    && Ordered(ctx.now, steps)
    && e == Run(AfterCreate(ctx, req).value.escrow, steps)
    && clock == LastTime(ctx.now, steps)
  }

  lemma ReachableIsValid(e: Escrow, clock: i64)
    requires Reachable(e, clock)
    ensures Valid(e, clock)
  {
    var ctx, req, steps :| CreatedThenRan(ctx, req, steps, e, clock);
    CreateEstablishesValid(ctx, req);
    RunKeepsValid(AfterCreate(ctx, req).value.escrow, ctx.now, steps);
  }

  // What it means for token holders.

  /** Every token ever deposited is in the vault, with the recipient, or back with the creator. */
  lemma TokensAreConserved(e: Escrow, clock: i64)
    requires Reachable(e, clock)
    ensures var s, l := e.stream, e.ledger;
            && l.deposited == l.vault + l.paidToRecipient + l.refundedByEdits + l.refundedByCancel
            && l.vault == (if s.cancelled then 0 else s.totalAmount - s.withdrawn)
            && s.withdrawn <= s.totalAmount
  {
    ReachableIsValid(e, clock);
  }

  /** The milestone accounts of a reachable stream add up, in both halves. */
  lemma MilestonesAddUp(e: Escrow, clock: i64)
    requires Reachable(e, clock) && e.stream.kind.MilestoneBased?
    ensures var s := e.stream;
            && s.nextMilestone <= |s.milestones|
            && s.totalAmount == s.unlockedAmount + Sum(Amounts(s.milestones)[s.nextMilestone..])
            && s.unlockedAmount == Sum(Amounts(s.milestones)[..s.nextMilestone])
            && (forall i :: 0 <= i < |s.milestones| ==> (s.milestones[i].unlocked <==> i < s.nextMilestone))
            && (forall i :: s.nextMilestone <= i < |s.milestones| ==> s.milestones[i].amount > 0)
            && s.withdrawn <= s.unlockedAmount
  {
    ReachableIsValid(e, clock);
    SumSplits(Amounts(e.stream.milestones), e.stream.nextMilestone);
  }

  /** Completion is exact: all withdrawn on a timed stream, all unlocked on a milestone stream. */
  lemma CompletionIsExact(e: Escrow, clock: i64)
    requires Reachable(e, clock) && !e.stream.cancelled
    ensures var s := e.stream;
            && (!s.kind.MilestoneBased? ==> (s.status.Completed? <==> s.withdrawn == s.totalAmount))
            && (s.kind.MilestoneBased? ==> (s.status.Completed? <==> s.nextMilestone == |s.milestones|)
                                           && (s.status.Completed? <==> s.unlockedAmount == s.totalAmount))
  {
    ReachableIsValid(e, clock);
    if e.stream.kind.MilestoneBased? {
      UnlockedAllExactlyWhenTotal(e.stream);
    }
  }

  predicate StatusMoves(from: Status, to: Status) {
    from == to || from.Active?
  }

  lemma StatusMovesForward(e: Escrow, clock: i64, step: Step)
    requires Valid(e, clock) && clock <= step.ctx.now
    ensures StatusMoves(e.stream.status, Advance(e, step).stream.status)
  {
    VestedInReach(e, clock, step.ctx.now);
    var vested := Entitlement(e.stream, step.ctx.now);
    match step.instr
    case Withdraw(feed, lamports) =>
      WithdrawalIsClaim(e, step.ctx, feed, lamports);
      ClaimOutcome(e, vested, FeeFrom(feed, step.ctx.now), lamports);
    case Cancel =>
      CancellationIsSettlement(e, step.ctx);
      SettlementOutcome(e, vested);
    case UnlockMilestone(_) =>
    case EditMilestone(_, _, _) =>
    case EditCliff(_) =>
    case EditLinear(_, _, _) =>
  }

  /** A completed stream stays fully vested. */
  lemma CompletedIsFullyVested(e: Escrow, clock: i64, now: i64)
    requires Valid(e, clock) && clock <= now && e.stream.status.Completed?
    ensures Entitlement(e.stream, now) == e.stream.totalAmount
  {
    VestedInReach(e, clock, now);
  }

  lemma CancelledIsFrozen(e: Escrow, clock: i64, step: Step)
    requires Valid(e, clock) && e.stream.cancelled
    ensures Advance(e, step) == e
  {
  }

  /** Completion and cancellation are final, and a completed stream refuses every cancellation. */
  lemma CompletionIsFinal(e: Escrow, clock: i64, step: Step)
    requires Reachable(e, clock) && clock <= step.ctx.now
    ensures StatusMoves(e.stream.status, Advance(e, step).stream.status)
    ensures e.stream.cancelled ==> Advance(e, step) == e
    ensures e.stream.status.Completed? ==> AfterCancel(e, step.ctx).Err?
  {
    ReachableIsValid(e, clock);
    StatusMovesForward(e, clock, step);
    if e.stream.cancelled {
      CancelledIsFrozen(e, clock, step);
    }
    if e.stream.status.Completed? {
      CompletedIsFullyVested(e, clock, step.ctx.now);
      VestedInReach(e, clock, step.ctx.now);
    }
  }

  lemma {:induction false} StatusIsFinalOverRuns(e: Escrow, clock: i64, steps: seq<Step>)
    requires Reachable(e, clock) && Ordered(clock, steps)
    ensures StatusMoves(e.stream.status, Run(e, steps).stream.status)
    ensures e.stream.cancelled ==> Run(e, steps) == e
    decreases |steps|
  {
    if steps != [] {
      CompletionIsFinal(e, clock, steps[0]);
      ReachableStep(e, clock, steps[0]);
      StatusIsFinalOverRuns(Advance(e, steps[0]), steps[0].ctx.now, steps[1..]);
    }
  }

  lemma {:induction false} OrderedAppends(clock: i64, steps: seq<Step>, step: Step)
    requires Ordered(clock, steps) && LastTime(clock, steps) <= step.ctx.now
    ensures Ordered(clock, steps + [step])
    decreases |steps|
  {
    if steps != [] {
      assert LastTime(steps[0].ctx.now, steps[1..]) == LastTime(clock, steps);
      OrderedAppends(steps[0].ctx.now, steps[1..], step);
      assert (steps + [step])[1..] == steps[1..] + [step];
    }
  }

  lemma ReachableStep(e: Escrow, clock: i64, step: Step)
    requires Reachable(e, clock) && clock <= step.ctx.now
    ensures Reachable(Advance(e, step), step.ctx.now)
  {
    var ctx, req, steps :| CreatedThenRan(ctx, req, steps, e, clock);
    OrderedAppends(ctx.now, steps, step);
    var created := AfterCreate(ctx, req).value.escrow;
    RunAppends(created, steps, [step]);
    assert Run(e, [step]) == Advance(e, step) by {
      assert [step][1..] == [];
    }
    assert CreatedThenRan(ctx, req, steps + [step], Advance(e, step), step.ctx.now);
  }

  /** The schedule a creation accepts, without loops or checked arithmetic. */
  predicate AcceptableSchedule(req: CreateRequest, now: i64) {
    if req.vestingType == 2 then
      && 0 < |req.milestones| <= 255 && req.remainingAccounts == |req.milestones| && req.accountsDerived
      && AllPositive(req.milestones) && Sum(req.milestones) == req.amount
    else
      && req.vestingType < 2 && req.milestones == []
      && now <= req.startTs <= req.cliffTs <= req.endTs && req.endTs - req.startTs >= 60
  }

  lemma ScheduleAcceptedExactlyWhen(req: CreateRequest, now: i64)
    requires 0 <= now && (req.vestingType == VESTING_TYPE_MILESTONE ==> req.accountsDerived)
    ensures CheckSchedule(req, now).Ok? <==> AcceptableSchedule(req, now)
    ensures CheckSchedule(req, now).Ok? ==> CheckSchedule(req, now).value == |req.milestones|
  {
    SumCheckedIsSum(req.milestones, 0);
  }

  /** A creation succeeds exactly for an acceptable schedule that the creator can fund: no overflow check decides it. */
  lemma CreateSucceedsExactlyWhen(ctx: Context, req: CreateRequest)
    requires 0 <= ctx.now
    ensures AfterCreate(ctx, req).Ok? <==>
            && !ctx.paused && 0 < req.amount <= req.wallet && req.received == req.amount
            && AcceptableSchedule(req, ctx.now)
            && ctx.signer != req.recipient
            && (req.allowedMints == [] || ctx.mint in req.allowedMints)
            && ctx.creatorWallet == TokenAccount(ctx.signer, ctx.mint) && req.mintDecimals > 0
  {
    if req.vestingType != VESTING_TYPE_MILESTONE || req.accountsDerived {
      ScheduleAcceptedExactlyWhen(req, ctx.now);
    }
  }

  // Which checks can still fail: exact success conditions in every valid, hence every reachable, state.

  /** An unlock succeeds exactly for the next milestone of an active stream: no overflow check can fire. */
  lemma UnlockSucceedsExactlyWhen(e: Escrow, clock: i64, ctx: Context, index: nat)
    requires Valid(e, clock)
    ensures var s := e.stream;
            AfterUnlock(e, ctx, index).Ok? <==>
            && s.creator == ctx.signer && s.kind.MilestoneBased? && !ctx.paused && s.status.Active?
            && index == s.nextMilestone
  {
    var s := e.stream;
    if s.kind.MilestoneBased? && s.status.Active? {
      UnlockedAllExactlyWhenTotal(s);
      SumExtends(Amounts(s.milestones), s.nextMilestone);
      SumSplits(Amounts(s.milestones), s.nextMilestone + 1);
    }
  }

  /** Lowering a locked milestone never trips the withdrawn-amount guard, and its refund is always covered. */
  lemma EditMilestoneSucceedsExactlyWhen(e: Escrow, clock: i64, ctx: Context, index: nat, newAmount: u64, wallet: u64)
    requires Valid(e, clock)
    ensures var s := e.stream;
            AfterEditMilestone(e, ctx, index, newAmount, wallet).Ok? <==>
            && s.creator == ctx.signer && s.mint == ctx.mint && !ctx.paused
            && ctx.creatorWallet == TokenAccount(s.creator, s.mint)
            && s.kind.MilestoneBased? && s.status.Active?
            && s.nextMilestone <= index < |s.milestones| && newAmount > 0
            && (newAmount > s.milestones[index].amount ==>
                  && wallet >= newAmount - s.milestones[index].amount
                  && s.totalAmount + (newAmount - s.milestones[index].amount) < TWO_64)
  {
    var s := e.stream;
    if s.kind.MilestoneBased? && s.nextMilestone <= index < |s.milestones| {
      AmountEdited(s.milestones, s.nextMilestone, index, newAmount);
    }
  }

  /**
   A cancellation succeeds exactly on a live stream that is not fully vested and has not been overdrawn by an
   extension.
   */
  lemma CancelSucceedsExactlyWhen(e: Escrow, clock: i64, ctx: Context)
    requires Valid(e, clock)
    ensures var s := e.stream;
            AfterCancel(e, ctx).Ok? <==>
            && s.mint == ctx.mint && !ctx.paused && s.creator == ctx.signer && !s.cancelled
            && ctx.creatorWallet == TokenAccount(s.creator, s.mint)
            && ctx.recipientWallet == TokenAccount(s.recipient, s.mint)
            && s.withdrawn <= Entitlement(s, ctx.now) < s.totalAmount
  {
    VestedInReach(e, clock, ctx.now);
  }

  /** The feed is the expected one, and the fee of its round can be charged. */
  predicate FeeCharged(feed: Feed, now: i64, lamports: u64) {
    feed.trusted && FeeFrom(feed, now).Ok? && 0 < FeeFrom(feed, now).value <= lamports
  }

  /** A withdrawal succeeds exactly when something is due and the fee can be charged: the vault always covers it. */
  lemma WithdrawSucceedsExactlyWhen(e: Escrow, clock: i64, ctx: Context, feed: Feed, lamports: u64)
    requires Valid(e, clock)
    ensures var s := e.stream;
            AfterWithdraw(e, ctx, feed, lamports).Ok? <==>
            && s.mint == ctx.mint && s.recipient == ctx.signer && !s.cancelled && !ctx.paused
            && ctx.recipientWallet == TokenAccount(s.recipient, s.mint)
            && s.withdrawn < Entitlement(s, ctx.now)
            && FeeCharged(feed, ctx.now, lamports)
  {
    VestedInReach(e, clock, ctx.now);
  }

  /** A cliff edit succeeds exactly on a running cliff stream that nothing was withdrawn from, to a date ahead. */
  lemma EditCliffSucceedsExactlyWhen(e: Escrow, clock: i64, ctx: Context, newCliffTs: i64)
    requires Valid(e, clock)
    ensures var s := e.stream;
            AfterEditCliff(e, ctx, newCliffTs).Ok? <==>
            && s.creator == ctx.signer && !ctx.paused && s.kind.Cliff? && !s.cancelled && s.withdrawn == 0
            && s.startTs <= newCliffTs <= s.endTs && ctx.now <= newCliffTs && ctx.now < s.endTs
  {
  }

  /** A linear edit succeeds exactly on a running timed stream that is extended or topped up within range. */
  lemma EditLinearSucceedsExactlyWhen(e: Escrow, clock: i64, ctx: Context, newEndTs: i64, topup: u64, wallet: u64)
    requires Valid(e, clock)
    ensures var s := e.stream;
            AfterEditLinear(e, ctx, newEndTs, topup, wallet).Ok? <==>
            && s.creator == ctx.signer && s.mint == ctx.mint && !ctx.paused
            && ctx.creatorWallet == TokenAccount(s.creator, s.mint)
            && !s.kind.MilestoneBased? && s.status.Active? && ctx.now < s.endTs
            && (newEndTs > s.endTs || topup > 0)
            && (topup > 0 ==> wallet >= topup && s.totalAmount + topup < TWO_64)
  {
  }
}
