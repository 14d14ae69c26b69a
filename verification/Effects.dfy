/** What each committed instruction does to the accounts, field by field, and what the edits of a run add up to. */
module Effects {
  import opened Numbers
  import opened Accounts
  import opened Vesting
  import opened Program

  // One instruction. The effects of `withdraw` and `cancel` are in Payouts.

  /** A created stream is active, of the kind its type code says, with its milestones locked and its amount escrowed. */
  lemma CreateEffect(ctx: Context, req: CreateRequest)
    requires AfterCreate(ctx, req).Ok?
    ensures var Effect(Escrow(s, l), event) := AfterCreate(ctx, req).value;
            && (s.creator, s.recipient, s.mint) == (ctx.signer, req.recipient, ctx.mint)
            && (s.kind.Linear? <==> req.vestingType == 0) && (s.kind.Cliff? <==> req.vestingType == 1)
            && (s.kind.MilestoneBased? <==> req.vestingType == 2)
            && (s.status, s.cancelable, s.cancelled) == (Active, true, false)
            && (s.totalAmount, s.withdrawn, s.unlockedAmount, s.nextMilestone) == (req.amount, 0, 0, 0)
            && (s.startTs, s.cliffTs, s.endTs) == (req.startTs, req.cliffTs, req.endTs)
            && |s.milestones| == |req.milestones|
            && (forall i :: 0 <= i < |req.milestones| ==>
                  s.milestones[i] == Milestone(req.milestones[i], false, false, 0))
            && l == Ledger(req.amount, req.amount, 0, 0, 0)
            && |req.milestones| <= 255
            && event == StreamCreated(s.kind, req.amount, req.startTs, req.cliffTs, req.endTs, |req.milestones|)
  {
    assert forall i :: 0 <= i < |req.milestones| ==> Amounts(Locked(req.milestones))[i] == req.milestones[i];
    assert forall i :: 0 <= i < |req.milestones| ==> Locked(req.milestones)[i].unlockTs == 0;
  }

  /**
   A committed linear edit moves the end to the later of the two dates and puts exactly the top-up into the total, the
   vault and the deposits; it touches nothing else, and reports both ends and both totals.
   */
  lemma LinearEditEffect(e: Escrow, ctx: Context, newEndTs: i64, topup: u64, wallet: u64)
    requires AfterEditLinear(e, ctx, newEndTs, topup, wallet).Ok?
    ensures var Effect(Escrow(s', l'), event) := AfterEditLinear(e, ctx, newEndTs, topup, wallet).value;
            var s, l := e.stream, e.ledger;
            && s'.totalAmount == s.totalAmount + topup
            && s'.endTs == (if newEndTs < s.endTs then s.endTs else newEndTs)
            && s' == s.(totalAmount := s'.totalAmount, endTs := s'.endTs)
            && l'.vault == l.vault + topup && l'.deposited == l.deposited + topup
            && l' == l.(vault := l'.vault, deposited := l'.deposited)
            && event == LinearEdited(s.endTs, s'.endTs, s.totalAmount, s'.totalAmount)
  {
  }

  /** A committed cliff edit moves the cliff and nothing else, and reports both dates. */
  lemma CliffEditEffect(e: Escrow, ctx: Context, newCliffTs: i64)
    requires AfterEditCliff(e, ctx, newCliffTs).Ok?
    ensures var Effect(e', event) := AfterEditCliff(e, ctx, newCliffTs).value;
            && e'.ledger == e.ledger && e'.stream.cliffTs == newCliffTs
            && e'.stream == e.stream.(cliffTs := e'.stream.cliffTs)
            && event == CliffEdited(e.stream.cliffTs, newCliffTs)
  {
  }

  /** `ms` and `ms'` differ at most at `index`. */
  predicate DifferOnlyAt(ms: seq<Milestone>, ms': seq<Milestone>, index: nat) {
    |ms| == |ms'| && forall i :: 0 <= i < |ms| && i != index ==> ms'[i] == ms[i]
  }

  /**
   A committed unlock marks its milestone now and keeps its amount, adds that amount to the unlocked part, advances the
   cursor by one, and completes the stream exactly at the last milestone; no token moves.
   */
  lemma UnlockEffect(e: Escrow, ctx: Context, index: nat)
    requires AfterUnlock(e, ctx, index).Ok?
    ensures var Effect(Escrow(s', l'), event) := AfterUnlock(e, ctx, index).value;
            var s := e.stream;
            && l' == e.ledger && index == s.nextMilestone < |s.milestones|
            && DifferOnlyAt(s.milestones, s'.milestones, index)
            && s'.milestones[index] == Milestone(s.milestones[index].amount, true, true, ctx.now)
            && s'.unlockedAmount == s.unlockedAmount + s.milestones[index].amount
            && s'.nextMilestone == s.nextMilestone + 1
            && s'.status == (if s'.nextMilestone == |s.milestones| then Completed else s.status)
            && s' == s.(milestones := s'.milestones, unlockedAmount := s'.unlockedAmount,
                        nextMilestone := s'.nextMilestone, status := s'.status)
            && event == MilestoneUnlocked(index, s.milestones[index].amount, ctx.now)
  {
  }

  /**
   A committed milestone edit gives one milestone its new amount and shifts total and vault by the difference; a raise
   is a deposit, a cut goes back to the creator.
   */
  lemma MilestoneEditEffect(e: Escrow, ctx: Context, index: nat, newAmount: u64, wallet: u64)
    requires AfterEditMilestone(e, ctx, index, newAmount, wallet).Ok?
    ensures index < |e.stream.milestones| && index <= 255
    ensures var Effect(Escrow(s', l'), event) := AfterEditMilestone(e, ctx, index, newAmount, wallet).value;
            var s, l, d := e.stream, e.ledger, newAmount - e.stream.milestones[index].amount;
            && DifferOnlyAt(s.milestones, s'.milestones, index)
            && s'.milestones[index] == s.milestones[index].(amount := newAmount)
            && s'.totalAmount == s.totalAmount + d && l'.vault == l.vault + d
            && s' == s.(milestones := s'.milestones, totalAmount := s'.totalAmount)
            && l'.deposited == l.deposited + (if d > 0 then d else 0)
            && l'.refundedByEdits == l.refundedByEdits + (if d < 0 then -d else 0)
            && l' == l.(vault := l'.vault, deposited := l'.deposited, refundedByEdits := l'.refundedByEdits)
            && event == MilestoneEdited(index, s.milestones[index].amount, newAmount)
  {
  }

  // Runs, summed over what the instructions asked for.

  /** What a committed step adds to the escrow from the creator's wallet. */
  function BroughtIn(e: Escrow, step: Step): nat {
    if Perform(e, step).Err? then 0
    else
      match step.instr
      case EditLinear(_, topup, _) => topup
      case EditMilestone(index, newAmount, _) => Excess(newAmount, AmountAt(e, index))
      case _ => 0
  }

  /** What a committed milestone edit returns to it. */
  function GivenBack(e: Escrow, step: Step): nat {
    if Perform(e, step).Err? then 0
    else
      match step.instr
      case EditMilestone(index, newAmount, _) => Excess(AmountAt(e, index), newAmount)
      case _ => 0
  }

  function Excess(a: nat, b: nat): nat {
    if a > b then a - b else 0
  }

  function AmountAt(e: Escrow, index: nat): u64 {
    if index < |e.stream.milestones| then e.stream.milestones[index].amount else 0
  }

  function TotalIn(e: Escrow, steps: seq<Step>): nat
    decreases |steps|
  {
    if steps == [] then 0 else BroughtIn(e, steps[0]) + TotalIn(Advance(e, steps[0]), steps[1..])
  }

  function TotalBack(e: Escrow, steps: seq<Step>): nat
    decreases |steps|
  {
    if steps == [] then 0 else GivenBack(e, steps[0]) + TotalBack(Advance(e, steps[0]), steps[1..])
  }

  /** The latest of `end` and the dates that committed linear edits asked for. */
  function LatestEnd(e: Escrow, steps: seq<Step>, end: i64): i64
    decreases |steps|
  {
    if steps == [] then end
    else
      var i := steps[0].instr;
      LatestEnd(Advance(e, steps[0]), steps[1..],
                if i.EditLinear? && i.newEndTs > end && Perform(e, steps[0]).Ok? then i.newEndTs else end)
  }

  /** The figures that edits move. */
  predicate Shifted(e: Escrow, e': Escrow, added: nat, returned: nat) {
    && e'.stream.totalAmount == e.stream.totalAmount + added - returned
    && e'.ledger.deposited == e.ledger.deposited + added
    && e'.ledger.refundedByEdits == e.ledger.refundedByEdits + returned
  }

  lemma PayoutShiftsNothing(e: Escrow, step: Step)
    requires (step.instr.Withdraw? || step.instr.Cancel?) && Perform(e, step).Ok?
    ensures Shifted(e, Advance(e, step), 0, 0) && Advance(e, step).stream.endTs == e.stream.endTs
  {
    match step.instr
    case Withdraw(feed, lamports) =>
      WithdrawalIsClaim(e, step.ctx, feed, lamports);
      ClaimOutcome(e, VestedAmount(e.stream, step.ctx.now).value, FeeFrom(feed, step.ctx.now), lamports);
    case Cancel =>
      CancellationIsSettlement(e, step.ctx);
      SettlementOutcome(e, VestedAmount(e.stream, step.ctx.now).value);
  }

  lemma {:induction false} StepShifts(e: Escrow, step: Step)
    ensures Shifted(e, Advance(e, step), BroughtIn(e, step), GivenBack(e, step))
    ensures Advance(e, step).stream.endTs == LatestEnd(e, [step], e.stream.endTs)
  {
    assert [step][1..] == [];
    if Perform(e, step).Ok? {
      match step.instr
      case Withdraw(_, _) => PayoutShiftsNothing(e, step);
      case Cancel => PayoutShiftsNothing(e, step);
      case UnlockMilestone(index) => UnlockEffect(e, step.ctx, index);
      case EditMilestone(index, newAmount, wallet) => MilestoneEditEffect(e, step.ctx, index, newAmount, wallet);
      case EditCliff(newCliffTs) => CliffEditEffect(e, step.ctx, newCliffTs);
      case EditLinear(newEndTs, topup, wallet) => LinearEditEffect(e, step.ctx, newEndTs, topup, wallet);
    }
  }

  /**
   Over any run the total and the deposits grow by exactly what committed edits asked the creator for, less or beside
   what they returned, and the end is the latest date that was asked for.
   */
  lemma {:induction false} RunAddsUp(e: Escrow, steps: seq<Step>)
    ensures Shifted(e, Run(e, steps), TotalIn(e, steps), TotalBack(e, steps))
    ensures Run(e, steps).stream.endTs == LatestEnd(e, steps, e.stream.endTs)
    decreases |steps|
  {
    if steps != [] {
      StepShifts(e, steps[0]);
      assert [steps[0]][1..] == [];
      RunAddsUp(Advance(e, steps[0]), steps[1..]);
    }
  }
}
