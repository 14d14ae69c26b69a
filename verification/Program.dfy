/**
 The instructions of the streaming program as functions from the accounts before to the accounts after.
 An instruction that fails returns its error and no accounts: a transaction that fails changes nothing.
 */
module Program {
  import opened Numbers
  import opened Results
  import opened Accounts
  import opened Vesting
  import opened Oracle

  /** The vault of one stream, and the running totals of everything that ever moved through it. */
  datatype Ledger = Ledger(
    vault: u64,
    deposited: nat,
    paidToRecipient: nat,
    refundedByEdits: nat,
    refundedByCancel: nat)

  datatype Escrow = Escrow(stream: Stream, ledger: Ledger)

  /** What a committed instruction leaves behind. */
  datatype Effect = Effect(escrow: Escrow, event: Event)

  /** A token account: whose it is and of which mint. */
  datatype TokenAccount = TokenAccount(owner: Key, mint: Key)

  /**
   The clock, the pause switch, and what a transaction brings along: its signer, the mint, and the token accounts it
   names for the creator and the recipient.
   */
  datatype Context = Context(
    now: i64,
    paused: bool,
    signer: Key,
    mint: Key,
    creatorWallet: TokenAccount,
    recipientWallet: TokenAccount)

  /** A price feed account: whether its address and owner are the expected ones, and its bytes. */
  datatype Feed = Feed(trusted: bool, data: seq<u8>)

  /** `wallet` is the balance of the creator's token account, `lamports` that of the recipient. */
  datatype Instruction =
    | Withdraw(feed: Feed, lamports: u64)
    | Cancel
    | UnlockMilestone(index: nat)
    | EditMilestone(index: nat, newAmount: u64, wallet: u64)
    | EditCliff(newCliffTs: i64)
    | EditLinear(newEndTs: i64, topupAmount: u64, wallet: u64)

  // Token transfers in and out of the vault.

  function Deposit(l: Ledger, wallet: u64, amount: u64): Result<Ledger, ErrorCode> {
    if wallet < amount || l.vault + amount >= TWO_64 then Err(TokenTransferFailed)
    else Ok(l.(vault := l.vault + amount, deposited := l.deposited + amount))
  }

  function PayRecipient(l: Ledger, amount: u64): Result<Ledger, ErrorCode> {
    if l.vault < amount then Err(TokenTransferFailed)
    else Ok(l.(vault := l.vault - amount, paidToRecipient := l.paidToRecipient + amount))
  }

  function RefundEdit(l: Ledger, amount: u64): Result<Ledger, ErrorCode> {
    if l.vault < amount then Err(TokenTransferFailed)
    else Ok(l.(vault := l.vault - amount, refundedByEdits := l.refundedByEdits + amount))
  }

  function RefundCancel(l: Ledger, amount: u64): Result<Ledger, ErrorCode> {
    if l.vault < amount then Err(TokenTransferFailed)
    else Ok(l.(vault := l.vault - amount, refundedByCancel := l.refundedByCancel + amount))
  }

  // create_stream

  datatype CreateRequest = CreateRequest(
    recipient: Key,
    amount: u64,
    startTs: i64,
    cliffTs: i64,
    endTs: i64,
    vestingType: u8,
    milestones: seq<u64>,
    remainingAccounts: nat,     // how many milestone accounts came along
    accountsDerived: bool,      // whether each of them sits at its derived address
    allowedMints: seq<Key>,
    mintDecimals: u8,
    wallet: u64,
    received: u64)              // what the vault holds after the transfer

  const VESTING_TYPE_LINEAR: u8 := 0
  const VESTING_TYPE_CLIFF: u8 := 1
  const VESTING_TYPE_MILESTONE: u8 := 2

  function Sum(amounts: seq<u64>): nat {
    if amounts == [] then 0 else amounts[0] + Sum(amounts[1..])
  }

  /** The first milestone that stops the accumulating loop of `create_stream`, if any does. */
  function SumChecked(amounts: seq<u64>, sofar: u64): Result<u64, ErrorCode>
    decreases |amounts|
  {
    if amounts == [] then
      Ok(sofar)
    else
      :- Require(amounts[0] > 0, InvalidAmount);
      var next :- CheckedU64(sofar + amounts[0]);
      SumChecked(amounts[1..], next)
  }

  function ValidateMilestoneCount(count: nat): Result<u8, ErrorCode> {
    if count > 255 then Err(InvalidMilestoneCount) else Ok(count)
  }

  /** The type, milestone and time checks of `create_stream`; the milestone count when they pass. */
  function CheckSchedule(req: CreateRequest, now: i64): Result<u8, ErrorCode> {
    var milestoneBased := req.vestingType == VESTING_TYPE_MILESTONE;
    :- Require(req.vestingType <= VESTING_TYPE_MILESTONE, InvalidVestingType);
    var count :- ValidateMilestoneCount(|req.milestones|);
    if milestoneBased then
      :- Require(count > 0, InvalidMilestoneCount);
      :- Require(req.remainingAccounts == count, InvalidMilestoneCount);
      var total :- SumChecked(req.milestones, 0);
      :- Require(total == req.amount, InvalidMilestoneAmount);
      Ok(count)
    else
      :- Require(count == 0, InvalidMilestoneCount);
      :- Require(req.startTs >= now, InvalidStartDate);
      :- Require(req.endTs > now, InvalidEndDate);
      :- Require(req.cliffTs >= req.startTs, InvalidSchedule);
      :- Require(req.cliffTs <= req.endTs, InvalidSchedule);
      :- Require(req.endTs > req.startTs, InvalidSchedule);
      var duration :- CheckedI64(req.endTs - req.startTs);
      :- Require(duration >= MIN_STREAM_DURATION, DurationTooShort);
      Ok(count)
  }

  function KindOf(vestingType: u8): VestingType {
    if vestingType == VESTING_TYPE_LINEAR then Linear
    else if vestingType == VESTING_TYPE_CLIFF then Cliff
    else MilestoneBased
  }

  function Locked(amounts: seq<u64>): (ms: seq<Milestone>)
    ensures Amounts(ms) == amounts && forall m :: m in ms ==> !m.approved && !m.unlocked
  {
    seq(|amounts|, i requires 0 <= i < |amounts| => Milestone(amounts[i], false, false, 0))
  }

  function AfterCreate(ctx: Context, req: CreateRequest): Result<Effect, ErrorCode> {
    var kind := KindOf(req.vestingType);
    :- Require(!ctx.paused, ProtocolPaused);
    :- Require(req.amount > 0, InvalidAmount);
    var count :- CheckSchedule(req, ctx.now);
    :- Require(ctx.signer != req.recipient, InvalidRecipient);
    :- Require(req.allowedMints == [] || ctx.mint in req.allowedMints, MintNotAllowed);
    :- Require(ctx.creatorWallet.mint == ctx.mint, InvalidMint);
    :- Require(ctx.creatorWallet.owner == ctx.signer, InvalidTokenOwner);
    :- Require(req.wallet >= req.amount, InsufficientBalance);
    :- Require(req.mintDecimals > 0, InvalidMintDecimals);
    var stream := Stream(ctx.signer, req.recipient, ctx.mint, kind, Active, true, false, req.amount, 0,
                         req.startTs, req.cliffTs, req.endTs, 0, 0, Locked(req.milestones));
    :- Require(kind.MilestoneBased? ==> req.accountsDerived, InvalidMilestonePda);
    var ledger :- Deposit(Ledger(0, 0, 0, 0, 0), req.wallet, req.amount);
    :- Require(req.received == req.amount, TransferFeeMintUnsupported);
    Ok(Effect(Escrow(stream, ledger), StreamCreated(kind, req.amount, req.startTs, req.cliffTs, req.endTs, count)))
  }

  // withdraw

  function FeeFrom(feed: Feed, now: i64): Result<u64, ErrorCode> {
    var round :- ReadChainlinkRound(feed.data, now);
    FeeLamports(round)
  }

  /** The rest of a withdrawal once the vested amount is known; the fee is looked at only when something is due. */
  function Claim(e: Escrow, vested: u64, fee: Result<u64, ErrorCode>, lamports: u64): Result<Effect, ErrorCode> {
    var s := e.stream;
    var claimable :- CheckedU64(vested - s.withdrawn);
    :- Require(claimable > 0, NothingToWithdraw);
    var charged :- fee;
    :- Require(charged > 0, InvalidOraclePrice);
    var withdrawn :- CheckedU64(s.withdrawn + claimable);
    var status := if withdrawn == s.totalAmount then Completed else s.status;
    :- Require(lamports >= charged, LamportTransferFailed);
    var ledger :- PayRecipient(e.ledger, claimable);
    Ok(Effect(Escrow(s.(withdrawn := withdrawn, status := status), ledger),
              TokensClaimed(claimable, charged, withdrawn)))
  }

  function AfterWithdraw(e: Escrow, ctx: Context, feed: Feed, lamports: u64): Result<Effect, ErrorCode> {
    var s := e.stream;
    :- Require(s.mint == ctx.mint, InvalidMint);
    :- Require(s.recipient == ctx.signer, Unauthorized);
    :- Require(s.status.Active? || s.status.Completed?, StreamNotActive);
    :- Require(ctx.recipientWallet.owner == ctx.signer, InvalidTokenOwner);
    :- Require(ctx.recipientWallet.mint == ctx.mint, InvalidMint);
    :- Require(feed.trusted, InvalidOracleFeed);
    :- Require(!ctx.paused, ProtocolPaused);
    var vested :- VestedAmount(s, ctx.now);
    Claim(e, vested, FeeFrom(feed, ctx.now), lamports)
  }

  // cancel

  /** The rest of a cancellation once the vested amount is known. */
  function Settlement(e: Escrow, vested: u64): Result<Effect, ErrorCode> {
    var s := e.stream;
    :- Require(vested < s.totalAmount, FullyVested);
    var claimable :- CheckedU64(vested - s.withdrawn);
    var remaining :- CheckedU64(s.totalAmount - vested);
    var paid :- if claimable > 0 then PayRecipient(e.ledger, claimable) else Ok(e.ledger);
    var settled :- if remaining > 0 then RefundCancel(paid, remaining) else Ok(paid);
    Ok(Effect(Escrow(s.(cancelled := true, status := Cancelled), settled),
              StreamCancelled(vested, remaining, claimable)))
  }

  function AfterCancel(e: Escrow, ctx: Context): Result<Effect, ErrorCode> {
    var s := e.stream;
    :- Require(s.mint == ctx.mint, InvalidMint);
    :- Require(s.cancelable, StreamNotCancelable);
    :- Require(ctx.creatorWallet.owner == ctx.signer, InvalidTokenOwner);
    :- Require(ctx.creatorWallet.mint == ctx.mint, InvalidMint);
    :- Require(ctx.recipientWallet.owner == s.recipient, InvalidRecipient);
    :- Require(ctx.recipientWallet.mint == ctx.mint, InvalidMint);
    :- Require(!ctx.paused, ProtocolPaused);
    :- Require(s.creator == ctx.signer, Unauthorized);
    :- Require(!s.cancelled, AlreadyCancelled);
    var vested :- VestedAmount(s, ctx.now);
    Settlement(e, vested)
  }

  // unlock_milestone

  function AfterUnlock(e: Escrow, ctx: Context, index: nat): Result<Effect, ErrorCode> {
    var s := e.stream;
    :- Require(s.creator == ctx.signer, Unauthorized);
    :- Require(s.kind.MilestoneBased?, InvalidVestingType);
    :- Require(index == s.nextMilestone, ConstraintSeeds);
    :- Require(index < |s.milestones|, AccountNotInitialized);
    :- Require(!ctx.paused, ProtocolPaused);
    :- Require(s.status.Active?, StreamNotActive);
    var m := s.milestones[index];
    :- Require(!m.approved, MilestoneAlreadyUnlocked);
    var unlocked :- CheckedU64(s.unlockedAmount + m.amount);
    :- Require(index + 1 <= 255, MathOverflow);
    var status := if index + 1 == |s.milestones| then Completed else s.status;
    var ms := s.milestones[index := m.(approved := true, unlocked := true, unlockTs := ctx.now)];
    Ok(Effect(Escrow(s.(milestones := ms, unlockedAmount := unlocked, nextMilestone := index + 1, status := status),
                     e.ledger),
              MilestoneUnlocked(index, m.amount, ctx.now)))
  }

  // edit_milestone

  function AfterEditMilestone(e: Escrow, ctx: Context, index: nat, newAmount: u64, wallet: u64)
    : Result<Effect, ErrorCode>
  {
    var s := e.stream;
    :- Require(s.creator == ctx.signer, Unauthorized);
    :- Require(s.mint == ctx.mint, InvalidMint);
    :- Require(index < |s.milestones| && index <= 255, AccountNotInitialized);
    :- Require(ctx.creatorWallet.owner == ctx.signer, InvalidTokenOwner);
    :- Require(ctx.creatorWallet.mint == ctx.mint, InvalidMint);
    :- Require(!ctx.paused, ProtocolPaused);
    :- Require(s.kind.MilestoneBased?, InvalidVestingType);
    :- Require(s.status.Active?, StreamNotActive);
    var m := s.milestones[index];
    :- Require(!m.unlocked, MilestoneAlreadyUnlocked);
    :- Require(newAmount > 0, InvalidAmount);
    var ms := s.milestones[index := m.(amount := newAmount)];
    var event := MilestoneEdited(index, m.amount, newAmount);
    if newAmount > m.amount then
      var total :- CheckedU64(s.totalAmount + (newAmount - m.amount));
      var ledger :- Deposit(e.ledger, wallet, newAmount - m.amount);
      Ok(Effect(Escrow(s.(milestones := ms, totalAmount := total), ledger), event))
    else if newAmount < m.amount then
      var total :- CheckedU64(s.totalAmount - (m.amount - newAmount));
      :- Require(total >= s.withdrawn, InvalidAmount);
      var ledger :- RefundEdit(e.ledger, m.amount - newAmount);
      Ok(Effect(Escrow(s.(milestones := ms, totalAmount := total), ledger), event))
    else
      Ok(Effect(Escrow(s.(milestones := ms), e.ledger), event))
  }

  // edit_cliff

  function AfterEditCliff(e: Escrow, ctx: Context, newCliffTs: i64): Result<Effect, ErrorCode> {
    var s := e.stream;
    :- Require(s.creator == ctx.signer, Unauthorized);
    :- Require(!ctx.paused, ProtocolPaused);
    :- Require(s.kind.Cliff?, InvalidVestingType);
    :- Require(s.status.Active?, StreamNotActive);
    :- Require(ctx.now < s.endTs, StreamExpired);
    :- Require(s.withdrawn == 0, StreamAlreadyStarted);
    :- Require(newCliffTs >= s.startTs, InvalidCliff);
    :- Require(newCliffTs <= s.endTs, InvalidCliff);
    :- Require(newCliffTs >= ctx.now, InvalidStartDate);
    Ok(Effect(Escrow(s.(cliffTs := newCliffTs), e.ledger), CliffEdited(s.cliffTs, newCliffTs)))
  }

  // edit_linear

  function AfterEditLinear(e: Escrow, ctx: Context, newEndTs: i64, topupAmount: u64, wallet: u64)
    : Result<Effect, ErrorCode>
  {
    var s := e.stream;
    :- Require(s.creator == ctx.signer, Unauthorized);
    :- Require(s.mint == ctx.mint, InvalidMint);
    :- Require(ctx.creatorWallet.owner == ctx.signer, InvalidTokenOwner);
    :- Require(ctx.creatorWallet.mint == ctx.mint, InvalidMint);
    :- Require(!ctx.paused, ProtocolPaused);
    :- Require(s.kind.Linear? || s.kind.Cliff?, InvalidVestingType);
    :- Require(s.status.Active?, StreamNotActive);
    :- Require(ctx.now < s.endTs, StreamExpired);
    :- Require(newEndTs > s.endTs || topupAmount > 0, InvalidAmount);
    :- Require(newEndTs > s.endTs ==> newEndTs > ctx.now, InvalidEndDate);
    var end := if newEndTs > s.endTs then newEndTs else s.endTs;
    if topupAmount > 0 then
      :- Require(wallet >= topupAmount, InsufficientBalance);
      var total :- CheckedU64(s.totalAmount + topupAmount);
      var ledger :- Deposit(e.ledger, wallet, topupAmount);
      Ok(Effect(Escrow(s.(endTs := end, totalAmount := total), ledger),
                LinearEdited(s.endTs, end, s.totalAmount, total)))
    else
      Ok(Effect(Escrow(s.(endTs := end), e.ledger), LinearEdited(s.endTs, end, s.totalAmount, s.totalAmount)))
  }

  // What the two payouts come to, whatever the schedule and the feed say.

  lemma ClaimOutcome(e: Escrow, vested: u64, fee: Result<u64, ErrorCode>, lamports: u64)
    ensures Claim(e, vested, fee, lamports).Ok? <==>
            && e.stream.withdrawn < vested && fee.Ok? && 0 < fee.value <= lamports
            && vested - e.stream.withdrawn <= e.ledger.vault
    ensures Claim(e, vested, fee, lamports).Ok? ==>
              var s, l, due := e.stream, e.ledger, vested - e.stream.withdrawn;
              Claim(e, vested, fee, lamports).value ==
              Effect(Escrow(s.(withdrawn := vested, status := if vested == s.totalAmount then Completed else s.status),
                            l.(vault := l.vault - due, paidToRecipient := l.paidToRecipient + due)),
                     TokensClaimed(due, fee.value, vested))
  {
  }

  lemma SettlementOutcome(e: Escrow, vested: u64)
    ensures Settlement(e, vested).Ok? <==>
            && e.stream.withdrawn <= vested < e.stream.totalAmount
            && e.stream.totalAmount - e.stream.withdrawn <= e.ledger.vault
    ensures Settlement(e, vested).Ok? ==>
              var s, l := e.stream, e.ledger;
              var due, rest := vested - s.withdrawn, s.totalAmount - vested;
              Settlement(e, vested).value ==
              Effect(Escrow(s.(cancelled := true, status := Cancelled),
                            l.(vault := l.vault - due - rest, paidToRecipient := l.paidToRecipient + due,
                               refundedByCancel := l.refundedByCancel + rest)),
                     StreamCancelled(vested, rest, due))
  {
  }

  lemma WithdrawalIsClaim(e: Escrow, ctx: Context, feed: Feed, lamports: u64)
    ensures AfterWithdraw(e, ctx, feed, lamports).Ok? ==>
              && VestedAmount(e.stream, ctx.now).Ok?
              && AfterWithdraw(e, ctx, feed, lamports)
                 == Claim(e, VestedAmount(e.stream, ctx.now).value, FeeFrom(feed, ctx.now), lamports)
  {
  }

  lemma CancellationIsSettlement(e: Escrow, ctx: Context)
    ensures AfterCancel(e, ctx).Ok? ==>
              && VestedAmount(e.stream, ctx.now).Ok?
              && AfterCancel(e, ctx) == Settlement(e, VestedAmount(e.stream, ctx.now).value)
  {
  }

  // Steps and runs.

  datatype Step = Step(ctx: Context, instr: Instruction)

  function Perform(e: Escrow, step: Step): Result<Effect, ErrorCode> {
    match step.instr
    case Withdraw(feed, lamports) => AfterWithdraw(e, step.ctx, feed, lamports)
    case Cancel => AfterCancel(e, step.ctx)
    case UnlockMilestone(index) => AfterUnlock(e, step.ctx, index)
    case EditMilestone(index, newAmount, wallet) => AfterEditMilestone(e, step.ctx, index, newAmount, wallet)
    case EditCliff(newCliffTs) => AfterEditCliff(e, step.ctx, newCliffTs)
    case EditLinear(newEndTs, topupAmount, wallet) => AfterEditLinear(e, step.ctx, newEndTs, topupAmount, wallet)
  }

  /** The accounts after a transaction that tries `step`, committed or not. */
  function Advance(e: Escrow, step: Step): Escrow {
    var r := Perform(e, step);
    if r.Ok? then r.value.escrow else e
  }

  function Run(e: Escrow, steps: seq<Step>): Escrow
    decreases |steps|
  {
    if steps == [] then e else Run(Advance(e, steps[0]), steps[1..])
  }

  /** The steps happen at or after `clock`, in time order. */
  predicate Ordered(clock: i64, steps: seq<Step>)
    decreases |steps|
  {
    steps == [] || (clock <= steps[0].ctx.now && Ordered(steps[0].ctx.now, steps[1..]))
  }

  function LastTime(clock: i64, steps: seq<Step>): i64 {
    if steps == [] then clock else steps[|steps| - 1].ctx.now
  }

  lemma {:induction false} RunAppends(e: Escrow, steps: seq<Step>, more: seq<Step>)
    ensures Run(e, steps + more) == Run(Run(e, steps), more)
    decreases |steps|
  {
    if steps == [] {
      assert steps + more == more;
    } else {
      assert (steps + more)[1..] == steps[1..] + more;
      RunAppends(Advance(e, steps[0]), steps[1..], more);
    }
  }
}
