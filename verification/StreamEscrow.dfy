/**
 The stream account, its milestone accounts and its vault as one object that the instructions update in place.
 Handlers write fields before their last check, as the program does; a refused transaction is then rolled back.
 */
module StreamEscrows {
  import opened Numbers
  import opened Results
  import opened Accounts
  import opened Vesting
  import opened Oracle
  import opened Program

  /**
   The event or error of a transaction, and the accounts after it, are the specified ones; an error changes nothing.
   */
  predicate Settles(before: Escrow, spec: Result<Effect, ErrorCode>, r: Result<Event, ErrorCode>, after: Escrow) {
    match spec
    case Ok(effect) => r == Ok(effect.event) && after == effect.escrow
    case Err(error) => r == Err(error) && after == before
  }

  /** The accumulating loop over the milestone amounts. */
  method SumMilestones(amounts: seq<u64>) returns (r: Result<u64, ErrorCode>)
    ensures r == SumChecked(amounts, 0)
  {
    var total: u64 := 0;
    for i := 0 to |amounts|
      invariant SumChecked(amounts, 0) == SumChecked(amounts[i..], total)
    {
      var amount := amounts[i];
      :- Require(amount > 0, InvalidAmount);
      assert amounts[i..][1..] == amounts[i + 1..];
      total :- CheckedU64(total + amount);
    }
    r := Ok(total);
  }

  method ValidateSchedule(req: CreateRequest, now: i64) returns (r: Result<u8, ErrorCode>)
    ensures r == CheckSchedule(req, now)
  {
    var milestoneBased := req.vestingType == VESTING_TYPE_MILESTONE;
    :- Require(req.vestingType <= VESTING_TYPE_MILESTONE, InvalidVestingType);
    var count :- ValidateMilestoneCount(|req.milestones|);
    if milestoneBased {
      if count == 0 {
        return Err(InvalidMilestoneCount);
      }
      :- Require(req.remainingAccounts == count, InvalidMilestoneCount);
      var total :- SumMilestones(req.milestones);
      :- Require(total == req.amount, InvalidMilestoneAmount);
    } else {
      if count != 0 {
        return Err(InvalidMilestoneCount);
      }
      :- Require(req.startTs >= now, InvalidStartDate);
      :- Require(req.endTs > now, InvalidEndDate);
      :- Require(req.cliffTs >= req.startTs, InvalidSchedule);
      :- Require(req.cliffTs <= req.endTs, InvalidSchedule);
      :- Require(req.endTs > req.startTs, InvalidSchedule);
      var duration :- CheckedI64(req.endTs - req.startTs);
      :- Require(duration >= MIN_STREAM_DURATION, DurationTooShort);
    }
    r := Ok(count);
  }

  /** `create_stream`: a refused creation leaves no account. */
  method CreateStream(ctx: Context, req: CreateRequest) returns (r: Result<Event, ErrorCode>, account: StreamEscrow?)
    ensures AfterCreate(ctx, req).Ok? ==>
              && r == Ok(AfterCreate(ctx, req).value.event)
              && account != null && fresh(account) && fresh(account.milestones)
              && account.Value() == AfterCreate(ctx, req).value.escrow
    ensures AfterCreate(ctx, req).Err? ==> r == Err(AfterCreate(ctx, req).error) && account == null
  {
    account := null;
    :- Require(!ctx.paused, ProtocolPaused);
    :- Require(req.amount > 0, InvalidAmount);
    var count :- ValidateSchedule(req, ctx.now);
    :- Require(ctx.signer != req.recipient, InvalidRecipient);
    :- Require(req.allowedMints == [] || ctx.mint in req.allowedMints, MintNotAllowed);
    :- Require(ctx.creatorWallet.mint == ctx.mint, InvalidMint);
    :- Require(ctx.creatorWallet.owner == ctx.signer, InvalidTokenOwner);
    :- Require(req.wallet >= req.amount, InsufficientBalance);
    :- Require(req.mintDecimals > 0, InvalidMintDecimals);
    var kind := KindOf(req.vestingType);
    :- Require(kind.MilestoneBased? ==> req.accountsDerived, InvalidMilestonePda);
    var created := new StreamEscrow(ctx, req);
    var transferred := created.TransferIn(req.wallet, req.amount);
    :- Require(transferred, TokenTransferFailed);
    :- Require(req.received == req.amount, TransferFeeMintUnsupported);
    account := created;
    r := Ok(StreamCreated(kind, req.amount, req.startTs, req.cliffTs, req.endTs, count));
  }

  class StreamEscrow {
    const creator: Key
    const recipient: Key
    const mint: Key
    const kind: VestingType
    const cancelable: bool
    const startTs: i64
    const milestones: array<Milestone>

    var status: Status
    var cancelled: bool
    var totalAmount: u64
    var withdrawn: u64
    var cliffTs: i64
    var endTs: i64
    var nextMilestone: u8
    var unlockedAmount: u64

    var vault: u64
    var deposited: nat
    var paidToRecipient: nat
    var refundedByEdits: nat
    var refundedByCancel: nat

    function StreamValue(): Stream
      reads this, milestones
    {
      Stream(creator, recipient, mint, kind, status, cancelable, cancelled, totalAmount, withdrawn,
             startTs, cliffTs, endTs, nextMilestone, unlockedAmount, milestones[..])
    }

    function LedgerValue(): Ledger
      reads this
    {
      Ledger(vault, deposited, paidToRecipient, refundedByEdits, refundedByCancel)
    }

    /** The accounts as a value. */
    function Value(): Escrow
      reads this, milestones
    {
      Escrow(StreamValue(), LedgerValue())
    }

    constructor (ctx: Context, req: CreateRequest)
      ensures fresh(milestones)
      ensures StreamValue() == Stream(ctx.signer, req.recipient, ctx.mint, KindOf(req.vestingType), Active, true, false,
                                      req.amount, 0, req.startTs, req.cliffTs, req.endTs, 0, 0, Locked(req.milestones))
      ensures LedgerValue() == Ledger(0, 0, 0, 0, 0)
    {
      creator, recipient, mint := ctx.signer, req.recipient, ctx.mint;
      totalAmount, withdrawn := req.amount, 0;
      startTs, cliffTs, endTs := req.startTs, req.cliffTs, req.endTs;
      kind := KindOf(req.vestingType);
      status, cancelable, cancelled := Active, true, false;
      nextMilestone, unlockedAmount := 0, 0;
      vault, deposited, paidToRecipient, refundedByEdits, refundedByCancel := 0, 0, 0, 0, 0;
      milestones := new Milestone[|req.milestones|](_ => Milestone(0, false, false, 0));
      new;
      for i := 0 to |req.milestones|
        modifies milestones
        invariant milestones[..i] == Locked(req.milestones)[..i]
      {
        milestones[i] := Milestone(req.milestones[i], false, false, 0);
      }
    }

    // Token transfers; a transfer that the token program refuses moves nothing.

    method TransferIn(wallet: u64, amount: u64) returns (ok: bool)
      modifies this`vault, this`deposited
      ensures ok == Deposit(old(LedgerValue()), wallet, amount).Ok?
      ensures LedgerValue() == if ok then Deposit(old(LedgerValue()), wallet, amount).value else old(LedgerValue())
    {
      ok := wallet >= amount && vault + amount < TWO_64;
      if ok {
        vault, deposited := vault + amount, deposited + amount;
      }
    }

    method TransferToRecipient(amount: u64) returns (ok: bool)
      modifies this`vault, this`paidToRecipient
      ensures ok == PayRecipient(old(LedgerValue()), amount).Ok?
      ensures LedgerValue() == if ok then PayRecipient(old(LedgerValue()), amount).value else old(LedgerValue())
    {
      ok := vault >= amount;
      if ok {
        vault, paidToRecipient := vault - amount, paidToRecipient + amount;
      }
    }

    method RefundFromEdit(amount: u64) returns (ok: bool)
      modifies this`vault, this`refundedByEdits
      ensures ok == RefundEdit(old(LedgerValue()), amount).Ok?
      ensures LedgerValue() == if ok then RefundEdit(old(LedgerValue()), amount).value else old(LedgerValue())
    {
      ok := vault >= amount;
      if ok {
        vault, refundedByEdits := vault - amount, refundedByEdits + amount;
      }
    }

    method RefundFromCancel(amount: u64) returns (ok: bool)
      modifies this`vault, this`refundedByCancel
      ensures ok == RefundCancel(old(LedgerValue()), amount).Ok?
      ensures LedgerValue() == if ok then RefundCancel(old(LedgerValue()), amount).value else old(LedgerValue())
    {
      ok := vault >= amount;
      if ok {
        vault, refundedByCancel := vault - amount, refundedByCancel + amount;
      }
    }

    /** The value `e` belongs to this account: the fields that never change agree. */
    predicate OfThisAccount(e: Escrow)
      reads this
    {
      var s := e.stream;
      && (s.creator, s.recipient, s.mint, s.kind, s.cancelable, s.startTs)
         == (creator, recipient, mint, kind, cancelable, startTs)
      && |s.milestones| == milestones.Length
    }

    method RestoreMilestones(saved: seq<Milestone>)
      requires |saved| == milestones.Length
      modifies milestones
      ensures milestones[..] == saved
    {
      for i := 0 to milestones.Length
        modifies milestones
        invariant milestones[..i] == saved[..i]
      {
        milestones[i] := saved[i];
      }
    }

    /** What the runtime does with the writes of a transaction that failed. */
    method Rollback(saved: Escrow)
      requires OfThisAccount(saved)
      modifies this, milestones
      ensures Value() == saved
    {
      RestoreMilestones(saved.stream.milestones);
      var s, l := saved.stream, saved.ledger;
      status, cancelled, totalAmount, withdrawn := s.status, s.cancelled, s.totalAmount, s.withdrawn;
      cliffTs, endTs, nextMilestone, unlockedAmount := s.cliffTs, s.endTs, s.nextMilestone, s.unlockedAmount;
      vault, deposited, paidToRecipient := l.vault, l.deposited, l.paidToRecipient;
      refundedByEdits, refundedByCancel := l.refundedByEdits, l.refundedByCancel;
    }

    method Withdraw(ctx: Context, feed: Feed, lamports: u64) returns (r: Result<Event, ErrorCode>)
      modifies this, milestones
      ensures Settles(old(Value()), AfterWithdraw(old(Value()), ctx, feed, lamports), r, Value())
    {
      if mint != ctx.mint {
        return Err(InvalidMint);
      }
      :- Require(recipient == ctx.signer, Unauthorized);
      :- Require(status.Active? || status.Completed?, StreamNotActive);
      :- Require(ctx.recipientWallet.owner == ctx.signer, InvalidTokenOwner);
      :- Require(ctx.recipientWallet.mint == ctx.mint, InvalidMint);
      :- Require(feed.trusted, InvalidOracleFeed);
      :- Require(!ctx.paused, ProtocolPaused);
      var vested :- VestedAmount(StreamValue(), ctx.now);
      r := ClaimVested(vested, feed, ctx.now, lamports);
    }

    /** `withdraw` from the claimable amount on. */
    method ClaimVested(vested: u64, feed: Feed, now: i64, lamports: u64) returns (r: Result<Event, ErrorCode>)
      modifies this, milestones
      ensures Settles(old(Value()), Claim(old(Value()), vested, FeeFrom(feed, now), lamports), r, Value())
    {
      var saved := Value();
      var claimable :- CheckedU64(vested - withdrawn);
      :- Require(claimable > 0, NothingToWithdraw);
      var round :- ReadChainlinkRound(feed.data, now);
      var fee :- FeeLamports(round);
      :- Require(fee > 0, InvalidOraclePrice);
      var settled := PayClaim(claimable, fee, lamports);
      if settled.Err? {
        Rollback(saved);
        return Err(settled.error);
      }
      r := Ok(TokensClaimed(claimable, fee, withdrawn));
    }

    /**
     The part of `withdraw` that writes: the claim is booked before the fee and the tokens move. It may fail half-way.
     */
    method PayClaim(claimable: u64, fee: u64, lamports: u64) returns (r: Result<(), ErrorCode>)
      requires withdrawn + claimable < TWO_64
      modifies this`withdrawn, this`status, this`vault, this`paidToRecipient
      ensures var claimed, l := old(withdrawn) + claimable, old(LedgerValue());
              if lamports < fee then r == Err(LamportTransferFailed)
              else if PayRecipient(l, claimable).Err? then r == Err(TokenTransferFailed)
              else r.Ok? && withdrawn == claimed
                   && status == (if claimed == totalAmount then Completed else old(status))
                   && LedgerValue() == PayRecipient(l, claimable).value
    {
      withdrawn := withdrawn + claimable;
      if withdrawn == totalAmount {
        status := Completed;
      }
      :- Require(lamports >= fee, LamportTransferFailed);
      var paid := TransferToRecipient(claimable);
      :- Require(paid, TokenTransferFailed);
      r := Ok(());
    }

    method Cancel(ctx: Context) returns (r: Result<Event, ErrorCode>)
      modifies this, milestones
      ensures Settles(old(Value()), AfterCancel(old(Value()), ctx), r, Value())
    {
      if mint != ctx.mint {
        return Err(InvalidMint);
      }
      :- Require(cancelable, StreamNotCancelable);
      :- Require(ctx.creatorWallet.owner == ctx.signer, InvalidTokenOwner);
      :- Require(ctx.creatorWallet.mint == ctx.mint, InvalidMint);
      :- Require(ctx.recipientWallet.owner == recipient, InvalidRecipient);
      :- Require(ctx.recipientWallet.mint == ctx.mint, InvalidMint);
      :- Require(!ctx.paused, ProtocolPaused);
      :- Require(creator == ctx.signer, Unauthorized);
      :- Require(!cancelled, AlreadyCancelled);
      var vested :- VestedAmount(StreamValue(), ctx.now);
      r := SettleVested(vested);
    }

    /** `cancel` once the vested amount is known. */
    method SettleVested(vested: u64) returns (r: Result<Event, ErrorCode>)
      modifies this, milestones
      ensures Settles(old(Value()), Settlement(old(Value()), vested), r, Value())
    {
      var saved := Value();
      :- Require(vested < totalAmount, FullyVested);
      var claimable :- CheckedU64(vested - withdrawn);
      var remaining := totalAmount - vested; // not fully vested, so this check cannot fail
      cancelled := true;
      status := Cancelled;
      var settled := SplitVault(claimable, remaining);
      if !settled {
        Rollback(saved);
        return Err(TokenTransferFailed);
      }
      r := Ok(StreamCancelled(vested, remaining, claimable));
    }

    /**
     The two transfers of `cancel`, each skipped when there is nothing to move. The second may fail after the first.
     */
    method SplitVault(claimable: u64, remaining: u64) returns (ok: bool)
      modifies this`vault, this`paidToRecipient, this`refundedByCancel
      ensures ok <==> claimable + remaining <= old(vault)
      ensures ok ==>
                && vault == old(vault) - claimable - remaining
                && paidToRecipient == old(paidToRecipient) + claimable
                && refundedByCancel == old(refundedByCancel) + remaining
    {
      ok := true;
      if claimable > 0 {
        ok := TransferToRecipient(claimable);
      }
      if ok && remaining > 0 {
        ok := RefundFromCancel(remaining);
      }
    }

    method UnlockMilestone(ctx: Context, index: nat) returns (r: Result<Event, ErrorCode>)
      modifies this, milestones
      ensures Settles(old(Value()), AfterUnlock(old(Value()), ctx, index), r, Value())
    {
      var saved := Value();
      :- Require(creator == ctx.signer, Unauthorized);
      :- Require(kind.MilestoneBased?, InvalidVestingType);
      :- Require(index == nextMilestone, ConstraintSeeds);
      :- Require(index < milestones.Length, AccountNotInitialized);
      :- Require(!ctx.paused, ProtocolPaused);
      :- Require(status.Active?, StreamNotActive);
      :- Require(!milestones[index].approved, MilestoneAlreadyUnlocked);
      var amount := milestones[index].amount;
      milestones[index] := milestones[index].(approved := true, unlocked := true, unlockTs := ctx.now);
      if unlockedAmount + amount >= TWO_64 {
        Rollback(saved);
        return Err(MathOverflow);
      }
      unlockedAmount := unlockedAmount + amount;
      if nextMilestone == 255 {
        Rollback(saved);
        return Err(MathOverflow);
      }
      nextMilestone := nextMilestone + 1;
      if nextMilestone == milestones.Length {
        status := Completed;
      }
      r := Ok(MilestoneUnlocked(index, amount, ctx.now));
    }

    method EditMilestone(ctx: Context, index: nat, newAmount: u64, wallet: u64) returns (r: Result<Event, ErrorCode>)
      modifies this, milestones
      ensures Settles(old(Value()), AfterEditMilestone(old(Value()), ctx, index, newAmount, wallet), r, Value())
    {
      var saved := Value();
      :- Require(creator == ctx.signer, Unauthorized);
      :- Require(mint == ctx.mint, InvalidMint);
      :- Require(index < milestones.Length && index <= 255, AccountNotInitialized);
      :- Require(ctx.creatorWallet.owner == ctx.signer, InvalidTokenOwner);
      :- Require(ctx.creatorWallet.mint == ctx.mint, InvalidMint);
      :- Require(!ctx.paused, ProtocolPaused);
      :- Require(kind.MilestoneBased?, InvalidVestingType);
      :- Require(status.Active?, StreamNotActive);
      :- Require(!milestones[index].unlocked, MilestoneAlreadyUnlocked);
      :- Require(newAmount > 0, InvalidAmount);
      var oldAmount := milestones[index].amount;
      milestones[index] := milestones[index].(amount := newAmount);
      var settled := ResizeTotal(oldAmount, newAmount, wallet);
      if settled.Err? {
        Rollback(saved);
        return Err(settled.error);
      }
      r := Ok(MilestoneEdited(index, oldAmount, newAmount));
    }

    /** The part of `edit_milestone` that moves the total and the tokens; it may fail half-way. */
    method ResizeTotal(oldAmount: u64, newAmount: u64, wallet: u64) returns (r: Result<(), ErrorCode>)
      modifies this`totalAmount, this`vault, this`deposited, this`refundedByEdits
      ensures var before, l := old(totalAmount), old(LedgerValue());
              if newAmount > oldAmount then
                var d := newAmount - oldAmount;
                if before + d >= TWO_64 then r == Err(MathOverflow)
                else if Deposit(l, wallet, d).Err? then r == Err(TokenTransferFailed)
                else r.Ok? && totalAmount == before + d && LedgerValue() == Deposit(l, wallet, d).value
              else if newAmount < oldAmount then
                var d := oldAmount - newAmount;
                if before < d then r == Err(MathOverflow)
                else if before - d < withdrawn then r == Err(InvalidAmount)
                else if RefundEdit(l, d).Err? then r == Err(TokenTransferFailed)
                else r.Ok? && totalAmount == before - d && LedgerValue() == RefundEdit(l, d).value
              else r.Ok? && totalAmount == before && LedgerValue() == l
    {
      if newAmount > oldAmount {
        var diff := newAmount - oldAmount;
        totalAmount :- CheckedU64(totalAmount + diff);
        var moved := TransferIn(wallet, diff);
        :- Require(moved, TokenTransferFailed);
      } else if newAmount < oldAmount {
        var diff := oldAmount - newAmount;
        totalAmount :- CheckedU64(totalAmount - diff);
        :- Require(totalAmount >= withdrawn, InvalidAmount);
        var moved := RefundFromEdit(diff);
        :- Require(moved, TokenTransferFailed);
      }
      r := Ok(());
    }

    method EditCliff(ctx: Context, newCliffTs: i64) returns (r: Result<Event, ErrorCode>)
      modifies this, milestones
      ensures Settles(old(Value()), AfterEditCliff(old(Value()), ctx, newCliffTs), r, Value())
    {
      var oldCliffTs := cliffTs;
      :- Require(creator == ctx.signer, Unauthorized);
      :- Require(!ctx.paused, ProtocolPaused);
      :- Require(kind.Cliff?, InvalidVestingType);
      :- Require(status.Active?, StreamNotActive);
      :- Require(ctx.now < endTs, StreamExpired);
      :- Require(withdrawn == 0, StreamAlreadyStarted);
      :- Require(newCliffTs >= startTs, InvalidCliff);
      :- Require(newCliffTs <= endTs, InvalidCliff);
      :- Require(newCliffTs >= ctx.now, InvalidStartDate);
      cliffTs := newCliffTs;
      r := Ok(CliffEdited(oldCliffTs, newCliffTs));
    }

    method EditLinear(ctx: Context, newEndTs: i64, topupAmount: u64, wallet: u64) returns (r: Result<Event, ErrorCode>)
      modifies this, milestones
      ensures Settles(old(Value()), AfterEditLinear(old(Value()), ctx, newEndTs, topupAmount, wallet), r, Value())
    {
      var saved := Value();
      :- Require(creator == ctx.signer, Unauthorized);
      :- Require(mint == ctx.mint, InvalidMint);
      :- Require(ctx.creatorWallet.owner == ctx.signer, InvalidTokenOwner);
      :- Require(ctx.creatorWallet.mint == ctx.mint, InvalidMint);
      :- Require(!ctx.paused, ProtocolPaused);
      :- Require(kind.Linear? || kind.Cliff?, InvalidVestingType);
      :- Require(status.Active?, StreamNotActive);
      :- Require(ctx.now < endTs, StreamExpired);
      :- Require(newEndTs > endTs || topupAmount > 0, InvalidAmount);
      var oldEndTs := endTs;
      if newEndTs > endTs { // past the old end, hence past the present
        endTs := newEndTs;
      }
      var oldTotal := totalAmount;
      if topupAmount > 0 {
        if wallet < topupAmount {
          Rollback(saved);
          return Err(InsufficientBalance);
        }
        if totalAmount + topupAmount >= TWO_64 {
          Rollback(saved);
          return Err(MathOverflow);
        }
        totalAmount := totalAmount + topupAmount;
        var moved := TransferIn(wallet, topupAmount);
        if !moved {
          Rollback(saved);
          return Err(TokenTransferFailed);
        }
      }
      r := Ok(LinearEdited(oldEndTs, endTs, oldTotal, totalAmount));
    }

    /** One transaction with any of the instructions: the account ends where the run semantics says. */
    method Process(step: Step) returns (r: Result<Event, ErrorCode>)
      modifies this, milestones
      ensures Settles(old(Value()), Perform(old(Value()), step), r, Value())
      ensures Value() == Advance(old(Value()), step)
    {
      match step.instr {
        case Withdraw(feed, lamports) => r := Withdraw(step.ctx, feed, lamports);
        case Cancel => r := Cancel(step.ctx);
        case UnlockMilestone(index) => r := UnlockMilestone(step.ctx, index);
        case EditMilestone(index, newAmount, wallet) => r := EditMilestone(step.ctx, index, newAmount, wallet);
        case EditCliff(newCliffTs) => r := EditCliff(step.ctx, newCliffTs);
        case EditLinear(newEndTs, topupAmount, wallet) => r := EditLinear(step.ctx, newEndTs, topupAmount, wallet);
      }
    }
  }
}
