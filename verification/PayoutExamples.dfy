/** Two concrete streams on which when the recipient withdraws decides what becomes of the rest. */
module PayoutExamples {
  import opened Numbers
  import opened Results
  import opened Accounts
  import opened Vesting
  import opened Oracle
  import opened Program
  import opened Invariants
  import opened Payouts

  /** A feed account holding the given round. */
  function FeedHolding(decimals: u8, updatedAt: nat, answer: i128): (feed: Feed)
    ensures feed.trusted && HoldsRound(feed.data, decimals, updatedAt, answer)
  {
    var zeros: seq<u8> := seq(FEED_DECIMALS_OFFSET, _ => 0);
    var gap: seq<u8> := seq(FEED_TIMESTAMP_OFFSET - FEED_DECIMALS_OFFSET - 1, _ => 0);
    var tail: seq<u8> := ToLittleEndian(ToTwosComplement(answer), 16);
    var data := zeros + [decimals] + gap + ToLittleEndian(updatedAt, 4) + [0, 0, 0, 0] + tail;
    assert data[FEED_TIMESTAMP_OFFSET..FEED_TIMESTAMP_OFFSET + 4] == ToLittleEndian(updatedAt, 4);
    assert data[FEED_ANSWER_OFFSET..FEED_ANSWER_OFFSET + 16] == tail;
    Feed(true, data)
  }

  const ALICE: Key := "alice"
  const BOB: Key := "bob"
  const USDC: Key := "usdc"

  function At(now: i64, signer: Key): Context {
    Context(now, false, signer, USDC, TokenAccount(ALICE, USDC), TokenAccount(BOB, USDC))
  }

  lemma HundredDollarFeedIsCharged(now: i64)
    requires 0 <= now < 3600
    ensures FeeCharged(FeedHolding(2, 0, 10_000), now, 1_000_000_000)
  {
    var round := ChainlinkRound(10_000, 2);
    ReadsWhatTheFeedHolds(FeedHolding(2, 0, 10_000).data, now, 2, 0, 10_000);
    FeeComputedExactlyWhen(round);
    FeeIsNinetyNineCentsExactlyWhen(round);
    assert Pow10(2) == 100;
    var fee := FeeLamports(round).value;
    assert fee * 10_000 <= 99_000_000_000 < (fee + 1) * 10_000;
  }

  // 1000 tokens over 100 seconds from time 0, linear or with its cliff at the start.

  function Sample(kind: VestingType): Escrow {
    Escrow(Stream(ALICE, BOB, USDC, kind, Active, true, false, 1000, 0, 0, 0, 100, 0, 0, []),
           Ledger(1000, 1000, 0, 0, 0))
  }

  function SampleRequest(vestingType: u8): CreateRequest {
    CreateRequest(BOB, 1000, 0, 0, 100, vestingType, [], 0, true, [], 6, 1000, 1000)
  }

  /** The sample after its half has been withdrawn at time 50. */
  function HalfPaid(kind: VestingType): Escrow {
    Escrow(Sample(kind).stream.(withdrawn := 500), Ledger(500, 1000, 500, 0, 0))
  }

  function Ending(e: Escrow, endTs: i64): Escrow {
    Escrow(e.stream.(endTs := endTs), e.ledger)
  }

  function WithdrawAtHalf(feed: Feed, lamports: u64): Step {
    Step(At(50, BOB), Withdraw(feed, lamports))
  }

  lemma SampleIsReachable(kind: VestingType)
    requires !kind.MilestoneBased?
    ensures Reachable(Sample(kind), 0) && Valid(Sample(kind), 0)
  {
    var req := SampleRequest(if kind.Linear? then VESTING_TYPE_LINEAR else VESTING_TYPE_CLIFF);
    assert CheckSchedule(req, 0) == Ok(0);
    assert ALICE[0] != BOB[0];
    assert Locked(req.milestones) == [];
    assert AfterCreate(At(0, ALICE), req).Ok?;
    assert CreatedThenRan(At(0, ALICE), req, [], Sample(kind), 0);
    ReachableIsValid(Sample(kind), 0);
  }

  lemma WithdrawingAtHalf(kind: VestingType, feed: Feed, lamports: u64)
    requires !kind.MilestoneBased? && FeeCharged(feed, 50, lamports)
    ensures Advance(Sample(kind), WithdrawAtHalf(feed, lamports)) == HalfPaid(kind)
  {
    SampleIsReachable(kind);
    assert Entitlement(Sample(kind).stream, 50) == 500;
    var step := WithdrawAtHalf(feed, lamports);
    WithdrawSucceedsExactlyWhen(Sample(kind), 0, step.ctx, feed, lamports);
    WithdrawEffect(Sample(kind), 0, step.ctx, feed, lamports);
  }

  lemma HalfPaidIsReachable(kind: VestingType)
    requires !kind.MilestoneBased?
    ensures Reachable(HalfPaid(kind), 50) && Valid(HalfPaid(kind), 50)
  {
    HundredDollarFeedIsCharged(50);
    var step := WithdrawAtHalf(FeedHolding(2, 0, 10_000), 1_000_000_000);
    WithdrawingAtHalf(kind, step.instr.feed, step.instr.lamports);
    SampleIsReachable(kind);
    ReachableStep(Sample(kind), 0, step);
    ReachableIsValid(HalfPaid(kind), 50);
  }

  // A truncated fee.

  lemma TinyPriceFee()
    ensures var fee := FeeLamports(ChainlinkRound(1, 11)); fee.Ok? && 0 < fee.value <= U64_MAX
  {
    Pow10Values();
    FeeComputedExactlyWhen(ChainlinkRound(1, 11));
  }

  /** The smallest price at eleven decimals: its fee does not fit, and what is left of it can still be charged. */
  lemma TinyPriceIsCharged(now: i64)
    requires 0 <= now < 3600
    ensures FeeCharged(FeedHolding(11, 0, 1), now, U64_MAX)
    ensures ReadChainlinkRound(FeedHolding(11, 0, 1).data, now) == Ok(ChainlinkRound(1, 11))
  {
    ReadsWhatTheFeedHolds(FeedHolding(11, 0, 1).data, now, 11, 0, 1);
    TinyPriceFee();
  }

  /** A withdrawal from a reachable stream commits and reports as its fee a part of the $0.99 it should be. */
  lemma TruncatedFeeIsCharged()
    ensures var step := WithdrawAtHalf(FeedHolding(11, 0, 1), U64_MAX);
            && Reachable(Sample(Linear), 0)
            && Perform(Sample(Linear), step).Ok?
            && Perform(Sample(Linear), step).value.event.TokensClaimed?
            && Perform(Sample(Linear), step).value.event.feeLamports < ExactFee(ChainlinkRound(1, 11))
  {
    var feed := FeedHolding(11, 0, 1);
    SampleIsReachable(Linear);
    TinyPriceIsCharged(50);
    assert Entitlement(Sample(Linear).stream, 50) == 500;
    WithdrawSucceedsExactlyWhen(Sample(Linear), 0, At(50, BOB), feed, U64_MAX);
    ClaimReportsItsFee(Sample(Linear), At(50, BOB), feed, U64_MAX);
    FeeTruncatesAtElevenDecimals();
  }

  lemma {:induction false} RunTwo(e: Escrow, a: Step, b: Step)
    ensures Run(e, [a, b]) == Advance(Advance(e, a), b)
  {
    assert [a, b][1..] == [b] && [b][1..] == [];
    assert Run(Advance(e, a), [b]) == Advance(Advance(e, a), b);
  }

  // An extension.

  const EXTEND: Step := Step(At(50, ALICE), EditLinear(1000, 0, 0))
  const CANCEL: Step := Step(At(50, ALICE), Cancel)

  lemma ExtendMovesOnlyTheEnd(e: Escrow)
    requires e == Sample(Linear) || e == HalfPaid(Linear)
    ensures Advance(e, EXTEND) == Ending(e, 1000)
  {
    assert AfterEditLinear(e, EXTEND.ctx, 1000, 0, 0).Ok?;
  }

  /** After an extension a reachable stream can be paid beyond what is vested, and then refuses to be cancelled. */
  lemma ExtensionCanUncover()
    ensures var e := Ending(HalfPaid(Linear), 1000);
            Reachable(e, 50) && !Covered(e, 50) && Advance(e, CANCEL) == e
  {
    var e := Ending(HalfPaid(Linear), 1000);
    HalfPaidIsReachable(Linear);
    ExtendMovesOnlyTheEnd(HalfPaid(Linear));
    ReachableStep(HalfPaid(Linear), 50, EXTEND);
    ReachableIsValid(e, 50);
    assert Entitlement(e.stream, 50) == 50;
    OverdrawnRefusesPayout(e, 50, CANCEL);
  }

  lemma CancelAfterExtension()
    ensures Advance(Ending(Sample(Linear), 1000), CANCEL).stream.cancelled
  {
    var e := Ending(Sample(Linear), 1000);
    SampleIsReachable(Linear);
    ExtendMovesOnlyTheEnd(Sample(Linear));
    StepKeepsValid(Sample(Linear), 0, EXTEND);
    assert Entitlement(e.stream, 50) == 50;
    CancelSucceedsExactlyWhen(e, 50, CANCEL.ctx);
  }

  /** With an extension in the run, an early withdrawal decides whether the same later cancellation passes. */
  lemma ExtensionBreaksIndependence(feed: Feed, lamports: u64)
    requires FeeCharged(feed, 50, lamports)
    ensures !Run(Advance(Sample(Linear), WithdrawAtHalf(feed, lamports)), [EXTEND, CANCEL]).stream.cancelled
    ensures Run(Sample(Linear), [EXTEND, CANCEL]).stream.cancelled
  {
    WithdrawingAtHalf(Linear, feed, lamports);
    ExtendMovesOnlyTheEnd(HalfPaid(Linear));
    ExtendMovesOnlyTheEnd(Sample(Linear));
    RunTwo(HalfPaid(Linear), EXTEND, CANCEL);
    RunTwo(Sample(Linear), EXTEND, CANCEL);
    ExtensionCanUncover();
    CancelAfterExtension();
  }

  // A moved cliff.

  const MOVE_CLIFF: Step := Step(At(50, ALICE), EditCliff(90))
  const CANCEL_LATER: Step := Step(At(60, ALICE), Cancel)

  lemma CancelledWithTheOldCliff()
    ensures var after := Run(HalfPaid(Cliff), [MOVE_CLIFF, CANCEL_LATER]);
            after.stream.cancelled && after.ledger.paidToRecipient == 600
  {
    var e := HalfPaid(Cliff);
    HalfPaidIsReachable(Cliff);
    assert Advance(e, MOVE_CLIFF) == e;
    RunTwo(e, MOVE_CLIFF, CANCEL_LATER);
    assert Entitlement(e.stream, 60) == 600;
    CancelSucceedsExactlyWhen(e, 50, CANCEL_LATER.ctx);
    CancelEffect(e, 50, CANCEL_LATER.ctx);
  }

  lemma CancelledWithTheNewCliff()
    ensures var after := Run(Sample(Cliff), [MOVE_CLIFF, CANCEL_LATER]);
            after.stream.cancelled && after.ledger.paidToRecipient == 0
  {
    var e := Sample(Cliff);
    var moved := Advance(e, MOVE_CLIFF);
    SampleIsReachable(Cliff);
    assert moved == Escrow(e.stream.(cliffTs := 90), e.ledger);
    StepKeepsValid(e, 0, MOVE_CLIFF);
    RunTwo(e, MOVE_CLIFF, CANCEL_LATER);
    assert Entitlement(moved.stream, 60) == 0;
    CancelSucceedsExactlyWhen(moved, 50, CANCEL_LATER.ctx);
    CancelEffect(moved, 50, CANCEL_LATER.ctx);
  }

  /**
   No extension is needed: an early withdrawal fixes the cliff, so the same cliff edit and cancellation leave the
   recipient with 600 tokens in one run and with none in the other.
   */
  lemma CliffEditBreaksIndependence(feed: Feed, lamports: u64)
    requires FeeCharged(feed, 50, lamports)
    ensures Reachable(Sample(Cliff), 0)
    ensures var withdrawn := Run(Advance(Sample(Cliff), WithdrawAtHalf(feed, lamports)), [MOVE_CLIFF, CANCEL_LATER]);
            withdrawn.stream.cancelled && withdrawn.ledger.paidToRecipient == 600
    ensures var untouched := Run(Sample(Cliff), [MOVE_CLIFF, CANCEL_LATER]);
            untouched.stream.cancelled && untouched.ledger.paidToRecipient == 0
  {
    SampleIsReachable(Cliff);
    WithdrawingAtHalf(Cliff, feed, lamports);
    CancelledWithTheOldCliff();
    CancelledWithTheNewCliff();
  }
}
