/** The price feed reader and the flat dollar fee charged on every withdrawal. */
module Oracle {
  import opened Numbers
  import opened Results
  import opened Accounts

  const FEED_DECIMALS_OFFSET: nat := 138
  const FEED_TIMESTAMP_OFFSET: nat := 208
  const FEED_ANSWER_OFFSET: nat := 216
  const FEED_MIN_LEN: nat := 232
  const FEED_MAX_STALENESS: int := 3_600

  const WITHDRAW_FEE_USD_CENTS: u128 := 99
  const LAMPORTS_PER_SOL: u128 := 1_000_000_000

  const TWO_127: int := 0x8000_0000_0000_0000_0000_0000_0000_0000

  type i128 = x: int | -TWO_127 <= x < TWO_127

  datatype ChainlinkRound = ChainlinkRound(answer: i128, decimals: u8)

  function Pow256(n: nat): (p: nat)
    ensures p >= 1
  {
    if n == 0 then 1 else 256 * Pow256(n - 1)
  }

  /** `from_le_bytes` for an unsigned value: the first byte is the least significant. */
  function LittleEndian(bytes: seq<u8>): (v: nat)
    ensures v < Pow256(|bytes|)
  {
    if bytes == [] then 0 else bytes[0] + 256 * LittleEndian(bytes[1..])
  }

  function ToLittleEndian(v: nat, width: nat): (bytes: seq<u8>)
    ensures |bytes| == width
  {
    if width == 0 then [] else [v % 256] + ToLittleEndian(v / 256, width - 1)
  }

  /** Writing a value that fits and reading it back gives the value. */
  lemma {:induction false} LittleEndianRoundTrip(v: nat, width: nat)
    requires v < Pow256(width)
    ensures LittleEndian(ToLittleEndian(v, width)) == v
  {
    if width > 0 {
      LittleEndianRoundTrip(v / 256, width - 1);
    }
  }

  function FromTwosComplement(v: u128): i128 {
    if v < TWO_127 then v else v - TWO_128
  }

  function ToTwosComplement(x: i128): u128 {
    if x >= 0 then x else x + TWO_128
  }

  function SaturatingSubI64(a: i64, b: i64): i64 {
    var d := a - b;
    if d < -TWO_63 then -TWO_63 else if d >= TWO_63 then TWO_63 - 1 else d
  }

  lemma Pow256Values()
    ensures Pow256(4) == 0x1_0000_0000
    ensures Pow256(16) == TWO_128
  {
    assert Pow256(4) == 256 * 256 * 256 * 256;
    assert Pow256(8) == 256 * 256 * 256 * 256 * Pow256(4);
    assert Pow256(12) == 256 * 256 * 256 * 256 * Pow256(8);
    assert Pow256(16) == 256 * 256 * 256 * 256 * Pow256(12);
  }

  function ReadChainlinkRound(data: seq<u8>, now: i64): (r: Result<ChainlinkRound, ErrorCode>)
    ensures r.Ok? ==> r.value.answer > 0
  {
    Pow256Values();
    :- Require(|data| >= FEED_MIN_LEN, InvalidOracleFeed);
    var decimals := data[FEED_DECIMALS_OFFSET];
    var updatedAt: i64 := LittleEndian(data[FEED_TIMESTAMP_OFFSET..FEED_TIMESTAMP_OFFSET + 4]);
    :- Require(SaturatingSubI64(now, updatedAt) < FEED_MAX_STALENESS, StaleOraclePrice);
    var answer := FromTwosComplement(LittleEndian(data[FEED_ANSWER_OFFSET..FEED_ANSWER_OFFSET + 16]));
    :- Require(answer > 0, InvalidOraclePrice);
    Ok(ChainlinkRound(answer, decimals))
  }

  /** `data` holds a round in the feed's layout. */
  predicate HoldsRound(data: seq<u8>, decimals: u8, updatedAt: nat, answer: i128) {
    && |data| >= 232
    && data[138] == decimals
    && data[208..212] == ToLittleEndian(updatedAt, 4)
    && data[216..232] == ToLittleEndian(ToTwosComplement(answer), 16)
  }

  /** A round laid out by the feed is read back whole, and refused exactly when an hour old or not positive. */
  lemma ReadsWhatTheFeedHolds(data: seq<u8>, now: i64, decimals: u8, updatedAt: nat, answer: i128)
    requires updatedAt < 0x1_0000_0000 && HoldsRound(data, decimals, updatedAt, answer)
    ensures ReadChainlinkRound(data, now) ==
            if now - updatedAt >= 3600 then Err(StaleOraclePrice)
            else if answer <= 0 then Err(InvalidOraclePrice)
            else Ok(ChainlinkRound(answer, decimals))
  {
    Pow256Values();
    LittleEndianRoundTrip(updatedAt, 4);
    LittleEndianRoundTrip(ToTwosComplement(answer), 16);
  }

  /** A feed too short to hold a round is refused as no feed at all. */
  lemma ShortFeedIsRefused(data: seq<u8>, now: i64)
    ensures ReadChainlinkRound(data, now) == Err(InvalidOracleFeed) <==> |data| < 232
  {
  }

  /** The fee as the program computes it, ending in a truncating cast. */
  function FeeLamports(round: ChainlinkRound): Result<u64, ErrorCode>
    requires round.answer > 0
  {
    var factor :- CheckedU128(Pow10(round.decimals));
    var cents :- CheckedU128(WITHDRAW_FEE_USD_CENTS * LAMPORTS_PER_SOL);
    var numerator :- CheckedU128(cents * factor);
    var denominator :- CheckedU128(100 * round.answer);
    var fee :- CheckedDivU128(numerator, denominator);
    Ok(AsU64(fee))
  }

  /** $0.99 in lamports times 10^decimals; dividing it by the answer gives the fee. */
  function FeeNumerator(decimals: nat): (n: nat)
    ensures n == 990_000_000 * Pow10(decimals)
  {
    990_000_000 * Pow10(decimals)
  }

  lemma Pow10Values()
    ensures Pow10(10) == 10_000_000_000
    ensures Pow10(11) == 100_000_000_000
    ensures Pow10(27) == 1_000_000_000_000_000_000_000_000_000
    ensures Pow10(28) == 10_000_000_000_000_000_000_000_000_000
  {
    assert Pow10(5) == 100_000;
    Pow10Adds(5, 5);
    assert Pow10(11) == 10 * Pow10(10);
    Pow10Adds(10, 10);
    assert Pow10(7) == 100 * Pow10(5);
    Pow10Adds(20, 7);
    assert Pow10(28) == 10 * Pow10(27);
  }

  /** The fee in lamports before the cast: $0.99 at the quoted price, rounded down. */
  function ExactFee(round: ChainlinkRound): nat
    requires round.answer > 0
  {
    FeeNumerator(round.decimals) / round.answer
  }

  lemma {:induction false} DecimalsWithinRange(decimals: nat)
    ensures decimals <= 10 ==> FeeNumerator(decimals) < TWO_64
    ensures decimals <= 27 <==> 100 * FeeNumerator(decimals) < TWO_128
    ensures decimals <= 27 ==> Pow10(decimals) < TWO_128
  {
    Pow10Values();
    if decimals <= 10 {
      Pow10Monotone(decimals, 10);
    }
    if decimals <= 27 {
      Pow10Monotone(decimals, 27);
    } else {
      Pow10Monotone(28, decimals);
    }
  }

  lemma CentsCancel(factor: nat, answer: nat)
    requires answer > 0
    ensures 0 <= 99_000_000_000 * factor / (100 * answer) == 990_000_000 * factor / answer <= 99_000_000_000 * factor
  {
    var n := 990_000_000 * factor;
    FloorCancels(n, answer, 100);
    FloorAtMost(100 * n, 100 * answer);
    assert 100 * n == 99_000_000_000 * factor;
  }

  /**
   The fee is computed, whatever the cast does to it, exactly for at most 27 decimals and an answer below 2^128/100.
   */
  lemma FeeComputedExactlyWhen(round: ChainlinkRound)
    requires round.answer > 0
    ensures FeeLamports(round).Ok? <==> round.decimals <= 27 && 100 * round.answer < TWO_128
    ensures FeeLamports(round).Ok? ==> FeeLamports(round).value == AsU64(ExactFee(round))
  {
    DecimalsWithinRange(round.decimals);
    if round.decimals <= 27 {
      CentsCancel(Pow10(round.decimals), round.answer);
    }
  }

  /** $0.99 at the round's price is below 2^64 lamports. */
  predicate FeeFits(round: ChainlinkRound) {
    990_000_000 * Pow10(round.decimals) < TWO_64 * round.answer
  }

  /** `fee` is $0.99 at the round's price, rounded down to whole lamports. */
  predicate WithinOneLamport(fee: u64, round: ChainlinkRound) {
    fee * round.answer <= 990_000_000 * Pow10(round.decimals) < (fee + 1) * round.answer
  }

  /** The cast drops part of the fee exactly when the price is too small for the feed's decimals. */
  lemma FeeCastLosslessExactlyWhen(round: ChainlinkRound)
    requires round.answer > 0 && FeeLamports(round).Ok?
    ensures FeeLamports(round).value == ExactFee(round) <==> FeeFits(round)
  {
    FeeComputedExactlyWhen(round);
    FloorReaches(FeeNumerator(round.decimals), round.answer, TWO_64);
  }

  /** The fee charged is $0.99 within one lamport exactly when it fits 64 bits, as it does up to ten decimals. */
  lemma FeeIsNinetyNineCentsExactlyWhen(round: ChainlinkRound)
    requires round.answer > 0 && FeeLamports(round).Ok?
    ensures WithinOneLamport(FeeLamports(round).value, round) <==> FeeFits(round)
    ensures round.decimals <= 10 ==> FeeFits(round)
  {
    var n, fee := FeeNumerator(round.decimals), FeeLamports(round).value;
    FeeCastLosslessExactlyWhen(round);
    FloorBounds(n, round.answer);
    if WithinOneLamport(fee, round) {
      FloorUnique(n, round.answer, fee);
    }
    if round.decimals <= 10 {
      DecimalsWithinRange(round.decimals);
      Scale(1, round.answer, TWO_64);
    }
  }

  /** From eleven decimals on, some positive price is charged less than its fee, and less than a higher price is. */
  lemma FeeTruncatesAtElevenDecimals()
    ensures var round, dearer := ChainlinkRound(1, 11), ChainlinkRound(6, 11);
            && FeeLamports(round).Ok? && FeeLamports(dearer).Ok?
            && FeeLamports(round).value < ExactFee(round)
            && FeeLamports(round).value < FeeLamports(dearer).value
  {
    Pow10Values();
    FeeComputedExactlyWhen(ChainlinkRound(1, 11));
    FeeComputedExactlyWhen(ChainlinkRound(6, 11));
  }

  lemma FeeFitsAtHigherPrice(round: ChainlinkRound, answer: i128)
    requires round.answer <= answer && FeeFits(round)
    ensures FeeFits(round.(answer := answer))
  {
    Scale(round.answer, answer, TWO_64);
  }

  /** A higher price never costs more lamports, once the fee fits at the lower one. */
  lemma FeeFallsAsPriceRises(round: ChainlinkRound, answer: i128)
    requires 0 < round.answer <= answer && FeeFits(round)
    requires FeeLamports(round).Ok? && FeeLamports(round.(answer := answer)).Ok?
    ensures FeeLamports(round.(answer := answer)).value <= FeeLamports(round).value
  {
    var dearer := round.(answer := answer);
    FeeFitsAtHigherPrice(round, answer);
    FeeIsNinetyNineCentsExactlyWhen(round);
    FeeIsNinetyNineCentsExactlyWhen(dearer);
    var low, high := FeeLamports(dearer).value, FeeLamports(round).value;
    if high < low {
      Scale(round.answer, answer, low);
      Scale(high + 1, low, round.answer);
    }
  }
}
