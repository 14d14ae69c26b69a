/** CSV rows and reference streams brought to one record shape, in base units. */
module CsvRecords {
  import opened Numbers
  import opened Results
  import opened Text

  const MILESTONE_TYPE: int := 2

  /** A parsed CSV row; amounts are as written by a human. */
  datatype CsvRow = CsvRow(
    id: Option<string>,
    recipient: Option<string>,
    creator: Option<string>,
    amount: Option<real>,
    mint: Option<string>,
    vestingType: Option<int>,
    duration: Option<int>,
    cliffDuration: Option<int>,
    cancelable: Option<bool>,
    milestones: Option<string>)

  /** The normalised form; an absent id is the empty string, and amounts are base units. */
  datatype Rec = Rec(
    id: string,
    recipient: string,
    amount: int,
    mint: string,
    vestingType: int,
    duration: int,
    cliffDuration: int,
    cancelable: bool,
    milestones: string,
    creator: Option<string>)

  /** A reference: an indexed stream, whose amounts are base units already, or a row of an earlier CSV file. */
  datatype Reference =
    | StreamRef(id: string, recipient: string, totalAmount: int, mint: string, vestingType: int,
                startTs: int, cliffTs: int, endTs: int, cancelable: bool, milestones: string, creator: Option<string>)
    | RowRef(row: CsvRow)

  function OrElse<T>(o: Option<T>, default: T): T {
    if o.Some? then o.value else default
  }

  // Numbers in text.

  /** `Number(s)` for plain decimal numerals, with 0 for anything else. */
  function ToNumber(s: string): real {
    if s != "" && s[0] == '-' then 0.0 - UnsignedNumber(s[1..]) else UnsignedNumber(s)
  }

  function UnsignedNumber(s: string): real {
    var parts := Split(s, '.');
    if |parts| == 1 && s != "" && Digits(s) then Numeral(s) as real
    else if |parts| == 2 && |s| > 1 && Digits(parts[0]) && Digits(parts[1]) then
      Numeral(parts[0]) as real + Numeral(parts[1]) as real / Pow10(|parts[1]|) as real
    else 0.0
  }

  /** A numeral with a decimal point is its whole part plus its fraction, under its sign. */
  lemma {:induction false} DecimalPointReads(whole: string, fraction: string)
    requires whole != "" && Digits(whole) && Digits(fraction)
    ensures var x := Numeral(whole) as real + Numeral(fraction) as real / Pow10(|fraction|) as real;
            ToNumber(whole + "." + fraction) == x && ToNumber("-" + whole + "." + fraction) == 0.0 - x
  {
    var text := whole + "." + fraction;
    assert Free(whole, '.') && Free(fraction, '.');
    SplitUntilSeparator(whole, fraction, '.');
    SplitWithoutSeparator(fraction, '.');
    assert Split(text, '.') == [whole, fraction];
    assert ("-" + whole + "." + fraction)[1..] == text;
  }

  function IntTexts(ns: seq<int>): (r: seq<string>)
    ensures |r| == |ns| && forall i :: 0 <= i < |ns| ==> r[i] == IntText(ns[i])
  {
    seq(|ns|, i requires 0 <= i < |ns| => IntText(ns[i]))
  }

  /** Human amount to base units, rounded half up. */
  function ToBaseUnits(human: real, decimals: nat): int {
    (human * Pow10(decimals) as real + 0.5).Floor
  }

  /** Base units are the nearest whole number to the scaled amount, the higher one when two are equally near. */
  lemma {:induction false} AmountsRoundToNearest(human: real, decimals: nat)
    ensures var exact, units := human * Pow10(decimals) as real, ToBaseUnits(human, decimals) as real;
            exact - 0.5 < units <= exact + 0.5
  {
  }

  lemma {:induction false} WholeAmountsScaleExactly(n: int, decimals: nat)
    ensures ToBaseUnits(n as real, decimals) == n * Pow10(decimals)
  {
    var p := Pow10(decimals);
    assert n as real * p as real == (n * p) as real;
  }

  // Splitting an amount over milestones.

  /** JavaScript's `%`: the sign of the result is the sign of the dividend. */
  function JsRemainder(a: int, b: nat): int
    requires b > 0
  {
    if a >= 0 then a % b else -((-a) % b)
  }

  function Shares(total: int, count: nat): (r: seq<int>)
    requires count > 0
    ensures |r| == count
  {
    var base := total / count;
    var remainder := JsRemainder(total, count);
    seq(count, i => base + (if i < remainder then 1 else 0))
  }

  function Total(ns: seq<int>): int {
    if ns == [] then 0 else Total(ns[..|ns| - 1]) + ns[|ns| - 1]
  }

  lemma {:induction false} SharesPrefixTotal(total: int, count: nat, k: nat)
    requires 0 < count && k <= count
    ensures var r := JsRemainder(total, count);
            Total(Shares(total, count)[..k]) == k * (total / count) + (if r < 0 then 0 else if k < r then k else r)
  {
    var shares := Shares(total, count);
    if k > 0 {
      SharesPrefixTotal(total, count, k - 1);
      assert shares[..k][..k - 1] == shares[..k - 1];
      OneMoreTimes(k - 1, total / count);
    }
  }

  lemma OneMoreTimes(k: int, base: int)
    ensures (k + 1) * base == k * base + base
  {
  }

  /** The shares add up exactly for every non-negative total, and for a negative one exactly when it divides evenly. */
  lemma SharesAddUpExactlyWhen(total: int, count: nat)
    requires count > 0
    ensures Total(Shares(total, count)) == total <==> total >= 0 || total % count == 0
  {
    SharesPrefixTotal(total, count, count);
    assert Shares(total, count)[..count] == Shares(total, count);
    assert total == count * (total / count) + total % count;
    if total < 0 && total % count == 0 {
      assert -total == count * (-(total / count));
      NegatedMultiple(-(total / count), count);
    }
  }

  lemma NegatedMultiple(q: nat, count: nat)
    requires count > 0
    ensures (count * q) % count == 0
  {
    FloorUnique(count * q, count, q);
  }

  /** No share exceeds an earlier one, and any two differ by at most one. */
  lemma SharesAreEven(total: int, count: nat, i: nat, j: nat)
    requires i <= j < count
    ensures var s := Shares(total, count); 0 <= s[i] - s[j] <= 1
  {
  }

  // Milestone text.

  function TrimAll(parts: seq<string>): (r: seq<string>)
    ensures |r| == |parts| && forall i :: 0 <= i < |parts| ==> r[i] == Trim(parts[i])
  {
    seq(|parts|, i requires 0 <= i < |parts| => Trim(parts[i]))
  }

  function NonEmpty(parts: seq<string>): seq<string> {
    if parts == [] then []
    else (if parts[0] == "" then [] else [parts[0]]) + NonEmpty(parts[1..])
  }

  function MilestoneParts(milestones: Option<string>): seq<string> {
    var raw := Trim(OrElse(milestones, ""));
    if raw == "" then [] else NonEmpty(TrimAll(Split(raw, ';')))
  }

  function PartsInBaseUnits(parts: seq<string>, decimals: nat): (r: seq<int>)
    ensures |r| == |parts| && forall i :: 0 <= i < |parts| ==> r[i] == ToBaseUnits(ToNumber(parts[i]), decimals)
  {
    seq(|parts|, i requires 0 <= i < |parts| => ToBaseUnits(ToNumber(parts[i]), decimals))
  }

  /**
   The milestone amounts of a milestone row: those written when they add up to the amount, an even split otherwise.
   */
  function MilestoneAmounts(parts: seq<string>, amount: int, decimals: nat): (r: seq<int>)
    requires parts != []
    ensures |r| == |parts|
  {
    var written := PartsInBaseUnits(parts, decimals);
    if Total(written) == amount then written else Shares(amount, |parts|)
  }

  function NormalizedMilestones(row: CsvRow, amount: int, decimals: nat): string {
    var parts := MilestoneParts(row.milestones);
    if OrElse(row.vestingType, 0) == MILESTONE_TYPE && parts != []
    then Join(IntTexts(MilestoneAmounts(parts, amount, decimals)), ';')
    else Trim(OrElse(row.milestones, ""))
  }

  function Normalize(row: CsvRow, decimals: nat): Rec {
    var amount := ToBaseUnits(OrElse(row.amount, 0.0), decimals);
    Rec(Trim(OrElse(row.id, "")),
        Trim(OrElse(row.recipient, "")),
        amount,
        Trim(OrElse(row.mint, "")),
        OrElse(row.vestingType, 0),
        OrElse(row.duration, 0),
        OrElse(row.cliffDuration, 0),
        OrElse(row.cancelable, true),
        NormalizedMilestones(row, amount, decimals),
        row.creator)
  }

  /** What an empty row becomes: no text, zero numbers, and cancelable. */
  lemma BlankRowNormalizes(decimals: nat)
    ensures Normalize(CsvRow(None, None, None, None, None, None, None, None, None, None), decimals)
            == Rec("", "", 0, "", 0, 0, 0, true, "", None)
  {
  }

  lemma IntTextsAreFree(ns: seq<int>)
    ensures AllFree(IntTexts(ns), ';')
  {
  }

  /** The milestone amounts that a normalised row lists, if it is a milestone row with parts. */
  function ListedAmounts(row: CsvRow, decimals: nat): seq<int> {
    var parts := MilestoneParts(row.milestones);
    if OrElse(row.vestingType, 0) == MILESTONE_TYPE && parts != []
    then MilestoneAmounts(parts, Normalize(row, decimals).amount, decimals)
    else []
  }

  /**
   A milestone row lists as many parts as were written, in text that splits back into them. They add up to its amount if
   and only if that is not negative, or divides evenly, or the written parts add up to it already.
   */
  lemma NormalizedMilestonesAddUpExactlyWhen(row: CsvRow, decimals: nat)
    requires ListedAmounts(row, decimals) != []
    ensures var rec, ns := Normalize(row, decimals), ListedAmounts(row, decimals);
            var parts := MilestoneParts(row.milestones);
            && |ns| == |parts| > 0
            && Split(rec.milestones, ';') == IntTexts(ns)
            && (Total(ns) == rec.amount <==>
                  || rec.amount >= 0
                  || rec.amount % |parts| == 0
                  || Total(PartsInBaseUnits(parts, decimals)) == rec.amount)
  {
    var rec, ns := Normalize(row, decimals), ListedAmounts(row, decimals);
    SharesAddUpExactlyWhen(rec.amount, |MilestoneParts(row.milestones)|);
    IntTextsAreFree(ns);
    SplitUndoesJoin(IntTexts(ns), ';');
  }

  function NormalizeReference(ref: Reference, decimals: nat): Rec {
    match ref
    case StreamRef(id, recipient, totalAmount, mint, vestingType, startTs, cliffTs, endTs, cancelable, milestones,
                   creator) =>
      Rec(Trim(id), Trim(recipient), totalAmount, Trim(mint), vestingType, endTs - startTs, cliffTs - startTs,
          cancelable, Trim(milestones), creator)
    case RowRef(row) => Normalize(row, decimals)
  }

  function ReferenceMint(ref: Reference): Option<string> {
    match ref
    case StreamRef(_, _, _, mint, _, _, _, _, _, _, _) => Some(mint)
    case RowRef(row) => row.mint
  }

  /** Token decimals by mint, with a fallback for unknown and absent mints. */
  datatype DecimalsTable = DecimalsTable(byMint: map<string, nat>, fallback: nat) {
    function Resolve(mint: Option<string>): nat {
      var m := Trim(OrElse(mint, ""));
      if m != "" && m in byMint then byMint[m] else fallback
    }
  }

  /** A mint that is listed has its own decimals; an unknown, blank or absent one has the fallback. */
  lemma DecimalsResolve(table: DecimalsTable, mint: Option<string>)
    ensures var known := mint.Some? && Trim(mint.value) != "" && Trim(mint.value) in table.byMint;
            table.Resolve(mint) == if known then table.byMint[Trim(mint.value)] else table.fallback
  {
  }

  // Keys.

  function LowerChar(c: char): char {
    if 'A' <= c <= 'Z' then (c as int - 'A' as int + 'a' as int) as char else c
  }

  function Lower(s: string): (t: string)
    ensures |t| == |s| && forall i :: 0 <= i < |s| ==> t[i] == LowerChar(s[i])
  {
    seq(|s|, i requires 0 <= i < |s| => LowerChar(s[i]))
  }

  function IdentityKey(rec: Rec): string {
    Join([Lower(Trim(rec.recipient)), Trim(rec.mint), IntText(rec.vestingType)], '|')
  }

  function ExactKey(rec: Rec): string {
    Join([Lower(Trim(rec.recipient)), Trim(rec.mint), IntText(rec.vestingType), IntText(rec.amount),
          IntText(rec.duration), IntText(rec.cliffDuration), if rec.cancelable then "1" else "0",
          Trim(rec.milestones)], '|')
  }

  /** A normalised record taken for a row again, as the key computation does. */
  function AsRow(rec: Rec): CsvRow {
    CsvRow(Some(rec.id), Some(rec.recipient), rec.creator, Some(rec.amount as real), Some(rec.mint),
           Some(rec.vestingType), Some(rec.duration), Some(rec.cliffDuration), Some(rec.cancelable),
           Some(rec.milestones))
  }

  function NormalizedAgain(rec: Rec, table: DecimalsTable): Rec {
    Normalize(AsRow(rec), table.Resolve(Some(rec.mint)))
  }

  /** Normalising twice does not disturb the identity key ... */
  lemma IdentityKeySurvivesSecondPass(rec: Rec, table: DecimalsTable)
    ensures IdentityKey(NormalizedAgain(rec, table)) == IdentityKey(rec)
  {
    TrimIsIdempotent(rec.recipient);
    TrimIsIdempotent(rec.mint);
  }

  /** Identity keys tell recipients (up to case), mints and types apart, as long as neither text holds the separator. */
  lemma {:induction false} SameIdentityExactlyWhen(a: Rec, b: Rec)
    requires Free(Trim(a.recipient), '|') && Free(Trim(a.mint), '|')
    requires Free(Trim(b.recipient), '|') && Free(Trim(b.mint), '|')
    ensures IdentityKey(a) == IdentityKey(b) <==>
            && Lower(Trim(a.recipient)) == Lower(Trim(b.recipient)) && Trim(a.mint) == Trim(b.mint)
            && a.vestingType == b.vestingType
  {
    IdentityKeySplits(a);
    IdentityKeySplits(b);
    if IdentityKey(a) == IdentityKey(b) {
      assert IdentityParts(a)[2] == IdentityParts(b)[2];
      IntTextIsInjective(a.vestingType, b.vestingType);
    }
  }

  function IdentityParts(rec: Rec): seq<string> {
    [Lower(Trim(rec.recipient)), Trim(rec.mint), IntText(rec.vestingType)]
  }

  lemma LowerAddsNoBar(s: string)
    requires Free(s, '|')
    ensures Free(Lower(s), '|')
  {
  }

  lemma {:induction false} IdentityKeySplits(rec: Rec)
    requires Free(Trim(rec.recipient), '|') && Free(Trim(rec.mint), '|')
    ensures Split(IdentityKey(rec), '|') == IdentityParts(rec)
  {
    LowerAddsNoBar(Trim(rec.recipient));
    SplitUndoesJoin(IdentityParts(rec), '|');
  }

  lemma ScalingMovesAllButZero(a: int, p: nat)
    requires p >= 10
    ensures a * p == a <==> a == 0
  {
    if a > 0 {
      Scale(2, p, a);
    } else if a < 0 {
      Scale(2, p, -a);
      assert a * p == -(-a * p);
    }
  }

  lemma {:induction false} AmountNormalizedAgain(rec: Rec, decimals: nat)
    ensures Normalize(AsRow(rec), decimals).amount == rec.amount * Pow10(decimals)
  {
    WholeAmountsScaleExactly(rec.amount, decimals);
  }

  lemma {:induction false} PowerMovesAllButZero(a: int, decimals: nat)
    ensures a * Pow10(decimals) == a <==> a == 0 || decimals == 0
  {
    if decimals > 0 {
      Pow10Monotone(1, decimals);
      ScalingMovesAllButZero(a, Pow10(decimals));
    }
  }

  /** ... but it scales the amount a second time, and with it every milestone written in base units. */
  lemma SecondPassScalesAgain(rec: Rec, table: DecimalsTable)
    ensures NormalizedAgain(rec, table).amount == rec.amount * Pow10(table.Resolve(Some(rec.mint)))
    ensures NormalizedAgain(rec, table).amount == rec.amount
            <==> rec.amount == 0 || table.Resolve(Some(rec.mint)) == 0
  {
    var d := table.Resolve(Some(rec.mint));
    AmountNormalizedAgain(rec, d);
    PowerMovesAllButZero(rec.amount, d);
  }
}
