/**
 Rows matched by exact key are normalised a second time for it: what that does, and when the match is still a match.
 */
module CsvSecondPass {
  import opened Numbers
  import opened Results
  import opened Text
  import opened CsvRecords
  import opened CsvMilestones
  import opened CsvDiff

  // The milestone text under a second pass.

  /**
   The record's milestones, when it is a milestone record that lists some: base units that add up to its amount, or an
   even split of it.
   */
  ghost predicate Lists(rec: Rec, ns: seq<int>) {
    if ns == [] then rec.vestingType != MILESTONE_TYPE || MilestoneParts(Some(rec.milestones)) == []
    else
      && rec.vestingType == MILESTONE_TYPE && rec.milestones == Join(IntTexts(ns), ';')
      && (Total(ns) == rec.amount || ns == Shares(rec.amount, |ns|))
  }

  /** What the second pass lists: the parts scaled when they add up to the amount, else the scaled amount split anew. */
  function Relisted(ns: seq<int>, amount: int, p: nat): (r: seq<int>)
    requires ns != []
    ensures |r| == |ns|
  {
    if Total(ns) == amount then Scaled(ns, p) else Shares(amount * p, |ns|)
  }

  lemma ScalingKeepsDifference(a: int, b: int, p: nat)
    requires p >= 1
    ensures a * p == b * p <==> a == b
  {
    if a < b {
      Scale(a + 1, b, p);
    } else if b < a {
      Scale(b + 1, a, p);
    }
  }

  lemma {:induction false} MilestonesNormalizedAgain(rec: Rec, decimals: nat, ns: seq<int>)
    requires Lists(rec, ns) && Trimmed(rec.milestones)
    ensures Normalize(AsRow(rec), decimals).milestones
            == if ns == [] then rec.milestones else Join(IntTexts(Relisted(ns, rec.amount, Pow10(decimals))), ';')
  {
    if ns == [] {
      TrimKeepsTrimmed(rec.milestones);
    } else {
      AmountNormalizedAgain(rec, decimals);
      WrittenPartsReadBack(ns);
      WrittenPartsScale(ns, decimals);
      ScaledTotal(ns, Pow10(decimals));
      ScalingKeepsDifference(Total(ns), rec.amount, Pow10(decimals));
    }
  }

  predicate AllZero(ns: seq<int>) {
    forall i :: 0 <= i < |ns| ==> ns[i] == 0
  }

  lemma {:induction false} SameWhenScaled(ns: seq<int>, decimals: nat)
    ensures Scaled(ns, Pow10(decimals)) == ns <==> decimals == 0 || AllZero(ns)
  {
    forall i | 0 <= i < |ns|
      ensures Scaled(ns, Pow10(decimals))[i] == ns[i] <==> ns[i] == 0 || decimals == 0
    {
      PowerMovesAllButZero(ns[i], decimals);
    }
  }

  /** The listed parts come back the same, given that the amount does. */
  lemma {:induction false} SameWhenRelisted(ns: seq<int>, amount: int, decimals: nat)
    requires ns != [] && (Total(ns) == amount || ns == Shares(amount, |ns|))
    ensures amount * Pow10(decimals) == amount && Relisted(ns, amount, Pow10(decimals)) == ns
            <==> decimals == 0 || (amount == 0 && AllZero(ns))
  {
    PowerMovesAllButZero(amount, decimals);
    if Total(ns) == amount {
      SameWhenScaled(ns, decimals);
    } else {
      SharesAddUpExactlyWhen(amount, |ns|);
    }
  }

  /**
   Amount and milestones survive the second pass exactly for mints without decimals and records of nothing but zeros.
   */
  lemma {:induction false} SecondPassIsHarmlessExactlyWhen(rec: Rec, table: DecimalsTable, ns: seq<int>)
    requires Lists(rec, ns) && Trimmed(rec.milestones)
    ensures var again := NormalizedAgain(rec, table);
            again.amount == rec.amount && again.milestones == rec.milestones <==>
            table.Resolve(Some(rec.mint)) == 0 || (rec.amount == 0 && AllZero(ns))
  {
    var d := table.Resolve(Some(rec.mint));
    SecondPassScalesAgain(rec, table);
    MilestonesNormalizedAgain(rec, d, ns);
    if ns != [] {
      SameWhenRelisted(ns, rec.amount, d);
      SameListExactlyWhen(Relisted(ns, rec.amount, Pow10(d)), ns);
    }
  }

  /** Every normalised row is such a record, whatever its amount. */
  lemma NormalizedLists(row: CsvRow, decimals: nat)
    ensures Lists(Normalize(row, decimals), ListedAmounts(row, decimals))
    ensures Trimmed(Normalize(row, decimals).milestones)
  {
    var ns := ListedAmounts(row, decimals);
    if ns != [] {
      IntTextsAreSolid(ns);
      JoinIsTrimmed(IntTexts(ns));
    } else {
      TrimTrims(OrElse(row.milestones, ""));
      TrimIsIdempotent(OrElse(row.milestones, ""));
    }
  }

  lemma ReferenceIsTrimmed(reference: Reference, decimals: nat)
    ensures Trimmed(NormalizeReference(reference, decimals).milestones)
  {
    match reference
    case StreamRef(_, _, _, _, _, _, _, _, _, milestones, _) => TrimTrims(milestones);
    case RowRef(row) => NormalizedLists(row, decimals);
  }

  // Exact matches.

  /** What recipient and mint make of the split key: two parts, unless one of them holds the separator. */
  function KeyLead(rec: Rec): seq<string> {
    Split(Lower(Trim(rec.recipient)), '|') + Split(Trim(rec.mint), '|')
  }

  /** The numbers of the key. */
  function KeyNumbers(rec: Rec): (r: seq<string>)
    ensures |r| == 5
  {
    [IntText(rec.vestingType), IntText(rec.amount), IntText(rec.duration), IntText(rec.cliffDuration),
     if rec.cancelable then "1" else "0"]
  }

  lemma Reattach(parts: seq<string>, t: seq<string>)
    requires parts != []
    ensures [parts[0]] + (parts[1..] + t) == parts + t
  {
  }

  lemma {:induction false} SplitPartsOff(parts: seq<string>, tail: string)
    requires AllFree(parts, '|')
    ensures Split(Join(parts + [tail], '|'), '|') == parts + Split(tail, '|')
  {
    if parts == [] {
      assert parts + [tail] == [tail];
    } else {
      assert Free(parts[0], '|');
      assert (parts + [tail])[1..] == parts[1..] + [tail];
      SplitPartsOff(parts[1..], tail);
      SplitWithoutSeparator(parts[0], '|');
      SplitAtSeparator(parts[0], Join(parts[1..] + [tail], '|'), '|');
      Reattach(parts, Split(tail, '|'));
    }
  }

  lemma {:induction false} JoinLeads(r: string, m: string, rest: seq<string>)
    requires rest != []
    ensures Split(Join([r, m] + rest, '|'), '|') == Split(r, '|') + Split(m, '|') + Split(Join(rest, '|'), '|')
  {
    assert ([r, m] + rest)[1..] == [m] + rest && ([m] + rest)[1..] == rest;
    SplitAtSeparator(m, Join(rest, '|'), '|');
    SplitAtSeparator(r, Join([m] + rest, '|'), '|');
  }

  lemma {:induction false} LeadAndRestSplit(r: string, m: string, numbers: seq<string>, tail: string)
    requires AllFree(numbers, '|')
    ensures Split(Join([r, m] + (numbers + [tail]), '|'), '|')
            == (Split(r, '|') + Split(m, '|')) + (numbers + Split(tail, '|'))
  {
    JoinLeads(r, m, numbers + [tail]);
    SplitPartsOff(numbers, tail);
  }

  lemma KeyNumbersAreFree(rec: Rec)
    ensures AllFree(KeyNumbers(rec), '|')
  {
  }

  lemma {:induction false} KeySplits(rec: Rec)
    ensures Split(ExactKey(rec), '|') == KeyLead(rec) + (KeyNumbers(rec) + Split(Trim(rec.milestones), '|'))
  {
    var r, m, numbers, tail := Lower(Trim(rec.recipient)), Trim(rec.mint), KeyNumbers(rec), Trim(rec.milestones);
    KeyNumbersAreFree(rec);
    KeyIsJoined(rec, r, m, numbers + [tail]);
    LeadAndRestSplit(r, m, numbers, tail);
  }

  lemma {:induction false} KeyIsJoined(rec: Rec, r: string, m: string, rest: seq<string>)
    requires r == Lower(Trim(rec.recipient)) && m == Trim(rec.mint)
    requires rest == KeyNumbers(rec) + [Trim(rec.milestones)]
    ensures ExactKey(rec) == Join([r, m] + rest, '|')
  {
    assert [r, m] + rest == [r, m, IntText(rec.vestingType), IntText(rec.amount), IntText(rec.duration),
                             IntText(rec.cliffDuration), if rec.cancelable then "1" else "0", Trim(rec.milestones)];
  }

  lemma SameHeadSameTail(p: seq<string>, q: seq<string>, s: seq<string>, t: seq<string>)
    requires |p| == |q| && p + s == q + t
    ensures p == q && s == t
  {
    assert p == (p + s)[..|p|] && q == (q + t)[..|q|];
    assert s == (p + s)[|p|..] && t == (q + t)[|q|..];
  }

  /** Equal keys mean equal records in every part of the key, as long as their leads are equally long. */
  lemma SameExactKey(a: Rec, b: Rec)
    requires |KeyLead(a)| == |KeyLead(b)| && ExactKey(a) == ExactKey(b)
    ensures a.amount == b.amount && a.duration == b.duration && a.cliffDuration == b.cliffDuration
    ensures Trim(a.milestones) == Trim(b.milestones)
    ensures KeyLead(a) == KeyLead(b) && a.vestingType == b.vestingType && a.cancelable == b.cancelable
  {
    KeySplits(a);
    KeySplits(b);
    var p, q, s, t := KeyNumbers(a), KeyNumbers(b), Split(Trim(a.milestones), '|'), Split(Trim(b.milestones), '|');
    SameHeadSameTail(KeyLead(a), KeyLead(b), p + s, q + t);
    SameHeadSameTail(p, q, s, t);
    JoinUndoesSplit(Trim(a.milestones), '|');
    JoinUndoesSplit(Trim(b.milestones), '|');
    assert p[0] == q[0] && p[1] == q[1] && p[2] == q[2] && p[3] == q[3] && p[4] == q[4];
    IntTextIsInjective(a.vestingType, b.vestingType);
    IntTextIsInjective(a.amount, b.amount);
    IntTextIsInjective(a.duration, b.duration);
    IntTextIsInjective(a.cliffDuration, b.cliffDuration);
  }

  lemma AgreesExactlyWhenSame(ref: Rec, row: Rec, again: Rec)
    requires |KeyLead(ref)| == |KeyLead(again)| && ExactKey(ref) == ExactKey(again)
    requires Trimmed(ref.milestones) && Trimmed(again.milestones)
    requires again.duration == row.duration && again.cliffDuration == row.cliffDuration
    ensures Agree(ref, row) <==> again.amount == row.amount && again.milestones == row.milestones
  {
    SameExactKey(ref, again);
    TrimKeepsTrimmed(ref.milestones);
    TrimKeepsTrimmed(again.milestones);
    AgreeFieldByField(ref, row);
  }

  lemma AgreeFieldByField(ref: Rec, row: Rec)
    ensures Agree(ref, row) <==>
            && ref.amount == row.amount && ref.duration == row.duration
            && ref.cliffDuration == row.cliffDuration && ref.milestones == row.milestones
  {
    if Agree(ref, row) {
      assert FieldOf(ref, Amount) == FieldOf(row, Amount);
      assert FieldOf(ref, Duration) == FieldOf(row, Duration);
      assert FieldOf(ref, CliffDuration) == FieldOf(row, CliffDuration);
      assert FieldOf(ref, Milestones) == FieldOf(row, Milestones);
    }
  }

  lemma AgainKeepsDurations(row: Rec, table: DecimalsTable)
    ensures var again := NormalizedAgain(row, table);
            again.duration == row.duration && again.cliffDuration == row.cliffDuration
  {
  }

  lemma {:induction false} AgainIsTrimmed(row: Rec, table: DecimalsTable, ns: seq<int>)
    requires Lists(row, ns) && Trimmed(row.milestones)
    ensures Trimmed(NormalizedAgain(row, table).milestones)
  {
    var d := table.Resolve(Some(row.mint));
    MilestonesNormalizedAgain(row, d, ns);
    if ns != [] {
      var relisted := Relisted(ns, row.amount, Pow10(d));
      IntTextsAreSolid(relisted);
      JoinIsTrimmed(IntTexts(relisted));
    }
  }

  lemma AgainKeepsLead(row: Rec, table: DecimalsTable)
    ensures KeyLead(NormalizedAgain(row, table)) == KeyLead(row)
  {
    TrimIsIdempotent(row.recipient);
    TrimIsIdempotent(row.mint);
  }

  /**
   A reference that matches a row of a CSV file by exact key agrees with it if and only if the second pass was harmless.
   Their keys are compared part by part as long as recipient and mint hold equally many separators on both sides.
   */
  lemma {:induction false} ExactMatchAgreesExactlyWhen(
    csv: CsvRow, decimals: nat, reference: Reference, refDecimals: nat, table: DecimalsTable)
    requires |KeyLead(NormalizeReference(reference, refDecimals))| == |KeyLead(Normalize(csv, decimals))|
    requires ExactKey(NormalizeReference(reference, refDecimals))
             == ExactKey(NormalizedAgain(Normalize(csv, decimals), table))
    ensures var ref, row := NormalizeReference(reference, refDecimals), Normalize(csv, decimals);
            Agree(ref, row) <==>
            || table.Resolve(Some(row.mint)) == 0
            || (row.amount == 0 && AllZero(ListedAmounts(csv, decimals)))
  {
    var ref, row := NormalizeReference(reference, refDecimals), Normalize(csv, decimals);
    NormalizedLists(csv, decimals);
    ReferenceIsTrimmed(reference, refDecimals);
    AgainKeepsLead(row, table);
    RecordMatchAgreesExactlyWhen(ref, row, table, ListedAmounts(csv, decimals));
  }

  lemma {:induction false} RecordMatchAgreesExactlyWhen(ref: Rec, row: Rec, table: DecimalsTable, ns: seq<int>)
    requires Lists(row, ns) && Trimmed(row.milestones) && Trimmed(ref.milestones)
    requires |KeyLead(ref)| == |KeyLead(NormalizedAgain(row, table))|
    requires ExactKey(ref) == ExactKey(NormalizedAgain(row, table))
    ensures Agree(ref, row) <==> table.Resolve(Some(row.mint)) == 0 || (row.amount == 0 && AllZero(ns))
  {
    AgainIsTrimmed(row, table, ns);
    AgainKeepsDurations(row, table);
    AgreesExactlyWhenSame(ref, row, NormalizedAgain(row, table));
    SecondPassIsHarmlessExactlyWhen(row, table, ns);
  }

  /** With a separator more in the mint of one, records with different amounts can have one key. */
  lemma {:induction false} SeparatorInMintConfusesKeys(recipient: string, mint: string)
    requires Trimmed(recipient) && Trimmed(mint) && mint != ""
    ensures var a, b := Rec("", recipient, 2, mint + "|0", 1, 3, 1, true, "", None),
                        Rec("", recipient, 1, mint, 0, 2, 3, true, "1|", None);
            ExactKey(a) == ExactKey(b) && a.amount != b.amount
  {
    var a, b := Rec("", recipient, 2, mint + "|0", 1, 3, 1, true, "", None),
                Rec("", recipient, 1, mint, 0, 2, 3, true, "1|", None);
    TrimKeepsTrimmed(recipient);
    TrimKeepsTrimmed(mint);
    TrimKeepsTrimmed(mint + "|0");
    TrimKeepsTrimmed("1|");
    TrimKeepsTrimmed("");
    MovedSeparator(Lower(recipient), mint);
    KeyOf(a, Lower(recipient), mint + "|0", "");
    KeyOf(b, Lower(recipient), mint, "1|");
  }

  lemma KeyOf(rec: Rec, r: string, m: string, t: string)
    requires Lower(Trim(rec.recipient)) == r && Trim(rec.mint) == m && Trim(rec.milestones) == t
    requires rec.cancelable
    ensures ExactKey(rec) == Join([r, m, IntText(rec.vestingType), IntText(rec.amount), IntText(rec.duration),
                                   IntText(rec.cliffDuration), "1", t], '|')
  {
  }

  lemma {:induction false} MovedSeparator(r: string, m: string)
    ensures Join([r, m + "|0", "1", "2", "3", "1", "1", ""], '|') == Join([r, m, "0", "1", "2", "3", "1", "1|"], '|')
  {
    var parts := [r, m, "0", "1", "2", "3", "1", "1", ""];
    JoinMerges(parts, 1, '|');
    JoinMerges(parts, 7, '|');
    assert m + ['|'] + "0" == m + "|0" && "1" + ['|'] + "" == "1|";
    assert parts[..1] + [m + "|0"] + parts[3..] == [r, m + "|0", "1", "2", "3", "1", "1", ""];
    assert parts[..7] + ["1|"] + parts[9..] == [r, m, "0", "1", "2", "3", "1", "1|"];
  }

  // A diff that goes wrong.

  /** A row without id that asks for `n` whole tokens over 100 seconds. */
  function Asking(recipient: string, mint: string, n: int): CsvRow {
    CsvRow(None, Some(recipient), None, Some(n as real), Some(mint), Some(0), Some(100), Some(0), Some(true), None)
  }

  function AskedFor(recipient: string, mint: string, amount: int): Rec {
    Rec("", recipient, amount, mint, 0, 100, 0, true, "", None)
  }

  function Holding(recipient: string, mint: string, amount: int): Reference {
    StreamRef("stream", recipient, amount, mint, 0, 0, 0, 100, true, "", None)
  }

  lemma {:induction false} AskingNormalized(recipient: string, mint: string, n: int, decimals: nat)
    requires Trimmed(recipient) && Trimmed(mint)
    ensures Normalize(Asking(recipient, mint, n), decimals) == AskedFor(recipient, mint, n * Pow10(decimals))
  {
    TrimKeepsTrimmed(recipient);
    TrimKeepsTrimmed(mint);
    TrimKeepsTrimmed("");
    WholeAmountsScaleExactly(n, decimals);
  }

  lemma {:induction false} AskedForAgain(recipient: string, mint: string, amount: int, table: DecimalsTable)
    requires Trimmed(recipient) && Trimmed(mint)
    ensures NormalizedAgain(AskedFor(recipient, mint, amount), table)
            == AskedFor(recipient, mint, amount * Pow10(table.Resolve(Some(mint))))
  {
    TrimKeepsTrimmed(recipient);
    TrimKeepsTrimmed(mint);
    TrimKeepsTrimmed("");
    WholeAmountsScaleExactly(amount, table.Resolve(Some(mint)));
  }

  lemma HoldingNormalized(recipient: string, mint: string, amount: int, decimals: nat)
    requires Trimmed(recipient) && Trimmed(mint)
    ensures NormalizeReference(Holding(recipient, mint, amount), decimals)
            == AskedFor(recipient, mint, amount).(id := "stream")
  {
    TrimKeepsTrimmed(recipient);
    TrimKeepsTrimmed(mint);
    TrimKeepsTrimmed("");
    TrimKeepsTrimmed("stream");
  }

  lemma {:induction false} ExactMatchOfOne(row: Rec, ref: Rec, table: DecimalsTable)
    requires row.id == "" && ExactKey(NormalizedAgain(row, table)) == ExactKey(ref)
    ensures DiffRows([row], [ref], table) == Report(START, ByExactKey(0), row, [ref])
  {
    assert ExactKeys([ref])[0] == ExactKey(NormalizedAgain(row, table));
    assert [row][..0] == [];
  }

  /**
   Whatever the mint and however many tokens a row asks for, the stream it matches by exact key holds 10^decimals times
   as many, and the diff reports that stream as unchanged.
   */
  lemma {:induction false} ExactKeyMatchesScaledAmount(recipient: string, mint: string, n: int, table: DecimalsTable)
    requires Trimmed(recipient) && Trimmed(mint)
    ensures var p := Pow10(table.Resolve(Some(mint)));
            var row, ref := AskedFor(recipient, mint, n * p), AskedFor(recipient, mint, n * p * p).(id := "stream");
            && Normalize(Asking(recipient, mint, n), table.Resolve(Some(mint))) == row
            && NormalizeReference(Holding(recipient, mint, n * p * p), table.Resolve(Some(mint))) == ref
            && DiffRows([row], [ref], table).modified == []
            && DiffRows([row], [ref], table).unmodified == [UnchangedFor(ref, row, 0)]
            && (Agree(ref, row) <==> n * p * p == n * p)
  {
    var d := table.Resolve(Some(mint));
    var p := Pow10(d);
    var row, ref := AskedFor(recipient, mint, n * p), AskedFor(recipient, mint, n * p * p).(id := "stream");
    AskingNormalized(recipient, mint, n, d);
    HoldingNormalized(recipient, mint, n * p * p, d);
    AskedForAgain(recipient, mint, n * p, table);
    assert ExactKey(ref) == ExactKey(ref.(id := ""));
    ExactMatchOfOne(row, ref, table);
    AgreeFieldByField(ref, row);
  }

  const SIX_DECIMALS: DecimalsTable := DecimalsTable(map[], 6)

  lemma {:induction false} SixDecimals(mint: string)
    ensures SIX_DECIMALS.Resolve(Some(mint)) == 6 && Pow10(SIX_DECIMALS.Resolve(Some(mint))) == 1_000_000
  {
    assert Pow10(3) == 1000;
    Pow10Adds(3, 3);
  }

  /** Two tokens of a mint with six decimals: the stream of two million tokens is reported as unchanged. */
  lemma {:induction false} ExactKeyMatchesWrongAmount(recipient: string, mint: string)
    requires Trimmed(recipient) && Trimmed(mint)
    ensures var row, ref :=
              AskedFor(recipient, mint, 2_000_000), AskedFor(recipient, mint, 2_000_000_000_000).(id := "stream");
            && Normalize(Asking(recipient, mint, 2), SIX_DECIMALS.Resolve(Some(mint))) == row
            && DiffRows([row], [ref], SIX_DECIMALS).unmodified == [UnchangedFor(ref, row, 0)]
            && !Agree(ref, row)
  {
    SixDecimals(mint);
    ExactKeyMatchesScaledAmount(recipient, mint, 2, SIX_DECIMALS);
  }
}
