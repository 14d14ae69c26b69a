/** Milestone lists as text: what is written in base units reads back, and a split that does not add up. */
module CsvMilestones {
  import opened Numbers
  import opened Results
  import opened Text
  import opened CsvRecords

  // Written lists read back.

  lemma {:induction false} NumberOfIntText(n: int)
    ensures ToNumber(IntText(n)) == n as real
  {
    var digits := Decimal(if n < 0 then -n else n);
    DecimalReadsBack(if n < 0 then -n else n);
    SplitWithoutSeparator(digits, '.');
    assert UnsignedNumber(digits) == Numeral(digits) as real;
    if n < 0 {
      assert IntText(n)[1..] == digits;
    }
  }

  predicate Solid(parts: seq<string>) {
    forall i :: 0 <= i < |parts| ==> parts[i] != "" && Trimmed(parts[i])
  }

  lemma IntTextsAreSolid(ns: seq<int>)
    ensures Solid(IntTexts(ns))
  {
  }

  /** A joined list of solid parts is trimmed, and nothing in it is trimmed or dropped. */
  lemma {:induction false} JoinIsTrimmed(parts: seq<string>)
    requires parts != [] && Solid(parts)
    ensures Join(parts, ';') != "" && Join(parts, ';')[0] == parts[0][0]
    ensures Trimmed(Join(parts, ';'))
  {
    if |parts| > 1 {
      JoinIsTrimmed(parts[1..]);
      var tail, text := Join(parts[1..], ';'), Join(parts, ';');
      assert text == parts[0] + [';'] + tail;
      assert text[|text| - 1] == tail[|tail| - 1];
    }
  }

  lemma {:induction false} SolidPartsStay(parts: seq<string>)
    requires Solid(parts)
    ensures NonEmpty(TrimAll(parts)) == parts
  {
    if parts != [] {
      TrimKeepsTrimmed(parts[0]);
      SolidPartsStay(parts[1..]);
      assert TrimAll(parts)[1..] == TrimAll(parts[1..]);
    }
  }

  lemma WrittenPartsReadBack(ns: seq<int>)
    requires ns != []
    ensures MilestoneParts(Some(Join(IntTexts(ns), ';'))) == IntTexts(ns)
  {
    IntTextsAreFree(ns);
    IntTextsAreSolid(ns);
    JoinIsTrimmed(IntTexts(ns));
    TrimKeepsTrimmed(Join(IntTexts(ns), ';'));
    SplitUndoesJoin(IntTexts(ns), ';');
    SolidPartsStay(IntTexts(ns));
  }

  /** The CSV row that writes an indexed stream down, with a human amount and milestone text. */
  function RowOf(ref: Reference, amount: real, milestones: string): CsvRow
    requires ref.StreamRef?
  {
    CsvRow(Some(ref.id), Some(ref.recipient), ref.creator, Some(amount), Some(ref.mint), Some(ref.vestingType),
           Some(ref.endTs - ref.startTs), Some(ref.cliffTs - ref.startTs), Some(ref.cancelable), Some(milestones))
  }

  /** `text` lists the stream's milestones as a human would; `ns` are their amounts in base units. */
  predicate WritesMilestones(ref: Reference, text: string, decimals: nat, ns: seq<int>)
    requires ref.StreamRef?
  {
    if ref.vestingType != MILESTONE_TYPE then text == ref.milestones
    else
      && ns != [] && Total(ns) == ref.totalAmount && ref.milestones == Join(IntTexts(ns), ';')
      && PartsInBaseUnits(MilestoneParts(Some(text)), decimals) == ns
  }

  /** A stream written down as a row and normalised is the stream normalised as a reference, field for field. */
  lemma WrittenStreamNormalizesBack(ref: Reference, amount: real, text: string, decimals: nat, ns: seq<int>)
    requires ref.StreamRef? && ToBaseUnits(amount, decimals) == ref.totalAmount
    requires WritesMilestones(ref, text, decimals, ns)
    ensures Normalize(RowOf(ref, amount, text), decimals) == NormalizeReference(ref, decimals)
  {
    if ref.vestingType == MILESTONE_TYPE {
      IntTextsAreSolid(ns);
      JoinIsTrimmed(IntTexts(ns));
      TrimKeepsTrimmed(ref.milestones);
    }
  }

  function Scaled(ns: seq<int>, p: nat): (r: seq<int>)
    ensures |r| == |ns| && forall i :: 0 <= i < |ns| ==> r[i] == ns[i] * p
  {
    seq(|ns|, i requires 0 <= i < |ns| => ns[i] * p)
  }

  lemma {:induction false} ScaledTotal(ns: seq<int>, p: nat)
    ensures Total(Scaled(ns, p)) == Total(ns) * p
  {
    if ns != [] {
      var n := |ns| - 1;
      ScaledTotal(ns[..n], p);
      assert Scaled(ns, p)[..n] == Scaled(ns[..n], p);
      assert (Total(ns[..n]) + ns[n]) * p == Total(ns[..n]) * p + ns[n] * p;
    }
  }

  lemma {:induction false} WrittenPartsScale(ns: seq<int>, decimals: nat)
    ensures PartsInBaseUnits(IntTexts(ns), decimals) == Scaled(ns, Pow10(decimals))
  {
    forall i | 0 <= i < |ns|
      ensures PartsInBaseUnits(IntTexts(ns), decimals)[i] == Scaled(ns, Pow10(decimals))[i]
    {
      NumberOfIntText(ns[i]);
      WholeAmountsScaleExactly(ns[i], decimals);
    }
  }

  lemma {:induction false} SameListExactlyWhen(ns: seq<int>, ms: seq<int>)
    requires ns != [] && ms != []
    ensures Join(IntTexts(ns), ';') == Join(IntTexts(ms), ';') <==> ns == ms
  {
    if Join(IntTexts(ns), ';') == Join(IntTexts(ms), ';') {
      IntTextsAreFree(ns);
      IntTextsAreFree(ms);
      SplitUndoesJoin(IntTexts(ns), ';');
      SplitUndoesJoin(IntTexts(ms), ';');
      forall i | 0 <= i < |ns|
        ensures ns[i] == ms[i]
      {
        assert IntTexts(ns)[i] == IntTexts(ms)[i];
        IntTextIsInjective(ns[i], ms[i]);
      }
    }
  }

  // A split that does not add up.

  /** A milestone row of minus one token in three parts of one token each. */
  function NegativeRow(recipient: string, mint: string): CsvRow {
    CsvRow(None, Some(recipient), None, Some(-1.0), Some(mint), Some(MILESTONE_TYPE), None, None, None,
           Some(Join(IntTexts([1, 1, 1]), ';')))
  }

  lemma {:induction false} MillionScales()
    ensures Pow10(6) == 1_000_000 && ToBaseUnits(-1.0, 6) == -1_000_000
  {
    assert Pow10(3) == 1000;
    Pow10Adds(3, 3);
    WholeAmountsScaleExactly(-1, 6);
  }

  lemma {:induction false} ThreeSharesOfMinusAMillion()
    ensures Total(Shares(-1_000_000, 3)) == -1_000_002
  {
    SharesPrefixTotal(-1_000_000, 3, 3);
    assert Shares(-1_000_000, 3)[..3] == Shares(-1_000_000, 3);
  }

  /** The row's text is "1;1;1"; at six decimals its milestones add up to two base units less than its amount. */
  lemma {:induction false} NegativeSplitFallsShort(recipient: string, mint: string)
    ensures var row := NegativeRow(recipient, mint);
            && row.milestones == Some("1;1;1")
            && Normalize(row, 6).amount == -1_000_000
            && ListedAmounts(row, 6) != [] && Total(ListedAmounts(row, 6)) == -1_000_002
  {
    var row := NegativeRow(recipient, mint);
    MillionScales();
    ThreeOnes();
    WrittenPartsReadBack([1, 1, 1]);
    WrittenPartsScale([1, 1, 1], 6);
    ScaledTotal([1, 1, 1], Pow10(6));
    assert Total([1, 1, 1]) == 3;
    ThreeSharesOfMinusAMillion();
    assert ListedAmounts(row, 6) == MilestoneAmounts(IntTexts([1, 1, 1]), -1_000_000, 6);
  }

  lemma {:induction false} ThreeOnes()
    ensures Join(IntTexts([1, 1, 1]), ';') == "1;1;1"
    ensures Total([1, 1, 1]) == 3
  {
    var texts := ["1", "1", "1"];
    assert IntTexts([1, 1, 1]) == texts;
    assert texts[1..] == ["1", "1"] && ["1", "1"][1..] == ["1"];
    assert Join(["1", "1"], ';') == "1;1";
    assert [1, 1, 1][..2] == [1, 1] && [1, 1][..1] == [1] && [1][..0] == [];
  }
}
