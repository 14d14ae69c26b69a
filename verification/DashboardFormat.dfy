/** The dashboard's form of token amounts: the SDK's digits with thousands separators. */
module DashboardFormat {
  import opened Text
  import opened TokenFormat

  predicate IsWord(c: char) {
    IsDigit(c) || 'a' <= c <= 'z' || 'A' <= c <= 'Z' || c == '_'
  }

  /** How many digits follow one another from position `p` on. */
  function DigitRun(value: string, p: nat): (n: nat)
    requires p <= |value|
    ensures p + n <= |value|
    decreases |value| - p
  {
    if p < |value| && IsDigit(value[p]) then 1 + DigitRun(value, p + 1) else 0
  }

  /** The pattern of the separator expression: inside a word, before a run of three, six, nine... digits. */
  predicate SeparatorAt(value: string, p: nat)
    requires p <= |value|
  {
    0 < p < |value| && IsWord(value[p - 1]) && DigitRun(value, p) > 0 && DigitRun(value, p) % 3 == 0
  }

  function SeparatedFrom(value: string, p: nat): string
    requires p <= |value|
    decreases |value| - p
  {
    if p == |value| then ""
    else (if SeparatorAt(value, p) then "," else "") + [value[p]] + SeparatedFrom(value, p + 1)
  }

  function AddThousandsSeparators(value: string): string {
    SeparatedFrom(value, 0)
  }

  function Sign(amount: int): string {
    if amount < 0 then "-" else ""
  }

  function Magnitude(amount: int): nat {
    if amount < 0 then -amount else amount
  }

  /** The dashboard's `formatTokenAmount` for an integer amount. */
  function FormatForDashboard(amount: int, decimals: nat): string {
    var unsigned := Decimal(Magnitude(amount));
    if decimals == 0 then AddThousandsSeparators(Sign(amount) + unsigned)
    else
      Sign(amount) + AddThousandsSeparators(Whole(unsigned, decimals)) + PointAndFraction(Fraction(unsigned, decimals))
  }

  function WithoutCommas(s: string): string {
    if s == "" then ""
    else (if s[0] == ',' then "" else [s[0]]) + WithoutCommas(s[1..])
  }

  lemma {:induction false} WithoutCommasConcat(a: string, b: string)
    ensures WithoutCommas(a + b) == WithoutCommas(a) + WithoutCommas(b)
  {
    if a == "" {
      assert a + b == b;
    } else {
      assert (a + b)[1..] == a[1..] + b;
      WithoutCommasConcat(a[1..], b);
    }
  }

  lemma {:induction false} CommaFreeStays(s: string)
    requires Free(s, ',')
    ensures WithoutCommas(s) == s
  {
    if s != "" {
      CommaFreeStays(s[1..]);
    }
  }

  lemma {:induction false} CommaComesOff(comma: string, c: char, rest: string)
    requires (comma == "" || comma == ",") && c != ','
    ensures WithoutCommas(comma + [c] + rest) == [c] + WithoutCommas(rest)
  {
    var tail := [c] + rest;
    assert tail[1..] == rest && comma + [c] + rest == comma + tail;
    if comma == "," {
      assert (comma + tail)[1..] == tail;
    } else {
      assert comma + tail == tail;
    }
  }

  /** Removing the separators gives the text back, whatever text it was. */
  lemma {:induction false} SeparatorsComeOff(value: string, p: nat)
    requires p <= |value| && Free(value, ',')
    ensures WithoutCommas(SeparatedFrom(value, p)) == value[p..]
    decreases |value| - p
  {
    if p < |value| {
      SeparatorsComeOff(value, p + 1);
      CommaComesOff(if SeparatorAt(value, p) then "," else "", value[p], SeparatedFrom(value, p + 1));
    }
  }

  /** Digits in groups of three from the right. */
  function Grouped(s: string): string {
    if |s| <= 3 then s else Grouped(s[..|s| - 3]) + "," + s[|s| - 3..]
  }

  lemma {:induction false} RunReachesEnd(s: string, p: nat)
    requires Digits(s) && p <= |s|
    ensures DigitRun(s, p) == |s| - p
    decreases |s| - p
  {
    if p < |s| {
      RunReachesEnd(s, p + 1);
    }
  }

  /** The separators of a string of digits fall where the number of digits still to come is a multiple of three. */
  lemma SeparatorEveryThree(s: string, p: nat)
    requires Digits(s) && p <= |s|
    ensures SeparatorAt(s, p) <==> 0 < p < |s| && (|s| - p) % 3 == 0
  {
    RunReachesEnd(s, p);
  }

  lemma {:induction false} LastThree(head: string, tail: string)
    requires Digits(head + tail) && head != "" && |tail| == 3
    ensures SeparatedFrom(head + tail, |head|) == "," + tail
  {
    var s, p := head + tail, |head|;
    SeparatorEveryThree(s, p);
    SeparatorEveryThree(s, p + 1);
    SeparatorEveryThree(s, p + 2);
    assert SeparatedFrom(s, p + 3) == "";
    assert SeparatedFrom(s, p + 2) == [tail[2]];
    assert SeparatedFrom(s, p + 1) == [tail[1], tail[2]];
  }

  lemma SameSeparator(head: string, tail: string, p: nat)
    requires Digits(head) && Digits(head + tail) && p < |head| && |tail| == 3
    ensures SeparatorAt(head + tail, p) <==> SeparatorAt(head, p)
  {
    SeparatorEveryThree(head + tail, p);
    SeparatorEveryThree(head, p);
  }

  lemma Reassociate(a: string, b: string, c: string)
    ensures a + (b + c) == a + b + c
  {
  }

  lemma {:induction false} OneMoreSeparated(value: string, p: nat, comma: string, c: char, rest: string)
    requires p < |value| && value[p] == c && rest == SeparatedFrom(value, p + 1)
    requires comma == if SeparatorAt(value, p) then "," else ""
    ensures SeparatedFrom(value, p) == comma + [c] + rest
  {
  }

  /** Three digits at the end bring their separator with them and disturb no other. */
  lemma {:induction false} CutThree(head: string, tail: string, p: nat)
    requires Digits(head) && Digits(head + tail) && head != "" && |tail| == 3 && p <= |head|
    ensures SeparatedFrom(head + tail, p) == SeparatedFrom(head, p) + ("," + tail)
    decreases |head| - p
  {
    if p == |head| {
      LastThree(head, tail);
      assert SeparatedFrom(head, p) == "";
    } else {
      SameSeparator(head, tail, p);
      CutThree(head, tail, p + 1);
      var comma, rest := if SeparatorAt(head, p) then "," else "", SeparatedFrom(head, p + 1);
      OneMoreSeparated(head, p, comma, head[p], rest);
      assert (head + tail)[p] == head[p];
      OneMoreSeparated(head + tail, p, comma, head[p], rest + ("," + tail));
      Reassociate(comma + [head[p]], rest, "," + tail);
    }
  }

  lemma {:induction false} ShortStaysWhole(s: string, p: nat)
    requires Digits(s) && |s| <= 3 && p <= |s|
    ensures SeparatedFrom(s, p) == s[p..]
    decreases |s| - p
  {
    SeparatorEveryThree(s, p);
    if p < |s| {
      ShortStaysWhole(s, p + 1);
    }
  }

  /** On digits the separator expression groups by three from the right. */
  lemma {:induction false} SeparatorsGroupByThree(s: string)
    requires Digits(s)
    ensures AddThousandsSeparators(s) == Grouped(s)
    decreases |s|
  {
    if |s| <= 3 {
      ShortStaysWhole(s, 0);
    } else {
      var head, tail := s[..|s| - 3], s[|s| - 3..];
      assert s == head + tail;
      CutThree(head, tail, 0);
      SeparatorsGroupByThree(head);
      assert Grouped(s) == Grouped(head) + ("," + tail);
    }
  }

  lemma {:induction false} MinusIsNoDigit(s: string, p: nat)
    requires Digits(s) && p <= |s|
    ensures SeparatedFrom("-" + s, p + 1) == SeparatedFrom(s, p)
    decreases |s| - p
  {
    RunReachesEnd(s, p);
    MinusRun(s, p);
    if p < |s| {
      MinusIsNoDigit(s, p + 1);
    }
  }

  lemma {:induction false} MinusRun(s: string, p: nat)
    requires Digits(s) && p <= |s|
    ensures DigitRun("-" + s, p + 1) == DigitRun(s, p)
    decreases |s| - p
  {
    if p < |s| {
      MinusRun(s, p + 1);
    }
  }

  /** A dashboard amount is a sign, the whole digits in groups of three, and the fraction. */
  lemma {:induction false} DashboardGroups(amount: int, decimals: nat)
    ensures var unsigned := Decimal(Magnitude(amount));
            FormatForDashboard(amount, decimals)
            == if decimals == 0 then Sign(amount) + Grouped(unsigned)
               else Sign(amount) + Grouped(Whole(unsigned, decimals)) + PointAndFraction(Fraction(unsigned, decimals))
  {
    WholeAndFractionSpellAmount(Magnitude(amount), decimals);
    if decimals == 0 {
      SignedGroups(Sign(amount), Decimal(Magnitude(amount)));
    } else {
      SeparatorsGroupByThree(Whole(Decimal(Magnitude(amount)), decimals));
    }
  }

  lemma {:induction false} SignedGroups(sign: string, digits: string)
    requires (sign == "" || sign == "-") && Digits(digits)
    ensures AddThousandsSeparators(sign + digits) == sign + Grouped(digits)
  {
    SeparatorsGroupByThree(digits);
    if sign == "-" {
      MinusIsNoDigit(digits, 0);
    } else {
      assert sign + digits == digits;
    }
  }

  lemma {:induction false} CommasComeOffWhole(sign: string, whole: string, tail: string)
    requires Free(sign, ',') && Free(whole, ',') && Free(tail, ',')
    ensures WithoutCommas(sign + AddThousandsSeparators(whole) + tail) == sign + whole + tail
  {
    CommaFreeStays(sign);
    CommaFreeStays(tail);
    SeparatorsComeOff(whole, 0);
    WithoutCommasConcat(sign + AddThousandsSeparators(whole), tail);
    WithoutCommasConcat(sign, AddThousandsSeparators(whole));
  }

  lemma {:induction false} DecimalFormWithoutCommas(sign: string, w: string, f: string)
    requires Free(sign, ',') && Digits(w) && Digits(f)
    ensures WithoutCommas(sign + AddThousandsSeparators(w) + PointAndFraction(f)) == sign + (w + PointAndFraction(f))
  {
    DigitsAreFree(w, ',');
    DigitsAreFree(f, ',');
    CommasComeOffWhole(sign, w, PointAndFraction(f));
    assert sign + w + PointAndFraction(f) == sign + (w + PointAndFraction(f));
  }

  lemma {:induction false} WholeFormWithoutCommas(sign: string, w: string)
    requires Free(sign, ',') && Digits(w)
    ensures WithoutCommas(AddThousandsSeparators(sign + w)) == sign + w
  {
    DigitsAreFree(w, ',');
    SeparatorsComeOff(sign + w, 0);
  }

  /** Without its commas the dashboard shows exactly what the SDK prints, after the sign. */
  lemma {:induction false} DashboardAgreesWithSdk(amount: int, decimals: nat)
    ensures WithoutCommas(FormatForDashboard(amount, decimals))
            == Sign(amount) + FormatTokenAmount(Magnitude(amount), decimals)
  {
    var unsigned := Decimal(Magnitude(amount));
    if decimals == 0 {
      WholeFormWithoutCommas(Sign(amount), unsigned);
    } else {
      WholeAndFractionSpellAmount(Magnitude(amount), decimals);
      DecimalFormWithoutCommas(Sign(amount), Whole(unsigned, decimals), Fraction(unsigned, decimals));
    }
  }
}
