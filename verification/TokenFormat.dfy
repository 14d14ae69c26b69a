/** Printing token amounts: the SDK's exact decimal form and the dashboard's form with thousands separators. */
module TokenFormat {
  import opened Numbers
  import opened Text

  // Strings of digits as numbers.

  function Zeros(n: nat): (z: string)
    ensures |z| == n && Digits(z) && forall i :: 0 <= i < n ==> z[i] == '0'
  {
    seq(n, _ => '0')
  }

  lemma {:induction false} NumeralConcat(a: string, b: string)
    requires Digits(a) && Digits(b)
    ensures Digits(a + b) && Numeral(a + b) == Numeral(a) * Pow10(|b|) + Numeral(b)
    decreases |b|
  {
    if b == "" {
      assert a + b == a;
    } else {
      var init, last := b[..|b| - 1], b[|b| - 1];
      NumeralConcat(a, init);
      assert (a + b)[..|a + b| - 1] == a + init && (a + b)[|a + b| - 1] == last;
      TenTimes(Numeral(a), Pow10(|init|));
    }
  }

  lemma TenTimes(x: int, p: int)
    ensures x * (10 * p) == 10 * (x * p)
  {
  }

  lemma {:induction false} ZerosAreZero(n: nat)
    ensures Numeral(Zeros(n)) == 0
  {
    if n > 0 {
      ZerosAreZero(n - 1);
      assert Zeros(n)[..n - 1] == Zeros(n - 1);
    }
  }

  // The SDK's printer.

  function PadStart(s: string, width: nat): string {
    if |s| >= width then s else Zeros(width - |s|) + s
  }

  function StripZeros(s: string): (t: string)
    ensures t <= s
    ensures t != "" ==> t[|t| - 1] != '0'
    ensures forall i :: |t| <= i < |s| ==> s[i] == '0'
  {
    if s != "" && s[|s| - 1] == '0' then StripZeros(s[..|s| - 1]) else s
  }

  function Whole(raw: string, decimals: nat): string {
    var padded := PadStart(raw, decimals + 1);
    padded[..|padded| - decimals]
  }

  function Fraction(raw: string, decimals: nat): string {
    var padded := PadStart(raw, decimals + 1);
    StripZeros(padded[|padded| - decimals..])
  }

  function PointAndFraction(fraction: string): string {
    if fraction != "" then "." + fraction else ""
  }

  function FormatRaw(raw: string, decimals: nat): string {
    if decimals == 0 then raw else Whole(raw, decimals) + PointAndFraction(Fraction(raw, decimals))
  }

  /** `formatTokenAmountFromBaseUnits`. */
  function FormatTokenAmount(amount: int, decimals: nat): string {
    FormatRaw(IntText(amount), decimals)
  }

  // Reading a printed amount back.

  /** Whole digits, optionally a point and fraction digits. */
  predicate IsDecimalText(text: string) {
    var parts := Split(text, '.');
    |parts| <= 2 && parts[0] != "" && Digits(parts[0]) && (|parts| == 2 ==> parts[1] != "" && Digits(parts[1]))
  }

  function FractionDigits(text: string): nat {
    var parts := Split(text, '.');
    if |parts| == 2 then |parts[1]| else 0
  }

  /** The digits of the text as one number, the point ignored. */
  function Mantissa(text: string): nat
    requires IsDecimalText(text)
  {
    var parts := Split(text, '.');
    if |parts| == 2 then Numeral(parts[0] + parts[1]) else Numeral(parts[0])
  }

  /** No leading zero before another whole digit, and no zero at the end of the fraction. */
  predicate IsShortest(text: string)
    requires IsDecimalText(text)
  {
    var parts := Split(text, '.');
    && (parts[0][0] == '0' ==> parts[0] == "0")
    && (|parts| == 2 ==> parts[1][|parts[1]| - 1] != '0')
  }

  lemma DigitsAreFree(s: string, c: char)
    requires Digits(s) && !IsDigit(c)
    ensures Free(s, c)
  {
  }

  lemma {:induction false} PointSplits(whole: string, fraction: string)
    requires Free(whole, '.') && Free(fraction, '.')
    ensures Split(whole + PointAndFraction(fraction), '.') == if fraction != "" then [whole, fraction] else [whole]
  {
    SplitWithoutSeparator(whole, '.');
    if fraction == "" {
      assert whole + PointAndFraction(fraction) == whole;
    } else {
      SplitWithoutSeparator(fraction, '.');
      SplitUntilSeparator(whole, fraction, '.');
      assert whole + PointAndFraction(fraction) == whole + ['.'] + fraction;
    }
  }

  /** Padding and cutting: the padded numeral is a head and a tail of as many digits as there are decimals. */
  lemma {:induction false} Cuts(raw: string, decimals: nat) returns (head: string, tail: string)
    ensures |tail| == decimals && head != "" && PadStart(raw, decimals + 1) == head + tail
    ensures Whole(raw, decimals) == head && Fraction(raw, decimals) == StripZeros(tail)
  {
    var padded := PadStart(raw, decimals + 1);
    head, tail := padded[..|padded| - decimals], padded[|padded| - decimals..];
    assert padded == head + tail;
  }

  lemma {:induction false} PaddingKeepsNumeral(raw: string, width: nat)
    requires Digits(raw)
    ensures var padded := PadStart(raw, width);
            |padded| >= width && Digits(padded) && Numeral(padded) == Numeral(raw)
  {
    if |raw| < width {
      NumeralConcat(Zeros(width - |raw|), raw);
      ZerosAreZero(width - |raw|);
    }
  }

  lemma {:induction false} StrippingDropsZeros(tail: string)
    requires Digits(tail)
    ensures var f := StripZeros(tail); Digits(f) && tail == f + Zeros(|tail| - |f|)
  {
    var f := StripZeros(tail);
    assert forall i :: 0 <= i < |f| ==> f[i] == tail[i];
  }

  lemma {:induction false} CuttingKeepsNumeral(w: string, tail: string)
    requires Digits(w) && Digits(tail)
    ensures var f := StripZeros(tail);
            Digits(f) && Digits(w + f) && Numeral(w + f) * Pow10(|tail| - |f|) == Numeral(w + tail)
  {
    var f := StripZeros(tail);
    StrippingDropsZeros(tail);
    var z := Zeros(|tail| - |f|);
    NumeralConcat(w, f);
    NumeralConcat(w + f, z);
    ZerosAreZero(|z|);
    assert w + tail == (w + f) + z;
  }

  lemma DigitsOfConcat(a: string, b: string)
    requires Digits(a + b)
    ensures Digits(a) && Digits(b)
  {
    assert forall i :: 0 <= i < |a| ==> a[i] == (a + b)[i];
    assert forall i :: 0 <= i < |b| ==> b[i] == (a + b)[|a| + i];
  }

  lemma {:induction false} RawSpells(raw: string, decimals: nat)
    requires Digits(raw)
    ensures var w, f := Whole(raw, decimals), Fraction(raw, decimals);
            && w != "" && Digits(w) && Digits(f) && |f| <= decimals && Digits(w + f)
            && Numeral(w + f) * Pow10(decimals - |f|) == Numeral(raw)
  {
    PaddingKeepsNumeral(raw, decimals + 1);
    var head, tail := Cuts(raw, decimals);
    DigitsOfConcat(head, tail);
    CuttingKeepsNumeral(head, tail);
  }

  /** Padding and cutting lose nothing: whole and fraction digits, and the zeros stripped, spell the amount. */
  lemma {:induction false} WholeAndFractionSpellAmount(amount: nat, decimals: nat)
    ensures var w, f := Whole(Decimal(amount), decimals), Fraction(Decimal(amount), decimals);
            && w != "" && Digits(w) && Digits(f) && |f| <= decimals && Digits(w + f)
            && Numeral(w + f) * Pow10(decimals - |f|) == amount
  {
    RawSpells(Decimal(amount), decimals);
    DecimalReadsBack(amount);
  }

  lemma {:induction false} WholeHasNoLeadingZero(amount: nat, decimals: nat)
    requires decimals > 0
    ensures var w := Whole(Decimal(amount), decimals);
            w != "" && (w[0] == '0' ==> w == "0")
  {
    DecimalHasNoLeadingZero(amount);
  }

  lemma {:induction false} PrintedText(w: string, f: string)
    requires w != "" && Digits(w) && Digits(f)
    ensures var text := w + PointAndFraction(f);
            && IsDecimalText(text) && FractionDigits(text) == |f| && Mantissa(text) == Numeral(w + f)
            && (IsShortest(text) <==> (w[0] == '0' ==> w == "0") && (f != "" ==> f[|f| - 1] != '0'))
  {
    DigitsAreFree(w, '.');
    DigitsAreFree(f, '.');
    PointSplits(w, f);
    if f == "" {
      assert w + f == w;
    }
  }

  lemma {:induction false} ScaledUp(m: nat, amount: nat, decimals: nat, k: nat)
    requires k <= decimals && m * Pow10(decimals - k) == amount
    ensures m * Pow10(decimals) == amount * Pow10(k)
  {
    Pow10Adds(decimals - k, k);
    Associates(m, Pow10(decimals - k), Pow10(k));
  }

  lemma Associates(a: int, b: int, c: int)
    ensures a * (b * c) == (a * b) * c
  {
  }

  /**
   Printing is exact for every non-negative amount and every number of decimals: the printed numeral times 10^decimals
   is the amount, and the text is the shortest one that says so.
   */
  lemma {:induction false} FormatIsExact(amount: nat, decimals: nat)
    ensures var text := FormatTokenAmount(amount, decimals);
            && IsDecimalText(text) && IsShortest(text)
            && FractionDigits(text) <= decimals
            && Mantissa(text) * Pow10(decimals) == amount * Pow10(FractionDigits(text))
  {
    var raw := Decimal(amount);
    DecimalHasNoLeadingZero(amount);
    if decimals == 0 {
      DecimalReadsBack(amount);
      PrintedText(raw, "");
      assert raw + "" == raw && raw + PointAndFraction("") == raw;
    } else {
      var w, f := Whole(raw, decimals), Fraction(raw, decimals);
      WholeAndFractionSpellAmount(amount, decimals);
      WholeHasNoLeadingZero(amount, decimals);
      PrintedText(w, f);
      ScaledUp(Numeral(w + f), amount, decimals, |f|);
    }
  }

  lemma {:induction false} ShorterPadsDifferently(a: string, b: string, width: nat)
    requires a != "" && |a| < |b| && b[0] != '0'
    ensures PadStart(a, width) != PadStart(b, width)
  {
    var p, q := PadStart(a, width), PadStart(b, width);
    assert q[|q| - |b|] == b[0];
    assert |p| == |q| ==> p[|p| - |b|] == '0';
  }

  lemma {:induction false} PaddingIsInjective(a: string, b: string, width: nat)
    requires a != "" && b != "" && (a[0] == '0' ==> a == "0") && (b[0] == '0' ==> b == "0")
    requires PadStart(a, width) == PadStart(b, width)
    ensures a == b
  {
    if |a| < |b| {
      ShorterPadsDifferently(a, b, width);
    } else if |b| < |a| {
      ShorterPadsDifferently(b, a, width);
    } else {
      var p, q := PadStart(a, width), PadStart(b, width);
      assert p[|p| - |a|..] == a && q[|q| - |b|..] == b;
    }
  }

  lemma {:induction false} StrippingIsInjective(s: string, t: string)
    requires |s| == |t| && StripZeros(s) == StripZeros(t)
    ensures s == t
  {
    var f := StripZeros(s);
    forall i | 0 <= i < |s|
      ensures s[i] == t[i]
    {
      if i < |f| {
        assert s[i] == f[i] == t[i];
      }
    }
  }

  lemma {:induction false} FreeOfConcat(raw: string, width: nat, head: string, tail: string)
    requires Free(raw, '.') && PadStart(raw, width) == head + tail
    ensures Free(head, '.') && Free(StripZeros(tail), '.')
  {
    assert Free(head + tail, '.');
    assert forall i :: 0 <= i < |head| ==> head[i] == (head + tail)[i];
    assert forall i :: 0 <= i < |tail| ==> tail[i] == (head + tail)[|head| + i];
    assert forall i :: 0 <= i < |StripZeros(tail)| ==> StripZeros(tail)[i] == tail[i];
  }

  lemma {:induction false} SamePrintSameParts(head: string, f: string, head': string, f': string)
    requires Free(head, '.') && Free(f, '.') && Free(head', '.') && Free(f', '.')
    requires head + PointAndFraction(f) == head' + PointAndFraction(f')
    ensures head == head' && f == f'
  {
    PointSplits(head, f);
    PointSplits(head', f');
    var parts := Split(head + PointAndFraction(f), '.');
    assert parts[0] == head == head';
  }

  lemma {:induction false} SamePrintSameCut(head: string, tail: string, head': string, tail': string)
    requires Free(head, '.') && Free(StripZeros(tail), '.') && Free(head', '.') && Free(StripZeros(tail'), '.')
    requires |tail| == |tail'|
    requires head + PointAndFraction(StripZeros(tail)) == head' + PointAndFraction(StripZeros(tail'))
    ensures head == head' && tail == tail'
  {
    SamePrintSameParts(head, StripZeros(tail), head', StripZeros(tail'));
    StrippingIsInjective(tail, tail');
  }

  lemma {:induction false} SamePrintSamePadded(r: string, s: string, decimals: nat)
    requires Free(r, '.') && Free(s, '.') && decimals > 0 && FormatRaw(r, decimals) == FormatRaw(s, decimals)
    ensures PadStart(r, decimals + 1) == PadStart(s, decimals + 1)
  {
    var head, tail := Cuts(r, decimals);
    var head', tail' := Cuts(s, decimals);
    FreeOfConcat(r, decimals + 1, head, tail);
    FreeOfConcat(s, decimals + 1, head', tail');
    SamePrintSameCut(head, tail, head', tail');
  }

  lemma {:induction false} RawIsInjective(r: string, s: string, decimals: nat)
    requires r != "" && (r[0] == '0' ==> r == "0") && Free(r, '.')
    requires s != "" && (s[0] == '0' ==> s == "0") && Free(s, '.')
    requires FormatRaw(r, decimals) == FormatRaw(s, decimals)
    ensures r == s
  {
    if decimals > 0 {
      SamePrintSamePadded(r, s, decimals);
      PaddingIsInjective(r, s, decimals + 1);
    }
  }

  /** Different amounts print differently, whatever their signs. */
  lemma {:induction false} FormatIsInjective(a: int, b: int, decimals: nat)
    requires FormatTokenAmount(a, decimals) == FormatTokenAmount(b, decimals)
    ensures a == b
  {
    IntTextIsCompact(a);
    IntTextIsCompact(b);
    RawIsInjective(IntText(a), IntText(b), decimals);
    IntTextIsInjective(a, b);
  }

  // Negative amounts.

  lemma {:induction false} DigitsOf(n: nat, decimals: nat)
    requires n > 0
    ensures |Decimal(n)| > decimals <==> n >= Pow10(decimals)
    decreases n
  {
    if n >= 10 && decimals > 0 {
      DigitsOf(n / 10, decimals - 1);
      FloorReaches(n, 10, Pow10(decimals - 1));
    } else if n < 10 && decimals > 0 {
      Pow10Monotone(1, decimals);
    }
  }

  /** With more digits than decimals nothing is padded, and the sign goes to the head. */
  lemma {:induction false} SignStaysInFront(digits: string, decimals: nat)
    requires 0 < decimals < |digits|
    ensures FormatRaw("-" + digits, decimals) == "-" + FormatRaw(digits, decimals)
  {
    var head, tail := Cuts(digits, decimals);
    var signed, tail' := Cuts("-" + digits, decimals);
    SameCut(digits, head, tail, signed, tail');
    SignedParts(head, StripZeros(tail));
  }

  lemma SameCut(digits: string, head: string, tail: string, signed: string, tail': string)
    requires digits == head + tail && "-" + digits == signed + tail' && |tail| == |tail'|
    ensures signed == "-" + head && tail' == tail
  {
    assert signed + tail' == ("-" + head) + tail;
    assert |signed| == |"-" + head|;
    assert signed == (signed + tail')[..|signed|] && tail' == (signed + tail')[|signed|..];
  }

  lemma SignedParts(whole: string, fraction: string)
    ensures "-" + whole + PointAndFraction(fraction) == "-" + (whole + PointAndFraction(fraction))
  {
  }

  /** Otherwise the padding goes in front of the sign, or the sign is all that is left of the head. */
  lemma {:induction false} SignIsPadded(digits: string, decimals: nat)
    requires 0 < |digits| <= decimals
    ensures FormatRaw("-" + digits, decimals) != "-" + FormatRaw(digits, decimals)
  {
    var head, tail := Cuts(digits, decimals);
    assert (head + tail)[0] == '0' && head[0] == '0';
    var signed, tail' := Cuts("-" + digits, decimals);
    assert |signed| == 1 && signed[0] == (signed + tail')[0];
    var text := signed + PointAndFraction(StripZeros(tail'));
    if |digits| < decimals {
      assert text[0] == '0';
    } else {
      assert |text| >= 2 ==> text[1] == '.';
    }
    var plain := head + PointAndFraction(StripZeros(tail));
    assert ("-" + plain)[0] == '-' && ("-" + plain)[1] == plain[0] == '0';
  }

  lemma {:induction false} SignExactlyWhen(digits: string, decimals: nat)
    requires digits != ""
    ensures FormatRaw("-" + digits, decimals) == "-" + FormatRaw(digits, decimals)
            <==> decimals == 0 || decimals < |digits|
  {
    if 0 < decimals < |digits| {
      SignStaysInFront(digits, decimals);
    } else if decimals > 0 {
      SignIsPadded(digits, decimals);
    }
  }

  lemma {:induction false} NegativeText(m: int, decimals: nat)
    requires m > 0
    ensures FormatTokenAmount(-m, decimals) == FormatRaw("-" + Decimal(m), decimals)
    ensures FormatTokenAmount(m, decimals) == FormatRaw(Decimal(m), decimals)
  {
  }

  lemma {:induction false} SignPrintsByLength(m: int, decimals: nat)
    requires m > 0
    ensures FormatTokenAmount(-m, decimals) == "-" + FormatTokenAmount(m, decimals)
            <==> decimals == 0 || decimals < |Decimal(m)|
  {
    NegativeText(m, decimals);
    SignExactlyWhen(Decimal(m), decimals);
  }

  /**
   A negative amount prints as its sign and magnitude if and only if it is a whole token or more, or has no decimals.
   */
  lemma {:induction false} NegativePrintsExactlyWhen(m: int, decimals: nat)
    requires m > 0
    ensures FormatTokenAmount(-m, decimals) == "-" + FormatTokenAmount(m, decimals)
            <==> decimals == 0 || m >= Pow10(decimals)
  {
    SignPrintsByLength(m, decimals);
    DigitsOf(m, decimals);
  }

  /** Five hundredths, negative: the padding goes in front of the sign. */
  lemma {:induction false} SmallNegativePrintsWrong()
    ensures FormatTokenAmount(-5, 2) == "0.-5"
  {
    assert IntText(-5) == "-5";
    assert PadStart("-5", 3) == "0-5";
    assert Whole("-5", 2) == "0" && "0-5"[1..] == "-5";
    assert StripZeros("-5") == "-5";
  }
}
