/** The string operations the services share: joining and splitting lists, trimming, and decimal numerals. */
module Text {

  // Lists in one string.

  function Join(parts: seq<string>, sep: char): string {
    if |parts| == 0 then ""
    else if |parts| == 1 then parts[0]
    else parts[0] + [sep] + Join(parts[1..], sep)
  }

  function Split(s: string, sep: char): (parts: seq<string>)
    ensures |parts| >= 1
  {
    if s == "" then [""]
    else
      var rest := Split(s[1..], sep);
      if s[0] == sep then [""] + rest else [[s[0]] + rest[0]] + rest[1..]
  }

  predicate Free(s: string, c: char) {
    forall i :: 0 <= i < |s| ==> s[i] != c
  }

  predicate AllFree(parts: seq<string>, c: char) {
    forall i :: 0 <= i < |parts| ==> Free(parts[i], c)
  }

  lemma {:induction false} SplitUntilSeparator(p: string, tail: string, sep: char)
    requires Free(p, sep)
    ensures Split(p + [sep] + tail, sep) == [p] + Split(tail, sep)
  {
    SplitAtSeparator(p, tail, sep);
    SplitWithoutSeparator(p, sep);
  }

  lemma {:induction false} SplitWithoutSeparator(p: string, sep: char)
    requires Free(p, sep)
    ensures Split(p, sep) == [p]
  {
    if p != "" {
      SplitWithoutSeparator(p[1..], sep);
      assert [p[0]] + p[1..] == p;
    }
  }

  /** A non-empty list of separator-free parts survives being joined and split. */
  lemma {:induction false} SplitUndoesJoin(parts: seq<string>, sep: char)
    requires parts != [] && AllFree(parts, sep)
    ensures Split(Join(parts, sep), sep) == parts
  {
    assert Free(parts[0], sep);
    if |parts| == 1 {
      SplitWithoutSeparator(parts[0], sep);
    } else {
      SplitUndoesJoin(parts[1..], sep);
      SplitUntilSeparator(parts[0], Join(parts[1..], sep), sep);
    }
  }

  /** Splitting and joining loses nothing, whatever the text. */
  lemma {:induction false} JoinUndoesSplit(s: string, sep: char)
    ensures Join(Split(s, sep), sep) == s
  {
    if s != "" {
      var rest := Split(s[1..], sep);
      JoinUndoesSplit(s[1..], sep);
      if s[0] == sep {
        assert ([""] + rest)[1..] == rest;
        assert "" + [sep] + s[1..] == s;
      } else {
        JoinGrowsFirst(s[0], rest, sep);
        assert [s[0]] + s[1..] == s;
      }
    }
  }

  lemma {:induction false} JoinGrowsFirst(c: char, parts: seq<string>, sep: char)
    requires parts != []
    ensures Join([[c] + parts[0]] + parts[1..], sep) == [c] + Join(parts, sep)
  {
    var grown := [[c] + parts[0]] + parts[1..];
    assert grown[1..] == parts[1..];
    if |parts| > 1 {
      var tail := Join(parts[1..], sep);
      assert [c] + parts[0] + [sep] + tail == [c] + (parts[0] + [sep] + tail);
    }
  }

  function GrowFirst(c: char, parts: seq<string>): seq<string>
    requires parts != []
  {
    [[c] + parts[0]] + parts[1..]
  }

  lemma {:induction false} SplitNext(c: char, s: string, sep: char)
    ensures Split([c] + s, sep) == if c == sep then [""] + Split(s, sep) else GrowFirst(c, Split(s, sep))
  {
    assert ([c] + s)[1..] == s;
  }

  lemma GrowFirstOfConcat(c: char, a: seq<string>, b: seq<string>)
    requires a != []
    ensures GrowFirst(c, a + b) == GrowFirst(c, a) + b
  {
    assert (a + b)[1..] == a[1..] + b;
  }

  /** One more character in front goes to the first part, or makes one of its own. */
  lemma {:induction false} SplitStep(c: char, q: string, u: string, rest: seq<string>, sep: char)
    requires Split(u, sep) == Split(q, sep) + rest
    ensures Split([c] + u, sep) == Split([c] + q, sep) + rest
  {
    SplitNext(c, q, sep);
    SplitNext(c, u, sep);
    if c == sep {
      assert [""] + (Split(q, sep) + rest) == [""] + Split(q, sep) + rest;
    } else {
      GrowFirstOfConcat(c, Split(q, sep), rest);
    }
  }

  /** A text splits at a separator whatever stands on either side of it. */
  lemma {:induction false} SplitAtSeparator(p: string, tail: string, sep: char)
    ensures Split(p + [sep] + tail, sep) == Split(p, sep) + Split(tail, sep)
  {
    if p == "" {
      assert p + [sep] + tail == [sep] + tail;
      SplitNext(sep, tail, sep);
    } else {
      SplitAtSeparator(p[1..], tail, sep);
      SplitStep(p[0], p[1..], p[1..] + [sep] + tail, Split(tail, sep), sep);
      assert p == [p[0]] + p[1..];
      assert p + [sep] + tail == [p[0]] + (p[1..] + [sep] + tail);
    }
  }

  /** Two neighbouring parts joined beforehand make no difference. */
  lemma {:induction false} JoinMerges(parts: seq<string>, i: nat, sep: char)
    requires i + 1 < |parts|
    ensures Join(parts[..i] + [parts[i] + [sep] + parts[i + 1]] + parts[i + 2..], sep) == Join(parts, sep)
  {
    var merged := parts[..i] + [parts[i] + [sep] + parts[i + 1]] + parts[i + 2..];
    if i > 0 {
      JoinMerges(parts[1..], i - 1, sep);
      assert merged[1..] == parts[1..][..i - 1] + [parts[i] + [sep] + parts[i + 1]] + parts[1..][i + 1..];
    } else {
      MergeFirst(parts[0], parts[1], parts[2..], sep);
      assert merged == [parts[0] + [sep] + parts[1]] + parts[2..] && parts == [parts[0], parts[1]] + parts[2..];
    }
  }

  lemma {:induction false} MergeFirst(a: string, b: string, rest: seq<string>, sep: char)
    ensures Join([a + [sep] + b] + rest, sep) == Join([a, b] + rest, sep)
  {
    assert ([a, b] + rest)[1..] == [b] + rest && ([b] + rest)[1..] == rest;
    assert ([a + [sep] + b] + rest)[1..] == rest;
    if rest != [] {
      var tail := Join(rest, sep);
      assert a + [sep] + b + [sep] + tail == a + [sep] + (b + [sep] + tail);
    }
  }

  lemma {:induction false} JoinIsNotEmpty(parts: seq<string>, sep: char)
    requires parts != [] && parts[0] != ""
    ensures Join(parts, sep) != ""
  {
  }

  // Trimming.

  predicate IsSpace(c: char) {
    c == ' ' || c == '\t' || c == '\n' || c == '\r'
  }

  function TrimStart(s: string): (t: string)
    ensures |t| <= |s|
    ensures t != "" ==> !IsSpace(t[0])
  {
    if s != "" && IsSpace(s[0]) then TrimStart(s[1..]) else s
  }

  function TrimEnd(s: string): (t: string)
    ensures t <= s
    ensures t != "" ==> !IsSpace(t[|t| - 1])
  {
    if s != "" && IsSpace(s[|s| - 1]) then TrimEnd(s[..|s| - 1]) else s
  }

  function Trim(s: string): string {
    TrimEnd(TrimStart(s))
  }

  /** Neither end is a space, so trimming changes nothing. */
  predicate Trimmed(s: string) {
    s != "" ==> !IsSpace(s[0]) && !IsSpace(s[|s| - 1])
  }

  lemma TrimTrims(s: string)
    ensures Trimmed(Trim(s))
  {
  }

  lemma TrimKeepsTrimmed(s: string)
    requires Trimmed(s)
    ensures Trim(s) == s
  {
  }

  predicate Blank(s: string) {
    forall i :: 0 <= i < |s| ==> IsSpace(s[i])
  }

  lemma {:induction false} TrimStartDropsSpaces(s: string) returns (head: string)
    ensures s == head + TrimStart(s) && Blank(head)
  {
    if s != "" && IsSpace(s[0]) {
      var rest := TrimStartDropsSpaces(s[1..]);
      head := [s[0]] + rest;
    } else {
      head := "";
    }
  }

  lemma {:induction false} TrimEndDropsSpaces(s: string) returns (tail: string)
    ensures s == TrimEnd(s) + tail && Blank(tail)
  {
    if s != "" && IsSpace(s[|s| - 1]) {
      var rest := TrimEndDropsSpaces(s[..|s| - 1]);
      tail := rest + [s[|s| - 1]];
    } else {
      tail := "";
    }
  }

  /** Trimming takes spaces off both ends and nothing else. */
  lemma {:induction false} TrimDropsOnlySpaces(s: string) returns (head: string, tail: string)
    ensures s == head + (Trim(s) + tail) && Blank(head) && Blank(tail) && Trimmed(Trim(s))
  {
    head := TrimStartDropsSpaces(s);
    tail := TrimEndDropsSpaces(TrimStart(s));
    TrimTrims(s);
  }

  /** Trimming twice is trimming once. */
  lemma TrimIsIdempotent(s: string)
    ensures Trim(Trim(s)) == Trim(s)
  {
    TrimTrims(s);
    TrimKeepsTrimmed(Trim(s));
  }

  // Decimal numerals.

  predicate IsDigit(c: char) {
    '0' <= c <= '9'
  }

  function DigitChar(d: nat): (c: char)
    requires d < 10
    ensures IsDigit(c) && DigitValue(c) == d
  {
    '0' + d as char
  }

  function DigitValue(c: char): (d: nat)
    requires IsDigit(c)
    ensures d < 10
  {
    c as int - '0' as int
  }

  predicate Digits(s: string) {
    forall i :: 0 <= i < |s| ==> IsDigit(s[i])
  }

  /** The value of a string of digits. */
  function Numeral(s: string): nat
    requires Digits(s)
  {
    if s == "" then 0 else 10 * Numeral(s[..|s| - 1]) + DigitValue(s[|s| - 1])
  }

  /** `String(n)` for a non-negative integer. */
  function Decimal(n: nat): (s: string)
    ensures s != "" && Digits(s)
  {
    if n < 10 then [DigitChar(n)] else Decimal(n / 10) + [DigitChar(n % 10)]
  }

  lemma {:induction false} DecimalReadsBack(n: nat)
    ensures Numeral(Decimal(n)) == n
  {
    if n >= 10 {
      DecimalReadsBack(n / 10);
      assert Decimal(n)[..|Decimal(n)| - 1] == Decimal(n / 10);
    } else {
      assert Decimal(n)[..0] == "";
    }
  }

  /** No numeral but "0" itself starts with a zero. */
  lemma {:induction false} DecimalHasNoLeadingZero(n: nat)
    ensures Decimal(n)[0] == '0' ==> n == 0 && Decimal(n) == "0"
  {
    if n >= 10 {
      DecimalHasNoLeadingZero(n / 10);
    }
  }

  lemma {:induction false} DecimalIsInjective(m: nat, n: nat)
    requires Decimal(m) == Decimal(n)
    ensures m == n
  {
    DecimalReadsBack(m);
    DecimalReadsBack(n);
  }

  /** `String(n)` for any integer. */
  function IntText(n: int): string {
    if n < 0 then "-" + Decimal(-n) else Decimal(n)
  }

  lemma IntTextIsInjective(m: int, n: int)
    requires IntText(m) == IntText(n)
    ensures m == n
  {
    assert IntText(m)[0] == '-' <==> m < 0;
    assert IntText(n)[0] == '-' <==> n < 0;
    if m < 0 {
      assert IntText(m)[1..] == Decimal(-m) && IntText(n)[1..] == Decimal(-n);
      DecimalIsInjective(-m, -n);
    } else {
      DecimalIsInjective(m, n);
    }
  }

  lemma IntTextIsCompact(n: int)
    ensures IntText(n) != "" && (IntText(n)[0] == '0' ==> IntText(n) == "0")
    ensures Free(IntText(n), '.')
  {
    if n >= 0 {
      DecimalHasNoLeadingZero(n);
    }
  }
}
