/** Machine integers of the on-chain program, and the division facts its rounding rests on. */
module Numbers {

  const TWO_64: int := 0x1_0000_0000_0000_0000
  const TWO_63: int := 0x8000_0000_0000_0000
  const TWO_128: int := 0x1_0000_0000_0000_0000_0000_0000_0000_0000
  const U64_MAX: int := TWO_64 - 1

  type u8 = x: int | 0 <= x < 256
  type u64 = x: int | 0 <= x < TWO_64
  type u128 = x: int | 0 <= x < TWO_128
  type i64 = x: int | -TWO_63 <= x < TWO_63

  /** Rust's `as u64`: the value modulo 2^64. */
  function AsU64(x: int): (r: u64)
    ensures 0 <= x < TWO_64 ==> r == x
  {
    x % TWO_64
  }

  function Pow10(n: nat): (p: nat)
    ensures p >= 1
  {
    if n == 0 then 1 else 10 * Pow10(n - 1)
  }

  lemma {:induction false} Pow10Adds(a: nat, b: nat)
    ensures Pow10(a + b) == Pow10(a) * Pow10(b)
  {
    if a > 0 {
      Pow10Adds(a - 1, b);
    }
  }

  lemma {:induction false} Pow10Monotone(a: nat, b: nat)
    requires a <= b
    ensures Pow10(a) <= Pow10(b)
  {
    if a < b {
      Pow10Monotone(a, b - 1);
    }
  }

  lemma Scale(a: int, b: int, c: int)
    requires a <= b && 0 <= c
    ensures a * c <= b * c
    ensures c * a <= c * b
  {
  }

  /** Floor division is the one quotient between these two bounds. */
  lemma FloorBounds(a: nat, b: nat)
    requires b > 0
    ensures a / b * b <= a < (a / b + 1) * b
  {
    assert a == b * (a / b) + a % b;
  }

  lemma FloorUnique(a: nat, b: nat, q: nat)
    requires b > 0 && q * b <= a < (q + 1) * b
    ensures a / b == q
  {
    FloorBounds(a, b);
    var p := a / b;
    if p < q {
      Scale(p + 1, q, b);
    } else if q < p {
      Scale(q + 1, p, b);
    }
  }

  lemma FloorMonotone(a: nat, a': nat, b: nat)
    requires b > 0 && a <= a'
    ensures a / b <= a' / b
  {
    FloorBounds(a, b);
    FloorBounds(a', b);
    if a' / b < a / b {
      Scale(a' / b + 1, a / b, b);
    }
  }

  /** A larger divisor cannot give a larger quotient. */
  lemma FloorAntitone(a: nat, b: nat, b': nat)
    requires 0 < b <= b'
    ensures a / b' <= a / b
  {
    FloorBounds(a, b);
    FloorBounds(a, b');
    var p, q := a / b, a / b';
    if p < q {
      Scale(p + 1, q, b);
      Scale(b, b', q);
    }
  }

  /** A quotient reaches `q` exactly when the dividend reaches `q` divisors. */
  lemma FloorReaches(a: nat, b: nat, q: nat)
    requires b > 0
    ensures a / b >= q <==> a >= q * b
  {
    FloorBounds(a, b);
    var p := a / b;
    if p >= q {
      Scale(q, p, b);
    } else {
      Scale(p + 1, q, b);
    }
  }

  /** A common factor of dividend and divisor cancels. */
  lemma FloorCancels(a: nat, b: nat, c: nat)
    requires b > 0 && c > 0
    ensures c * b > 0 && (c * a) / (c * b) == a / b
  {
    FloorBounds(a, b);
    var q := a / b;
    assert c * b >= b by { Scale(1, c, b); }
    assert q * (c * b) == c * (q * b);
    assert (q + 1) * (c * b) == c * ((q + 1) * b);
    Scale(q * b, a, c);
    Scale(a + 1, (q + 1) * b, c);
    FloorUnique(c * a, c * b, q);
  }

  lemma FloorAtMost(a: nat, b: nat)
    requires b > 0
    ensures a / b <= a
  {
    FloorAntitone(a, 1, b);
    assert a / 1 == a;
  }

  lemma ProductAtMost(a: nat, b: nat, a': nat, b': nat)
    requires a <= a' && b <= b'
    ensures 0 <= a * b <= a' * b'
  {
    Scale(a, a', b);
    Scale(b, b', a');
  }
}
