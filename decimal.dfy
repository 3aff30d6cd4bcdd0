/**
 * Decimal digit strings: Rust's `Display` of an unsigned integer, nom's `digit1`
 * followed by `str::parse`, and the arithmetic that ties digit strings to numbers.
 */
module Decimal {
  import opened Errors

  /** Concatenation of strings is associative. */
  lemma {:induction false} AppendAssoc(a: string, b: string, c: string)
    ensures a + b + c == a + (b + c)
  {
  }

  /** The largest `u32` and the largest `u64`: the bounds `str::parse` enforces. */
  const U32_MAX: nat := 4294967295
  const U64_MAX: nat := 18446744073709551615

  /** 10 raised to `n`. */
  function Pow10(n: nat): (r: nat)
    ensures r >= 1
  {
    if n == 0 then 1 else 10 * Pow10(n - 1)
  }

  lemma {:induction false} Pow10Add(a: nat, b: nat)
    ensures Pow10(a + b) == Pow10(a) * Pow10(b)
  {
    if b > 0 {
      Pow10Add(a, b - 1);
      calc {
        Pow10(a + b);
        10 * Pow10(a + b - 1);
        10 * (Pow10(a) * Pow10(b - 1));
        Pow10(a) * (10 * Pow10(b - 1));
      }
    }
  }

  // ---------------------------------------------------------------------
  // Division facts

  lemma {:induction false} MulLeMul(a: int, b: int, c: nat)
    requires a <= b
    ensures a * c <= b * c
  {
  }

  /** Dividing a natural number by a positive one gives a natural quotient no larger than it. */
  lemma {:induction false} DivBounds(n: nat, d: nat)
    requires d > 0
    ensures 0 <= n / d <= n && 0 <= n % d < d
  {
    var q := n / d;
    assert n == d * q + n % d;
    if q < 0 {
      MulLeMul(q, -1, d);
    }
    if q > n {
      MulLeMul(n + 1, q, d);
      MulLeMul(1, d, n + 1);
    }
  }

  /** Euclidean quotient of natural numbers, typed as a natural number. */
  function Div(n: nat, d: nat): (q: nat)
    requires d > 0
    ensures q == n / d && q <= n
  {
    DivBounds(n, d);
    n / d
  }

  /** A divisor that leaves no remainder multiplies back to the dividend. */
  lemma {:induction false} DivExact(n: nat, d: nat)
    requires d > 0 && n % d == 0
    ensures Div(n, d) * d == n
  {
  }

  lemma {:induction false} ModSmall(n: nat, m: nat)
    requires n < m
    ensures n % m == n && n / m == 0
  {
    DivModUnique(n, m, 0, n);
  }

  /** Euclidean division is determined by its defining equation. */
  lemma {:induction false} DivModUnique(n: int, m: int, q: int, r: int)
    requires m > 0 && 0 <= r < m && n == m * q + r
    ensures n / m == q && n % m == r
  {
    var q', r' := n / m, n % m;
    assert m * q' + r' == m * q + r;
    if q' < q {
      MulLeMul(q' + 1, q, m);
    } else if q < q' {
      MulLeMul(q + 1, q', m);
    }
  }

  /** Splitting a remainder modulo `x * y` into its low part modulo `y` and its high part. */
  lemma {:induction false} ModSplit(n: nat, x: nat, y: nat)
    requires x > 0 && y > 0
    ensures (n / y % x) * y + n % y == n % (x * y)
    ensures n / y / x == n / (x * y)
  {
    var q, r := n / y, n % y;
    var a, b := q / x, q % x;
    assert n == y * q + r;
    assert q == x * a + b;
    assert y * q == (x * y) * a + y * b;
    MulLeMul(b, x - 1, y);
    assert y * b + r < x * y;
    DivModUnique(n, x * y, a, y * b + r);
  }

  // ---------------------------------------------------------------------
  // Digits and their values

  predicate IsDigit(c: char) { '0' <= c <= '9' }

  function DigitValue(c: char): (d: nat)
    requires IsDigit(c)
    ensures d < 10
  {
    c as int - '0' as int
  }

  function DigitChar(d: nat): (c: char)
    requires d < 10
    ensures IsDigit(c) && DigitValue(c) == d
  {
    ('0' as int + d) as char
  }

  predicate AllDigits(s: string)
  {
    forall i :: 0 <= i < |s| ==> IsDigit(s[i])
  }

  /** The number a string of decimal digits denotes, most significant digit first. */
  function DecimalValue(s: string): (v: nat)
    requires AllDigits(s)
    ensures v < Pow10(|s|)
  {
    if s == [] then 0 else DecimalValue(s[..|s| - 1]) * 10 + DigitValue(s[|s| - 1])
  }

  lemma {:induction false} ShiftDigitAlgebra(x: int, p: int, y: int, d: int, v: int, w: int, q: int)
    requires v == (x * p + y) * 10 + d && w == y * 10 + d && q == p * 10
    ensures v == x * q + w
  {
  }

  lemma {:induction false} DecimalValueLast(a: string, b: string)
    requires AllDigits(a) && AllDigits(b) && b != []
    ensures AllDigits(a + b)
    ensures DecimalValue(a + b) == DecimalValue(a + b[..|b| - 1]) * 10 + DigitValue(b[|b| - 1])
  {
    assert (a + b)[..|a + b| - 1] == a + b[..|b| - 1];
  }

  /** A digit string is worth ten times all but its last digit, plus that digit. */
  lemma {:induction false} DecimalValueSnoc(s: string, init: string, last: char)
    requires s == init + [last] && AllDigits(s)
    ensures AllDigits(init) && IsDigit(last)
    ensures DecimalValue(s) == DecimalValue(init) * 10 + DigitValue(last)
  {
    assert s[..|s| - 1] == init;
    assert s[|s| - 1] == last;
    assert forall i :: 0 <= i < |init| ==> init[i] == s[i];
  }

  /** The values of short runs of digits, one to four digits long. */
  lemma {:induction false} DecimalValue1(c0: char)
    requires IsDigit(c0)
    ensures AllDigits([c0]) && DecimalValue([c0]) == DigitValue(c0)
  {
    DecimalValueSnoc([c0], [], c0);
  }

  lemma {:induction false} DecimalValue2(c0: char, c1: char)
    requires IsDigit(c0) && IsDigit(c1)
    ensures AllDigits([c0, c1]) && DecimalValue([c0, c1]) == DigitValue(c0) * 10 + DigitValue(c1)
  {
    DecimalValueSnoc([c0, c1], [c0], c1);
    DecimalValue1(c0);
  }

  lemma {:induction false} DecimalValue3(c0: char, c1: char, c2: char)
    requires IsDigit(c0) && IsDigit(c1) && IsDigit(c2)
    ensures AllDigits([c0, c1, c2])
    ensures DecimalValue([c0, c1, c2]) == DigitValue(c0) * 100 + DigitValue(c1) * 10 + DigitValue(c2)
  {
    DecimalValueSnoc([c0, c1, c2], [c0, c1], c2);
    DecimalValue2(c0, c1);
  }

  lemma {:induction false} DecimalValue4(c0: char, c1: char, c2: char, c3: char)
    requires IsDigit(c0) && IsDigit(c1) && IsDigit(c2) && IsDigit(c3)
    ensures AllDigits([c0, c1, c2, c3])
    ensures DecimalValue([c0, c1, c2, c3])
         == DigitValue(c0) * 1000 + DigitValue(c1) * 100 + DigitValue(c2) * 10 + DigitValue(c3)
  {
    DecimalValueSnoc([c0, c1, c2, c3], [c0, c1, c2], c3);
    DecimalValue3(c0, c1, c2);
  }

  /** Writing `b` after `a` multiplies `a`'s value by ten per digit of `b`. */
  lemma {:induction false} DecimalValueConcat(a: string, b: string)
    requires AllDigits(a) && AllDigits(b)
    ensures AllDigits(a + b)
    ensures DecimalValue(a + b) == DecimalValue(a) * Pow10(|b|) + DecimalValue(b)
  {
    if b != [] {
      var b' := b[..|b| - 1];
      DecimalValueLast(a, b);
      DecimalValueConcat(a, b');
      ShiftDigitAlgebra(DecimalValue(a), Pow10(|b'|), DecimalValue(b'), DigitValue(b[|b| - 1]),
                        DecimalValue(a + b), DecimalValue(b), Pow10(|b|));
    } else {
      assert a + b == a;
    }
  }

  /** The `width` lowest decimal digits of `n`, most significant first, zero-padded. */
  function Digits(n: nat, width: nat): (s: string)
    ensures |s| == width
  {
    if width == 0 then [] else Digits(n / 10, width - 1) + [DigitChar(n % 10)]
  }

  /** The rendering is a digit string whose value is `n` below its width. */
  lemma {:induction false} DigitsValue(n: nat, width: nat)
    ensures AllDigits(Digits(n, width))
    ensures DecimalValue(Digits(n, width)) == n % Pow10(width)
  {
    if width > 0 {
      DigitsValue(n / 10, width - 1);
      var s := Digits(n, width);
      assert s[..width - 1] == Digits(n / 10, width - 1);
      ModSplit(n, Pow10(width - 1), 10);
    }
  }

  /** A digit string is the zero-padded rendering of its own value. */
  lemma {:induction false} DigitsOfValue(s: string)
    requires AllDigits(s)
    ensures Digits(DecimalValue(s), |s|) == s
  {
    if s != [] {
      var s' := s[..|s| - 1];
      var v := DecimalValue(s);
      DivModUnique(v, 10, DecimalValue(s'), DigitValue(s[|s| - 1]));
      DigitsOfValue(s');
    }
  }

  /** Two renderings of the same width agree exactly when the numbers agree below that width. */
  lemma {:induction false} DigitsEqualIff(x: nat, y: nat, width: nat)
    ensures Digits(x, width) == Digits(y, width) <==> x % Pow10(width) == y % Pow10(width)
  {
    DigitsValue(x, width);
    DigitsValue(y, width);
    if x % Pow10(width) == y % Pow10(width) {
      DigitsOfValue(Digits(x, width));
      DigitsOfValue(Digits(y, width));
    }
  }

  lemma {:induction false} SubstituteProduct(v: int, h: int, h': int, p: int, p': int, l: int, l': int)
    requires v == h * p + l && h == h' && p == p' && l == l'
    ensures v == h' * p' + l'
  {
  }

  /** Only the lowest `width` digits of a number show in its rendering. */
  lemma {:induction false} DigitsMod(n: nat, width: nat)
    ensures Digits(n % Pow10(width), width) == Digits(n, width)
  {
    var p := Pow10(width);
    var m := n % p;
    ModSmall(m, p);
    DigitsEqualIff(n, m, width);
  }

  /** A digit string whose value is `x` below its width is the rendering of `x`. */
  lemma {:induction false} DigitsUnique(s: string, x: nat)
    requires AllDigits(s) && DecimalValue(s) == x % Pow10(|s|)
    ensures Digits(x, |s|) == s
  {
    DigitsOfValue(s);
    DigitsMod(x, |s|);
  }

  /** Rendering `a + b` digits is rendering the high part beside the low part. */
  lemma {:induction false} DigitsSplit(n: nat, a: nat, b: nat)
    ensures Digits(n, a + b) == Digits(Div(n, Pow10(b)), a) + Digits(n, b)
  {
    var pa, pb := Pow10(a), Pow10(b);
    var high, low := Digits(Div(n, pb), a), Digits(n, b);
    var rhs := high + low;
    DigitsValue(Div(n, pb), a);
    DigitsValue(n, b);
    assert DecimalValue(rhs) == n % Pow10(a + b) by {
      DecimalValueConcat(high, low);
      SubstituteProduct(DecimalValue(rhs), DecimalValue(high), n / pb % pa, pb, pb, DecimalValue(low), n % pb);
      ModSplit(n, pa, pb);
      Pow10Add(a, b);
    }
    DigitsUnique(rhs, n);
  }

  // ---------------------------------------------------------------------
  // Rust's `Display` for unsigned integers

  /** The number of decimal digits of `n` (`n.ilog10() + 1` for `n >= 1`; one for zero). */
  function DigitCount(n: nat): (d: nat)
    ensures 1 <= d && n < Pow10(d)
    ensures n >= 1 ==> Pow10(d - 1) <= n
  {
    if n < 10 then 1 else 1 + DigitCount(n / 10)
  }

  /** The digit count of a number is determined by the power-of-ten interval it lies in. */
  lemma {:induction false} DigitCountIs(n: nat, d: nat)
    requires d >= 1 && Pow10(d - 1) <= n < Pow10(d)
    ensures DigitCount(n) == d
  {
    var e := DigitCount(n);
    if e < d {
      Pow10Monotone(e, d - 1);
    } else if e > d {
      Pow10Monotone(d, e - 1);
    }
  }

  lemma {:induction false} Pow10Monotone(a: nat, b: nat)
    requires a <= b
    ensures Pow10(a) <= Pow10(b)
  {
    if a < b {
      Pow10Monotone(a, b - 1);
    }
  }

  /** `format!("{}", n)`: the shortest decimal rendering of `n`. */
  function DecimalString(n: nat): (s: string)
    ensures AllDigits(s) && |s| == DigitCount(n)
    ensures DecimalValue(s) == n
  {
    ModSmall(n, Pow10(DigitCount(n)));
    DigitsValue(n, DigitCount(n));
    Digits(n, DigitCount(n))
  }

  /** The rendering has no leading zero, except for zero itself. */
  lemma {:induction false} DecimalStringCanonical(n: nat)
    ensures DecimalString(n)[0] != '0' || DecimalString(n) == "0"
  {
    var s := DecimalString(n);
    if |s| > 1 {
      var head, tail := s[..1], s[1..];
      assert s == head + tail;
      DecimalValueConcat(head, tail);
      assert DecimalValue(head) == DigitValue(s[0]);
    } else if s[0] == '0' {
      assert s == "0";
    }
  }

  // ---------------------------------------------------------------------
  // nom's `digit1` followed by `str::parse`

  /** The length of the run of decimal digits `s` starts with. */
  function LeadingDigits(s: string): (n: nat)
    ensures n <= |s| && AllDigits(s[..n])
    ensures n < |s| ==> !IsDigit(s[n])
  {
    if |s| > 0 && IsDigit(s[0]) then
      var n := 1 + LeadingDigits(s[1..]);
      assert s[..n] == [s[0]] + s[1..][..n - 1];
      n
    else 0
  }

  /**
   * `map_res(digit1, str::parse)` for an unsigned type whose largest value is `max`:
   * take the longest non-empty run of digits and fail if its value does not fit.
   */
  function ParseUnsigned(s: string, max: nat): (r: Option<(nat, string)>)
    ensures r.Some? <==> LeadingDigits(s) > 0 && DecimalValue(s[..LeadingDigits(s)]) <= max
    ensures r.Some? ==>
      var n := |s| - |r.value.1|;
      && 0 < n <= |s| && r.value.1 == s[n..]
      && AllDigits(s[..n]) && r.value.0 == DecimalValue(s[..n]) && r.value.0 <= max
      && (r.value.1 == [] || !IsDigit(r.value.1[0]))
  {
    var n := LeadingDigits(s);
    if n > 0 && DecimalValue(s[..n]) <= max then Some((DecimalValue(s[..n]), s[n..])) else None
  }

  lemma {:induction false} LeadingDigitsOfPrefix(t: string, rest: string)
    requires AllDigits(t)
    requires rest == [] || !IsDigit(rest[0])
    ensures LeadingDigits(t + rest) == |t|
  {
    if t != [] {
      assert (t + rest)[1..] == t[1..] + rest;
      LeadingDigitsOfPrefix(t[1..], rest);
    }
  }

  /** A non-empty run of digits followed by something that is not a digit parses as its value. */
  lemma {:induction false} ParseUnsignedPrefix(t: string, rest: string, max: nat)
    requires AllDigits(t) && t != [] && DecimalValue(t) <= max
    requires rest == [] || !IsDigit(rest[0])
    ensures ParseUnsigned(t + rest, max) == Some((DecimalValue(t), rest))
  {
    LeadingDigitsOfPrefix(t, rest);
    assert (t + rest)[..|t|] == t;
    assert (t + rest)[|t|..] == rest;
  }

  /** Parsing the rendering of a number that fits gives the number back, and stops at `rest`. */
  lemma {:induction false} ParseUnsignedDecimalString(n: nat, rest: string, max: nat)
    requires n <= max
    requires rest == [] || !IsDigit(rest[0])
    ensures ParseUnsigned(DecimalString(n) + rest, max) == Some((n, rest))
  {
    ParseUnsignedPrefix(DecimalString(n), rest, max);
  }
}
