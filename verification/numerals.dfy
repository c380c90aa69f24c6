/**
 * C# integer behaviour the evaluator depends on: reading ASCII digit strings
 * (`int.TryParse`), 32-bit signed addition in the default unchecked context,
 * and `int.ToString()` as used by string interpolation.
 */
module Numerals {
  import opened Options

  const MinInt32: int := -0x8000_0000
  const MaxInt32: int := 0x7FFF_FFFF
  const Modulus32: int := 0x1_0000_0000

  predicate IsDigit(c: char) {
    '0' <= c <= '9'
  }

  /** `IsDigitsOnly`: every character is an ASCII digit (true of the empty string). */
  predicate IsDigitsOnly(s: string) {
    forall i :: 0 <= i < |s| ==> IsDigit(s[i])
  }

  /** A digit-only string holds no sign, operator, white space or decimal point. */
  lemma DigitsOnlyExcludesNonDigits(s: string)
    requires IsDigitsOnly(s)
    ensures '+' !in s && '-' !in s && ' ' !in s && '\t' !in s && '.' !in s
  {
  }

  function DigitValue(c: char): nat
    requires IsDigit(c)
  {
    (c as int) - ('0' as int)
  }

  function Digit(d: nat): (c: char)
    requires d < 10
    ensures IsDigit(c) && DigitValue(c) == d
  {
    (('0' as int) + d) as char
  }

  /** The number a digit string denotes in decimal; leading zeros add nothing. */
  function Value(s: string): nat
    requires IsDigitsOnly(s)
  {
    if |s| == 0 then 0 else Value(s[..|s| - 1]) * 10 + DigitValue(s[|s| - 1])
  }

  /**
   * `int.TryParse` on a digit string: it succeeds exactly when the value fits
   * in an `int`. Sign and white space, which `int.TryParse` also accepts, never
   * reach it here because the digit check runs first.
   */
  function TryParseInt32(s: string): (r: Option<int>)
    ensures r.Some? ==> 0 <= r.value <= MaxInt32
  {
    if s != "" && IsDigitsOnly(s) && Value(s) <= MaxInt32 then Some(Value(s)) else None
  }

  /**
   * What `int.TryParse` accepts is the shortest decimal text of the value it
   * returns, preceded only by zeros; what it rejects is empty, holds a
   * non-digit, or exceeds `int.MaxValue`.
   */
  lemma TryParseReadsDecimal(s: string)
    ensures TryParseInt32(s).Some? ==> ZerosThen(s, FormatNat(TryParseInt32(s).value))
    ensures TryParseInt32(s).None? ==> s == "" || !IsDigitsOnly(s) || Value(s) > MaxInt32
  {
    if TryParseInt32(s).Some? {
      CanonicalAfterZeros(s);
    }
  }

  /** `s` is `t` preceded by nothing but `'0'` characters. */
  ghost predicate ZerosThen(s: string, t: string) {
    |t| <= |s| && s[|s| - |t|..] == t && forall i :: 0 <= i < |s| - |t| ==> s[i] == '0'
  }

  /** A digit string without a leading zero is the shortest decimal text of its value. */
  lemma {:induction false} CanonicalIsFormatted(s: string)
    requires s != "" && IsDigitsOnly(s) && (s[0] == '0' ==> s == "0")
    ensures FormatNat(Value(s)) == s
    decreases |s|
  {
    var c := s[|s| - 1];
    DigitRoundTrip(c);
    if |s| == 1 {
      assert s == [c];
    } else {
      var p := s[..|s| - 1];
      var d := DigitValue(c);
      CanonicalIsFormatted(p);
      LeadingDigitPositive(p);
      var n := Value(s);
      assert n == Value(p) * 10 + d;
      DivMod10(Value(p), d);
      assert FormatNat(n) == FormatNat(Value(p)) + [Digit(d)];
      assert s == p + [c];
    }
  }

  lemma DigitRoundTrip(c: char)
    requires IsDigit(c)
    ensures Digit(DigitValue(c)) == c
  {
  }

  lemma DivMod10(q: nat, d: nat)
    requires d < 10
    ensures (q * 10 + d) / 10 == q && (q * 10 + d) % 10 == d
  {
  }

  /** A digit string that starts with a non-zero digit has a positive value. */
  lemma LeadingDigitPositive(p: string)
    requires p != "" && IsDigitsOnly(p) && p[0] != '0'
    ensures Value(p) >= 1
  {
    ValueConcat([p[0]], p[1..]);
    assert [p[0]] + p[1..] == p;
    assert [p[0]][..0] == "";
  }

  /** Every non-empty digit string is the decimal text of its value after some zeros. */
  lemma {:induction false} CanonicalAfterZeros(s: string)
    requires s != "" && IsDigitsOnly(s)
    ensures ZerosThen(s, FormatNat(Value(s)))
    decreases |s|
  {
    if s[0] == '0' && |s| > 1 {
      var rest := s[1..];
      assert s == "0" + rest;
      LeadingZerosIgnored("0", rest);
      CanonicalAfterZeros(rest);
      ZerosThenAfterZero(rest, FormatNat(Value(rest)));
    } else {
      CanonicalIsFormatted(s);
    }
  }

  lemma ZerosThenAfterZero(rest: string, t: string)
    requires ZerosThen(rest, t)
    ensures ZerosThen("0" + rest, t)
  {
    var s := "0" + rest;
    assert s[|s| - |t|..] == rest[|rest| - |t|..];
    forall i | 0 <= i < |s| - |t| ensures s[i] == '0' {
      if i > 0 {
        assert s[i] == rest[i - 1];
      }
    }
  }

  /** C#'s unchecked `int` arithmetic: the 32-bit signed value congruent to `x`. */
  function Wrap32(x: int): (r: int)
    ensures MinInt32 <= r <= MaxInt32
    ensures (r - x) % Modulus32 == 0
  {
    (x - MinInt32) % Modulus32 + MinInt32
  }

  /** Adding two non-negative `int`s overflows to a negative value exactly when the sum exceeds `int.MaxValue`. */
  lemma Wrap32OfNonNegativeSum(a: int, b: int)
    requires 0 <= a <= MaxInt32 && 0 <= b <= MaxInt32
    ensures a + b <= MaxInt32 ==> Wrap32(a + b) == a + b
    ensures a + b > MaxInt32 ==> Wrap32(a + b) == a + b - Modulus32 < 0
  {
  }

  function Pow10(k: nat): (r: nat)
    ensures r > 0
  {
    if k == 0 then 1 else 10 * Pow10(k - 1)
  }

  lemma MulAssoc(x: int, y: int, z: int)
    ensures (x * y) * z == x * (y * z)
  {
  }

  /** Reading `a + b` reads `a`, shifts it past the digits of `b`, and adds `b`. */
  lemma {:induction false} ValueConcat(a: string, b: string)
    requires IsDigitsOnly(a) && IsDigitsOnly(b)
    ensures IsDigitsOnly(a + b)
    ensures Value(a + b) == Value(a) * Pow10(|b|) + Value(b)
    decreases |b|
  {
    if |b| > 0 {
      var b' := b[..|b| - 1];
      var d := DigitValue(b[|b| - 1]);
      assert (a + b)[..|a + b| - 1] == a + b';
      ValueConcat(a, b');
      calc {
        Value(a + b);
        Value(a + b') * 10 + d;
        (Value(a) * Pow10(|b'|) + Value(b')) * 10 + d;
        { MulAssoc(Value(a), Pow10(|b'|), 10); }
        Value(a) * (Pow10(|b'|) * 10) + (Value(b') * 10 + d);
        Value(a) * Pow10(|b|) + Value(b);
      }
    } else {
      assert a + b == a;
    }
  }

  /** Leading zeros do not change the value of a digit string. */
  lemma LeadingZerosIgnored(z: string, b: string)
    requires forall i :: 0 <= i < |z| ==> z[i] == '0'
    requires IsDigitsOnly(b)
    ensures IsDigitsOnly(z + b) && Value(z + b) == Value(b)
  {
    ZerosAreZero(z);
    ValueConcat(z, b);
  }

  lemma {:induction false} ZerosAreZero(z: string)
    requires forall i :: 0 <= i < |z| ==> z[i] == '0'
    ensures IsDigitsOnly(z) && Value(z) == 0
    decreases |z|
  {
    if |z| > 0 {
      ZerosAreZero(z[..|z| - 1]);
    }
  }

  /** The decimal text of `int.MaxValue`, and the next number up. */
  lemma MaxInt32Digits()
    ensures IsDigitsOnly("2147483647") && Value("2147483647") == MaxInt32
    ensures IsDigitsOnly("2147483648") && Value("2147483648") == MaxInt32 + 1
  {
    assert "21"[..1] == "2";
    assert "214"[..2] == "21";
    assert "2147"[..3] == "214";
    assert "21474"[..4] == "2147";
    assert "214748"[..5] == "21474";
    assert "2147483"[..6] == "214748";
    assert "21474836"[..7] == "2147483";
    assert "214748364"[..8] == "21474836";
    assert Value("214748364") == 214748364;
    assert "2147483647"[..9] == "214748364";
    assert "2147483648"[..9] == "214748364";
  }

  /** The shortest decimal digits of `n` (`n.ToString()` for `n >= 0`). */
  function FormatNat(n: nat): (r: string)
    ensures |r| > 0 && IsDigitsOnly(r)
    ensures Value(r) == n
    ensures r[0] == '0' ==> r == "0"
    decreases n
  {
    if n < 10 then [Digit(n)]
    else
      var r := FormatNat(n / 10) + [Digit(n % 10)];
      assert r[..|r| - 1] == FormatNat(n / 10);
      r
  }

  /** `n.ToString()` for an `int`: a minus sign, then the digits of the magnitude. */
  function FormatInt(n: int): (r: string)
    ensures |r| > 0
    ensures r[0] == '-' <==> n < 0
    ensures n >= 0 ==> IsDigitsOnly(r) && Value(r) == n && (r[0] == '0' ==> r == "0")
    ensures n < 0 ==> |r| > 1 && IsDigitsOnly(r[1..]) && Value(r[1..]) == -n && r[1] != '0'
  {
    if n < 0 then
      var r := "-" + FormatNat(-n);
      assert r[1..] == FormatNat(-n);
      r
    else FormatNat(n)
  }
}
