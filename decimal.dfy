/**
  Decimal digit strings and exact powers of ten.

  This module models the pieces of the C++ standard library that the
  fixed-point class leans on: `pow(10, k)` (as the exact integer 10^k),
  `std::to_string` on integers, and `stoll` / `stoull` on well-formed digit
  strings.
 */
module Decimal {

  /** 10^k as an exact integer (the C++ code computes it with `pow` in double). */
  function Pow10(k: nat): (r: int)
    ensures r >= 1
    ensures k > 0 ==> r >= 10
  {
    if k == 0 then 1 else 10 * Pow10(k - 1)
  }

  lemma {:induction false} Pow10Add(a: nat, b: nat)
    ensures Pow10(a + b) == Pow10(a) * Pow10(b)
  {
    if b > 0 {
      Pow10Add(a, b - 1);
      calc {
        Pow10(a + b);
        10 * Pow10(a + b - 1);
        10 * (Pow10(a) * Pow10(b - 1));
        Pow10(a) * (10 * Pow10(b - 1));
        Pow10(a) * Pow10(b);
      }
    }
  }

  /** Integer division and remainder are determined by the quotient-remainder equation. */
  lemma DivModUnique(n: int, m: int, q: int, r: int)
    requires m > 0 && 0 <= r < m && n == q * m + r
    ensures n / m == q && n % m == r
  {
    var q', r' := n / m, n % m;
    var d := q - q';
    assert d * m == r' - r by {
      assert q * m + r == q' * m + r';
      assert d * m == q * m - q' * m;
    }
  }

  /**
    Conversion of a double to `long long`: truncation toward zero. The model
    computes the double expressions of `lecture5_ex3.cpp` as exact rationals
    (`real`), so only this final truncation is kept.
   */
  function Trunc(v: real): (r: int)
    ensures v >= 0.0 ==> r >= 0 && r as real <= v < r as real + 1.0
    ensures v < 0.0 ==> r <= 0 && r as real - 1.0 < v <= r as real
  {
    if v >= 0.0 then v.Floor else -((-v).Floor)
  }

  lemma FloorQuotient(n: int, m: int)
    requires m > 0
    ensures ((n as real) / (m as real)).Floor == n / m
  {
    var q, r := n / m, n % m;
    assert (n as real) == (q as real) * (m as real) + (r as real);
    assert (n as real) / (m as real) == (q as real) + (r as real) / (m as real);
    assert 0.0 <= (r as real) / (m as real) < 1.0;
  }

  /**
    Truncating a quotient toward zero agrees with Dafny's floor division except
    for a negative dividend that is not a multiple of the divisor, where it is
    one more.
   */
  lemma TruncQuotient(a: int, b: int)
    requires b > 0
    ensures Trunc((a as real) / (b as real)) == if a < 0 && a % b != 0 then a / b + 1 else a / b
  {
    var v := (a as real) / (b as real);
    if a >= 0 {
      FloorQuotient(a, b);
    } else {
      assert v < 0.0;
      assert -v == ((-a) as real) / (b as real);
      FloorQuotient(-a, b);
      var q, r := a / b, a % b;
      if r == 0 {
        DivModUnique(-a, b, -q, 0);
      } else {
        DivModUnique(-a, b, -q - 1, b - r);
      }
    }
  }

  predicate IsDigit(c: char) { '0' <= c <= '9' }

  predicate IsDigits(s: string) {
    forall i :: 0 <= i < |s| ==> IsDigit(s[i])
  }

  function DigitValue(c: char): (d: nat)
    requires IsDigit(c)
    ensures d < 10
  {
    (c as int - '0' as int) as nat
  }

  function DigitChar(d: nat): (c: char)
    requires d < 10
    ensures IsDigit(c) && DigitValue(c) == d
  {
    ('0' as int + d) as char
  }

  /** The number a string of decimal digits denotes (leading zeros allowed, "" is 0). */
  function DigitsValue(s: string): (v: nat)
    requires IsDigits(s)
    ensures v < Pow10(|s|)
  {
    if s == [] then 0
    else
      var init := s[..|s| - 1];
      assert IsDigits(init);
      DigitsValue(init) * 10 + DigitValue(s[|s| - 1])
  }

  /** `std::to_string` of a non-negative integer: its shortest decimal digits. */
  function NatToString(n: nat): (s: string)
    ensures |s| >= 1 && IsDigits(s) && DigitsValue(s) == n
    ensures n == 0 <==> s == "0"
    ensures n > 0 ==> s[0] != '0'
  {
    if n < 10 then [DigitChar(n)]
    else
      var init := NatToString(n / 10);
      var s := init + [DigitChar(n % 10)];
      assert s[..|s| - 1] == init;
      s
  }

  /** `std::to_string` of a signed integer. */
  function IntToString(i: int): (t: string)
    ensures |t| >= 1 && (t[0] == '-' <==> i < 0)
  {
    if i < 0 then "-" + NatToString(-i) else NatToString(i)
  }

  /** An optional minus sign followed by at least one digit: the input `stoll` accepts here. */
  predicate IsSignedDigits(s: string) {
    (|s| >= 1 && IsDigits(s)) || (|s| >= 2 && s[0] == '-' && IsDigits(s[1..]))
  }

  /** `stoll` on a well-formed signed digit string; note that "-0" gives 0. */
  function StoLL(s: string): (r: int)
    requires IsSignedDigits(s)
    ensures s[0] == '-' ==> -Pow10(|s| - 1) < r <= 0
    ensures s[0] != '-' ==> 0 <= r < Pow10(|s|)
  {
    if s[0] == '-' then -(DigitsValue(s[1..]) as int) else DigitsValue(s)
  }

  function Zeros(k: nat): (z: string)
    ensures |z| == k && IsDigits(z)
  {
    seq(k, _ => '0')
  }

  /** `stoll` undoes `to_string` on every integer. */
  lemma IntToStringParses(i: int)
    ensures IsSignedDigits(IntToString(i)) && StoLL(IntToString(i)) == i
    ensures '.' !in IntToString(i)
  {
    var t := IntToString(i);
    if i < 0 {
      assert t[1..] == NatToString(-i);
      assert !IsDigit(t[0]);
    }
    assert forall k :: 0 <= k < |t| ==> t[k] == '-' || IsDigit(t[k]);
  }

  /** Two digit strings of the same length that denote the same number are equal. */
  lemma {:induction false} DigitsUnique(s: string, t: string)
    requires IsDigits(s) && IsDigits(t) && |s| == |t|
    requires DigitsValue(s) == DigitsValue(t)
    ensures s == t
  {
    if s != [] {
      var n := |s|;
      LastDigit(s);
      LastDigit(t);
      DigitsUnique(s[..n - 1], t[..n - 1]);
      assert s[n - 1] as int == t[n - 1] as int;
      assert s == s[..n - 1] + [s[n - 1]] && t == t[..n - 1] + [t[n - 1]];
    }
  }

  /** The last digit of a digit string is its value modulo 10; the rest is the quotient. */
  lemma LastDigit(s: string)
    requires IsDigits(s) && s != []
    ensures IsDigits(s[..|s| - 1])
    ensures DigitsValue(s) / 10 == DigitsValue(s[..|s| - 1])
    ensures DigitsValue(s) % 10 == DigitValue(s[|s| - 1])
  {
    var init := s[..|s| - 1];
    assert IsDigits(init);
    DivModUnique(DigitsValue(s), 10, DigitsValue(init), DigitValue(s[|s| - 1]));
  }

  /** Leading zeros do not change the number a digit string denotes. */
  lemma {:induction false} LeadingZerosValue(k: nat, t: string)
    requires IsDigits(t)
    ensures IsDigits(Zeros(k) + t) && DigitsValue(Zeros(k) + t) == DigitsValue(t)
  {
    var s := Zeros(k) + t;
    assert IsDigits(s);
    if t == [] {
      assert s == Zeros(k);
      if k > 0 {
        assert s[..|s| - 1] == Zeros(k - 1) + [];
        LeadingZerosValue(k - 1, []);
      }
    } else {
      var ti := t[..|t| - 1];
      assert s[..|s| - 1] == Zeros(k) + ti;
      LeadingZerosValue(k, ti);
    }
  }

  /** A number below 10^p has at most p digits. */
  lemma {:induction false} NatToStringLength(v: nat, p: nat)
    requires p >= 1 && v < Pow10(p)
    ensures |NatToString(v)| <= p
  {
    if v >= 10 {
      assert p >= 2;
      assert v / 10 < Pow10(p - 1);
      NatToStringLength(v / 10, p - 1);
    }
  }

  /** `to_string(stoull(s)) == s` when s has no superfluous leading zero. */
  lemma {:induction false} NatToStringOfDigits(s: string)
    requires |s| >= 1 && IsDigits(s) && (s[0] != '0' || |s| == 1)
    ensures NatToString(DigitsValue(s)) == s
  {
    var n := |s|;
    var v := DigitsValue(s);
    if n == 1 {
      assert s == [DigitChar(v)];
    } else {
      var init := s[..n - 1];
      assert IsDigits(init) && init[0] == s[0];
      NatToStringOfDigits(init);
      LastDigit(s);
      assert DigitsValue(init) != 0;
      assert s == init + [DigitChar(v % 10)];
    }
  }

  /**
    The digits of a positive fraction, left-padded with zeros to p places,
    are the only p-digit spelling of that number.
   */
  lemma PaddedDigits(v: nat, p: nat)
    requires p >= 1 && v < Pow10(p)
    ensures |NatToString(v)| <= p
    ensures var d := Zeros(p - |NatToString(v)|) + NatToString(v);
      |d| == p && IsDigits(d) && DigitsValue(d) == v
  {
    NatToStringLength(v, p);
    LeadingZerosValue(p - |NatToString(v)|, NatToString(v));
  }
}
