/**
  The decimal fixed-point value of `Fixed_Point`.

  A value is the triple (integer part, fraction, precision). It stands for
  `intPart + fracPart / 10^precision`: the sign of a parsed "-3.5" lands on the
  integer part only, so that string is (-3, 5, 1), i.e. -2.5. `Scaled` is that
  number multiplied by 10^precision, which keeps every statement in integers.

  The C++ class is a value type: `add` and `sub` are `const` and work on
  copies, and every setter rewrites the fields of one object. Here a value is a
  datatype and each setter is a function from the old value to the new one.
 */
module FixedPoints {
  import opened Decimal

  /** The largest precision `_normalize` accepts; larger requests are clamped to it. */
  const MaxPrecision: nat := 9

  /**
    `fracPart` is a signed integer, as the `long long` field is: a subtraction
    can leave it negative until the borrow step of `Normalize` repairs it.
   */
  datatype FixedPoint = FixedPoint(intPart: int, fracPart: int, precision: nat)

  /** What the default constructor builds: the number 0 at the largest precision. */
  function Zero(): (r: FixedPoint)
    ensures r.precision == MaxPrecision && Normalized(r)
  {
    FixedPoint(0, 0, 9)
  }

  /** The number the value stands for, times 10^precision. */
  function Scaled(x: FixedPoint): int {
    x.intPart * Pow10(x.precision) + x.fracPart
  }

  /** The shape `Normalize` aims for: precision within bounds, 0 <= fraction < 10^precision. */
  predicate Normalized(x: FixedPoint) {
    x.precision <= MaxPrecision && 0 <= x.fracPart < Pow10(x.precision)
  }

  /** A value in the `Normalized` shape is determined by its precision and scaled value. */
  lemma ScaledDetermines(x: FixedPoint, y: FixedPoint)
    requires Normalized(x) && Normalized(y) && x.precision == y.precision
    requires Scaled(x) == Scaled(y)
    ensures x == y
  {
    var m := Pow10(x.precision);
    DivModUnique(Scaled(x), m, x.intPart, x.fracPart);
    DivModUnique(Scaled(y), m, y.intPart, y.fracPart);
  }

  function Max(a: nat, b: nat): nat {
    if a >= b then a else b
  }

  /** 0 <= f < m stays true, scaled, after multiplying both sides by d >= 1. */
  lemma MulMonotone(a: int, b: int, d: int)
    requires a >= b && d >= 1
    ensures a * d >= b * d
  {
    assert (a - b) * d >= 0;
  }

  lemma MulBelow(f: int, m: int, d: int)
    requires 0 <= f < m && d >= 1
    ensures 0 <= f * d < m * d
  {
    MulMonotone(f, 0, d);
    MulMonotone(m, f + 1, d);
    assert (f + 1) * d == f * d + d;
  }

  lemma MulAddDistrib(i: int, m: int, f: int, d: int)
    ensures (i * m + f) * d == i * (m * d) + f * d
  {
  }

  // ---------------------------------------------------------------------------
  // _normalize
  // ---------------------------------------------------------------------------

  /** The precision `_normalize(requested)` settles on; 0 means "keep the current one". */
  function TargetPrecision(current: nat, requested: nat): (t: nat)
    ensures requested == 0 ==> t == current
    ensures requested > 0 ==> 1 <= t <= MaxPrecision && t <= requested
    ensures 0 < requested <= MaxPrecision ==> t == requested
  {
    if requested == 0 then current
    else if requested > MaxPrecision then MaxPrecision
    else requested
  }

  /**
    The fraction rewritten from `from` to `to` digits: multiplied by a power of
    ten when widening, divided (as a double, then truncated) when narrowing.
   */
  function Rescale(f: int, from: nat, to: nat): (r: int)
    ensures to >= from ==> r == f * Pow10(to - from)
    ensures to < from && f >= 0 ==> 0 <= r <= f
  {
    if to > from then f * Pow10(to - from)
    else if to < from then
      var d := Pow10(from - to);
      QuotientAtMost(f, d);
      Trunc((f as real) / (d as real))
    else f
  }

  /** Dividing a non-negative number by a divisor of at least 1 does not increase it. */
  lemma QuotientAtMost(f: int, d: int)
    requires d >= 1
    ensures f >= 0 ==> (f as real) / (d as real) <= f as real
  {
    if f >= 0 {
      var q := (f as real) / (d as real);
      assert q * (d as real) == f as real;
      assert q >= 0.0;
      assert q * ((d - 1) as real) >= 0.0;
    }
  }

  /**
    The carry step: a fraction of 10^precision or more moves its whole part
    into the integer part. The integer part is updated through a double,
    `int + frac / 10^p`, and truncated toward zero on the way back.
   */
  function Carry(x: FixedPoint): (r: FixedPoint)
    ensures r.precision == x.precision
    ensures x.fracPart >= Pow10(x.precision) ==> 0 <= r.fracPart < Pow10(x.precision)
    ensures x.fracPart < Pow10(x.precision) ==> r == x
  {
    var m := Pow10(x.precision);
    if x.fracPart >= m then
      FixedPoint(Trunc(x.intPart as real + (x.fracPart as real) / (m as real)), x.fracPart % m, x.precision)
    else x
  }

  /** The borrow step: a negative fraction takes one unit from the integer part. */
  function Borrow(x: FixedPoint): (r: FixedPoint)
    ensures r.precision == x.precision && Scaled(r) == Scaled(x)
    ensures -Pow10(x.precision) <= x.fracPart < Pow10(x.precision) ==> 0 <= r.fracPart < Pow10(x.precision)
  {
    var m := Pow10(x.precision);
    if x.fracPart < 0 then
      assert (x.intPart - 1) * m == x.intPart * m - m;
      FixedPoint(x.intPart - 1, x.fracPart + m, x.precision)
    else x
  }

  /** `_normalize(requested)`: choose the precision, rescale the fraction, carry once, borrow once. */
  function Normalize(x: FixedPoint, requested: nat): (r: FixedPoint)
    ensures r.precision == TargetPrecision(x.precision, requested)
    ensures x.fracPart >= -Pow10(x.precision) ==> 0 <= r.fracPart < Pow10(r.precision)
  {
    var target := TargetPrecision(x.precision, requested);
    var y := FixedPoint(x.intPart, Rescale(x.fracPart, x.precision, target), target);
    RescaledInRange(x, target);
    Borrow(Carry(y))
  }

  /** A fraction of at least -10^precision, rescaled, carried and borrowed, ends in [0, 10^target). */
  lemma RescaledInRange(x: FixedPoint, target: nat)
    ensures var r := Borrow(Carry(FixedPoint(x.intPart, Rescale(x.fracPart, x.precision, target), target)));
      r.precision == target &&
      (x.fracPart >= -Pow10(x.precision) ==> 0 <= r.fracPart < Pow10(target))
  {
    var y := FixedPoint(x.intPart, Rescale(x.fracPart, x.precision, target), target);
    if x.fracPart >= -Pow10(x.precision) {
      RescaleLowerBound(x.fracPart, x.precision, target);
    }
    CarryBorrow(y);
  }

  lemma NormalizePrecision(x: FixedPoint, requested: nat)
    ensures requested == 0 ==> Normalize(x, requested).precision == x.precision
    ensures requested > MaxPrecision ==> Normalize(x, requested).precision == MaxPrecision
    ensures 0 < requested <= MaxPrecision ==> Normalize(x, requested).precision == requested
  {
  }

  /** Widening by d digits is exact: the scaled number is multiplied by 10^d. */
  lemma RescaleWidens(i: int, f: int, from: nat, to: nat)
    requires from <= to
    ensures i * Pow10(to) + Rescale(f, from, to) == (i * Pow10(from) + f) * Pow10(to - from)
  {
    var m, d := Pow10(from), Pow10(to - from);
    assert Rescale(f, from, to) == f * d by {
      if to == from { assert d == 1; }
    }
    Pow10Add(from, to - from);
    assert Pow10(to) == m * d;
    MulAddDistrib(i, m, f, d);
  }

  /** Narrowing by d digits truncates: it drops the remainder modulo 10^d and never rounds up. */
  lemma RescaleTruncates(f: int, from: nat, to: nat)
    requires f >= 0 && to < from
    ensures var r := Rescale(f, from, to);
      0 <= r && 0 <= f - r * Pow10(from - to) < Pow10(from - to)
  {
    var d := Pow10(from - to);
    TruncQuotient(f, d);
  }

  /** The integer the carry step computes through a double, expressed on the scaled number. */
  lemma CarryIntPart(i: int, f: int, m: nat)
    requires m > 0
    ensures Trunc(i as real + (f as real) / (m as real)) == Trunc(((i * m + f) as real) / (m as real))
  {
    assert ((i * m + f) as real) / (m as real) == i as real + (f as real) / (m as real);
  }

  /**
    One carry and one borrow keep the scaled number, except that a carry whose
    double intermediate `int + frac / 10^p` is negative and not whole is
    truncated toward zero and so adds 10^p. A fraction of at least -10^p ends
    in [0, 10^p).
   */
  lemma CarryBorrow(x: FixedPoint)
    ensures var r := Borrow(Carry(x)); var m := Pow10(x.precision); var n := Scaled(x);
      r.precision == x.precision &&
      Scaled(r) == (if x.fracPart >= m && n < 0 && n % m != 0 then n + m else n) &&
      (x.fracPart >= -m ==> 0 <= r.fracPart < m)
  {
    var m := Pow10(x.precision);
    if x.fracPart >= m {
      CarryScaled(x);
      assert Borrow(Carry(x)) == Carry(x);
    }
  }

  /** The carry step alone, when it fires. */
  lemma CarryScaled(x: FixedPoint)
    requires x.fracPart >= Pow10(x.precision)
    ensures var c := Carry(x); var m := Pow10(x.precision); var n := Scaled(x);
      c.precision == x.precision && 0 <= c.fracPart < m &&
      Scaled(c) == (if n < 0 && n % m != 0 then n + m else n)
  {
    var m := Pow10(x.precision);
    var n := Scaled(x);
    CarryValue(x);
    var q, r := n / m, n % m;
    assert n == q * m + r;
    if n < 0 && r != 0 {
      assert (q + 1) * m == q * m + m;
    }
  }

  /** A carry that fires gives the truncated quotient and the remainder of the scaled number. */
  lemma CarryValue(x: FixedPoint)
    requires x.fracPart >= Pow10(x.precision)
    ensures var m := Pow10(x.precision); var n := Scaled(x);
      Carry(x) == FixedPoint(if n < 0 && n % m != 0 then n / m + 1 else n / m, n % m, x.precision)
  {
    CarryParts(x.intPart, x.fracPart, Pow10(x.precision));
  }

  /**
    The two parts line 157-158 compute, stated in terms of the scaled number
    n = i * m + f: the truncated double quotient and the remainder.
   */
  lemma CarryParts(i: int, f: int, m: nat)
    requires m > 0
    ensures var n := i * m + f;
      Trunc(i as real + (f as real) / (m as real)) == (if n < 0 && n % m != 0 then n / m + 1 else n / m) &&
      f % m == n % m
  {
    var n := i * m + f;
    CarryIntPart(i, f, m);
    TruncQuotient(n, m);
    var q, r := f / m, f % m;
    assert n == (i + q) * m + r by {
      MulAddDistrib(i, 1, q, m);
    }
    DivModUnique(n, m, i + q, r);
  }


  /**
    On a normalized value, a request at or above its precision widens exactly:
    the fraction gains trailing zeros and the number is unchanged.
   */
  lemma NormalizeWidens(x: FixedPoint, requested: nat)
    requires Normalized(x)
    requires TargetPrecision(x.precision, requested) >= x.precision
    ensures var t := TargetPrecision(x.precision, requested); var r := Normalize(x, requested);
      r == FixedPoint(x.intPart, x.fracPart * Pow10(t - x.precision), t) &&
      Normalized(r) && Scaled(r) == Scaled(x) * Pow10(t - x.precision)
  {
    var t := TargetPrecision(x.precision, requested);
    var d := Pow10(t - x.precision);
    var f := x.fracPart * d;
    assert Rescale(x.fracPart, x.precision, t) == f by {
      if t == x.precision { assert d == 1; }
    }
    Pow10Add(x.precision, t - x.precision);
    MulBelow(x.fracPart, Pow10(x.precision), d);
    var y := FixedPoint(x.intPart, f, t);
    assert Carry(y) == y && Borrow(y) == y;
    RescaleWidens(x.intPart, x.fracPart, x.precision, t);
  }

  /**
    On a normalized value, a request below its precision keeps the integer
    part and truncates the fraction: the scaled number loses its last digits.
   */
  lemma NormalizeNarrows(x: FixedPoint, requested: nat)
    requires Normalized(x)
    requires TargetPrecision(x.precision, requested) < x.precision
    ensures var t := TargetPrecision(x.precision, requested); var r := Normalize(x, requested);
      var d := Pow10(x.precision - t);
      r.intPart == x.intPart && r.precision == t && Normalized(r) &&
      0 <= Scaled(x) - Scaled(r) * d < d
  {
    var p := x.precision;
    var t := TargetPrecision(p, requested);
    var d := Pow10(p - t);
    var f := Rescale(x.fracPart, p, t);
    RescaleTruncates(x.fracPart, p, t);
    Pow10Add(t, p - t);
    assert f < Pow10(t) by {
      if f >= Pow10(t) {
        MulMonotone(f, Pow10(t), d);
      }
    }
    var y := FixedPoint(x.intPart, f, t);
    assert Carry(y) == y && Borrow(y) == y;
    assert Normalize(x, requested) == y;
    MulAddDistrib(x.intPart, Pow10(t), f, d);
  }

  /** Narrowing never pushes a fraction of at least -10^from below -10^to. */
  lemma RescaleLowerBound(f: int, from: nat, to: nat)
    requires f >= -Pow10(from)
    ensures Rescale(f, from, to) >= -Pow10(to)
  {
    if to > from {
      var d, m := Pow10(to - from), Pow10(from);
      Pow10Add(from, to - from);
      assert Rescale(f, from, to) == f * d;
      MulLowerBound(f, m, d);
    } else if to < from {
      var d, m := Pow10(from - to), Pow10(to);
      Pow10Add(to, from - to);
      assert Rescale(f, from, to) == Trunc((f as real) / (d as real));
      TruncLowerBound(f, m, d);
    }
  }

  lemma MulLowerBound(f: int, m: int, d: int)
    requires d >= 1 && f >= -m
    ensures f * d >= -(m * d)
  {
    MulMonotone(f, -m, d);
  }

  /** Dividing a number of at least -(m * d) by d and truncating gives at least -m. */
  lemma TruncLowerBound(f: int, m: int, d: int)
    requires d >= 1 && f >= -(m * d)
    ensures Trunc((f as real) / (d as real)) >= -m
  {
    TruncQuotient(f, d);
    QuotientLowerBound(f, m, d);
  }

  lemma QuotientLowerBound(f: int, m: int, d: int)
    requires d >= 1 && f >= -(m * d)
    ensures f / d >= -m
  {
    var q, r := f / d, f % d;
    assert f == q * d + r && r < d;
    assert (q + m + 1) * d == q * d + m * d + d;
    PositiveFactor(q + m + 1, d);
  }

  /** Nonnegative parts make a nonnegative scaled value. */
  lemma ScaledNonNegative(x: FixedPoint)
    ensures x.intPart >= 0 && x.fracPart >= 0 ==> Scaled(x) >= 0
  {
    if x.intPart >= 0 {
      MulMonotone(x.intPart, 0, Pow10(x.precision));
    }
  }

  lemma PositiveFactor(a: int, d: int)
    requires d >= 1 && a * d > 0
    ensures a > 0
  {
    if a <= 0 {
      MulMonotone(0, a, d);
    }
  }

  /** A normalized value at the precision a request settles on is left as it is. */
  lemma NormalizeFixesNormalized(x: FixedPoint, requested: nat)
    requires 0 <= x.fracPart < Pow10(x.precision)
    requires TargetPrecision(x.precision, requested) == x.precision
    ensures Normalize(x, requested) == x
  {
  }

  /**
    Normalizing twice with the same request gives what normalizing once gives,
    whenever the fraction is no lower than -10^precision.
   */
  lemma NormalizeIdempotent(x: FixedPoint, requested: nat)
    requires x.fracPart >= -Pow10(x.precision)
    ensures Normalize(Normalize(x, requested), requested) == Normalize(x, requested)
  {
    var t := TargetPrecision(x.precision, requested);
    var y := FixedPoint(x.intPart, Rescale(x.fracPart, x.precision, t), t);
    RescaleLowerBound(x.fracPart, x.precision, t);
    CarryBorrow(y);
    NormalizeFixesNormalized(Normalize(x, requested), requested);
  }

  // ---------------------------------------------------------------------------
  // Constructors and setters
  // ---------------------------------------------------------------------------

  /** `set_int_part`: replaces the integer part and does not normalize. */
  function SetIntPart(x: FixedPoint, i: int): (r: FixedPoint)
    ensures r.intPart == i && r.fracPart == x.fracPart && r.precision == x.precision
  {
    x.(intPart := i)
  }

  /**
    `set_frac_part`: replaces the fraction and normalizes at the current
    precision, so an oversized fraction carries into the integer part.
   */
  function SetFracPart(x: FixedPoint, f: nat): (r: FixedPoint)
    ensures r.precision == x.precision && 0 <= r.fracPart < Pow10(x.precision)
    ensures x.intPart >= 0 || f < Pow10(x.precision) ==>
      Scaled(r) == x.intPart * Pow10(x.precision) + f
  {
    CarryBorrow(x.(fracPart := f));
    ScaledNonNegative(x.(fracPart := f));
    NormalizeInPlace(x.(fracPart := f));
    Normalize(x.(fracPart := f), 0)
  }

  /** `set_precision`: `_normalize` with the requested precision. */
  function SetPrecision(x: FixedPoint, requested: nat): (r: FixedPoint)
    ensures Normalized(x) ==> Normalized(r)
    ensures Normalized(x) && r.precision >= x.precision ==>
      Scaled(r) == Scaled(x) * Pow10(r.precision - x.precision)
  {
    NormalizeKeepsNormalized(x, requested);
    Normalize(x, requested)
  }

  /** What `set_precision` promises, stated of `Normalize`: both directions of rescaling. */
  lemma NormalizeKeepsNormalized(x: FixedPoint, requested: nat)
    ensures var r := Normalize(x, requested);
      (Normalized(x) ==> Normalized(r)) &&
      (Normalized(x) && r.precision >= x.precision ==> Scaled(r) == Scaled(x) * Pow10(r.precision - x.precision))
  {
    if Normalized(x) {
      if TargetPrecision(x.precision, requested) >= x.precision {
        NormalizeWidens(x, requested);
      } else {
        NormalizeNarrows(x, requested);
      }
    }
  }

  /** `set(int, frac, precision)`: stores the triple, then normalizes at that precision. */
  function SetTriple(i: int, f: nat, p: nat): (r: FixedPoint)
    ensures r.precision == p && 0 <= r.fracPart < Pow10(p)
    ensures i >= 0 || f < Pow10(p) ==> Scaled(r) == i * Pow10(p) + f
  {
    CarryBorrow(FixedPoint(i, f, p));
    ScaledNonNegative(FixedPoint(i, f, p));
    NormalizeInPlace(FixedPoint(i, f, p));
    Normalize(FixedPoint(i, f, p), 0)
  }

  // ---------------------------------------------------------------------------
  // Addition and subtraction
  // ---------------------------------------------------------------------------

  /**
    `add`: both operands are copied and rescaled to the larger precision, the
    parts are added componentwise and the result is normalized once.
   */
  function Add(a: FixedPoint, b: FixedPoint): (r: FixedPoint)
    ensures r.precision == Max(a.precision, b.precision)
  {
    var p := Max(a.precision, b.precision);
    var a' := SetPrecision(a, p);
    var b' := SetPrecision(b, p);
    Normalize(FixedPoint(a'.intPart + b'.intPart, a'.fracPart + b'.fracPart, p), 0)
  }

  /** `sub`: as `Add`, with the parts subtracted componentwise. */
  function Sub(a: FixedPoint, b: FixedPoint): (r: FixedPoint)
    ensures r.precision == Max(a.precision, b.precision)
  {
    var p := Max(a.precision, b.precision);
    var a' := SetPrecision(a, p);
    var b' := SetPrecision(b, p);
    Normalize(FixedPoint(a'.intPart - b'.intPart, a'.fracPart - b'.fracPart, p), 0)
  }

  /** An operand rescaled to the common precision of `Add` and `Sub` is widened exactly. */
  lemma OperandWidens(x: FixedPoint, p: nat)
    requires Normalized(x) && x.precision <= p <= MaxPrecision
    ensures var r := SetPrecision(x, p);
      r.intPart == x.intPart && r.precision == p && Normalized(r) &&
      Scaled(r) == Scaled(x) * Pow10(p - x.precision)
  {
    assert TargetPrecision(x.precision, p) == p;
    NormalizeWidens(x, p);
  }

  /** Componentwise sums and differences at one precision add and subtract the scaled numbers. */
  lemma ScaledComponentwise(x: FixedPoint, y: FixedPoint)
    requires x.precision == y.precision
    ensures Scaled(FixedPoint(x.intPart + y.intPart, x.fracPart + y.fracPart, x.precision)) == Scaled(x) + Scaled(y)
    ensures Scaled(FixedPoint(x.intPart - y.intPart, x.fracPart - y.fracPart, x.precision)) == Scaled(x) - Scaled(y)
  {
    var m := Pow10(x.precision);
    assert (x.intPart + y.intPart) * m == x.intPart * m + y.intPart * m;
    assert (x.intPart - y.intPart) * m == x.intPart * m - y.intPart * m;
  }

  /**
    The sum of two normalized values is normalized at the larger precision P
    and equals the exact sum of the operands at P whenever the summed integer
    parts are non-negative; otherwise a carry through a negative double can
    leave it 10^P too large.
   */
  lemma AddSum(a: FixedPoint, b: FixedPoint)
    requires Normalized(a) && Normalized(b)
    ensures var p := Max(a.precision, b.precision); var r := Add(a, b);
      var exact := Scaled(a) * Pow10(p - a.precision) + Scaled(b) * Pow10(p - b.precision);
      r.precision == p && Normalized(r) &&
      (a.intPart + b.intPart >= 0 ==> Scaled(r) == exact) &&
      (Scaled(r) == exact || (exact < 0 && Scaled(r) == exact + Pow10(p)))
  {
    var p := Max(a.precision, b.precision);
    var a', b' := SetPrecision(a, p), SetPrecision(b, p);
    OperandWidens(a, p);
    OperandWidens(b, p);
    SumOfWidened(a, b, a', b', p);
    var s := FixedPoint(a'.intPart + b'.intPart, a'.fracPart + b'.fracPart, p);
    AddUnfolds(a, b);
    assert Add(a, b) == Normalize(s, 0);
  }

  /** `AddSum` once the operands are widened to the common precision p. */
  lemma SumOfWidened(a: FixedPoint, b: FixedPoint, a': FixedPoint, b': FixedPoint, p: nat)
    requires Normalized(a') && Normalized(b') && a'.precision == p && b'.precision == p
    requires a'.intPart == a.intPart && b'.intPart == b.intPart
    requires a.precision <= p && b.precision <= p
    requires Scaled(a') == Scaled(a) * Pow10(p - a.precision) && Scaled(b') == Scaled(b) * Pow10(p - b.precision)
    ensures var r := Normalize(FixedPoint(a'.intPart + b'.intPart, a'.fracPart + b'.fracPart, p), 0);
      var exact := Scaled(a) * Pow10(p - a.precision) + Scaled(b) * Pow10(p - b.precision);
      r.precision == p && Normalized(r) &&
      (a.intPart + b.intPart >= 0 ==> Scaled(r) == exact) &&
      (Scaled(r) == exact || (exact < 0 && Scaled(r) == exact + Pow10(p)))
  {
    var s := FixedPoint(a'.intPart + b'.intPart, a'.fracPart + b'.fracPart, p);
    WidenedSum(a', b');
    NormalizeInPlace(s);
    CarryBorrow(s);
  }

  lemma AddUnfolds(a: FixedPoint, b: FixedPoint)
    ensures var p := Max(a.precision, b.precision);
      var a', b' := SetPrecision(a, p), SetPrecision(b, p);
      Add(a, b) == Normalize(FixedPoint(a'.intPart + b'.intPart, a'.fracPart + b'.fracPart, p), 0)
  {
  }

  lemma SubUnfolds(a: FixedPoint, b: FixedPoint)
    ensures var p := Max(a.precision, b.precision);
      var a', b' := SetPrecision(a, p), SetPrecision(b, p);
      Sub(a, b) == Normalize(FixedPoint(a'.intPart - b'.intPart, a'.fracPart - b'.fracPart, p), 0)
  {
  }

  /** The componentwise sum of two normalized values at one precision, before normalizing. */
  lemma WidenedSum(x: FixedPoint, y: FixedPoint)
    requires x.precision == y.precision && Normalized(x) && Normalized(y)
    ensures var s := FixedPoint(x.intPart + y.intPart, x.fracPart + y.fracPart, x.precision);
      Scaled(s) == Scaled(x) + Scaled(y) && 0 <= s.fracPart &&
      (x.intPart + y.intPart >= 0 ==> Scaled(s) >= 0)
  {
    ScaledComponentwise(x, y);
    if x.intPart + y.intPart >= 0 {
      MulMonotone(x.intPart + y.intPart, 0, Pow10(x.precision));
    }
  }

  /**
    The difference of two normalized values needs at most one borrow: it is
    normalized at the larger precision P and equals the exact difference at P.
   */
  lemma SubDifference(a: FixedPoint, b: FixedPoint)
    requires Normalized(a) && Normalized(b)
    ensures var p := Max(a.precision, b.precision); var r := Sub(a, b);
      r.precision == p && Normalized(r) &&
      Scaled(r) == Scaled(a) * Pow10(p - a.precision) - Scaled(b) * Pow10(p - b.precision)
  {
    var p := Max(a.precision, b.precision);
    OperandWidens(a, p);
    OperandWidens(b, p);
    var a', b' := SetPrecision(a, p), SetPrecision(b, p);
    var s := FixedPoint(a'.intPart - b'.intPart, a'.fracPart - b'.fracPart, p);
    SubUnfolds(a, b);
    NormalizeInPlace(s);
    ScaledComponentwise(a', b');
    assert s.fracPart >= -Pow10(p) && s.fracPart < Pow10(p);
    CarryBorrow(s);
  }

  /** Normalizing at the value's own precision is one carry and one borrow. */
  lemma NormalizeInPlace(x: FixedPoint)
    ensures Normalize(x, 0) == Borrow(Carry(x))
  {
    assert Rescale(x.fracPart, x.precision, x.precision) == x.fracPart;
  }

  /** `Add` ignores the order of its operands. */
  lemma AddCommutes(a: FixedPoint, b: FixedPoint)
    ensures Add(a, b) == Add(b, a)
  {
    var p := Max(a.precision, b.precision);
    assert Max(b.precision, a.precision) == p;
    var a', b' := SetPrecision(a, p), SetPrecision(b, p);
    assert FixedPoint(a'.intPart + b'.intPart, a'.fracPart + b'.fracPart, p) ==
      FixedPoint(b'.intPart + a'.intPart, b'.fracPart + a'.fracPart, p);
  }


  // ---------------------------------------------------------------------------
  // Parsing: `_set` and the string constructor
  // ---------------------------------------------------------------------------

  /** `find('.')`: the index of the first '.', or |s| when there is none. */
  function FirstDot(s: string): (k: nat)
    ensures k <= |s|
    ensures k < |s| ==> s[k] == '.'
    ensures forall j :: 0 <= j < k ==> s[j] != '.'
  {
    if s == [] || s[0] == '.' then 0 else 1 + FirstDot(s[1..])
  }

  /** The text before the first '.'. */
  function IntegerText(s: string): string {
    s[..FirstDot(s)]
  }

  /** The text after the first '.'. */
  function FractionText(s: string): string {
    if FirstDot(s) < |s| then s[FirstDot(s) + 1..] else []
  }

  /**
    The strings the model parses: an optional '-', digits, '.', and one to
    nine digits. (`stoll`/`stoull` accept more; see the README.)
   */
  predicate IsDecimal(s: string) {
    FirstDot(s) < |s| && IsSignedDigits(IntegerText(s)) && IsDigits(FractionText(s)) &&
    1 <= |FractionText(s)| <= MaxPrecision
  }

  /** `_set`: split at the first '.', `stoll` the left side, `stoull` the right side, count its digits. */
  function ParseParts(s: string): (r: FixedPoint)
    requires IsDecimal(s)
    ensures Normalized(r) && r.precision == |FractionText(s)|
  {
    var k := FirstDot(s);
    FixedPoint(StoLL(s[..k]), DigitsValue(s[k + 1..]), |s| - k - 1)
  }

  /** A signed integer text, a point and one to nine digits parse into exactly those parts. */
  lemma ParseOfParts(intText: string, fracText: string)
    requires IsSignedDigits(intText) && IsDigits(fracText) && 1 <= |fracText| <= MaxPrecision
    ensures var s := intText + "." + fracText;
      IsDecimal(s) && FromString(s) == FixedPoint(StoLL(intText), DigitsValue(fracText), |fracText|)
  {
    SignedDigitsHaveNoPoint(intText);
    FirstDotOfJoin(intText, fracText);
    JoinAtPoint(intText, fracText);
  }

  /** A signed digit string holds no '.'. */
  lemma SignedDigitsHaveNoPoint(t: string)
    requires IsSignedDigits(t)
    ensures forall j :: 0 <= j < |t| ==> t[j] != '.'
  {
    forall j | 0 <= j < |t| ensures t[j] != '.' {
      if t[0] == '-' && j > 0 {
        assert t[j] == t[1..][j - 1];
      }
    }
  }

  /** The first '.' of `a + "." + d` is the joining one when `a` holds none. */
  lemma FirstDotOfJoin(a: string, d: string)
    requires forall j :: 0 <= j < |a| ==> a[j] != '.'
    ensures FirstDot(a + "." + d) == |a|
  {
    var s := a + "." + d;
    assert s[|a|] == '.';
    assert forall j :: 0 <= j < |a| ==> s[j] == a[j];
  }


  /**
    The string constructor (and `set(string)`): `_set`, then `_normalize()`.
    The parsed fraction is already below 10^precision, so normalizing keeps
    the parsed triple: leading zeros of the fraction count towards the
    precision but not the fraction.
   */
  function FromString(s: string): (r: FixedPoint)
    requires IsDecimal(s)
    ensures r.intPart == StoLL(IntegerText(s))
    ensures r.fracPart == DigitsValue(FractionText(s)) && r.precision == |FractionText(s)|
    ensures Normalized(r)
  {
    NormalizeFixesNormalized(ParseParts(s), 0);
    Normalize(ParseParts(s), 0)
  }

  // ---------------------------------------------------------------------------
  // Rendering: `get_string_value`
  // ---------------------------------------------------------------------------

  /** The fraction's digits fitted to p places: zero-padded on the left, or cut on the right. */
  function FitFraction(t: string, p: nat): (r: string)
    ensures |r| == p
    ensures IsDigits(t) ==> IsDigits(r)
    ensures IsDigits(t) && |t| <= p ==> DigitsValue(r) == DigitsValue(t)
  {
    if |t| < p then
      assert IsDigits(t) ==> IsDigits(Zeros(p - |t|) + t) && DigitsValue(Zeros(p - |t|) + t) == DigitsValue(t) by {
        if IsDigits(t) {
          LeadingZerosValue(p - |t|, t);
        }
      }
      Zeros(p - |t|) + t
    else if |t| > p then t[..p]
    else t
  }

  /**
    `get_string_value`: precision 0 shows the integer only, precision 1 shows
    the fraction's digits as they are, and a wider precision shows the integer
    only when the fraction is 0, else the fraction fitted to `precision` places.
   */
  function ToString(x: FixedPoint): (r: string)
    ensures x.precision >= 2 && x.fracPart != 0 ==> |r| == |IntToString(x.intPart)| + 1 + x.precision
  {
    var intText := IntToString(x.intPart);
    var fracText := IntToString(x.fracPart);
    if x.precision == 0 then intText
    else if x.precision == 1 then intText + "." + fracText
    else if fracText == "0" then intText
    else intText + "." + FitFraction(fracText, x.precision)
  }

  /** Precision 0, and a zero fraction at precision 2 or more, render without a point. */
  lemma RenderWholeNumber(x: FixedPoint)
    requires x.precision == 0 || (x.precision >= 2 && x.fracPart == 0)
    ensures ToString(x) == IntToString(x.intPart)
  {
  }

  /**
    Otherwise a normalized value renders as its integer, a point, and exactly
    `precision` digits that spell the fraction.
   */
  lemma RenderFraction(x: FixedPoint)
    requires 1 <= x.precision && 0 <= x.fracPart < Pow10(x.precision)
    requires x.precision == 1 || x.fracPart != 0
    ensures var intText := IntToString(x.intPart); var k := |intText|; var s := ToString(x);
      |s| == k + 1 + x.precision && s[..k] == intText && s[k] == '.' &&
      IsDigits(s[k + 1..]) && DigitsValue(s[k + 1..]) == x.fracPart
  {
    var p := x.precision;
    var t := NatToString(x.fracPart);
    PaddedDigits(x.fracPart, p);
    var d := Zeros(p - |t|) + t;
    RenderPoint(x);
    JoinAtPoint(IntToString(x.intPart), d);
  }

  /** When the point is rendered, the fraction's digits are zero-padded to `precision` places. */
  lemma RenderPoint(x: FixedPoint)
    requires 1 <= x.precision && 0 <= x.fracPart < Pow10(x.precision)
    requires x.precision == 1 || x.fracPart != 0
    ensures var t := NatToString(x.fracPart);
      |t| <= x.precision &&
      ToString(x) == IntToString(x.intPart) + "." + (Zeros(x.precision - |t|) + t)
  {
    var p := x.precision;
    var t := NatToString(x.fracPart);
    assert IntToString(x.fracPart) == t;
    NatToStringLength(x.fracPart, p);
    if p == 1 {
      assert Zeros(0) + t == t;
    } else {
      assert t != "0";
      if |t| == p {
        assert Zeros(0) + t == t;
      }
      assert FitFraction(t, p) == Zeros(p - |t|) + t;
    }
  }

  /** The pieces of `a + "." + d`. */
  lemma JoinAtPoint(a: string, d: string)
    ensures var s := a + "." + d;
      |s| == |a| + 1 + |d| && s[..|a|] == a && s[|a|] == '.' && s[|a| + 1..] == d
  {
    var s := a + "." + d;
    assert s[..|a|] == a;
    assert s[|a| + 1..] == d;
  }

  /** Parsing what `ToString` renders gives the value back (when the point is rendered). */
  lemma ParseRender(x: FixedPoint)
    requires Normalized(x) && 1 <= x.precision
    requires x.precision == 1 || x.fracPart != 0
    ensures IsDecimal(ToString(x)) && FromString(ToString(x)) == x
  {
    var s := ToString(x);
    var intText := IntToString(x.intPart);
    var k := |intText|;
    RenderFraction(x);
    IntToStringParses(x.intPart);
    assert forall j :: 0 <= j < k ==> s[j] != '.' by {
      forall j | 0 <= j < k ensures s[j] != '.' {
        assert s[j] == intText[j];
      }
    }
    assert FirstDot(s) == k;
    assert IntegerText(s) == intText;
  }

  /** An integer text `to_string` would print: no "-0", no redundant leading zero. */
  predicate CanonicalInteger(t: string) {
    IsSignedDigits(t) && |t| >= 1 &&
    if t[0] == '-' then |t| >= 2 && t[1] != '0' else t[0] != '0' || |t| == 1
  }

  /** A decimal string that survives the round trip: canonical integer, fraction nonzero or one digit. */
  predicate CanonicalDecimal(s: string) {
    IsDecimal(s) && CanonicalInteger(IntegerText(s)) &&
    (|FractionText(s)| == 1 || DigitsValue(FractionText(s)) != 0)
  }

  lemma CanonicalIntegerRenders(t: string)
    requires CanonicalInteger(t)
    ensures IntToString(StoLL(t)) == t
  {
    if t[0] == '-' {
      var digits := t[1..];
      assert !IsDigit(t[0]);
      assert IsDigits(digits) && digits[0] == t[1];
      NatToStringOfDigits(digits);
      var v: int := DigitsValue(digits);
      assert v != 0;
      assert StoLL(t) == -v;
      assert IntToString(-v) == "-" + NatToString(v);
      assert t == "-" + digits;
    } else {
      NatToStringOfDigits(t);
    }
  }

  /** A decimal string is its integer text, a point and its fraction text. */
  lemma DecimalSplits(s: string)
    requires IsDecimal(s)
    ensures s == IntegerText(s) + "." + FractionText(s)
  {
    var k := FirstDot(s);
    assert s == s[..k] + [s[k]] + s[k + 1..];
  }

  /** Rendering a parsed canonical decimal string gives back the same string. */
  lemma RenderParse(s: string)
    requires CanonicalDecimal(s)
    ensures ToString(FromString(s)) == s
  {
    var x := FromString(s);
    var intText, fracText := IntegerText(s), FractionText(s);
    var k := |intText|;
    CanonicalIntegerRenders(intText);
    assert IntToString(x.intPart) == intText;
    RenderFraction(x);
    var r := ToString(x);
    var rest := r[k + 1..];
    assert |rest| == |fracText| && IsDigits(rest) && DigitsValue(rest) == DigitsValue(fracText);
    DigitsUnique(rest, fracText);
    DecimalSplits(s);
    assert r == r[..k] + [r[k]] + rest;
  }

  // ---------------------------------------------------------------------------
  // Worked values
  // ---------------------------------------------------------------------------

  /** "30.000456" parses to (30, 456, 6): the fraction's leading zeros set the precision only. */
  lemma ParseExample()
    ensures IsDecimal("30.000456") && FromString("30.000456") == FixedPoint(30, 456, 6)
  {
    Digits456();
    LeadingZerosValue(3, "456");
    assert Zeros(3) + "456" == "000456";
    ParseOfParts("30", "000456");
    assert DigitsValue("30") == 30;
    assert "30" + "." + "000456" == "30.000456";
  }

  lemma Digits456()
    ensures IsDigits("456") && DigitsValue("456") == 456
  {
    assert "456"[..2] == "45" && "45"[..1] == "4";
  }

  /** "10.00" renders as "10", a string without the point. */
  lemma ZeroFractionExample()
    ensures IsDecimal("10.00") && ToString(FromString("10.00")) == "10"
  {
    ParseOfParts("10", "00");
    assert "10" + "." + "00" == "10.00";
    assert DigitsValue("10") == 10 && DigitsValue("00") == 0;
    RenderWholeNumber(FixedPoint(10, 0, 2));
    assert NatToString(10) == NatToString(1) + "0";
  }

  /** `set_precision(3)` on 3.5 appends zeros; a request of 15 is clamped to 9. */
  lemma SetPrecisionExample()
    ensures SetPrecision(FixedPoint(3, 5, 1), 3) == FixedPoint(3, 500, 3)
    ensures SetPrecision(FixedPoint(3, 5, 1), 15) == FixedPoint(3, 500000000, 9)
  {
  }

  /** 1.9 + 0.2 carries into the integer part. */
  lemma CarryExample()
    ensures Add(FixedPoint(1, 9, 1), FixedPoint(0, 2, 1)) == FixedPoint(2, 1, 1)
  {
    var a, b := FixedPoint(1, 9, 1), FixedPoint(0, 2, 1);
    AddSum(a, b);
    ScaledDetermines(Add(a, b), FixedPoint(2, 1, 1));
  }

  /** 1.0 - 0.1 borrows from the integer part. */
  lemma BorrowExample()
    ensures Sub(FixedPoint(1, 0, 1), FixedPoint(0, 1, 1)) == FixedPoint(0, 9, 1)
  {
    var a, b := FixedPoint(1, 0, 1), FixedPoint(0, 1, 1);
    NormalizeFixesNormalized(a, 1);
    NormalizeFixesNormalized(b, 1);
    SubUnfolds(a, b);
    var s := FixedPoint(1, -1, 1);
    NormalizeInPlace(s);
    CarryBorrow(s);
    ScaledDetermines(Sub(a, b), FixedPoint(0, 9, 1));
  }

  /** 40.000456 - 20.0123 is 19.988156 at the larger precision 6. */
  lemma SubExample()
    ensures Sub(FixedPoint(40, 456, 6), FixedPoint(20, 123, 4)) == FixedPoint(19, 988156, 6)
  {
    var a, b := FixedPoint(40, 456, 6), FixedPoint(20, 123, 4);
    SubDifference(a, b);
    ScaledDetermines(Sub(a, b), FixedPoint(19, 988156, 6));
  }

  /**
    "-5.5" is (-5, 5, 1), which stands for -4.5; adding 0.7 should give -3.8
    (scaled -38), but the carry truncates -3.8 toward zero and the result is
    (-3, 2, 1), which stands for -2.8 (scaled -28).
   */
  lemma NegativeCarryExample()
    ensures FromString("-5.5") == FixedPoint(-5, 5, 1)
    ensures Add(FixedPoint(-5, 5, 1), FixedPoint(0, 7, 1)) == FixedPoint(-3, 2, 1)
    ensures Scaled(FixedPoint(-5, 5, 1)) + Scaled(FixedPoint(0, 7, 1)) == -38
    ensures Scaled(FixedPoint(-3, 2, 1)) == -28
  {
    NegativeParse();
    var a, b := FixedPoint(-5, 5, 1), FixedPoint(0, 7, 1);
    NormalizeFixesNormalized(a, 1);
    NormalizeFixesNormalized(b, 1);
    AddUnfolds(a, b);
    var s := FixedPoint(-5, 12, 1);
    NormalizeInPlace(s);
    CarryBorrow(s);
    ScaledDetermines(Add(a, b), FixedPoint(-3, 2, 1));
  }

  /** The text "-5.5" parses to (-5, 5, 1). */
  lemma NegativeParse()
    ensures FromString("-5.5") == FixedPoint(-5, 5, 1)
  {
    ParseOfParts("-5", "5");
    assert "-5" + "." + "5" == "-5.5";
    assert "-5"[1..] == "5";
  }

}
