# Fixed-point decimals and an accumulator calculator, in Dafny

This project models `i2p2/src/class/lecture5_ex3.cpp`. It has two parts.

- `Fixed_Point` is a decimal fixed-point value. It is a triple: a signed integer part, a signed
  fraction, and a precision (the number of fraction digits). The triple `(i, f, p)` stands for
  `i + f / 10^p`. The sign of a parsed string applies to the integer part only, so "-3.5" is
  `(-3, 5, 1)`, which is -2.5. `Scaled(x) = i * 10^p + f` is that number times `10^p`, and every
  statement about values is made with it.
- `Fp_Calc` holds a current value, an input value and a pending operator character. Each operator
  method (`add`, `sub`, `mul`, `div`, `assign`) first applies the operator queued by the previous
  call, then queues its own.

Files:

- `decimal.dfy` (module `Decimal`) covers the library pieces the class uses. `pow(10, k)` is the
  exact integer `Pow10(k)`. The conversion of a double back to `long long` is `Trunc`, truncation
  toward zero. `std::to_string` is `NatToString`/`IntToString`, and `stoll`/`stoull` on digit
  strings are `StoLL`/`DigitsValue`.
- `fixed_point.dfy` (module `FixedPoints`) holds the value type. `Fixed_Point` is copied freely and
  its `add`/`sub` are `const`, so it is a datatype and each setter is a function from the old
  value to the new one.
  - `_normalize` is `Normalize`, written as its four steps: `TargetPrecision`, `Rescale`, `Carry`
    and `Borrow`.
  - The triple constructor is the datatype constructor `FixedPoint(i, f, p)`, which stores the
    triple verbatim. The default constructor is `Zero = (0, 0, 9)`. The string constructor and
    `set(string)` are `FromString`.
  - The getters `get_int_part`, `get_frac_part` and `get_precision` are the datatype fields
    `intPart`, `fracPart` and `precision`.
  - `add` and `sub` work on copies. Their operands are values, so they cannot change.
- `calculator.dfy` (module `Calculator`) holds `Fp_Calc`. It is a class whose methods reassign
  `current`, `input` and `op`. `Apply` is `_calc_result` on values. `Valid()` says that both values
  are normalized and that `op` is one of `' '`, `'+'`, `'-'`, `'*'`, `'/'`. The constructor
  establishes `Valid()` and every method keeps it.

The double expressions of `_normalize` are computed as exact rationals (`real`); only their
truncation back to `long long`, toward zero, is kept. This matters at line 157. There the integer part
is recomputed as `int + frac / 10^p` in double and then truncated. `CarryBorrow` proves that the
carry and borrow steps keep `Scaled` in every case but one. The exception is a carry whose
intermediate is negative and not whole: there the result is exactly `10^p` too large.
`NegativeCarryExample` shows this on "-5.5" + "0.7". The operands stand for -4.5 and 0.7, and the
result `(-3, 2, 1)` stands for -2.8 instead of -3.8. The model keeps this behaviour everywhere,
including in the calculator. `AddSum` states the sum exactly when the integer parts add up to a
non-negative number, and otherwise as "exact, or exact plus `10^P`".

Behaviour of the code that may surprise a reader:

- `mul` and `div` only queue `'*'` and `'/'`, and applying those operators leaves the current value
  unchanged. They do not raise an error.
- `clear` resets the input to `(0, 0, 9)`, the default constructor's value, so the input afterwards has precision 9.
- The fraction field is a signed `long long`.
- The carry truncates through a double, as described above.
- A string without a point is not rejected by the code (see "Left out").

## Model

| member | source | states |
|---|---|---|
| `Decimal.Pow10` | i2p2/src/class/lecture5_ex3.cpp:155-158 | `pow(10, k)` as an exact integer: at least 1, and at least 10 for k > 0 |
| `Decimal.Pow10Add` | i2p2/src/class/lecture5_ex3.cpp:139-147 | 10^(a+b) = 10^a · 10^b, which makes rescaling by a difference of precisions exact |
| `Decimal.Trunc` | i2p2/src/class/lecture5_ex3.cpp:155-158 | the conversion of a double to `long long` (lines 146, 157) or `int` (line 158) truncates toward zero: for v >= 0 it is the largest integer at most v, for v < 0 the smallest at least v |
| `Decimal.TruncQuotient` | i2p2/src/class/lecture5_ex3.cpp:146 | a double quotient truncated to `long long` equals floor division, except for a negative non-multiple, where it is one more |
| `Decimal.DigitsValue` | i2p2/src/class/lecture5_ex3.cpp:114 | `stoull` of n digits is below 10^n |
| `Decimal.StoLL` | i2p2/src/class/lecture5_ex3.cpp:112 | `stoll` of a text of length n lies in (-10^(n-1), 0] when the text starts with '-', and in [0, 10^n) otherwise |
| `Decimal.NatToString` | i2p2/src/class/lecture5_ex3.cpp:252-253 | `to_string` gives non-empty digits that denote n, "0" exactly for 0, and no leading zero otherwise |
| `Decimal.IntToString` | i2p2/src/class/lecture5_ex3.cpp:252-253 | `to_string` of a `long long` is non-empty and starts with '-' exactly when the number is negative |
| `Decimal.IntToStringParses` | i2p2/src/class/lecture5_ex3.cpp:112 | `stoll` of `to_string(i)` is i for every integer, and the text holds no '.' |
| `Decimal.DigitsUnique` | i2p2/src/class/lecture5_ex3.cpp:114 | two digit strings of equal length with the same `stoull` value are equal |
| `Decimal.LeadingZerosValue` | i2p2/src/class/lecture5_ex3.cpp:114 | leading zeros do not change the value `stoull` reads |
| `Decimal.NatToStringLength` | i2p2/src/class/lecture5_ex3.cpp:277-285 | a number below 10^p has at most p digits, so padding rather than cutting applies |
| `Decimal.NatToStringOfDigits` | i2p2/src/class/lecture5_ex3.cpp:252-253 | `to_string(stoull(s)) == s` for digits without a redundant leading zero |
| `Decimal.PaddedDigits` | i2p2/src/class/lecture5_ex3.cpp:277-280 | the fraction's digits, left-padded with zeros to p places, have length p and denote the fraction |
| `FixedPoints.NormalizePrecision` | i2p2/src/class/lecture5_ex3.cpp:122-150 | request 0 keeps the current precision, a request above 9 gives 9, any other request is taken as is |
| `FixedPoints.Zero` | i2p2/src/class/lecture5_ex3.cpp:24-26 | the default-constructed value has precision 9 and is normalized |
| `FixedPoints.TargetPrecision` | i2p2/src/class/lecture5_ex3.cpp:122-136 | request 0 keeps the current precision; any other request gives a precision in [1, 9] no larger than the request, and exactly the request when it is at most 9 |
| `FixedPoints.Rescale` | i2p2/src/class/lecture5_ex3.cpp:139-147 | widening multiplies the fraction by 10^(to-from); narrowing a non-negative fraction gives a value between 0 and the fraction |
| `FixedPoints.Carry` | i2p2/src/class/lecture5_ex3.cpp:155-159 | keeps the precision; a fraction at or above 10^p ends in [0, 10^p); a smaller fraction leaves the value unchanged |
| `FixedPoints.Borrow` | i2p2/src/class/lecture5_ex3.cpp:164-168 | keeps the precision and `Scaled`; a fraction in [-10^p, 10^p) ends in [0, 10^p) |
| `FixedPoints.Normalize` | i2p2/src/class/lecture5_ex3.cpp:120-169 | the result has the target precision, and a fraction of at least -10^precision ends in [0, 10^target) |
| `FixedPoints.RescaledInRange` | i2p2/src/class/lecture5_ex3.cpp:139-168 | rescaling to the target, then one carry and one borrow, leaves a fraction of at least -10^precision in [0, 10^target) |
| `FixedPoints.NormalizeKeepsNormalized` | i2p2/src/class/lecture5_ex3.cpp:120-169 | normalizing a normalized value keeps it normalized, and a widening multiplies its scaled number by 10^(new-old) |
| `FixedPoints.RescaleWidens` | i2p2/src/class/lecture5_ex3.cpp:139-143 | widening multiplies the fraction by 10^d and keeps the number: `i·10^to + f' = (i·10^from + f)·10^d` |
| `FixedPoints.RescaleTruncates` | i2p2/src/class/lecture5_ex3.cpp:144-147 | narrowing divides and truncates: `0 <= f - f'·10^d < 10^d`, with no rounding up |
| `FixedPoints.RescaleLowerBound` | i2p2/src/class/lecture5_ex3.cpp:139-147 | rescaling keeps a fraction of at least -10^from at or above -10^to |
| `FixedPoints.CarryIntPart` | i2p2/src/class/lecture5_ex3.cpp:157 | the double `int + frac / 10^p` is the scaled number divided by 10^p |
| `FixedPoints.CarryScaled` | i2p2/src/class/lecture5_ex3.cpp:155-159 | a carry that fires leaves the fraction in [0, 10^p) and keeps `Scaled`, except through a negative non-whole intermediate, where it adds exactly 10^p |
| `FixedPoints.CarryBorrow` | i2p2/src/class/lecture5_ex3.cpp:152-168 | one carry and one borrow keep `Scaled`, except a carry through a negative non-whole intermediate, which adds exactly 10^p; a fraction of at least -10^p ends in [0, 10^p) |
| `FixedPoints.NormalizeWidens` | i2p2/src/class/lecture5_ex3.cpp:120-169 | on a normalized value, a target at or above its precision appends zeros to the fraction, keeps the number, and leaves the value normalized |
| `FixedPoints.NormalizeNarrows` | i2p2/src/class/lecture5_ex3.cpp:120-169 | on a normalized value, a lower target keeps the integer part, leaves the value normalized, and drops the last digits of the scaled number |
| `FixedPoints.NormalizeFixesNormalized` | i2p2/src/class/lecture5_ex3.cpp:120-169 | a value with fraction in [0, 10^p), normalized at its own precision, is unchanged |
| `FixedPoints.NormalizeIdempotent` | i2p2/src/class/lecture5_ex3.cpp:120-169 | normalizing twice with one request equals normalizing once, for any fraction of at least -10^precision |
| `FixedPoints.NormalizeInPlace` | i2p2/src/class/lecture5_ex3.cpp:122-150 | `_normalize()` with no request rescales nothing: it is one carry step and one borrow step |
| `FixedPoints.SetIntPart` | i2p2/src/class/lecture5_ex3.cpp:193-196 | `set_int_part` replaces the integer part only and does not normalize |
| `FixedPoints.SetFracPart` | i2p2/src/class/lecture5_ex3.cpp:197-201 | `set_frac_part` keeps the precision and leaves the fraction in [0, 10^p); the number is `i·10^p + f` unless a carry meets a negative integer part |
| `FixedPoints.SetPrecision` | i2p2/src/class/lecture5_ex3.cpp:202-205 | `set_precision` keeps a normalized value normalized and, when widening, multiplies its scaled number by 10^(new-old) |
| `FixedPoints.SetTriple` | i2p2/src/class/lecture5_ex3.cpp:206-214 | `set(i, f, p)` keeps precision p and leaves the fraction in [0, 10^p); the number is `i·10^p + f` unless a carry meets a negative integer part |
| `FixedPoints.OperandWidens` | i2p2/src/class/lecture5_ex3.cpp:299-304 | each copy rescaled to the larger precision keeps its integer part and number and stays normalized |
| `FixedPoints.Add` | i2p2/src/class/lecture5_ex3.cpp:296-310 | `add` gives the larger of the two precisions; its value is stated by `AddSum` |
| `FixedPoints.Sub` | i2p2/src/class/lecture5_ex3.cpp:312-326 | `sub` gives the larger of the two precisions; its value is stated by `SubDifference` |
| `FixedPoints.AddSum` | i2p2/src/class/lecture5_ex3.cpp:296-310 | `add` of normalized values is normalized at P = max precision; it equals the exact sum at P when the integer parts sum to at least 0, and is otherwise exact or exact + 10^P |
| `FixedPoints.SubDifference` | i2p2/src/class/lecture5_ex3.cpp:312-326 | `sub` of normalized values needs one borrow at most; the result is normalized at P and equals the exact difference at P |
| `FixedPoints.AddCommutes` | i2p2/src/class/lecture5_ex3.cpp:306-307 | `add` does not depend on the order of its operands |
| `FixedPoints.FirstDot` | i2p2/src/class/lecture5_ex3.cpp:112-116 | `find('.')`: the first index holding '.', with no '.' before it. Where `find` returns `npos` the model returns the length; the model uses it only on strings that contain '.' (`IsDecimal`) |
| `FixedPoints.ParseParts` | i2p2/src/class/lecture5_ex3.cpp:109-117 | `_set` on a parsable string gives a normalized value whose precision is the number of fraction digits |
| `FixedPoints.ParseOfParts` | i2p2/src/class/lecture5_ex3.cpp:108-116 | an integer text, '.', and one to nine digits parse to `stoll` of the integer text, `stoull` of the digits, and the digit count as precision |
| `FixedPoints.FromString` | i2p2/src/class/lecture5_ex3.cpp:181-185 | the string constructor gives `stoll` of the text before '.', `stoull` of the text after it, and that text's length as precision; the result is normalized |
| `FixedPoints.RenderWholeNumber` | i2p2/src/class/lecture5_ex3.cpp:255-272 | precision 0, or a zero fraction at precision 2 or more, renders the integer only |
| `FixedPoints.ToString` | i2p2/src/class/lecture5_ex3.cpp:250-289 | at precision 2 or more with a nonzero fraction, the text is one character longer than the integer text plus `precision`: the fraction is always brought to exactly `precision` characters |
| `FixedPoints.FitFraction` | i2p2/src/class/lecture5_ex3.cpp:276-285 | the fraction text is brought to exactly p characters; digits stay digits, and a text of at most p digits keeps its value |
| `FixedPoints.RenderPoint` | i2p2/src/class/lecture5_ex3.cpp:259-287 | for a fraction in [0, 10^precision), when the point is rendered, `to_string` of the fraction has at most `precision` digits, so it is only ever left-padded with zeros, never cut |
| `FixedPoints.RenderFraction` | i2p2/src/class/lecture5_ex3.cpp:259-287 | otherwise a normalized value renders as the integer, '.', and exactly `precision` digits that denote the fraction |
| `FixedPoints.ParseRender` | i2p2/src/class/lecture5_ex3.cpp:250-289 | parsing the rendering of a normalized value with a rendered point gives the value back |
| `FixedPoints.CanonicalIntegerRenders` | i2p2/src/class/lecture5_ex3.cpp:252 | `to_string(stoll(t)) == t` for an integer text with no "-0" and no redundant zero |
| `FixedPoints.DecimalSplits` | i2p2/src/class/lecture5_ex3.cpp:112-114 | a parsable string is its integer text, '.', and its fraction text |
| `FixedPoints.RenderParse` | i2p2/src/class/lecture5_ex3.cpp:109-117 | rendering a parsed canonical decimal string (fraction nonzero or one digit long) gives the same string |
| `FixedPoints.ParseExample` | i2p2/src/class/lecture5_ex3.cpp:109-117 | "30.000456" parses to (30, 456, 6) |
| `FixedPoints.ZeroFractionExample` | i2p2/src/class/lecture5_ex3.cpp:268-272 | "10.00" renders as "10" |
| `FixedPoints.SetPrecisionExample` | i2p2/src/class/lecture5_ex3.cpp:202-205 | `set_precision(3)` on (3, 5, 1) gives (3, 500, 3), and a request of 15 gives precision 9 |
| `FixedPoints.CarryExample` | i2p2/src/class/lecture5_ex3.cpp:155-159 | 1.9 + 0.2 gives (2, 1, 1) |
| `FixedPoints.BorrowExample` | i2p2/src/class/lecture5_ex3.cpp:164-168 | 1.0 - 0.1 gives (0, 9, 1) |
| `FixedPoints.SubExample` | i2p2/src/class/lecture5_ex3.cpp:312-326 | 40.000456 - 20.0123 gives (19, 988156, 6) |
| `FixedPoints.NegativeCarryExample` | i2p2/src/class/lecture5_ex3.cpp:157 | "-5.5" + "0.7" gives (-3, 2, 1), which is -2.8, although the operands sum to -3.8 |
| `Calculator.Apply` | i2p2/src/class/lecture5_ex3.cpp:345-361 | `+` and `-` give the larger precision, and any operator applied to normalized values gives a normalized value |
| `Calculator.SumAndDifferenceNormalized` | i2p2/src/class/lecture5_ex3.cpp:296-326 | the sum and the difference of normalized values are normalized |
| `Calculator.ApplyValue` | i2p2/src/class/lecture5_ex3.cpp:345-361 | ' ' copies the input, '-' subtracts it exactly, '+' adds it exactly when the integer parts sum to at least 0, and any other operator leaves the current value |
| `Calculator.FpCalc.constructor` | i2p2/src/class/lecture5_ex3.cpp:331-334 | starts with current = input = (0, 0, 9) and operator ' ' |
| `Calculator.FpCalc.CalcResult` | i2p2/src/class/lecture5_ex3.cpp:345-361 | replaces the current value by `Apply(op, current, input)`; input and operator are unchanged |
| `Calculator.FpCalc.Clear` | i2p2/src/class/lecture5_ex3.cpp:364-367 | sets the input to (0, 0, 9); current value and operator are unchanged |
| `Calculator.FpCalc.SetInput` | i2p2/src/class/lecture5_ex3.cpp:370-373 | sets the input to the parsed string; current value and operator are unchanged |
| `Calculator.FpCalc.Add` | i2p2/src/class/lecture5_ex3.cpp:376-380 | applies the pending operator, then queues '+' |
| `Calculator.FpCalc.Sub` | i2p2/src/class/lecture5_ex3.cpp:383-387 | applies the pending operator, then queues '-' |
| `Calculator.FpCalc.Mul` | i2p2/src/class/lecture5_ex3.cpp:390-394 | applies the pending operator, then queues '*' |
| `Calculator.FpCalc.Div` | i2p2/src/class/lecture5_ex3.cpp:397-401 | applies the pending operator, then queues '/' |
| `Calculator.FpCalc.Assign` | i2p2/src/class/lecture5_ex3.cpp:404-408 | applies the pending operator, then queues ' ' |
| `Calculator.FpCalc.GetCurrVal` | i2p2/src/class/lecture5_ex3.cpp:411-414 | returns the current value, which is normalized |
| `Calculator.FpCalc.GetOp` | i2p2/src/class/lecture5_ex3.cpp:417-420 | returns the pending operator, one of the five symbols |
| `Calculator.FpCalc.GetInputVal` | i2p2/src/class/lecture5_ex3.cpp:423-426 | returns the input value, which is normalized |
| `Calculator.TraceInputs` | i2p2/src/class/lecture5_ex3.cpp:435-452 | "10.0", "20.0123" and "30.000456" parse to (10, 0, 1), (20, 123, 4) and (30, 456, 6) |
| `Calculator.TraceSum` | i2p2/src/class/lecture5_ex3.cpp:457 | 10.0 + 30.000456 gives (40, 456, 6) |
| `Calculator.TraceRenderSum` | i2p2/src/class/lecture5_ex3.cpp:461 | (40, 456, 6) renders as "40.000456" |
| `Calculator.TraceRenderDifference` | i2p2/src/class/lecture5_ex3.cpp:471 | (19, 988156, 6) renders as "19.988156" |
| `Calculator.DemoTrace` | i2p2/src/class/lecture5_ex3.cpp:430-473 | the driver's call sequence shows "40.000456" after `sub` and "19.988156" after `assign` |

## Left out

- `get_double_value`, `get_float_value`, `set(double)` and `set(float)` are not modelled. They work on floating-point values and on `to_string`'s float formatting.
- `print` and `main` are console output. `main`'s call sequence is kept as `DemoTrace`.
- 64-bit overflow and wrap-around are not modelled: integers are unbounded. This includes a `set_frac_part` argument of 2^63 or more, which turns negative in the `long long` field.
- Double rounding is not modelled. The double expressions of `_normalize` are computed exactly, and only their truncation back to an integer is kept.
- `(int)pow(10, p)` at line 158 overflows `int` for p above 9. The model uses the exact 10^p for every precision.
- The copy constructors and the destructors are trivial and not modelled.
- FromString: defined only on `-?digits.digits` with one to nine fraction digits (`IsDecimal`). The model says nothing about other strings. In particular it does not say that the code rejects them. `"12"` takes the `npos` path and becomes (12, 12, 2). `stoll` and `stoull` also accept leading blanks, a '+' sign and trailing garbage. A fraction text whose value exceeds 2^64-1 makes `stoull` throw `out_of_range`. A longer text with a smaller value parses, and its whole digit count becomes the precision, which `_normalize()` does not clamp.
- Calculator.FpCalc.SetInput: requires an `IsDecimal` string, for the same reason.
- Zero: states precision 9 and the normalized shape; that its parts are 0 and 0 is its definition and is not repeated as a contract.
- SetPrecision: states the scaled number only for normalized inputs. `NormalizeNarrows` covers narrowing. For other inputs the result is `Normalize` as defined, with no further contract.
