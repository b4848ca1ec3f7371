/**
 The byte-size formatter `prettyPrintSize` of filesurf.go.

 Below 1024 the size is printed as a plain integer followed by 'B'. From
 1024 on, the size is converted to float64, divided by 1024 until the
 quotient drops below 1024, and printed with `%.1f` followed by one of the
 unit letters "KMGTPE" and 'B'.

 The float arithmetic is modelled exactly: the conversion float64(s) rounds
 to 53 significant bits (Float64Of), and every later step divides or
 multiplies by a power of two, which float64 does without error in this
 range, so `real` models it. `%.1f` rounds the exact quotient to one decimal
 place, ties to even (RoundHalfEven).
 */
module SizeFormat {
  import opened Decimal

  const Unit: nat := 1024
  const UnitLetters: string := "KMGTPE"

  /** Bounds of Go's int64. */
  const Int64Min: int := -0x8000_0000_0000_0000
  const Int64Bound: int := 0x8000_0000_0000_0000

  /** 2^53: every non-negative integer below it is a float64 exactly. */
  const MantissaBound: nat := 0x20_0000_0000_0000

  predicate IsInt64(s: int) {
    Int64Min <= s < Int64Bound
  }

  function UnitPow(k: nat): (p: nat)
    ensures p >= 1
  {
    if k == 0 then 1 else Unit * UnitPow(k - 1)
  }

  function Pow2(e: nat): (p: nat)
    ensures p >= 1
  {
    if e == 0 then 1 else 2 * Pow2(e - 1)
  }

  lemma {:induction false} UnitPowMonotone(a: nat, b: nat)
    requires a <= b
    ensures UnitPow(a) <= UnitPow(b)
  {
    if a < b {
      UnitPowMonotone(a, b - 1);
    }
  }

  lemma {:induction false} Pow2Monotone(a: nat, b: nat)
    requires a <= b
    ensures Pow2(a) <= Pow2(b)
  {
    if a < b {
      Pow2Monotone(a, b - 1);
    }
  }

  // ---------------------------------------------------------------------
  // float64(s)
  // ---------------------------------------------------------------------

  /** The number of low-order bits of s that do not fit into a float64's 53
      significant bits: the least e with s < 2^(53+e). */
  function Excess(s: nat): (e: nat)
    ensures s < MantissaBound * Pow2(e)
    ensures e > 0 ==> MantissaBound * Pow2(e - 1) <= s
  {
    if s < MantissaBound then 0 else 1 + Excess(s / 2)
  }

  /** The multiple q of m nearest to s, ties to the even multiple. */
  function RoundToMultiple(s: nat, m: nat): (q: nat)
    requires m >= 1
    ensures 2 * s <= 2 * (q * m) + m && 2 * (q * m) <= 2 * s + m
    ensures 2 * s == 2 * (q * m) + m || 2 * (q * m) == 2 * s + m ==> q % 2 == 0
    ensures q <= s / m + 1
  {
    var d := s / m;
    var rem := s % m;
    DivModParts(s, m, d, rem);
    if 2 * rem < m then d
    else if 2 * rem > m then d + 1
    else if d % 2 == 0 then d
    else d + 1
  }

  lemma DivModParts(s: nat, m: nat, d: nat, rem: nat)
    requires m >= 1 && d == s / m && rem == s % m
    ensures d * m + rem == s
    ensures (d + 1) * m == s + (m - rem)
    ensures 0 <= rem < m
  {
    assert s == d * m + rem;
    assert (d + 1) * m == d * m + m;
  }

  /** float64(s) for a non-negative int64 s: round to nearest, ties to even,
      to 53 significant bits. */
  function Float64Of(s: nat): (f: nat)
    requires s < Int64Bound
    ensures s < MantissaBound ==> f == s
    ensures MantissaBound <= s ==> MantissaBound <= f <= Int64Bound
  {
    if s < MantissaBound then s
    else
      var e := Excess(s);
      var q := RoundToMultiple(s, Pow2(e));
      Float64Bounds(s, e, q);
      q * Pow2(e)
  }

  /** For s >= 2^53, the excess e is at most 10, and the rounded quotient
      q lies in [2^52, 2^53]. */
  lemma Float64Bounds(s: nat, e: nat, q: nat)
    requires MantissaBound <= s < Int64Bound
    requires e == Excess(s)
    requires q == RoundToMultiple(s, Pow2(e))
    ensures MantissaBound <= q * Pow2(e) <= Int64Bound
  {
    var m := Pow2(e);
    var h := Pow2(e - 1);
    assert m == 2 * h;
    assert MantissaBound * h <= s < MantissaBound * m;
    if e > 10 {
      Pow2Monotone(10, e - 1);
      assert false;
    }
    Pow2Monotone(e, 10);
    assert Pow2(10) == 1024;
    QuotientBelow(s, m, MantissaBound);
    assert q <= MantissaBound;
    MulMonotone(q, MantissaBound, m);
    MulMonotone(m, 1024, MantissaBound);
    // lower bound: 2 * q * m >= 2 * s - m >= 2^53 * m - m, so q > 2^52 - 1
    assert 2 * (q * m) >= MantissaBound * m - m;
    if q < MantissaBound / 2 {
      MulMonotone(q, MantissaBound / 2 - 1, m);
      assert false;
    }
    MulMonotone(MantissaBound / 2, q, m);
  }

  lemma QuotientBelow(s: nat, m: nat, b: nat)
    requires m >= 1 && s < b * m
    ensures s / m < b
  {
    DivModParts(s, m, s / m, s % m);
    if s / m >= b {
      MulMonotone(b, s / m, m);
    }
  }

  lemma MulMonotone(a: nat, b: nat, m: nat)
    requires a <= b
    ensures a * m <= b * m
  {
  }

  /** The conversion is accurate to half a unit in the last place, a tie
      goes to the even multiple, and the result is representable: a multiple
      of 2^e with at most 53 bits. */
  lemma Float64OfAccurate(s: nat)
    requires MantissaBound <= s < Int64Bound
    ensures var e := Excess(s); var f := Float64Of(s);
      && 2 * s <= 2 * f + Pow2(e) && 2 * f <= 2 * s + Pow2(e)
      && f % Pow2(e) == 0
      && f / Pow2(e) <= MantissaBound
      && (2 * s == 2 * f + Pow2(e) || 2 * f == 2 * s + Pow2(e) ==> (f / Pow2(e)) % 2 == 0)
  {
    var e := Excess(s);
    var m := Pow2(e);
    var q := RoundToMultiple(s, m);
    assert Float64Of(s) == q * m;
    MultipleDivides(q, m);
    QuotientBelow(s, m, MantissaBound);
  }

  lemma MultipleDivides(q: nat, m: nat)
    requires m >= 1
    ensures (q * m) / m == q && (q * m) % m == 0
  {
    var d := (q * m) / m;
    var r := (q * m) % m;
    DivModParts(q * m, m, d, r);
    if d < q {
      MulMonotone(d + 1, q, m);
    } else if d > q {
      MulMonotone(q + 1, d, m);
    }
  }

  // ---------------------------------------------------------------------
  // The unit exponent
  // ---------------------------------------------------------------------

  /** The exponent the formatter's loop arrives at: how many times a size
      f >= 1024 can be divided by 1024 and still leave at least 1024, so that
      f / 1024^(k+1) lies in [1, 1024). */
  function Exponent(f: nat): (k: nat)
    requires f >= Unit
    ensures UnitPow(k + 1) <= f < UnitPow(k + 2)
  {
    if f < Unit * Unit then 0 else 1 + Exponent(f / Unit)
  }

  /** The bracket determines the exponent: no other k has it. */
  lemma ExponentUnique(f: nat, k: nat)
    requires f >= Unit
    requires UnitPow(k + 1) <= f < UnitPow(k + 2)
    ensures k == Exponent(f)
  {
    var e := Exponent(f);
    if k < e {
      UnitPowMonotone(k + 2, e + 1);
    } else if k > e {
      UnitPowMonotone(e + 2, k + 1);
    }
  }

  /** No int64 size, after conversion to float64, reaches 1024^7 = 2^70, so
      the index into "KMGTPE" is always in bounds. */
  lemma ExponentInRange(f: nat)
    requires Unit <= f <= Int64Bound
    ensures Exponent(f) < |UnitLetters|
  {
    var k := Exponent(f);
    if k >= 6 {
      UnitPowMonotone(7, k + 1);
    }
  }

  // ---------------------------------------------------------------------
  // %.1f
  // ---------------------------------------------------------------------

  /** The integer nearest to x, ties to the even one: how `%.1f` rounds the
      exact value of its argument, scaled by ten. */
  function RoundHalfEven(x: real): (t: int)
    ensures -1.0 <= 2.0 * (x - t as real) <= 1.0
    ensures 2.0 * (x - t as real) == 1.0 || 2.0 * (x - t as real) == -1.0 ==> t % 2 == 0
    ensures x >= 0.0 ==> t >= 0
  {
    var fl := x.Floor;
    var frac := x - fl as real;
    if frac < 0.5 then fl
    else if frac > 0.5 then fl + 1
    else if fl % 2 == 0 then fl
    else fl + 1
  }

  /** Nearest-with-ties-to-even picks exactly one integer. */
  lemma RoundHalfEvenUnique(x: real, t: int)
    requires -1.0 <= 2.0 * (x - t as real) <= 1.0
    requires 2.0 * (x - t as real) == 1.0 || 2.0 * (x - t as real) == -1.0 ==> t % 2 == 0
    ensures t == RoundHalfEven(x)
  {

  }

  /** A count of tenths t printed as `%.1f` prints t / 10. */
  function FormatTenths(t: nat): (str: string)
    ensures |str| >= 3 && str[|str| - 2] == '.'
    ensures Canonical(str[..|str| - 2]) && IsDigit(str[|str| - 1])
    ensures DecimalValue(str[..|str| - 2]) * 10 + DigitValue(str[|str| - 1]) == t
  {
    var whole := NatToDecimal(t / 10);
    NatToDecimalRoundTrip(t / 10);
    var str := whole + "." + [DigitChar(t % 10)];
    assert str[..|str| - 2] == whole;
    str
  }

  // ---------------------------------------------------------------------
  // prettyPrintSize
  // ---------------------------------------------------------------------

  /** The text prettyPrintSize returns for an int64 size s. */
  function PrettyPrintSize(s: int): (ps: string)
    requires IsInt64(s)
    ensures |ps| >= 2 && ps[|ps| - 1] == 'B'
  {
    if s < Unit then IntToDecimal(s) + "B" else FormatScaled(Float64Of(s))
  }

  /** The branch for sizes of at least 1024, given the size f as a float64:
      the quotient by the power of 1024 that brings it into [1, 1024),
      printed with one decimal, then the unit letter and 'B'. */
  function FormatScaled(f: nat): (ps: string)
    requires Unit <= f <= Int64Bound
    ensures |ps| >= 2 && ps[|ps| - 1] == 'B'
  {
    var k := Exponent(f);
    ExponentInRange(f);
    FormatTenths(RoundHalfEven(10.0 * Ratio(f, UnitPow(k + 1)))) + [UnitLetters[k]] + "B"
  }

  /** The float64 quotient a / b of two float64 integers whose quotient is
      exact. */
  function Ratio(a: nat, b: nat): (q: real)
    requires b >= 1
    ensures q >= 0.0
    ensures q * b as real == a as real
  {
    a as real / b as real
  }

  /** The loop of prettyPrintSize as written: n and div are float64 values,
      and every operation on them is exact, so they are modelled as reals.
      It stops at the exponent whose bracket holds f, with div the matching
      power of 1024. */
  method ExponentSearch(f: nat) returns (exp: nat, div: real)
    requires f >= Unit
    ensures UnitPow(exp + 1) <= f < UnitPow(exp + 2)
    ensures div == UnitPow(exp + 1) as real
  {
    div := Unit as real;
    exp := 0;
    var n: real := Ratio(f, Unit);
    while n >= Unit as real
      invariant div == UnitPow(exp + 1) as real
      invariant n * div == f as real
      invariant UnitPow(exp + 1) <= f
      decreases f - UnitPow(exp + 1)
    {
      StepBelow(n, div, f, exp);
      div := div * Unit as real;
      exp := exp + 1;
      n := n / Unit as real;
    }
    StepAbove(n, div, f, exp);
  }

  /** prettyPrintSize as written, with the loop above. */
  method PrettyPrintSizeLoop(s: int) returns (ps: string)
    requires IsInt64(s)
    ensures ps == PrettyPrintSize(s)
  {
    if s < Unit {
      return IntToDecimal(s) + "B";
    }
    ps := FormatScaledLoop(Float64Of(s));
  }

  /** The branch for sizes of at least 1024 as written: search the exponent,
      then print float64(s) / div. */
  method FormatScaledLoop(f: nat) returns (ps: string)
    requires Unit <= f <= Int64Bound
    ensures ps == FormatScaled(f)
  {
    var exp, div := ExponentSearch(f);
    ExponentUnique(f, exp);
    ExponentInRange(f);
    ps := FormatTenths(RoundHalfEven(10.0 * (f as real / div))) + [UnitLetters[exp]] + "B";
  }

  /** One more division leaves at least 1024: the next power of 1024 is
      still at most f. */
  lemma StepBelow(n: real, div: real, f: nat, exp: nat)
    requires div == UnitPow(exp + 1) as real && n * div == f as real
    requires n >= Unit as real
    ensures UnitPow(exp + 2) <= f
    ensures div * Unit as real == UnitPow(exp + 2) as real
    ensures (n / Unit as real) * (div * Unit as real) == f as real
  {
    assert UnitPow(exp + 2) as real == Unit as real * div;
    assert n * div >= Unit as real * div;
  }

  /** The loop stops below 1024: f is below the next power of 1024. */
  lemma StepAbove(n: real, div: real, f: nat, exp: nat)
    requires div == UnitPow(exp + 1) as real && n * div == f as real
    requires n < Unit as real
    ensures f < UnitPow(exp + 2)
  {
    assert UnitPow(exp + 2) as real == Unit as real * div;
    assert n * div < Unit as real * div;
  }

  // ---------------------------------------------------------------------
  // What the printed text means
  // ---------------------------------------------------------------------

  /** The tenths printed for sizes of at least 1024, read back as an
      integer. */
  function PrintedTenths(ps: string): nat
    requires |ps| >= 5 && Canonical(ps[..|ps| - 4]) && IsDigit(ps[|ps| - 3])
  {
    DecimalValue(ps[..|ps| - 4]) * 10 + DigitValue(ps[|ps| - 3])
  }

  /** Below 1024 (negative sizes included) the text is the `%d` rendering
      of the size, then 'B': no decimal point, and reading the digits back
      gives the size. */
  lemma SmallSizeReadsBack(s: int)
    requires Int64Min <= s < Unit
    ensures var ps := PrettyPrintSize(s);
      && '.' !in ps
      && IsSignedDecimal(ps[..|ps| - 1])
      && SignedValue(ps[..|ps| - 1]) == s
  {
    var ps := PrettyPrintSize(s);
    var d := IntToDecimal(s);
    assert ps[..|ps| - 1] == d;
    IntToDecimalRoundTrip(s);
  }

  /** Sizes of at least 1024 print as <whole>.<digit><unit>B: the whole part
      a canonical decimal, the only '.' the one before the last digit, and
      the unit one of "KMGTPE". */
  lemma ScaledShape(f: nat)
    requires Unit <= f <= Int64Bound
    ensures var ps := FormatScaled(f); var n := |ps|;
      && n >= 5
      && ps[n - 1] == 'B'
      && ps[n - 2] in UnitLetters
      && IsDigit(ps[n - 3])
      && ps[n - 4] == '.'
      && Canonical(ps[..n - 4])
      && (forall i :: 0 <= i < n && ps[i] == '.' ==> i == n - 4)
  {
    var ps := FormatScaled(f);
    var k := Exponent(f);
    ExponentInRange(f);
    var tenths := FormatTenths(RoundHalfEven(10.0 * Ratio(f, UnitPow(k + 1))));
    var n := |ps|;
    assert ps == tenths + [UnitLetters[k]] + "B";
    assert ps[..n - 4] == tenths[..|tenths| - 2];
  }

  /** The unit letter printed is the one whose power of 1024 brackets f, and
      the printed number, read back in tenths, is the nearest count of
      tenths of that unit to f (within half a tenth): the text
      round-trips to the size up to the precision shown. */
  lemma ScaledReadsBack(f: nat)
    requires Unit <= f <= Int64Bound
    ensures var ps := FormatScaled(f);
      |ps| >= 5 && Canonical(ps[..|ps| - 4]) && IsDigit(ps[|ps| - 3])
    ensures var ps := FormatScaled(f);
      forall k :: 0 <= k < |UnitLetters| && UnitLetters[k] == ps[|ps| - 2] ==>
        var d := UnitPow(k + 1);
        var t := PrintedTenths(ps);
        && d <= f < Unit * d
        && 20 * f <= 2 * t * d + d
        && 2 * t * d <= 20 * f + d
        && 10 <= t <= 10 * Unit
  {
    var ps := FormatScaled(f);
    var e := ScaledParts(f);
    var d := UnitPow(e + 1);
    var t := PrintedTenths(ps);
    NearestTenths(f, d, t);
    UnitLettersDistinct();
  }

  /** The pieces FormatScaled puts together, as read back from its text. */
  lemma ScaledParts(f: nat) returns (e: nat)
    requires Unit <= f <= Int64Bound
    ensures e == Exponent(f) && e < |UnitLetters|
    ensures var ps := FormatScaled(f);
      && |ps| >= 5 && Canonical(ps[..|ps| - 4]) && IsDigit(ps[|ps| - 3])
      && ps[|ps| - 2] == UnitLetters[e]
      && PrintedTenths(ps) == RoundHalfEven(10.0 * Ratio(f, UnitPow(e + 1)))
  {
    var ps := FormatScaled(f);
    ScaledShape(f);
    e := Exponent(f);
    ExponentInRange(f);
    var t := RoundHalfEven(10.0 * Ratio(f, UnitPow(e + 1)));
    var tenths := FormatTenths(t);
    assert ps == tenths + [UnitLetters[e]] + "B";
    assert ps[..|ps| - 4] == tenths[..|tenths| - 2];
  }

  lemma UnitLettersDistinct()
    ensures forall i, j :: 0 <= i < j < |UnitLetters| ==> UnitLetters[i] != UnitLetters[j]
  {
  }

  /** Clearing the real quotient: if t is within half of 10 * f / d, then
      t * d is within d / 2 of 10 * f; and f in [d, 1024 * d) puts t in
      [10, 10240]. */
  lemma NearestTenths(f: nat, d: nat, t: int)
    requires d >= 1 && d <= f < Unit * d
    requires t == RoundHalfEven(10.0 * Ratio(f, d))
    ensures 20 * f <= 2 * t * d + d && 2 * t * d <= 20 * f + d
    ensures 10 <= t <= 10 * Unit
  {
    ClearDenominator(f, d, t);
    TenthsRange(f, d, t);
  }

  lemma ClearDenominator(f: nat, d: nat, t: int)
    requires d >= 1
    requires t == RoundHalfEven(10.0 * Ratio(f, d))
    ensures 20 * f <= 2 * (t * d) + d && 2 * (t * d) <= 20 * f + d
  {
    var x := Ratio(f, d);
    ClearReal(f as real, d as real, x, t as real);
    CastProduct(t, d);
    var gap := 20 * f - 2 * (t * d);
    assert gap as real == 20.0 * (f as real) - 2.0 * ((t * d) as real);
    assert -(d as real) <= gap as real <= d as real;
  }

  /** x = F / D within half of T / 10 puts T * D within D / 2 of 10 * F. */
  lemma ClearReal(F: real, D: real, x: real, T: real)
    requires D >= 1.0 && x * D == F
    requires -1.0 <= 2.0 * (10.0 * x - T) <= 1.0
    ensures -D <= 20.0 * F - 2.0 * (T * D) <= D
  {
    var y := 2.0 * (10.0 * x - T);
    var yd := y * D;
    ScaleBounds(y, D);
    assert -D <= yd <= D;
    assert yd == 20.0 * (x * D) - 2.0 * (T * D);
    assert yd == 20.0 * F - 2.0 * (T * D);
  }

  lemma TenthsRange(f: nat, d: nat, t: int)
    requires d >= 1 && d <= f < Unit * d
    requires 20 * f <= 2 * (t * d) + d && 2 * (t * d) <= 20 * f + d
    ensures 10 <= t <= 10 * Unit
  {
    if t < 10 {
      MulMonotone(t as nat, 9, d);
    }
    if t > 10 * Unit {
      MulMonotone(10 * Unit + 1, t as nat, d);
    }
  }

  lemma ScaleBounds(y: real, D: real)
    requires -1.0 <= y <= 1.0 && D >= 0.0
    ensures -D <= y * D <= D
  {
  }

  lemma CastProduct(a: int, b: int)
    ensures (a * b) as real == (a as real) * (b as real)
  {
  }

  /** For every int64 size of at least 1024: the shape of the text, and
      what it reads back to, in terms of float64(s) (which is s itself below
      2^53). */
  lemma LargeSizeReadsBack(s: int)
    requires Unit <= s < Int64Bound
    ensures var ps := PrettyPrintSize(s); var n := |ps|;
      && n >= 5
      && ps[n - 2] in UnitLetters
      && IsDigit(ps[n - 3])
      && ps[n - 4] == '.'
      && Canonical(ps[..n - 4])
      && (forall i :: 0 <= i < n && ps[i] == '.' ==> i == n - 4)
    ensures var ps := PrettyPrintSize(s); var f := Float64Of(s);
      forall k :: 0 <= k < |UnitLetters| && UnitLetters[k] == ps[|ps| - 2] ==>
        var d := UnitPow(k + 1);
        var t := PrintedTenths(ps);
        && d <= f < Unit * d
        && 20 * f <= 2 * t * d + d
        && 2 * t * d <= 20 * f + d
        && 10 <= t <= 10 * Unit
  {
    ScaledShape(Float64Of(s));
    ScaledReadsBack(Float64Of(s));
  }

  /** Every text has at most one decimal point. */
  lemma AtMostOnePoint(s: int)
    requires IsInt64(s)
    ensures var ps := PrettyPrintSize(s);
      forall i, j :: 0 <= i < j < |ps| && ps[i] == '.' ==> ps[j] != '.'
  {
    if s < Unit {
      SmallSizeReadsBack(s);
    } else {
      LargeSizeReadsBack(s);
    }
  }

  /** Sizes below 1024 print as integers. */
  lemma SmallExamples()
    ensures PrettyPrintSize(0) == "0B"
    ensures PrettyPrintSize(-5) == "-5B"
    ensures PrettyPrintSize(1023) == "1023B"
  {
    assert NatToDecimal(102) == "102" by {
      assert NatToDecimal(10) == "10";
    }
  }

  /** One kibibyte. */
  lemma KibibyteExample()
    ensures PrettyPrintSize(1024) == "1.0KB"
  {
    assert UnitPow(1) == 1024 && UnitPow(2) == 1048576;
    assert FormatTenths(10) == "1.0";
    ExactExample(1024, 0, 10, "1.0KB");
  }

  /** One and a half kibibytes. */
  lemma HalfwayExample()
    ensures PrettyPrintSize(1536) == "1.5KB"
  {
    assert UnitPow(1) == 1024 && UnitPow(2) == 1048576;
    assert FormatTenths(15) == "1.5";
    ExactExample(1536, 0, 15, "1.5KB");
  }

  /** The unit is chosen from the unrounded quotient: 1048575 bytes are
      1023.999... KiB, which rounds to "1024.0KB" rather than "1.0MB". */
  lemma BelowMebibyteExample()
    ensures PrettyPrintSize(1048575) == "1024.0KB"
  {
    assert UnitPow(1) == 1024 && UnitPow(2) == 1048576;
    assert NatToDecimal(102) == "102" by {
      assert NatToDecimal(10) == "10";
    }
    assert NatToDecimal(1024) == "1024";
    ExactExample(1048575, 0, 10240, "1024.0KB");
  }

  /** Exact powers of 1024 print as 1.0 of their unit. */
  lemma MebibyteExample()
    ensures PrettyPrintSize(1048576) == "1.0MB"
  {
    assert UnitPow(2) == 1048576 && UnitPow(3) == 1073741824;
    assert FormatTenths(10) == "1.0";
    ExactExample(1048576, 1, 10, "1.0MB");
  }

  lemma GibibyteExample()
    ensures PrettyPrintSize(1073741824) == "1.0GB"
  {
    assert UnitPow(3) == 1073741824 && UnitPow(4) == 1099511627776;
    assert FormatTenths(10) == "1.0";
    ExactExample(1073741824, 2, 10, "1.0GB");
  }

  /** Every exact power of 1024 from 1024 up to 2^60 prints as 1.0 of its
      unit: the conversion to float64 keeps it, and the quotient is exactly
      one. */
  lemma ExactPowerPrintsOne(k: nat)
    requires k < |UnitLetters|
    ensures UnitPow(k + 1) < Int64Bound
    ensures PrettyPrintSize(UnitPow(k + 1)) == "1.0" + [UnitLetters[k]] + "B"
  {
    var s := UnitPow(k + 1);
    UnitPowMonotone(1, k + 1);
    UnitPowMonotone(k + 1, 6);
    assert UnitPow(6) == 0x1000_0000_0000_0000;
    PowerConvertsExactly(k);
    assert UnitPow(k + 2) == Unit * s;
    var q := Ratio(s, s);
    assert q == 1.0 by {
      assert q * s as real == 1.0 * s as real;
    }
    RoundHalfEvenUnique(10.0 * q, 10);
    ScaledExample(s, k, 10);
    assert FormatTenths(10) == "1.0";
  }

  /** A power of 1024 of an int64 size is a float64 exactly; only 2^60 is
      at or above 2^53. */
  lemma PowerConvertsExactly(k: nat)
    requires k < |UnitLetters|
    ensures UnitPow(k + 1) < Int64Bound && Float64Of(UnitPow(k + 1)) == UnitPow(k + 1)
  {
    UnitPowMonotone(k + 1, 6);
    assert UnitPow(6) == 0x1000_0000_0000_0000;
    if k == 5 {
      var s := 0x1000_0000_0000_0000;
      assert Excess(s) == 8;
      assert Pow2(8) == 256;
      assert RoundToMultiple(s, 256) == 0x10_0000_0000_0000;
    } else {
      UnitPowMonotone(k + 1, 5);
      assert UnitPow(5) < MantissaBound;
    }
  }

  /** float64 rounding shows: 2^60 - 1 converts to 2^60 and prints as one
      exbibyte. */
  lemma RoundedConversionExample()
    ensures PrettyPrintSize(0x0FFF_FFFF_FFFF_FFFF) == "1.0EB"
  {
    var s := 0x0FFF_FFFF_FFFF_FFFF;
    var f := 0x1000_0000_0000_0000;
    Float64OfExample();
    assert UnitPow(6) == f && UnitPow(7) == 1024 * f;
    RoundHalfEvenUnique(10.0 * Ratio(f, UnitPow(6)), 10);
    ScaledExample(f, 5, 10);
    assert FormatTenths(10) == "1.0";
    assert PrettyPrintSize(s) == FormatScaled(f);
  }

  /** 2^60 - 1 needs 60 bits; rounded to 53 it becomes 2^60. */
  lemma Float64OfExample()
    ensures Float64Of(0x0FFF_FFFF_FFFF_FFFF) == 0x1000_0000_0000_0000
  {
    var s := 0x0FFF_FFFF_FFFF_FFFF;
    assert Excess(s) == 7;
    assert Pow2(7) == 128;
    assert RoundToMultiple(s, 128) == MantissaBound;
  }

  /** PrettyPrintSize of an exactly representable size s >= 1024, given its
      exponent k and a count of tenths t strictly nearest to s / 1024^(k+1). */
  lemma ExactExample(s: nat, k: nat, t: nat, text: string)
    requires Unit <= s < MantissaBound && k < |UnitLetters|
    requires UnitPow(k + 1) <= s < UnitPow(k + 2)
    requires -1.0 < 2.0 * (10.0 * (s as real / UnitPow(k + 1) as real) - t as real) < 1.0
    requires FormatTenths(t) + [UnitLetters[k]] + "B" == text
    ensures PrettyPrintSize(s) == text
  {
    RoundHalfEvenUnique(10.0 * Ratio(s, UnitPow(k + 1)), t);
    ScaledExample(s, k, t);
  }

  /** FormatScaled of a float64 size f, given its exponent k and its
      rounded count of tenths t. */
  lemma ScaledExample(f: nat, k: nat, t: nat)
    requires Unit <= f <= Int64Bound && k < |UnitLetters|
    requires UnitPow(k + 1) <= f < UnitPow(k + 2)
    requires t == RoundHalfEven(10.0 * Ratio(f, UnitPow(k + 1)))
    ensures FormatScaled(f) == FormatTenths(t) + [UnitLetters[k]] + "B"
  {
    ExponentUnique(f, k);
  }
}
