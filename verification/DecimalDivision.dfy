/**
 Division and remainder of decimals, from text to text, against the quotient of the numbers the
 operands denote.
 */
module DecimalDivision {
  import opened Options
  import opened IntegerDivision
  import opened DecimalText
  import opened DecimalArith
  import opened Rounding

  lemma Cancel(x: real, y: real, k: real)
    requires k != 0.0 && x * k == y * k
    ensures x == y
  {
    assert (x - y) * k == 0.0;
  }

  /** t is the number n/d. */
  predicate IsRatio(t: real, n: int, d: int) {
    t * d as real == n as real
  }

  lemma QuotientUnique(n: int, d: int, t: real)
    requires d > 0 && IsRatio(t, n, d)
    ensures n as real / d as real == t
  {
    Cancel(n as real / d as real, t, d as real);
  }

  lemma NegatedRatio(t: real, n: int, d: int)
    requires IsRatio(t, n, d)
    ensures IsRatio(t, -n, -d)
  {
    assert t * -(d as real) == -(t * d as real);
  }

  /** The integer to which a real known as a quotient rounds. */
  lemma RoundQuotient(n: int, d: int, t: real, mode: RoundMode)
    requires d > 0 && IsRatio(t, n, d)
    ensures RoundsTo(t, mode, RoundDiv(n, d, mode))
  {
    QuotientUnique(n, d, t);
    RoundDivRounds(n, d, mode);
  }

  /** Shifting a product shifts its factors. */
  lemma ShiftedRatio(z: real, y: real, x: real, m: nat, n: nat, num: int, den: int)
    requires z * y == x && Shift(y, n) == den as real && Shift(x, m + n) == num as real
    ensures IsRatio(Shift(z, m), num, den)
  {
    ShiftProduct(z, y, m, n);
  }

  // The quotient at the asked scale is the ratio of the numerator and denominator decDiv chooses.

  lemma RatioUp(a: Dec, b: Dec, scale: nat, x: real, y: real, z: real, exp: nat)
    requires Is(a, x) && Is(b, y) && z * y == x && exp == scale + b.scale - a.scale
    ensures IsRatio(Shift(z, scale), TimesPow10(a.unscaled, exp), b.unscaled)
  {
    ShiftAgain(x, a.scale, exp);
    ShiftInteger(a.unscaled, exp);
    ShiftedRatio(z, y, x, scale, b.scale, TimesPow10(a.unscaled, exp), b.unscaled);
  }

  lemma RatioDown(a: Dec, b: Dec, scale: nat, x: real, y: real, z: real, exp: nat)
    requires Is(a, x) && Is(b, y) && z * y == x && exp == a.scale - b.scale - scale
    ensures IsRatio(Shift(z, scale), a.unscaled, TimesPow10(b.unscaled, exp))
  {
    ShiftAgain(y, b.scale, exp);
    ShiftInteger(b.unscaled, exp);
    ShiftedRatio(z, y, x, scale, b.scale + exp, a.unscaled, TimesPow10(b.unscaled, exp));
  }

  /** The fraction decDiv builds is the quotient of the numbers, moved to the asked scale. */
  lemma FractionIsQuotient(a: Dec, b: Dec, scale: nat, x: real, y: real, z: real)
    requires Is(a, x) && Is(b, y) && b.unscaled != 0 && z * y == x
    ensures var f := Fraction(a, b, scale); IsRatio(Shift(z, scale), f.num, f.den)
  {
    var exp := scale + b.scale - a.scale;
    if exp >= 0 {
      RatioUp(a, b, scale, x, y, z, exp);
      NegatedRatio(Shift(z, scale), TimesPow10(a.unscaled, exp), b.unscaled);
    } else {
      RatioDown(a, b, scale, x, y, z, -exp);
      NegatedRatio(Shift(z, scale), a.unscaled, TimesPow10(b.unscaled, -exp));
    }
  }

  lemma FormatInjective(p: int, q: int, scale: nat)
    ensures Format(p, scale) == Format(q, scale) <==> p == q
  {
    ParseFormat(p, scale);
    ParseFormat(q, scale);
  }

  lemma NonZero(d: Dec, x: real)
    requires Is(d, x)
    ensures d.unscaled == 0 <==> x == 0.0
  {
    ShiftOrder(x, 0.0, d.scale);
    ShiftOrder(0.0, x, d.scale);
    ShiftInteger(0, d.scale);
    TimesPow10Sign(0, d.scale);
  }

  /**
   decDiv prints, at the asked scale, exactly the integer to which the true quotient rounds:
   whatever the signs and the scales of the operands, and no other integer.
   */
  lemma DivisionIsRoundedQuotient(a: string, b: string, scale: nat, mode: RoundMode, x: real, y: real, z: real, q: int)
    requires Denotes(a, x) && Denotes(b, y) && y != 0.0 && z * y == x && scale <= 100
    ensures DecDiv(a, b, scale, mode) == Format(q, scale) <==> RoundsTo(Shift(z, scale), mode, q)
  {
    var da, db := Parse(a).value, Parse(b).value;
    NonZero(db, y);
    var f := Fraction(da, db, scale);
    FractionIsQuotient(da, db, scale, x, y, z);
    QuotientUnique(f.num, f.den, Shift(z, scale));
    RoundDivIff(f.num, f.den, mode, q);
    FormatInjective(RoundDiv(f.num, f.den, mode), q, scale);
  }

  /** Exactly when decDiv answers a number, and exactly when it reports a zero divisor. */
  lemma DivisionTraps(a: string, b: string, scale: int, mode: RoundMode)
    ensures Parse(DecDiv(a, b, scale, mode)).Some? <==>
              0 <= scale <= 100 && Parse(a).Some? && Parse(b).Some? && Parse(b).value.unscaled != 0
    ensures DecDiv(a, b, scale, mode) == DIVIDE_BY_ZERO <==>
              0 <= scale <= 100 && Parse(a).Some? && Parse(b).Some? && Parse(b).value.unscaled == 0
  {
    TrapIsNoDecimal();
    if 0 <= scale <= 100 && Parse(a).Some? && Parse(b).Some? && Parse(b).value.unscaled != 0 {
      var f := Fraction(Parse(a).value, Parse(b).value, scale);
      ParseFormat(RoundDiv(f.num, f.den, mode), scale);
    }
  }

  /** Multiplying by b and dividing by b again, at the original scale, is the identity in every
      rounding mode, up to canonical spelling. */
  lemma DivUndoesMul(q: string, b: string, mode: RoundMode)
    requires Parse(q).Some? && Parse(b).Some? && Parse(b).value.unscaled != 0 && Parse(q).value.scale <= 100
    ensures DecDiv(DecMul(q, b), b, Parse(q).value.scale, mode) == Canonical(q)
  {
    var x := DenotesOne(q);
    var y := DenotesOne(b);
    NonZero(Parse(b).value, y);
    ProductIsExact(q, b, x, y);
    DivideBack(DecMul(q, b), b, Parse(q).value, mode, x, y);
  }

  lemma DivideBack(product: string, b: string, d: Dec, mode: RoundMode, x: real, y: real)
    requires Denotes(product, x * y) && Denotes(b, y) && y != 0.0 && Is(d, x) && d.scale <= 100
    ensures DecDiv(product, b, d.scale, mode) == Format(d.unscaled, d.scale)
  {
    DivisionIsRoundedQuotient(product, b, d.scale, mode, x * y, y, x, d.unscaled);
    RoundsToExact(d.unscaled, mode);
  }

  // ----- remainder -----

  /** decRem is a − t·b for the integer t to which a/b rounds toward zero; it is smaller than b
      and does not oppose the sign of a. */
  lemma RemainderIsExact(a: string, b: string, x: real, y: real, z: real) returns (t: int, r: real)
    requires Denotes(a, x) && Denotes(b, y) && y != 0.0 && z * y == x
    ensures Denotes(DecRem(a, b), r) && r == x - t as real * y
    ensures RoundsTo(z, Down, t)
    ensures Magnitude(r) < Magnitude(y) && (r == 0.0 || (r < 0.0 <==> x < 0.0))
  {
    NonZero(Parse(b).value, y);
    t, r := RemDecIsExact(Parse(a).value, Parse(b).value, x, y, z);
    PrintParses(Some(RemDec(Parse(a).value, Parse(b).value)));
  }

  lemma RemDecIsExact(a: Dec, b: Dec, x: real, y: real, z: real) returns (t: int, r: real)
    requires Is(a, x) && Is(b, y) && b.unscaled != 0 && z * y == x
    ensures Is(RemDec(a, b), r) && r == x - t as real * y
    ensures RoundsTo(z, Down, t)
    ensures Magnitude(r) < Magnitude(y) && (r == 0.0 || (r < 0.0 <==> x < 0.0))
  {
    var scale := MaxScale(a, b);
    var ua, ub := AtScale(a, scale), AtScale(b, scale);
    TimesPow10Sign(b.unscaled, scale - b.scale);
    IsAtScale(a, x, scale);
    IsAtScale(b, y, scale);
    t := TruncDiv(ua, ub);
    r := x - t as real * y;
    ShiftedRemainder(x, y, t, scale, ua, ub);
    TruncDivBounds(ua, ub);
    ShiftedSign(x, scale, ua);
    ShiftedSign(r, scale, ua - t * ub);
    ShiftedMagnitude(r, y, scale, ua - t * ub, ub);
    TruncationRounds(ua, ub, z, x, y, scale);
  }

  lemma ShiftedRemainder(x: real, y: real, t: int, n: nat, ua: int, ub: int)
    requires Shift(x, n) == ua as real && Shift(y, n) == ub as real
    ensures Shift(x - t as real * y, n) == (ua - t * ub) as real
  {
    ShiftFactor(t as real, y, n);
    IntegerFactor(t, ub, Shift(y, n));
    ShiftSum(x, t as real * y, n);
  }

  lemma IntegerFactor(t: int, v: int, y: real)
    requires y == v as real
    ensures t as real * y == (t * v) as real
  {
    IntegerProduct(t, v);
  }

  lemma ShiftedSign(x: real, n: nat, u: int)
    requires Shift(x, n) == u as real
    ensures (x < 0.0 <==> u < 0) && (x == 0.0 <==> u == 0)
  {
    ShiftOrder(x, 0.0, n);
    ShiftOrder(0.0, x, n);
    ShiftInteger(0, n);
    TimesPow10Sign(0, n);
  }

  lemma ShiftedMagnitude(x: real, y: real, n: nat, u: int, v: int)
    requires Shift(x, n) == u as real && Shift(y, n) == v as real && Abs(u) < Abs(v)
    ensures Magnitude(x) < Magnitude(y)
  {
    ShiftedSign(x, n, u);
    ShiftedSign(y, n, v);
    ShiftNegate(x, n);
    ShiftNegate(y, n);
    ShiftOrder(Magnitude(x), Magnitude(y), n);
  }

  lemma ShiftNegate(x: real, n: nat)
    ensures Shift(-x, n) == -Shift(x, n)
  {
    ShiftSum(0.0, x, n);
    ShiftInteger(0, n);
    TimesPow10Sign(0, n);
  }

  /** Truncated division of the aligned integers truncates the quotient of the numbers. */
  lemma TruncationRounds(ua: int, ub: int, z: real, x: real, y: real, n: nat)
    requires ub != 0 && z * y == x && Shift(x, n) == ua as real && Shift(y, n) == ub as real
    ensures RoundsTo(z, Down, TruncDiv(ua, ub))
  {
    ShiftedRatio(z, y, x, 0, n, ua, ub);
    RatioTruncates(ua, ub, z);
  }

  lemma RatioTruncates(n: int, d: int, t: real)
    requires d != 0 && IsRatio(t, n, d)
    ensures RoundsTo(t, Down, TruncDiv(n, d))
  {
    if d > 0 {
      RoundQuotient(n, d, t, Down);
      DownIsTruncation(n, d);
    } else {
      NegatedRatio(t, n, d);
      RoundQuotient(-n, -d, t, Down);
      DownIsTruncation(-n, -d);
    }
  }

  lemma DownIsTruncation(n: int, d: int)
    requires d > 0
    ensures RoundDiv(n, d, Down) == TruncDiv(n, d)
  {
  }

  /** decDiv as the program runs it: scale one side up, then make the denominator positive. */
  method DivideStepwise(a: string, b: string, scale: int, mode: RoundMode) returns (quotient: string)
    ensures quotient == DecDiv(a, b, scale, mode)
  {
    if scale < 0 || scale > 100 {
      return MALFORMED;
    }
    var da, db := Parse(a), Parse(b);
    if da.None? || db.None? {
      return MALFORMED;
    }
    if db.value.unscaled == 0 {
      return DIVIDE_BY_ZERO;
    }
    var num, den := ScaleStepwise(da.value, db.value, scale);
    var rounded := RoundQuotientStepwise(num, den, mode);
    quotient := Format(rounded, scale);
  }

  /** One side is scaled up, then the denominator made positive. */
  method ScaleStepwise(a: Dec, b: Dec, scale: nat) returns (num: int, den: int)
    requires b.unscaled != 0
    ensures den > 0 && Fraction(a, b, scale) == Ratio(num, den)
  {
    var exp := scale + b.scale - a.scale;
    num, den := a.unscaled, b.unscaled;
    if exp >= 0 {
      num := TimesPow10(num, exp);
    } else {
      TimesPow10Sign(den, -exp);
      den := TimesPow10(den, -exp);
    }
    if den < 0 {
      num := -num;
      den := -den;
    }
  }
}
