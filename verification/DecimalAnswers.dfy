/**
 What each decimal operation answers, character by character: the canonical spelling of the exact or rounded
 number, at the scale the source promises, and the traps (decimal-arith.ts).
 */
module DecimalAnswers {
  import opened CharacterClasses
  import opened DecimalSpelling
  import opened DecimalText
  import opened DecimalArith
  import opened DecimalDivision
  import opened Rounding
  import opened Options

  /** The text stands for x, with `scale` digits behind the dot. */
  ghost predicate Amount(t: string, x: real, scale: nat) {
    exists sign, whole, dot, fraction ::
      && Reads(t, sign, whole, dot, fraction) && DigitsOnly(whole) && DigitsOnly(fraction) && |fraction| == scale
      && x == SignedReal(sign, PlaceValue(whole) as real + FractionValue(fraction))
  }

  ghost predicate IsNumber(t: string) {
    exists sign, whole, dot, fraction :: Reads(t, sign, whole, dot, fraction)
  }

  /** The one canonical spelling of x with `scale` digits behind the dot. */
  ghost predicate Answer(t: string, x: real, scale: nat) {
    Spelled(t, x < 0.0, scale) && Amount(t, x, scale)
  }

  lemma AmountIff(t: string, x: real, scale: nat)
    ensures Amount(t, x, scale) <==> Denotes(t, x) && Parse(t).value.scale == scale
  {
    if Amount(t, x, scale) {
      var sign, whole, dot, fraction :|
        && Reads(t, sign, whole, dot, fraction) && DigitsOnly(whole) && DigitsOnly(fraction) && |fraction| == scale
        && x == SignedReal(sign, PlaceValue(whole) as real + FractionValue(fraction));
      ReadsMeans(t, sign, whole, dot, fraction);
      ValueIs(sign, whole, fraction, x);
    }
    if Denotes(t, x) && Parse(t).value.scale == scale {
      var sign, whole, dot, fraction := ReadsFound(t);
      ReadsMeans(t, sign, whole, dot, fraction);
      DigitsConcat(whole, fraction);
      ValueIs(sign, whole, fraction, x);
    }
  }

  lemma OperandOf(t: string, x: real, scale: nat) returns (d: Dec)
    requires Amount(t, x, scale)
    ensures Parse(t) == Some(d) && Is(d, x) && d.scale == scale
  {
    AmountIff(t, x, scale);
    d := Parse(t).value;
  }

  lemma IsNumberIff(t: string)
    ensures IsNumber(t) <==> Parse(t).Some?
  {
    if IsNumber(t) {
      var sign, whole, dot, fraction :| Reads(t, sign, whole, dot, fraction);
      ReadsMeans(t, sign, whole, dot, fraction);
    }
    if Parse(t).Some? {
      var sign, whole, dot, fraction := ReadsFound(t);
    }
  }

  lemma IsSign(d: Dec, x: real)
    requires Is(d, x)
    ensures d.unscaled < 0 <==> x < 0.0
  {
    ShiftOrder(x, 0.0, d.scale);
    ShiftInteger(0, d.scale);
    TimesTenTo(0, d.scale);
  }

  /** What is printed for a decimal is the answer for its number and scale, and nothing else is. */
  lemma FormatIsAnswer(t: string, d: Dec, x: real)
    requires Is(d, x)
    ensures t == Format(d.unscaled, d.scale) <==> Answer(t, x, d.scale)
  {
    IsSign(d, x);
    FormatIff(t, d.unscaled, d.scale);
    AmountIff(t, x, d.scale);
    if Answer(t, x, d.scale) {
      SameInteger(Parse(t).value, d, x);
    }
  }

  lemma SameInteger(a: Dec, b: Dec, x: real)
    requires Is(a, x) && Is(b, x) && a.scale == b.scale
    ensures a == b
  {
  }

  function Larger(m: nat, n: nat): nat {
    if m < n then n else m
  }

  /** Printed text and the decimal it was printed from, whose number is x. */
  lemma PrintedIsAnswer(t: string, printed: string, d: Dec, scale: nat, x: real)
    requires Print(Some(d)) == printed && d.scale == scale && Is(d, x)
    ensures t == printed <==> Answer(t, x, scale)
  {
    FormatIsAnswer(t, d, x);
  }

  lemma SumIs(a: string, b: string, da: Dec, db: Dec, x: real, y: real, z: real) returns (d: Dec)
    requires Parse(a) == Some(da) && Parse(b) == Some(db) && Is(da, x) && Is(db, y) && z == x + y
    ensures Print(Some(d)) == DecAdd(a, b) && d.scale == Larger(da.scale, db.scale) && Is(d, z)
  {
    AddDecIs(da, db, x, y);
    d := AddDec(da, db);
  }

  lemma DifferenceIs(a: string, b: string, da: Dec, db: Dec, x: real, y: real, z: real) returns (d: Dec)
    requires Parse(a) == Some(da) && Parse(b) == Some(db) && Is(da, x) && Is(db, y) && z == x - y
    ensures Print(Some(d)) == DecSub(a, b) && d.scale == Larger(da.scale, db.scale) && Is(d, z)
  {
    AddDecIs(da, db, x, y);
    d := SubDec(da, db);
  }

  lemma ProductIs(a: string, b: string, da: Dec, db: Dec, x: real, y: real, z: real) returns (d: Dec)
    requires Parse(a) == Some(da) && Parse(b) == Some(db) && Is(da, x) && Is(db, y) && z == x * y
    ensures Print(Some(d)) == DecMul(a, b) && d.scale == da.scale + db.scale && Is(d, z)
  {
    MulDecIs(da, db, x, y);
    d := MulDec(da, db);
  }

  lemma RemainderIs(a: string, b: string, da: Dec, db: Dec, x: real, y: real, z: real, k: int, r: real)
    returns (d: Dec)
    requires Parse(a) == Some(da) && Parse(b) == Some(db) && Is(da, x) && Is(db, y)
    requires y != 0.0 && z * y == x && RoundsTo(z, Down, k) && r == x - k as real * y
    ensures Print(Some(d)) == DecRem(a, b) && d.scale == Larger(da.scale, db.scale) && Is(d, r)
  {
    NonZero(db, y);
    var other, rest := RemDecIsExact(da, db, x, y, z);
    SameQuotient(z, k, other, x, y, r, rest);
    d := RemDec(da, db);
  }

  lemma SameQuotient(z: real, k: int, other: int, x: real, y: real, r: real, rest: real)
    requires RoundsTo(z, Down, k) && RoundsTo(z, Down, other)
    requires r == x - k as real * y && rest == x - other as real * y
    ensures r == rest
  {
    RoundsToUnique(z, Down, k, other);
  }

  /** Sums are exact, at the larger scale. */
  lemma SumAnswer(a: string, x: real, m: nat, b: string, y: real, n: nat, z: real, t: string)
    requires Amount(a, x, m) && Amount(b, y, n) && z == x + y
    ensures t == DecAdd(a, b) <==> Answer(t, z, Larger(m, n))
  {
    var da := OperandOf(a, x, m);
    var db := OperandOf(b, y, n);
    var d := SumIs(a, b, da, db, x, y, z);
    PrintedIsAnswer(t, DecAdd(a, b), d, Larger(m, n), z);
  }

  /** Differences are exact, at the larger scale. */
  lemma DifferenceAnswer(a: string, x: real, m: nat, b: string, y: real, n: nat, z: real, t: string)
    requires Amount(a, x, m) && Amount(b, y, n) && z == x - y
    ensures t == DecSub(a, b) <==> Answer(t, z, Larger(m, n))
  {
    var da := OperandOf(a, x, m);
    var db := OperandOf(b, y, n);
    var d := DifferenceIs(a, b, da, db, x, y, z);
    PrintedIsAnswer(t, DecSub(a, b), d, Larger(m, n), z);
  }

  /** Products are exact, at the sum of the scales. */
  lemma ProductAnswer(a: string, x: real, m: nat, b: string, y: real, n: nat, z: real, t: string)
    requires Amount(a, x, m) && Amount(b, y, n) && z == x * y
    ensures t == DecMul(a, b) <==> Answer(t, z, m + n)
  {
    var da := OperandOf(a, x, m);
    var db := OperandOf(b, y, n);
    var d := ProductIs(a, b, da, db, x, y, z);
    PrintedIsAnswer(t, DecMul(a, b), d, m + n, z);
  }

  /** Remainder: what the quotient, cut off towards zero, leaves over, at the larger scale. */
  lemma RemainderAnswer(a: string, x: real, m: nat, b: string, y: real, n: nat, z: real, k: int, r: real, t: string)
    requires Amount(a, x, m) && Amount(b, y, n)
    requires y != 0.0 && z * y == x && RoundsTo(z, Down, k) && r == x - k as real * y
    ensures t == DecRem(a, b) <==> Answer(t, r, Larger(m, n))
  {
    var da := OperandOf(a, x, m);
    var db := OperandOf(b, y, n);
    var d := RemainderIs(a, b, da, db, x, y, z, k, r);
    PrintedIsAnswer(t, DecRem(a, b), d, Larger(m, n), r);
  }

  lemma {:induction false} ShiftIsTenTo(x: real, n: nat)
    ensures Shift(x, n) == x * TenTo(n) as real
  {
    if n > 0 {
      ShiftIsTenTo(x, n - 1);
      RealTenfold(x, TenTo(n - 1) as real);
    }
  }

  lemma QuotientIs(q: int, scale: nat)
    ensures Is(Dec(q, scale), q as real / TenTo(scale) as real)
  {
    ShiftIsTenTo(q as real / TenTo(scale) as real, scale);
  }

  /** Division: the quotient at the scale asked for, its last digit rounded in the mode asked for. */
  lemma QuotientAnswer(a: string, x: real, m: nat, b: string, y: real, n: nat, z: real, scale: nat, shifted: real,
                       mode: RoundMode, q: int, t: string)
    requires Amount(a, x, m) && Amount(b, y, n) && y != 0.0 && z * y == x
    requires scale <= 100 && shifted == z * TenTo(scale) as real && RoundsTo(shifted, mode, q)
    ensures t == DecDiv(a, b, scale, mode) <==> Answer(t, q as real / TenTo(scale) as real, scale)
  {
    AmountIff(a, x, m);
    AmountIff(b, y, n);
    ShiftIsTenTo(z, scale);
    QuotientFormat(a, x, b, y, z, scale, shifted, mode, q);
    QuotientIs(q, scale);
    FormatIsAnswer(t, Dec(q, scale), q as real / TenTo(scale) as real);
  }

  lemma QuotientFormat(a: string, x: real, b: string, y: real, z: real, scale: nat, shifted: real, mode: RoundMode,
                       q: int)
    requires Denotes(a, x) && Denotes(b, y) && y != 0.0 && z * y == x && scale <= 100
    requires shifted == Shift(z, scale) && RoundsTo(shifted, mode, q)
    ensures DecDiv(a, b, scale, mode) == Format(q, scale)
  {
    DivisionIsRoundedQuotient(a, b, scale, mode, x, y, z, q);
  }

  /** Everything else is refused with one of two words. */
  lemma Refusals(a: string, b: string, scale: int, mode: RoundMode)
    ensures !IsNumber(a) || !IsNumber(b) ==>
              && DecAdd(a, b) == DecSub(a, b) == DecMul(a, b) == DecDiv(a, b, scale, mode) == "MalformedDecimal"
              && DecRem(a, b) == "MalformedDecimal" && DecCompare(a, b) == Malformed
    ensures scale < 0 || scale > 100 ==> DecDiv(a, b, scale, mode) == "MalformedDecimal"
    ensures IsNumber(a) && (exists n :: Amount(b, 0.0, n)) ==>
              && DecRem(a, b) == "DivideByZero"
              && (0 <= scale <= 100 ==> DecDiv(a, b, scale, mode) == "DivideByZero")
  {
    IsNumberIff(a);
    IsNumberIff(b);
    if exists n :: Amount(b, 0.0, n) {
      var n :| Amount(b, 0.0, n);
      AmountIff(b, 0.0, n);
      ShiftInteger(0, n);
      TimesTenTo(0, n);
    }
  }
}
