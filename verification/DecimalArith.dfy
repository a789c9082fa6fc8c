/**
 Exact decimal arithmetic on text (decimal-arith.ts).

 As in the source, every operation takes and returns text, and a trap is itself text that is not
 a decimal. The reference is the real number a decimal denotes.
 */
module DecimalArith {
  import opened Options
  import opened IntegerDivision
  import opened DecimalText
  import opened JsText
  import opened Rounding

  const MALFORMED := "MalformedDecimal"
  const DIVIDE_BY_ZERO := "DivideByZero"

  /** u · 10^n. */
  function TimesPow10(u: int, n: nat): int {
    if n == 0 then u else 10 * TimesPow10(u, n - 1)
  }

  /** x · 10^n, that is, x with its decimal point n places further right. */
  function Shift(x: real, n: nat): real {
    if n == 0 then x else 10.0 * Shift(x, n - 1)
  }

  /** `d` denotes the number x: x is unscaled · 10^(-scale). */
  predicate Is(d: Dec, x: real) {
    Shift(x, d.scale) == d.unscaled as real
  }

  /** The text is a decimal and denotes x. */
  predicate Denotes(s: string, x: real) {
    Parse(s).Some? && Is(Parse(s).value, x)
  }

  // ----- the operations -----

  function MaxScale(a: Dec, b: Dec): nat {
    if a.scale >= b.scale then a.scale else b.scale
  }

  /** The unscaled integer of `d` at a scale no smaller than its own. */
  function AtScale(d: Dec, scale: nat): int
    requires d.scale <= scale
  {
    TimesPow10(d.unscaled, scale - d.scale)
  }

  function AddDec(a: Dec, b: Dec): Dec {
    var scale := MaxScale(a, b);
    Dec(AtScale(a, scale) + AtScale(b, scale), scale)
  }

  function SubDec(a: Dec, b: Dec): Dec {
    var scale := MaxScale(a, b);
    Dec(AtScale(a, scale) - AtScale(b, scale), scale)
  }

  function MulDec(a: Dec, b: Dec): Dec {
    Dec(a.unscaled * b.unscaled, a.scale + b.scale)
  }

  /** Applies an operation where both operands are decimals. */
  function Lift(op: (Dec, Dec) -> Dec, a: Option<Dec>, b: Option<Dec>): Option<Dec> {
    if a.Some? && b.Some? then Some(op(a.value, b.value)) else None
  }

  function Print(d: Option<Dec>): string {
    if d.None? then MALFORMED else Format(d.value.unscaled, d.value.scale)
  }

  function DecAdd(a: string, b: string): string {
    Print(Lift(AddDec, Parse(a), Parse(b)))
  }

  function DecSub(a: string, b: string): string {
    Print(Lift(SubDec, Parse(a), Parse(b)))
  }

  function DecMul(a: string, b: string): string {
    Print(Lift(MulDec, Parse(a), Parse(b)))
  }

  datatype Ratio = Ratio(num: int, den: int)

  /** The fraction whose rounding is the quotient's unscaled integer, with a positive denominator. */
  function Fraction(a: Dec, b: Dec, scale: nat): (f: Ratio)
    requires b.unscaled != 0
    ensures f.den > 0
  {
    var exp := scale + b.scale - a.scale;
    var num := if exp >= 0 then TimesPow10(a.unscaled, exp) else a.unscaled;
    var den := if exp >= 0 then b.unscaled else TimesPow10(b.unscaled, -exp);
    TimesPow10Sign(b.unscaled, if exp >= 0 then 0 else -exp);
    if den < 0 then Ratio(-num, -den) else Ratio(num, den)
  }

  function DecDiv(a: string, b: string, scale: int, mode: RoundMode): string {
    if scale < 0 || scale > 100 then MALFORMED
    else
      var da, db := Parse(a), Parse(b);
      if da.None? || db.None? then MALFORMED
      else if db.value.unscaled == 0 then DIVIDE_BY_ZERO
      else
        var f := Fraction(da.value, db.value, scale);
        Format(RoundDiv(f.num, f.den, mode), scale)
  }

  function RemDec(a: Dec, b: Dec): Dec
    requires b.unscaled != 0
  {
    var scale := MaxScale(a, b);
    var ua, ub := AtScale(a, scale), AtScale(b, scale);
    TimesPow10Sign(b.unscaled, scale - b.scale);
    var q := TruncDiv(ua, ub);
    Dec(ua - q * ub, scale)
  }

  function DecRem(a: string, b: string): string {
    var da, db := Parse(a), Parse(b);
    if da.None? || db.None? then MALFORMED
    else if db.value.unscaled == 0 then DIVIDE_BY_ZERO
    else Print(Some(RemDec(da.value, db.value)))
  }

  datatype Comparison = Order(sign: int) | Malformed

  function CompareDec(a: Dec, b: Dec): int {
    var scale := MaxScale(a, b);
    var ua, ub := AtScale(a, scale), AtScale(b, scale);
    if ua < ub then -1 else if ua > ub then 1 else 0
  }

  function DecCompare(a: string, b: string): Comparison {
    var da, db := Parse(a), Parse(b);
    if da.None? || db.None? then Malformed else Order(CompareDec(da.value, db.value))
  }

  // ----- powers of ten -----

  lemma TimesPow10Sign(u: int, n: nat)
    ensures (u > 0 <==> TimesPow10(u, n) > 0) && (u < 0 <==> TimesPow10(u, n) < 0)
  {
  }

  lemma {:induction false} TimesPow10Again(u: int, m: nat, n: nat)
    ensures TimesPow10(TimesPow10(u, m), n) == TimesPow10(u, m + n)
  {
    if n > 0 {
      TimesPow10Again(u, m, n - 1);
    }
  }

  lemma {:induction false} TimesPow10Sum(u: int, v: int, n: nat)
    ensures TimesPow10(u + v, n) == TimesPow10(u, n) + TimesPow10(v, n)
  {
    if n > 0 {
      TimesPow10Sum(u, v, n - 1);
    }
  }

  lemma {:induction false} TimesPow10Product(u: int, v: int, n: nat)
    ensures TimesPow10(u * v, n) == u * TimesPow10(v, n)
  {
    if n > 0 {
      TimesPow10Product(u, v, n - 1);
      Tenfold(u, TimesPow10(v, n - 1));
    }
  }

  lemma Tenfold(u: int, v: int)
    ensures 10 * (u * v) == u * (10 * v)
  {
  }

  lemma ShiftInteger(u: int, n: nat)
    ensures Shift(u as real, n) == TimesPow10(u, n) as real
  {
  }

  lemma {:induction false} ShiftAgain(x: real, m: nat, n: nat)
    ensures Shift(Shift(x, m), n) == Shift(x, m + n)
  {
    if n > 0 {
      ShiftAgain(x, m, n - 1);
    }
  }

  lemma {:induction false} ShiftSum(x: real, y: real, n: nat)
    ensures Shift(x + y, n) == Shift(x, n) + Shift(y, n)
    ensures Shift(x - y, n) == Shift(x, n) - Shift(y, n)
  {
    if n > 0 {
      ShiftSum(x, y, n - 1);
    }
  }

  lemma ShiftOrder(x: real, y: real, n: nat)
    ensures x < y <==> Shift(x, n) < Shift(y, n)
  {
  }

  lemma {:induction false} ShiftFactor(k: real, x: real, n: nat)
    ensures Shift(k * x, n) == k * Shift(x, n)
  {
    if n > 0 {
      ShiftFactor(k, x, n - 1);
      RealTenfold(k, Shift(x, n - 1));
    }
  }

  lemma RealTenfold(x: real, y: real)
    ensures 10.0 * (x * y) == x * (10.0 * y) == (10.0 * x) * y
  {
  }

  lemma {:induction false} ShiftProduct(x: real, y: real, m: nat, n: nat)
    ensures Shift(x * y, m + n) == Shift(x, m) * Shift(y, n)
  {
    if m == 0 {
      ShiftFactor(x, y, n);
    } else {
      ShiftProduct(x, y, m - 1, n);
      RealTenfold(Shift(x, m - 1), Shift(y, n));
    }
  }

  /** The number, shifted to any larger scale, is the integer at that scale. */
  lemma IsAtScale(d: Dec, x: real, scale: nat)
    requires Is(d, x) && d.scale <= scale
    ensures Shift(x, scale) == AtScale(d, scale) as real
  {
    ShiftAgain(x, d.scale, scale - d.scale);
    ShiftInteger(d.unscaled, scale - d.scale);
  }

  /** Every decimal denotes exactly one number. */
  lemma DenotesOne(s: string) returns (x: real)
    requires Parse(s).Some?
    ensures Denotes(s, x)
    ensures forall y :: Denotes(s, y) ==> y == x
  {
    x := Unshift(Parse(s).value.unscaled as real, Parse(s).value.scale);
    forall y | Denotes(s, y) ensures y == x {
      ShiftOrder(x, y, Parse(s).value.scale);
      ShiftOrder(y, x, Parse(s).value.scale);
    }
  }

  lemma {:induction false} Unshift(u: real, n: nat) returns (x: real)
    ensures Shift(x, n) == u
    decreases n
  {
    if n == 0 {
      x := u;
    } else {
      x := Unshift(u / 10.0, n - 1);
    }
  }

  // ----- ring laws, on every text -----

  lemma TrapIsNoDecimal()
    ensures Parse(MALFORMED).None? && Parse(DIVIDE_BY_ZERO).None?
  {
    MalformedIsNoDecimal(MALFORMED);
    DivideByZeroIsNoDecimal(DIVIDE_BY_ZERO);
  }

  lemma MalformedIsNoDecimal(s: string)
    requires s == MALFORMED
    ensures Parse(s).None?
  {
    LetterFirst(s);
  }

  lemma DivideByZeroIsNoDecimal(s: string)
    requires s == DIVIDE_BY_ZERO
    ensures Parse(s).None?
  {
    LetterFirst(s);
  }

  lemma LetterFirst(s: string)
    requires s != "" && !IsSpace(s[0]) && !IsSpace(s[|s| - 1])
    requires !IsDigit(s[0]) && s[0] != '.' && s[0] != '-' && s[0] != '+'
    ensures Parse(s).None?
  {
    TrimNothing(s);
    assert s[..DotIndex(s)][0] == s[0];
  }

  lemma PrintParses(d: Option<Dec>)
    ensures Parse(Print(d)) == d
  {
    TrapIsNoDecimal();
    if d.Some? {
      ParseFormat(d.value.unscaled, d.value.scale);
    }
  }

  lemma AddAtScale(a: Dec, b: Dec, scale: nat)
    requires MaxScale(a, b) <= scale
    ensures AtScale(AddDec(a, b), scale) == AtScale(a, scale) + AtScale(b, scale)
  {
    var mid := MaxScale(a, b);
    TimesPow10Again(a.unscaled, mid - a.scale, scale - mid);
    TimesPow10Again(b.unscaled, mid - b.scale, scale - mid);
    TimesPow10Sum(AtScale(a, mid), AtScale(b, mid), scale - mid);
  }

  lemma AddDecAssociates(a: Dec, b: Dec, c: Dec)
    ensures AddDec(AddDec(a, b), c) == AddDec(a, AddDec(b, c))
  {
    var scale := AddDec(AddDec(a, b), c).scale;
    AddAtScale(a, b, scale);
    AddAtScale(b, c, scale);
  }

  lemma MulDecLaws(a: Dec, b: Dec, c: Dec)
    ensures MulDec(a, b) == MulDec(b, a)
    ensures MulDec(MulDec(a, b), c) == MulDec(a, MulDec(b, c))
  {
    MulAssociative(a.unscaled, b.unscaled, c.unscaled);
  }

  lemma MulAssociative(x: int, y: int, z: int)
    ensures x * (y * z) == (x * y) * z
  {
  }

  lemma MulDecDistributes(a: Dec, b: Dec, c: Dec)
    ensures MulDec(a, AddDec(b, c)) == AddDec(MulDec(a, b), MulDec(a, c))
  {
    var scale := MaxScale(b, c);
    TimesPow10Product(a.unscaled, b.unscaled, scale - b.scale);
    TimesPow10Product(a.unscaled, c.unscaled, scale - c.scale);
    Distribute(a.unscaled, AtScale(b, scale), AtScale(c, scale));
  }

  lemma Distribute(k: int, x: int, y: int)
    ensures k * (x + y) == k * x + k * y
  {
  }

  /** What the operations print parses back to what they computed. */
  lemma ResultsParse(a: string, b: string)
    ensures Parse(DecAdd(a, b)) == Lift(AddDec, Parse(a), Parse(b))
    ensures Parse(DecSub(a, b)) == Lift(SubDec, Parse(a), Parse(b))
    ensures Parse(DecMul(a, b)) == Lift(MulDec, Parse(a), Parse(b))
  {
    PrintParses(Lift(AddDec, Parse(a), Parse(b)));
    PrintParses(Lift(SubDec, Parse(a), Parse(b)));
    PrintParses(Lift(MulDec, Parse(a), Parse(b)));
  }

  lemma LiftedAddLaws(a: Option<Dec>, b: Option<Dec>, c: Option<Dec>)
    ensures Lift(AddDec, a, b) == Lift(AddDec, b, a)
    ensures Lift(AddDec, Lift(AddDec, a, b), c) == Lift(AddDec, a, Lift(AddDec, b, c))
  {
    if a.Some? && b.Some? && c.Some? {
      AddDecAssociates(a.value, b.value, c.value);
    }
  }

  lemma LiftedMulLaws(a: Option<Dec>, b: Option<Dec>, c: Option<Dec>)
    ensures Lift(MulDec, a, b) == Lift(MulDec, b, a)
    ensures Lift(MulDec, Lift(MulDec, a, b), c) == Lift(MulDec, a, Lift(MulDec, b, c))
  {
    if a.Some? && b.Some? {
      MulDecLaws(a.value, b.value, if c.Some? then c.value else a.value);
    }
  }

  lemma LiftedDistribution(a: Option<Dec>, b: Option<Dec>, c: Option<Dec>)
    ensures Lift(MulDec, a, Lift(AddDec, b, c)) == Lift(AddDec, Lift(MulDec, a, b), Lift(MulDec, a, c))
  {
    if a.Some? && b.Some? && c.Some? {
      MulDecDistributes(a.value, b.value, c.value);
    }
  }

  /** Addition commutes and associates in the text it prints, whatever the operands. */
  lemma AddLaws(a: string, b: string, c: string)
    ensures DecAdd(a, b) == DecAdd(b, a)
    ensures DecAdd(DecAdd(a, b), c) == DecAdd(a, DecAdd(b, c))
  {
    ResultsParse(a, b);
    ResultsParse(b, c);
    LiftedAddLaws(Parse(a), Parse(b), Parse(c));
  }

  lemma MulLaws(a: string, b: string, c: string)
    ensures DecMul(a, b) == DecMul(b, a)
    ensures DecMul(DecMul(a, b), c) == DecMul(a, DecMul(b, c))
  {
    ResultsParse(a, b);
    ResultsParse(b, c);
    LiftedMulLaws(Parse(a), Parse(b), Parse(c));
  }

  /** a·(b + c) and a·b + a·c print the same text: same value and same scale. */
  lemma MulDistributes(a: string, b: string, c: string)
    ensures DecMul(a, DecAdd(b, c)) == DecAdd(DecMul(a, b), DecMul(a, c))
  {
    ResultsParse(b, c);
    ResultsParse(a, b);
    ResultsParse(a, c);
    LiftedDistribution(Parse(a), Parse(b), Parse(c));
  }

  // ----- values -----

  lemma AddDecIs(a: Dec, b: Dec, x: real, y: real)
    requires Is(a, x) && Is(b, y)
    ensures Is(AddDec(a, b), x + y) && Is(SubDec(a, b), x - y)
  {
    var scale := MaxScale(a, b);
    IsAtScale(a, x, scale);
    IsAtScale(b, y, scale);
    ShiftSum(x, y, scale);
  }

  lemma MulDecIs(a: Dec, b: Dec, x: real, y: real)
    requires Is(a, x) && Is(b, y)
    ensures Is(MulDec(a, b), x * y)
  {
    ShiftProduct(x, y, a.scale, b.scale);
    IntegerProduct(a.unscaled, b.unscaled);
  }

  lemma IntegerProduct(m: int, n: int)
    ensures (m * n) as real == m as real * n as real
  {
  }

  /** Addition and subtraction are exact on the numbers denoted. */
  lemma SumsAreExact(a: string, b: string, x: real, y: real)
    requires Denotes(a, x) && Denotes(b, y)
    ensures Denotes(DecAdd(a, b), x + y)
    ensures Denotes(DecSub(a, b), x - y)
  {
    ResultsParse(a, b);
    AddDecIs(Parse(a).value, Parse(b).value, x, y);
  }

  /** And so is multiplication. */
  lemma ProductIsExact(a: string, b: string, x: real, y: real)
    requires Denotes(a, x) && Denotes(b, y)
    ensures Denotes(DecMul(a, b), x * y)
  {
    ResultsParse(a, b);
    MulDecIs(Parse(a).value, Parse(b).value, x, y);
  }

  /** Comparison orders by number, so "0.1" and "0.10" are equal and the order is total. */
  lemma CompareByNumber(a: string, b: string, x: real, y: real)
    requires Denotes(a, x) && Denotes(b, y)
    ensures DecCompare(a, b) == Order(if x < y then -1 else if x == y then 0 else 1)
  {
    CompareDecs(Parse(a).value, Parse(b).value, x, y);
  }

  lemma CompareDecs(a: Dec, b: Dec, x: real, y: real)
    requires Is(a, x) && Is(b, y)
    ensures CompareDec(a, b) == if x < y then -1 else if x == y then 0 else 1
  {
    var scale := MaxScale(a, b);
    IsAtScale(a, x, scale);
    IsAtScale(b, y, scale);
    ShiftOrder(x, y, scale);
    ShiftOrder(y, x, scale);
  }

  lemma SubAtScale(a: Dec, b: Dec, scale: nat)
    requires MaxScale(a, b) <= scale
    ensures AtScale(SubDec(a, b), scale) == AtScale(a, scale) - AtScale(b, scale)
  {
    var mid := MaxScale(a, b);
    TimesPow10Again(a.unscaled, mid - a.scale, scale - mid);
    TimesPow10Again(b.unscaled, mid - b.scale, scale - mid);
    TimesPow10Sum(AtScale(a, mid) - AtScale(b, mid), AtScale(b, mid), scale - mid);
  }

  lemma SubDecUndoesAddDec(a: Dec, b: Dec)
    ensures CompareDec(SubDec(AddDec(a, b), b), a) == 0
  {
    var scale := MaxScale(a, b);
    SubAtScale(AddDec(a, b), b, scale);
    AddAtScale(a, b, scale);
  }

  /** Subtracting what was added gives back the same amount. */
  lemma SubUndoesAdd(a: string, b: string)
    requires Parse(a).Some? && Parse(b).Some?
    ensures DecCompare(DecSub(DecAdd(a, b), b), a) == Order(0)
  {
    ResultsParse(a, b);
    ResultsParse(DecAdd(a, b), b);
    SubDecUndoesAddDec(Parse(a).value, Parse(b).value);
  }
}
