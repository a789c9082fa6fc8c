/**
 Rounding an exact quotient to an integer (roundDiv of decimal-arith.ts).

 `RoundsTo` is the reference: what it means for the integer q to be the real x rounded in a mode,
 after the rounding-direction attributes of section 4.3 of IEEE 754-2008. It speaks of distance
 and direction only, never of quotient and remainder.
 */
module Rounding {
  import opened IntegerDivision

  datatype RoundMode = HalfEven | HalfUp | HalfDown | Up | Down | Ceiling | Floor

  function Magnitude(x: real): real {
    if x < 0.0 then -x else x
  }

  /** q and x are not on opposite sides of zero. */
  predicate SameSide(q: int, x: real) {
    (q > 0 ==> x > 0.0) && (q < 0 ==> x < 0.0)
  }

  ghost predicate RoundsTo(x: real, mode: RoundMode, q: int) {
    var error := q as real - x;
    match mode
    case Floor => -1.0 < error <= 0.0
    case Ceiling => 0.0 <= error < 1.0
    case Down => SameSide(q, x) && -1.0 < Magnitude(q as real) - Magnitude(x) <= 0.0
    case Up => SameSide(q, x) && 0.0 <= Magnitude(q as real) - Magnitude(x) < 1.0
    case HalfUp => Magnitude(error) <= 0.5 && (Magnitude(error) == 0.5 ==> Magnitude(q as real) > Magnitude(x))
    case HalfDown => Magnitude(error) <= 0.5 && (Magnitude(error) == 0.5 ==> Magnitude(q as real) < Magnitude(x))
    case HalfEven => Magnitude(error) <= 0.5 && (Magnitude(error) == 0.5 ==> q % 2 == 0)
  }

  /** No real rounds to two integers, and rounding never reverses an order. */
  lemma RoundsToMonotone(x: real, y: real, mode: RoundMode, p: int, q: int)
    requires x <= y && RoundsTo(x, mode, p) && RoundsTo(y, mode, q)
    ensures p <= q
  {
  }

  lemma RoundsToUnique(x: real, mode: RoundMode, p: int, q: int)
    requires RoundsTo(x, mode, p) && RoundsTo(x, mode, q)
    ensures p == q
  {
    RoundsToMonotone(x, x, mode, p, q);
    RoundsToMonotone(x, x, mode, q, p);
  }

  /** An integer rounds to itself in every mode. */
  lemma RoundsToExact(n: int, mode: RoundMode)
    ensures RoundsTo(n as real, mode, n)
  {
  }

  // ----- the program -----

  /** Rounds N/D for D > 0: truncate, then perhaps step one unit away from zero. */
  function RoundDiv(N: int, D: int, mode: RoundMode): int
    requires D > 0
  {
    var q := TruncDiv(N, D);
    var r := N - q * D;
    if r == 0 then q
    else
      var neg := N < 0;
      var twiceAbsR := (if r < 0 then -r else r) * 2;
      var roundAway :=
        match mode
        case Down => false
        case Up => true
        case Floor => neg
        case Ceiling => !neg
        case HalfUp => twiceAbsR >= D
        case HalfDown => twiceAbsR > D
        case HalfEven => twiceAbsR > D || (twiceAbsR == D && TruncRem(q, 2) != 0);
      if roundAway then (if neg then q - 1 else q + 1) else q
  }

  /** The quotient as a real, split into its truncation and a remainder of less than one unit. */
  lemma Truncation(N: int, D: int) returns (q: int, r: int, f: real)
    requires D > 0
    ensures q == TruncDiv(N, D) && r == N - q * D && f == r as real / D as real
    ensures N as real / D as real == q as real + f
    ensures -1.0 < f < 1.0
    ensures (f == 0.0 <==> r == 0) && (f < 0.0 <==> r < 0)
    ensures r != 0 ==> (r < 0 <==> N < 0)
    ensures N < 0 ==> q <= 0
    ensures N >= 0 ==> q >= 0
  {
    TruncDivBounds(N, D);
    q, r := TruncDiv(N, D), TruncRem(N, D);
    f := r as real / D as real;
    assert N == q * D + r;
    assert N as real == q as real * D as real + r as real;
  }

  /** Doubling the remainder decides on which side of one half the fraction lies. */
  lemma HalfTest(r: int, D: int)
    requires D > 0
    ensures var f := Magnitude(r as real / D as real);
            (2 * Abs(r) > D <==> f > 0.5) && (2 * Abs(r) == D <==> f == 0.5)
  {
    QuotientOrder(Abs(r), D, 0.5);
    NegatedQuotient(Abs(r), D);
    QuotientOrder(Abs(r), D, 0.0);
  }

  lemma NegatedQuotient(n: int, D: int)
    requires D > 0
    ensures (-n) as real / D as real == -(n as real / D as real)
  {
    var x, k := n as real / D as real, D as real;
    assert x * k == n as real;
    assert -x * k == -(x * k);
    QuotientOrder(-n, D, -x);
  }

  /** Comparing a quotient is comparing its numerator with the product. */
  lemma QuotientOrder(n: int, D: int, y: real)
    requires D > 0
    ensures n as real / D as real < y <==> n as real < y * D as real
    ensures n as real / D as real > y <==> n as real > y * D as real
  {
    ProductOrder(n as real / D as real, y, D as real, n as real);
  }

  lemma ProductOrder(x: real, y: real, k: real, n: real)
    requires k > 0.0 && x * k == n
    ensures x < y <==> n < y * k
    ensures x > y <==> n > y * k
  {
    if x < y {
      assert (y - x) * k > 0.0;
    } else {
      assert (x - y) * k >= 0.0;
      assert x > y ==> (x - y) * k > 0.0;
    }
  }

  lemma ParityTest(q: int)
    ensures TruncRem(q, 2) != 0 <==> q % 2 != 0
  {
  }

  /** roundDiv is the one integer the quotient rounds to, in every mode. */
  lemma RoundDivRounds(N: int, D: int, mode: RoundMode)
    requires D > 0
    ensures RoundsTo(N as real / D as real, mode, RoundDiv(N, D, mode))
  {
    var q, r, f := Truncation(N, D);
    HalfTest(r, D);
    ParityTest(q);
  }

  lemma RoundDivIff(N: int, D: int, mode: RoundMode, q: int)
    requires D > 0
    ensures q == RoundDiv(N, D, mode) <==> RoundsTo(N as real / D as real, mode, q)
  {
    RoundDivRounds(N, D, mode);
    if RoundsTo(N as real / D as real, mode, q) {
      RoundsToUnique(N as real / D as real, mode, q, RoundDiv(N, D, mode));
    }
  }

  lemma QuotientMonotone(n: int, m: int, D: int)
    requires D > 0 && n <= m
    ensures n as real / D as real <= m as real / D as real
  {
    QuotientOrder(n, D, m as real / D as real);
  }

  lemma RoundDivMonotone(N1: int, N2: int, D: int, mode: RoundMode)
    requires D > 0 && N1 <= N2
    ensures RoundDiv(N1, D, mode) <= RoundDiv(N2, D, mode)
  {
    RoundDivRounds(N1, D, mode);
    RoundDivRounds(N2, D, mode);
    QuotientMonotone(N1, N2, D);
    RoundsToMonotone(N1 as real / D as real, N2 as real / D as real, mode, RoundDiv(N1, D, mode), RoundDiv(N2, D, mode));
  }

  /** Only the value of the fraction matters, not the pair that denotes it. */
  lemma RoundDivSameValue(N1: int, D1: int, N2: int, D2: int, mode: RoundMode)
    requires D1 > 0 && D2 > 0 && N1 as real / D1 as real == N2 as real / D2 as real
    ensures RoundDiv(N1, D1, mode) == RoundDiv(N2, D2, mode)
  {
    RoundDivRounds(N1, D1, mode);
    RoundDivIff(N2, D2, mode, RoundDiv(N1, D1, mode));
  }

  /** roundDiv as the program runs it, one case of the switch after another. */
  method RoundQuotientStepwise(N: int, D: int, mode: RoundMode) returns (rounded: int)
    requires D > 0
    ensures RoundsTo(N as real / D as real, mode, rounded) && rounded == RoundDiv(N, D, mode)
  {
    RoundDivRounds(N, D, mode);
    var q := TruncDiv(N, D);
    var r := N - q * D;
    if r == 0 {
      return q;
    }
    var neg := N < 0;
    var twiceAbsR := (if r < 0 then -r else r) * 2;
    var roundAway: bool;
    match mode {
      case Down => roundAway := false;
      case Up => roundAway := true;
      case Floor => roundAway := neg;
      case Ceiling => roundAway := !neg;
      case HalfUp => roundAway := twiceAbsR >= D;
      case HalfDown => roundAway := twiceAbsR > D;
      case HalfEven => roundAway := twiceAbsR > D || (twiceAbsR == D && TruncRem(q, 2) != 0);
    }
    if !roundAway {
      return q;
    }
    rounded := if neg then q - 1 else q + 1;
  }
}
