/** Division rounded toward zero, which is what JavaScript does and Dafny's `/` and `%` do not. */
module IntegerDivision {
  function Abs(x: int): nat {
    if x < 0 then -x else x
  }

  /** Quotient rounded toward zero, as JavaScript's Math.trunc(a / b) and BigInt `/` compute it. */
  function TruncDiv(a: int, b: int): int
    requires b != 0
  {
    if (a < 0) == (b < 0) then Abs(a) / Abs(b) else -(Abs(a) / Abs(b))
  }

  /** JavaScript's `%`: the remainder takes the sign of the dividend. */
  function TruncRem(a: int, b: int): int
    requires b != 0
  {
    a - TruncDiv(a, b) * b
  }

  /** TruncDiv and TruncRem are the one quotient-remainder pair whose remainder is smaller
      than the divisor and does not oppose the dividend's sign. */
  lemma TruncDivUnique(a: int, b: int, q: int, r: int)
    requires b != 0
    ensures q == TruncDiv(a, b) && r == TruncRem(a, b)
            <==> a == q * b + r && Abs(r) < Abs(b) && (r == 0 || (r < 0 <==> a < 0))
  {
    TruncDivBounds(a, b);
    if a == q * b + r && Abs(r) < Abs(b) && (r == 0 || (r < 0 <==> a < 0)) {
      var d := q - TruncDiv(a, b);
      assert d * b == TruncRem(a, b) - r by {
        assert d * b == q * b - TruncDiv(a, b) * b;
      }
      if d != 0 {
        assert Abs(d * b) >= Abs(b) by { AbsMul(d, b); }
        assert false;
      }
    }
  }

  lemma TruncDivBounds(a: int, b: int)
    requires b != 0
    ensures Abs(TruncRem(a, b)) < Abs(b)
    ensures TruncRem(a, b) == 0 || (TruncRem(a, b) < 0 <==> a < 0)
  {
    var q, r := Abs(a) / Abs(b), Abs(a) % Abs(b);
    assert Abs(a) == q * Abs(b) + r;
    SignedProduct(q, b);
  }

  lemma SignedProduct(q: int, b: int)
    ensures q * Abs(b) == if b < 0 then -(q * b) else q * b
    ensures -q * b == -(q * b)
  {
  }

  lemma AbsMul(d: int, b: int)
    requires d != 0
    ensures Abs(d * b) >= Abs(b)
  {
    SignedProduct(Abs(d), b);
    SignedProduct(d, b);
    MulGrows(Abs(d), Abs(b));
    assert Abs(d) * b == d * b || Abs(d) * b == -(d * b);
  }

  lemma MulGrows(x: nat, y: nat)
    requires x >= 1
    ensures x * y >= y
  {
    assert x * y == (x - 1) * y + y;
    assert (x - 1) * y >= 0;
  }

  /** |a / b| ≤ |a|, and at most half of |a| once |b| ≥ 2. */
  lemma TruncDivMagnitude(a: int, b: int)
    requires b != 0
    ensures Abs(TruncDiv(a, b)) == Abs(a) / Abs(b)
    ensures Abs(b) == 1 ==> Abs(TruncDiv(a, b)) == Abs(a)
    ensures Abs(b) >= 2 ==> 2 * Abs(TruncDiv(a, b)) <= Abs(a)
  {
    var m, y := Abs(a) / Abs(b), Abs(b);
    assert Abs(a) == m * y + Abs(a) % y;
    if y >= 2 {
      AtLeastTwice(m, y);
    }
  }

  lemma AtLeastTwice(m: nat, y: nat)
    requires y >= 2
    ensures m * y >= 2 * m
  {
    assert m * y == m * (y - 2) + m * 2;
    assert m * (y - 2) >= 0;
  }
}
