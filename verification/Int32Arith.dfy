/**
 Strict-trapping 32-bit integer arithmetic (i32-arith.ts).

 A machine integer is a value of the subset type Int32. Every checked operation either
 yields an Int32 or traps. `Checked` is the mathematical reference: an exact result that
 fits is returned, one that does not fit traps.
 */
module Int32Arith {
  import opened IntegerDivision

  const I32_MIN: int := -0x8000_0000
  const I32_MAX: int := 0x7fff_ffff

  type Int32 = x: int | I32_MIN <= x <= I32_MAX

  datatype TrapKind = IntegerOverflow | DivisionByZero

  datatype I32Result = Val(v: Int32) | Trap(kind: TrapKind)

  predicate InRange(x: int) {
    I32_MIN <= x <= I32_MAX
  }

  /** How the source and the VM write a truth value. */
  function Truth(b: bool): Int32 {
    if b then 1 else 0
  }

  /** ECMAScript's ToInt32, written `x | 0` in the source. */
  function ToInt32(x: int): (r: Int32)
    ensures InRange(x) ==> r == x
  {
    var m := x % 0x1_0000_0000;
    if m >= 0x8000_0000 then m - 0x1_0000_0000 else m
  }

  // ----- the checked operations -----

  function AddChecked(a: Int32, b: Int32): I32Result {
    var r := a + b;
    if r < I32_MIN || r > I32_MAX then Trap(IntegerOverflow) else Val(ToInt32(r))
  }

  function SubChecked(a: Int32, b: Int32): I32Result {
    var r := a - b;
    if r < I32_MIN || r > I32_MAX then Trap(IntegerOverflow) else Val(ToInt32(r))
  }

  function MulChecked(a: Int32, b: Int32): I32Result {
    if a >= -46340 && a <= 46340 && b >= -46340 && b <= 46340 then
      Val(ToInt32(a * b))
    else
      var p := a * b;
      if p < -2147483648 || p > 2147483647 then Trap(IntegerOverflow) else Val(ToInt32(p))
  }

  function DivChecked(a: Int32, b: Int32): I32Result {
    if b == 0 then Trap(DivisionByZero)
    else if a == I32_MIN && b == -1 then Trap(IntegerOverflow)
    else Val(ToInt32(TruncDiv(a, b)))
  }

  function ModChecked(a: Int32, b: Int32): I32Result {
    if b == 0 then Trap(DivisionByZero) else Val(ToInt32(TruncRem(a, b)))
  }

  function NegChecked(a: Int32): I32Result {
    SubChecked(0, a)
  }

  // ----- the reference they are measured against -----

  /** The exact result when it fits 32 bits, a trap when it does not: never a wrapped value. */
  function Checked(exact: int): I32Result {
    if InRange(exact) then Val(exact) else Trap(IntegerOverflow)
  }

  /** The multiply fast path skips the range check, and never needs it. */
  lemma MulIsExact(a: Int32, b: Int32)
    ensures MulChecked(a, b) == Checked(a * b)
  {
    if -46340 <= a <= 46340 && -46340 <= b <= 46340 {
      ProductBound(a, b, 46340);
    }
  }

  lemma ProductBound(a: int, b: int, m: int)
    requires -m <= a <= m && -m <= b <= m
    ensures -(m * m) <= a * b <= m * m
  {
    var x: int, y: int := Abs(a), Abs(b);
    ProductNonNegative(m - x, y);
    ProductNonNegative(m, m - y);
    assert m * m - x * y == (m - x) * y + m * (m - y);
    SignedProduct(x, b);
    SignedProduct(a, b);
  }

  lemma ProductNonNegative(x: nat, y: nat)
    ensures x * y >= 0
  {
  }

  /** Division traps exactly on a zero divisor or when the quotient toward zero leaves 32 bits. */
  lemma DivIsExact(a: Int32, b: Int32)
    ensures DivChecked(a, b) == if b == 0 then Trap(DivisionByZero) else Checked(TruncDiv(a, b))
  {
    if b != 0 {
      TruncDivMagnitude(a, b);
    }
  }

  /** Remainder never overflows. */
  lemma ModIsExact(a: Int32, b: Int32)
    ensures ModChecked(a, b) == if b == 0 then Trap(DivisionByZero) else Checked(TruncRem(a, b))
    ensures b != 0 ==> ModChecked(a, b).Val?
  {
    if b != 0 {
      TruncDivBounds(a, b);
    }
  }
}
