/**
 Decimal numbers as text (parseDecimal and formatDecimal of decimal-arith.ts).

 A decimal is `unscaled` · 10^(-scale). Text is a sequence of UTF-16 units; the parser trims,
 then accepts an optional sign, digits, and optionally a dot and more digits.
 */
module DecimalText {
  import opened JsText
  import opened Options

  datatype Dec = Dec(unscaled: int, scale: nat)

  // ----- digits -----

  predicate AllDigits(s: string) {
    forall i :: 0 <= i < |s| ==> IsDigit(s[i])
  }

  function DigitValue(c: char): nat
    requires IsDigit(c)
  {
    c as int - '0' as int
  }

  function DigitChar(d: nat): (c: char)
    requires d < 10
    ensures IsDigit(c) && DigitValue(c) == d
  {
    ['0', '1', '2', '3', '4', '5', '6', '7', '8', '9'][d]
  }

  /** The number a digit string denotes; the empty string denotes 0. */
  function Number(s: string): nat
    requires AllDigits(s)
  {
    if s == "" then 0 else 10 * Number(s[..|s| - 1]) + DigitValue(s[|s| - 1])
  }

  /** BigInt's toString on a natural number. */
  function Digits(n: nat): (s: string)
    ensures |s| >= 1
  {
    if n < 10 then [DigitChar(n)] else Digits(n / 10) + [DigitChar(n % 10)]
  }

  lemma {:induction false} NumberOfDigits(n: nat)
    ensures AllDigits(Digits(n)) && Number(Digits(n)) == n
  {
    if n < 10 {
      assert Digits(n)[..0] == "";
    } else {
      NumberOfDigits(n / 10);
      var s := Digits(n);
      assert s[..|s| - 1] == Digits(n / 10);
    }
  }

  lemma {:induction false} LeadingZero(s: string)
    requires AllDigits(s)
    ensures AllDigits("0" + s) && Number("0" + s) == Number(s)
  {
    var t := "0" + s;
    if s == "" {
      assert t[..|t| - 1] == "";
    } else {
      LeadingZero(s[..|s| - 1]);
      assert t[..|t| - 1] == "0" + s[..|s| - 1];
    }
  }

  // ----- printing -----

  /** Zeros in front until there are more digits than the scale asks for. */
  function Padded(digits: string, scale: nat): (padded: string)
    ensures |padded| > scale
    decreases scale + 1 - |digits|
  {
    if |digits| <= scale then Padded("0" + digits, scale) else digits
  }

  /** The dot goes in front of the last `scale` digits. */
  function Dotted(digits: string, scale: nat): string
    requires |digits| > scale
  {
    digits[..|digits| - scale] + "." + digits[|digits| - scale..]
  }

  function Unsigned(n: nat, scale: nat): string {
    if scale == 0 then Digits(n) else Dotted(Padded(Digits(n), scale), scale)
  }

  function Format(unscaled: int, scale: nat): string {
    if unscaled < 0 then "-" + Unsigned(-unscaled, scale) else Unsigned(unscaled, scale)
  }

  method PadZeros(digits: string, scale: nat) returns (padded: string)
    ensures padded == Padded(digits, scale)
  {
    padded := digits;
    while |padded| <= scale
      invariant Padded(padded, scale) == Padded(digits, scale)
      decreases scale + 1 - |padded|
    {
      padded := "0" + padded;
    }
  }

  method FormatDecimal(unscaled: int, scale: nat) returns (text: string)
    ensures text == Format(unscaled, scale)
  {
    var neg := unscaled < 0;
    var digits := Digits(if neg then -unscaled else unscaled);
    if scale == 0 {
      text := digits;
    } else {
      digits := PadZeros(digits, scale);
      var cut := |digits| - scale;
      text := digits[..cut] + "." + digits[cut..];
    }
    if neg {
      text := "-" + text;
    }
  }

  lemma {:induction false} PaddedDigits(digits: string, scale: nat)
    requires AllDigits(digits)
    ensures var p := Padded(digits, scale);
            AllDigits(p) && Number(p) == Number(digits)
    decreases scale + 1 - |digits|
  {
    if |digits| <= scale {
      LeadingZero(digits);
      PaddedDigits("0" + digits, scale);
    }
  }

  // ----- parsing -----

  function DotIndex(s: string): (i: nat)
    ensures i <= |s|
  {
    if s == "" || s[0] == '.' then 0 else 1 + DotIndex(s[1..])
  }

  function ParseUnsigned(s: string): Option<Dec> {
    var dot := DotIndex(s);
    var intPart := s[..dot];
    var fracPart := if dot < |s| then s[dot + 1..] else "";
    if !AllDigits(intPart) || !AllDigits(fracPart) then None
    else if intPart == "" && fracPart == "" then None
    else
      assert AllDigits(intPart + fracPart);
      Some(Dec(Number(intPart + fracPart), |fracPart|))
  }

  function Negated(d: Option<Dec>): Option<Dec> {
    if d.Some? then Some(Dec(-d.value.unscaled, d.value.scale)) else None
  }

  function Parse(s: string): Option<Dec> {
    var t := Trim(s);
    if t != "" && t[0] == '-' then Negated(ParseUnsigned(t[1..]))
    else if t != "" && t[0] == '+' then ParseUnsigned(t[1..])
    else ParseUnsigned(t)
  }

  // ----- parse after format -----

  lemma DotIndexAt(a: string, b: string)
    requires AllDigits(a)
    ensures DotIndex(a + "." + b) == |a|
    ensures DotIndex(a) == |a|
  {
    if a != "" {
      DotIndexAt(a[1..], b);
      assert (a + "." + b)[1..] == a[1..] + "." + b;
    } else {
      assert a + "." + b == "." + b;
    }
  }

  lemma ParseDigits(a: string, b: string)
    requires AllDigits(a) && AllDigits(b) && a != ""
    ensures AllDigits(a + b)
    ensures ParseUnsigned(a + "." + b) == Some(Dec(Number(a + b), |b|))
    ensures ParseUnsigned(a) == Some(Dec(Number(a), 0))
  {
    DotIndexAt(a, b);
    var s := a + "." + b;
    assert s[..|a|] == a && s[|a| + 1..] == b;
    assert a[..|a|] == a && a + "" == a;
  }

  lemma TrimNothing(s: string)
    requires s != "" && !IsSpace(s[0]) && !IsSpace(s[|s| - 1])
    ensures Trim(s) == s
  {
  }

  /** The text of an unsigned decimal: digits, or digits around a dot. */
  lemma UnsignedParses(n: nat, scale: nat) returns (s: string)
    ensures s == Unsigned(n, scale)
    ensures s != "" && IsDigit(s[0]) && IsDigit(s[|s| - 1])
    ensures ParseUnsigned(s) == Some(Dec(n, scale))
  {
    s := Unsigned(n, scale);
    NumberOfDigits(n);
    if scale == 0 {
      ParseDigits(Digits(n), "");
    } else {
      PaddedDigits(Digits(n), scale);
      DottedWhole(Padded(Digits(n), scale), scale, n);
    }
  }

  lemma DottedWhole(p: string, scale: nat, n: nat)
    requires 0 < scale < |p| && AllDigits(p) && Number(p) == n
    ensures var s := Dotted(p, scale);
            s != "" && IsDigit(s[0]) && IsDigit(s[|s| - 1]) && ParseUnsigned(s) == Some(Dec(n, scale))
  {
    var whole, fraction := p[..|p| - scale], p[|p| - scale..];
    assert whole + fraction == p;
    DottedParses(whole, fraction);
  }

  lemma DottedParses(a: string, b: string)
    requires AllDigits(a + b) && a != "" && b != ""
    ensures var s := a + "." + b;
            IsDigit(s[0]) && IsDigit(s[|s| - 1]) && ParseUnsigned(s) == Some(Dec(Number(a + b), |b|))
  {
    assert forall i :: 0 <= i < |a| ==> a[i] == (a + b)[i];
    assert forall i :: 0 <= i < |b| ==> b[i] == (a + b)[|a| + i];
    ParseDigits(a, b);
  }

  lemma ParseSigned(neg: bool, s: string)
    requires s != "" && IsDigit(s[0]) && IsDigit(s[|s| - 1])
    ensures Parse(if neg then "-" + s else s) == if neg then Negated(ParseUnsigned(s)) else ParseUnsigned(s)
  {
    if neg {
      TrimNothing("-" + s);
      assert ("-" + s)[1..] == s;
    } else {
      TrimNothing(s);
    }
  }

  /** Parsing undoes printing, for every integer and every scale. */
  lemma ParseFormat(unscaled: int, scale: nat)
    ensures Parse(Format(unscaled, scale)) == Some(Dec(unscaled, scale))
  {
    var s := UnsignedParses(if unscaled < 0 then -unscaled else unscaled, scale);
    ParseSigned(unscaled < 0, s);
  }

  /** The canonical spelling of a decimal: printing what was parsed. */
  function Canonical(s: string): string
    requires Parse(s).Some?
  {
    Format(Parse(s).value.unscaled, Parse(s).value.scale)
  }

  /** Canonical text denotes the same decimal, and is its own canonical text. */
  lemma CanonicalIdempotent(s: string)
    requires Parse(s).Some?
    ensures Parse(Canonical(s)) == Parse(s)
    ensures Canonical(Canonical(s)) == Canonical(s)
  {
    ParseFormat(Parse(s).value.unscaled, Parse(s).value.scale);
  }
}
