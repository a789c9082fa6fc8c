/**
 What a decimal text means and how decimals are spelled, without the functions that parse and print
 (parseDecimal and formatDecimal of decimal-arith.ts).
 */
module DecimalSpelling {
  import opened CharacterClasses
  import opened TextForms
  import opened DecimalText
  import opened DecimalArith
  import opened JsText
  import opened Options

  // ----- the number written as digits -----

  function TenTo(n: nat): (p: int)
    ensures p > 0
  {
    if n == 0 then 1 else 10 * TenTo(n - 1)
  }

  /** Each digit times the power of ten of its place. */
  function PlaceValue(s: string): int
    requires DigitsOnly(s)
  {
    if s == "" then 0 else (s[0] as int - 0x30) * TenTo(|s| - 1) + PlaceValue(s[1..])
  }

  lemma DigitsAre(s: string)
    ensures AllDigits(s) <==> DigitsOnly(s)
  {
    forall i | 0 <= i < |s| ensures IsDigit(s[i]) <==> AsciiDigit(s[i]) {
      ClassesAre(s[i]);
    }
  }

  lemma DigitsConcat(a: string, b: string)
    ensures DigitsOnly(a + b) <==> DigitsOnly(a) && DigitsOnly(b)
  {
    assert forall i :: 0 <= i < |a| ==> (a + b)[i] == a[i];
    assert forall i :: 0 <= i < |b| ==> (a + b)[|a| + i] == b[i];
  }

  lemma {:induction false} PlaceValueLast(s: string, c: char)
    requires DigitsOnly(s) && AsciiDigit(c)
    ensures DigitsOnly(s + [c]) && PlaceValue(s + [c]) == 10 * PlaceValue(s) + (c as int - 0x30)
    decreases |s|
  {
    DigitsConcat(s, [c]);
    var t := s + [c];
    if s == "" {
      assert t == [c] && [c][1..] == "";
    } else {
      PlaceValueLast(s[1..], c);
      assert t[0] == s[0] && t[1..] == s[1..] + [c];
      TenfoldPlace(s[0] as int - 0x30, TenTo(|s| - 1));
    }
  }

  lemma TenfoldPlace(d: int, p: int)
    ensures d * (10 * p) == 10 * (d * p)
  {
  }

  lemma {:induction false} NumberIsPlaceValue(s: string)
    requires DigitsOnly(s)
    ensures AllDigits(s) && Number(s) == PlaceValue(s)
    decreases |s|
  {
    DigitsAre(s);
    if s != "" {
      var front, c := s[..|s| - 1], s[|s| - 1];
      assert s == front + [c];
      NumberIsPlaceValue(front);
      PlaceValueLast(front, c);
    }
  }

  // ----- what a text means -----

  /** Digits, and a dot with more digits behind it or none; not only the dot. */
  ghost predicate UnsignedText(s: string, whole: string, dot: string, fraction: string) {
    && DigitsOnly(whole) && DigitsOnly(fraction) && (whole != "" || fraction != "")
    && (dot == "." || (dot == "" && fraction == ""))
    && s == whole + dot + fraction
  }

  lemma UnsignedMeans(s: string, whole: string, dot: string, fraction: string)
    requires UnsignedText(s, whole, dot, fraction)
    ensures DigitsOnly(whole + fraction)
    ensures ParseUnsigned(s) == Some(Dec(PlaceValue(whole + fraction), |fraction|))
  {
    DigitsConcat(whole, fraction);
    DigitsAre(whole);
    DigitsAre(fraction);
    NumberIsPlaceValue(whole + fraction);
    DotIndexAt(whole, fraction);
    if dot == "" {
      assert s == whole && whole + "" == whole && s[..|whole|] == whole;
    } else {
      assert s[..|whole|] == whole && s[|whole| + 1..] == fraction;
    }
  }

  /** A digit or the dot. */
  predicate NumberChar(c: char) {
    AsciiDigit(c) || c == '.'
  }

  lemma UnsignedEnds(s: string, whole: string, dot: string, fraction: string)
    requires UnsignedText(s, whole, dot, fraction)
    ensures s != "" && NumberChar(s[0]) && NumberChar(s[|s| - 1])
  {
    if dot == "" {
      assert s == whole;
    } else {
      assert s[|whole|] == '.';
    }
  }

  predicate IsSign(sign: string) {
    sign == "" || sign == "+" || sign == "-"
  }

  lemma UnsignedFound(s: string) returns (whole: string, dot: string, fraction: string)
    requires ParseUnsigned(s).Some?
    ensures UnsignedText(s, whole, dot, fraction)
  {
    var i := DotIndex(s);
    whole, dot, fraction := s[..i], "", "";
    DotIsThere(s);
    if i < |s| {
      dot, fraction := ".", s[i + 1..];
    }
    DigitsAre(whole);
    DigitsAre(fraction);
  }

  lemma DotIsThere(s: string)
    ensures DotIndex(s) < |s| ==> s[DotIndex(s)] == '.'
  {
  }

  function SignedInt(sign: string, n: int): int {
    if sign == "-" then -n else n
  }

  /** A sign or none in front of unsigned digits. */
  ghost predicate Signed(s: string, sign: string, whole: string, dot: string, fraction: string) {
    IsSign(sign) && exists rest :: UnsignedText(rest, whole, dot, fraction) && s == sign + rest
  }

  /** Blanks around signed digits. */
  ghost predicate Reads(t: string, sign: string, whole: string, dot: string, fraction: string) {
    exists before, core, behind ::
      Blank(before) && Blank(behind) && Signed(core, sign, whole, dot, fraction) && t == before + core + behind
  }

  lemma ParseBare(s: string)
    requires s != "" && Trim(s) == s
    ensures Parse(s)
         == if s[0] == '-' then Negated(ParseUnsigned(s[1..])) else if s[0] == '+' then ParseUnsigned(s[1..])
            else ParseUnsigned(s)
  {
  }

  lemma SignInFront(sign: string, rest: string)
    requires rest != "" && IsSign(sign)
    ensures sign == "" ==> sign + rest == rest
    ensures sign != "" ==> (sign + rest)[0] == sign[0] && (sign + rest)[1..] == rest
  {
  }

  lemma ParseSigns(s: string, sign: string, rest: string)
    requires s == sign + rest && IsSign(sign) && Trim(s) == s && rest != "" && NumberChar(rest[0])
    ensures Parse(s) == if sign == "-" then Negated(ParseUnsigned(rest)) else ParseUnsigned(rest)
  {
    ParseBare(s);
    SignInFront(sign, rest);
  }

  lemma NegatedIs(d: Option<Dec>, sign: string, n: int, scale: nat)
    requires d == Some(Dec(n, scale))
    ensures (if sign == "-" then Negated(d) else d) == Some(Dec(SignedInt(sign, n), scale))
  {
  }

  lemma SignedMeans(s: string, sign: string, whole: string, dot: string, fraction: string)
    requires Signed(s, sign, whole, dot, fraction) && Trim(s) == s
    ensures DigitsOnly(whole + fraction)
    ensures Parse(s) == Some(Dec(SignedInt(sign, PlaceValue(whole + fraction)), |fraction|))
  {
    var rest :| UnsignedText(rest, whole, dot, fraction) && s == sign + rest;
    UnsignedMeans(rest, whole, dot, fraction);
    UnsignedEnds(rest, whole, dot, fraction);
    ParseSigns(s, sign, rest);
    NegatedIs(ParseUnsigned(rest), sign, PlaceValue(whole + fraction), |fraction|);
  }

  lemma SignThenNumber(sign: string, rest: string)
    requires IsSign(sign) && rest != "" && NumberChar(rest[0]) && NumberChar(rest[|rest| - 1])
    ensures Bare(sign + rest)
  {
    var s := sign + rest;
    assert s[|s| - 1] == rest[|rest| - 1];
    SignInFront(sign, rest);
  }

  lemma SignedIsBare(s: string, sign: string, whole: string, dot: string, fraction: string)
    requires Signed(s, sign, whole, dot, fraction)
    ensures Bare(s) && Trim(s) == s
  {
    var rest :| UnsignedText(rest, whole, dot, fraction) && s == sign + rest;
    UnsignedEnds(rest, whole, dot, fraction);
    SignThenNumber(sign, rest);
    BareIsTrimmed(s);
  }

  lemma ReadsMeans(t: string, sign: string, whole: string, dot: string, fraction: string)
    requires Reads(t, sign, whole, dot, fraction)
    ensures DigitsOnly(whole + fraction)
    ensures Parse(t) == Some(Dec(SignedInt(sign, PlaceValue(whole + fraction)), |fraction|))
  {
    var before, core, behind :|
      Blank(before) && Blank(behind) && Signed(core, sign, whole, dot, fraction) && t == before + core + behind;
    SignedIsBare(core, sign, whole, dot, fraction);
    Trimmed(before, core, behind);
    SignedMeans(core, sign, whole, dot, fraction);
  }

  lemma SignFound(t: string) returns (sign: string, rest: string)
    requires Parse(t).Some?
    ensures IsSign(sign) && Trim(t) == sign + rest && ParseUnsigned(rest).Some?
  {
    var core := Trim(t);
    sign, rest := "", core;
    if core != "" && (core[0] == '-' || core[0] == '+') {
      sign, rest := core[..1], core[1..];
    }
  }

  lemma ReadsFound(t: string) returns (sign: string, whole: string, dot: string, fraction: string)
    requires Parse(t).Some?
    ensures Reads(t, sign, whole, dot, fraction)
  {
    var rest;
    sign, rest := SignFound(t);
    whole, dot, fraction := UnsignedFound(rest);
    TrimIff(t, sign + rest);
    assert Signed(sign + rest, sign, whole, dot, fraction);
  }

  /**
   The texts that are decimals and what they stand for: blanks, a sign or none, digits, a dot with digits behind
   it or none, blanks, with a digit somewhere. Every other text is refused.
   */
  lemma ParseIff(t: string, d: Dec)
    ensures Parse(t) == Some(d)
       <==> exists sign, whole, dot, fraction ::
              && Reads(t, sign, whole, dot, fraction) && DigitsOnly(whole + fraction)
              && d == Dec(SignedInt(sign, PlaceValue(whole + fraction)), |fraction|)
  {
    if Parse(t) == Some(d) {
      var sign, whole, dot, fraction := ReadsFound(t);
      ReadsMeans(t, sign, whole, dot, fraction);
    }
    forall sign, whole, dot, fraction | Reads(t, sign, whole, dot, fraction) && DigitsOnly(whole + fraction)
      ensures Parse(t) == Some(Dec(SignedInt(sign, PlaceValue(whole + fraction)), |fraction|))
    {
      ReadsMeans(t, sign, whole, dot, fraction);
    }
  }

  // ----- the real number -----

  /** The digits behind the dot: tenths, hundredths, and so on. */
  function FractionValue(s: string): real
    requires DigitsOnly(s)
  {
    if s == "" then 0.0 else ((s[0] as int - 0x30) as real + FractionValue(s[1..])) / 10.0
  }

  lemma {:induction false} TimesTenTo(u: int, n: nat)
    ensures TimesPow10(u, n) == u * TenTo(n)
  {
    if n > 0 {
      TimesTenTo(u, n - 1);
      TenfoldPlace(u, TenTo(n - 1));
    }
  }

  lemma {:induction false} PlaceValueConcat(a: string, b: string)
    requires DigitsOnly(a) && DigitsOnly(b)
    ensures DigitsOnly(a + b) && PlaceValue(a + b) == TimesPow10(PlaceValue(a), |b|) + PlaceValue(b)
    decreases |b|
  {
    DigitsConcat(a, b);
    if b == "" {
      assert a + b == a;
    } else {
      var front, c := b[..|b| - 1], b[|b| - 1];
      assert b == front + [c] && a + b == a + front + [c];
      PlaceValueConcat(a, front);
      PlaceValueLast(a + front, c);
      PlaceValueLast(front, c);
    }
  }

  lemma {:induction false} FractionShifted(s: string)
    requires DigitsOnly(s)
    ensures Shift(FractionValue(s), |s|) == PlaceValue(s) as real
    decreases |s|
  {
    if s != "" {
      var d, rest := s[0] as int - 0x30, s[1..];
      FractionShifted(rest);
      ShiftFactor(10.0, FractionValue(s), |rest|);
      ShiftSum(d as real, FractionValue(rest), |rest|);
      ShiftInteger(d, |rest|);
      TimesTenTo(d, |rest|);
    }
  }

  function SignedReal(sign: string, x: real): real {
    if sign == "-" then -x else x
  }

  lemma ValueIs(sign: string, whole: string, fraction: string, x: real)
    requires DigitsOnly(whole) && DigitsOnly(fraction) && DigitsOnly(whole + fraction)
    ensures Is(Dec(SignedInt(sign, PlaceValue(whole + fraction)), |fraction|), x)
       <==> x == SignedReal(sign, PlaceValue(whole) as real + FractionValue(fraction))
  {
    var n := |fraction|;
    var y := PlaceValue(whole) as real + FractionValue(fraction);
    PlaceValueConcat(whole, fraction);
    FractionShifted(fraction);
    ShiftSum(PlaceValue(whole) as real, FractionValue(fraction), n);
    ShiftInteger(PlaceValue(whole), n);
    assert Shift(y, n) == PlaceValue(whole + fraction) as real;
    ShiftFactor(-1.0, y, n);
    var z := SignedReal(sign, y);
    assert Shift(z, n) == (SignedInt(sign, PlaceValue(whole + fraction))) as real;
    ShiftOrder(x, z, n);
    ShiftOrder(z, x, n);
  }

  /** A text denotes the number its digits spell: a whole number, and tenths, hundredths and so on behind the dot. */
  lemma DenotesIff(t: string, x: real)
    ensures Denotes(t, x)
       <==> exists sign, whole, dot, fraction ::
              && Reads(t, sign, whole, dot, fraction) && DigitsOnly(whole) && DigitsOnly(fraction)
              && x == SignedReal(sign, PlaceValue(whole) as real + FractionValue(fraction))
  {
    if Denotes(t, x) {
      var sign, whole, dot, fraction := ReadsFound(t);
      ReadsMeans(t, sign, whole, dot, fraction);
      DigitsConcat(whole, fraction);
      ValueIs(sign, whole, fraction, x);
    }
    forall sign, whole, dot, fraction
      | Reads(t, sign, whole, dot, fraction) && DigitsOnly(whole) && DigitsOnly(fraction)
      ensures Denotes(t, SignedReal(sign, PlaceValue(whole) as real + FractionValue(fraction)))
    {
      ReadsMeans(t, sign, whole, dot, fraction);
      ValueIs(sign, whole, fraction, SignedReal(sign, PlaceValue(whole) as real + FractionValue(fraction)));
    }
  }

  // ----- how decimals are spelled -----

  /** A lone zero, or digits that do not begin with zero. */
  predicate PlainWhole(whole: string) {
    whole == "0" || (whole != "" && DigitsOnly(whole) && whole[0] != '0')
  }

  /** A minus for negative numbers only, the whole part, and for a scale above 0 a dot and as many digits. */
  ghost predicate Spelled(t: string, negative: bool, scale: nat) {
    exists whole, fraction ::
      && PlainWhole(whole) && DigitsOnly(fraction) && |fraction| == scale
      && t == (if negative then "-" else "") + (if scale == 0 then whole else whole + "." + fraction)
  }

  /** Digits that do not begin with zero are those of their number. */
  lemma {:induction false} DigitsBack(s: string)
    requires AllDigits(s) && s != "" && s[0] != '0'
    ensures Number(s) > 0 && Digits(Number(s)) == s
    decreases |s|
  {
    var front, d := s[..|s| - 1], DigitValue(s[|s| - 1]);
    assert s == front + [s[|s| - 1]];
    if front == "" {
      assert Number(front) == 0;
    } else {
      DigitsBack(front);
      TenAnd(Number(front), d);
    }
  }

  lemma TenAnd(n: nat, d: nat)
    requires d < 10
    ensures (10 * n + d) / 10 == n && (10 * n + d) % 10 == d
  {
  }

  lemma {:induction false} PaddedFurther(digits: string, k: nat)
    ensures Padded(digits, k + 1)
         == if |Padded(digits, k)| == k + 1 then "0" + Padded(digits, k) else Padded(digits, k)
    decreases k + 1 - |digits|
  {
    if |digits| <= k {
      PaddedFurther("0" + digits, k);
    }
  }

  /** Any digits are the padded digits of their number. */
  lemma {:induction false} PaddedBack(s: string)
    requires AllDigits(s) && s != ""
    ensures Padded(Digits(Number(s)), |s| - 1) == s
    decreases |s|
  {
    if s[0] != '0' {
      DigitsBack(s);
    } else if |s| == 1 {
      assert s == "0" && s[..0] == "" && Number("") == 0;
    } else {
      var rest := s[1..];
      assert s == "0" + rest;
      LeadingZero(rest);
      PaddedBack(rest);
      PaddedFurther(Digits(Number(rest)), |rest| - 1);
    }
  }

  lemma {:induction false} DigitsArePlain(n: nat)
    ensures PlainWhole(Digits(n)) && (n > 0 ==> Digits(n)[0] != '0') && (n == 0 ==> Digits(n) == "0")
  {
    NumberOfDigits(n);
    DigitsAre(Digits(n));
    if n >= 10 {
      DigitsArePlain(n / 10);
      assert Digits(n)[0] == Digits(n / 10)[0];
    }
  }

  lemma {:induction false} PaddedInFront(digits: string, scale: nat)
    requires |digits| <= scale
    ensures |Padded(digits, scale)| == scale + 1 && Padded(digits, scale)[0] == '0'
    decreases scale - |digits|
  {
    if |digits| < scale {
      PaddedInFront("0" + digits, scale);
    }
  }

  lemma UnsignedSpelled(n: nat, scale: nat) returns (whole: string, fraction: string)
    ensures PlainWhole(whole) && DigitsOnly(fraction) && |fraction| == scale
    ensures Unsigned(n, scale) == if scale == 0 then whole else whole + "." + fraction
  {
    DigitsArePlain(n);
    if scale == 0 {
      whole, fraction := Digits(n), "";
    } else {
      var p := Padded(Digits(n), scale);
      NumberOfDigits(n);
      PaddedDigits(Digits(n), scale);
      DigitsAre(p);
      whole, fraction := p[..|p| - scale], p[|p| - scale..];
      DigitsConcat(whole, fraction);
      assert p == whole + fraction;
      if |Digits(n)| <= scale {
        PaddedInFront(Digits(n), scale);
        assert whole == "0";
      } else {
        assert whole[0] == Digits(n)[0];
      }
    }
  }

  lemma UnsignedBack(whole: string, fraction: string)
    requires PlainWhole(whole) && DigitsOnly(fraction)
    ensures DigitsOnly(whole + fraction)
    ensures PlaceValue(whole + fraction) >= 0
    ensures Unsigned(PlaceValue(whole + fraction), |fraction|)
         == if fraction == "" then whole else whole + "." + fraction
  {
    var s := whole + fraction;
    DigitsConcat(whole, fraction);
    NumberIsPlaceValue(s);
    if fraction == "" {
      assert s == whole;
      PaddedBack(whole);
      if whole[0] != '0' {
        DigitsBack(whole);
      }
    } else {
      if |whole| == 1 {
        PaddedBack(s);
      } else {
        assert s[0] == whole[0];
        DigitsBack(s);
      }
      assert s[..|s| - |fraction|] == whole && s[|s| - |fraction|..] == fraction;
    }
  }

  lemma FormatIsSpelled(unscaled: int, scale: nat)
    ensures Spelled(Format(unscaled, scale), unscaled < 0, scale)
  {
    var whole, fraction := UnsignedSpelled(if unscaled < 0 then -unscaled else unscaled, scale);
    var body := if scale == 0 then whole else whole + "." + fraction;
    assert "" + body == body;
  }

  lemma SpelledReads(negative: bool, whole: string, fraction: string) returns (t: string)
    requires PlainWhole(whole) && DigitsOnly(fraction)
    ensures t == (if negative then "-" else "") + (if fraction == "" then whole else whole + "." + fraction)
    ensures Reads(t, if negative then "-" else "", whole, if fraction == "" then "" else ".", fraction)
  {
    var rest := if fraction == "" then whole else whole + "." + fraction;
    var sign, dot := if negative then "-" else "", if fraction == "" then "" else ".";
    t := sign + rest;
    assert whole + dot + fraction == rest;
    assert UnsignedText(rest, whole, dot, fraction);
    assert Signed(t, sign, whole, dot, fraction);
    assert t == "" + t + "";
  }

  lemma SpelledBack(t: string, unscaled: int, whole: string, fraction: string)
    requires PlainWhole(whole) && DigitsOnly(fraction) && Parse(t) == Some(Dec(unscaled, |fraction|))
    requires t == (if unscaled < 0 then "-" else "") + (if fraction == "" then whole else whole + "." + fraction)
    ensures t == Format(unscaled, |fraction|)
  {
    var sign, dot := if unscaled < 0 then "-" else "", if fraction == "" then "" else ".";
    var same := SpelledReads(unscaled < 0, whole, fraction);
    ReadsMeans(t, sign, whole, dot, fraction);
    UnsignedBack(whole, fraction);
    SignedFormat(unscaled, |fraction|, sign, PlaceValue(whole + fraction));
  }

  lemma SignedFormat(unscaled: int, scale: nat, sign: string, n: nat)
    requires sign == (if unscaled < 0 then "-" else "") && unscaled == SignedInt(sign, n)
    ensures Format(unscaled, scale) == sign + Unsigned(n, scale)
  {
    assert "" + Unsigned(n, scale) == Unsigned(n, scale);
  }

  /**
   The canonical spelling, without the printer: a text is what is printed for an integer and a scale if and only if
   it is spelled as above, with the minus for a negative integer, and stands for this integer at this scale.
   */
  lemma FormatIff(t: string, unscaled: int, scale: nat)
    ensures t == Format(unscaled, scale)
       <==> Spelled(t, unscaled < 0, scale) && Parse(t) == Some(Dec(unscaled, scale))
  {
    FormatIsSpelled(unscaled, scale);
    ParseFormat(unscaled, scale);
    if Spelled(t, unscaled < 0, scale) && Parse(t) == Some(Dec(unscaled, scale)) {
      var whole, fraction :|
        && PlainWhole(whole) && DigitsOnly(fraction) && |fraction| == scale
        && t == (if unscaled < 0 then "-" else "") + (if scale == 0 then whole else whole + "." + fraction);
      SpelledBack(t, unscaled, whole, fraction);
    }
  }
}
