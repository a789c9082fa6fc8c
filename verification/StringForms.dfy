/**
 String and character literals as the lexer reads them, written out unit by unit (lexer.ts): which characters a
 literal takes, and the value of each escape.
 */
module StringForms {
  import opened CharacterClasses
  import opened JsText
  import opened Lexemes
  import opened LexerProperties

  // ----- hexadecimal numbers -----

  /** 0 to 9, A to F and a to f */
  predicate HexChar(c: char) {
    AsciiDigit(c) || 0x41 <= c as int <= 0x46 || 0x61 <= c as int <= 0x66
  }

  predicate HexOnly(s: string) {
    forall i :: 0 <= i < |s| ==> HexChar(s[i])
  }

  function Hex(c: char): nat
    requires HexChar(c)
  {
    var n := c as int;
    if n <= 0x39 then n - 0x30 else if n <= 0x46 then n - 0x41 + 10 else n - 0x61 + 10
  }

  function SixteenTo(n: nat): nat {
    if n == 0 then 1 else 16 * SixteenTo(n - 1)
  }

  /** Each digit times the power of sixteen of its place. */
  function HexNumber(s: string): nat
    requires HexOnly(s)
  {
    if s == "" then 0 else Hex(s[0]) * SixteenTo(|s| - 1) + HexNumber(s[1..])
  }

  lemma HexCharIs(c: char)
    ensures IsHexDigit(c) <==> HexChar(c)
    ensures HexChar(c) ==> HexDigitValue(c) == Hex(c)
  {
  }

  lemma HexOnlyConcat(a: string, b: string)
    ensures HexOnly(a + b) <==> HexOnly(a) && HexOnly(b)
  {
    assert forall i :: 0 <= i < |a| ==> (a + b)[i] == a[i];
    assert forall i :: 0 <= i < |b| ==> (a + b)[|a| + i] == b[i];
  }

  lemma SixteenTimes(h: int, p: int)
    ensures h * (16 * p) == 16 * (h * p)
  {
  }

  lemma {:induction false} HexNumberLast(s: string, c: char)
    requires HexOnly(s + [c])
    ensures HexOnly(s) && HexChar(c) && HexNumber(s + [c]) == 16 * HexNumber(s) + Hex(c)
    decreases |s|
  {
    var t := s + [c];
    HexOnlyConcat(s, [c]);
    assert [c][0] == c;
    if s == "" {
      assert t == [c] && [c][1..] == "";
    } else {
      assert t[0] == s[0] && t[1..] == s[1..] + [c];
      HexNumberLast(s[1..], c);
      SixteenTimes(Hex(s[0]), SixteenTo(|s| - 1));
    }
  }

  lemma {:induction false} HexValueIs(s: string)
    requires HexOnly(s)
    ensures HexValue(s) == HexNumber(s)
    decreases |s|
  {
    if s != "" {
      var front, c := s[..|s| - 1], s[|s| - 1];
      assert s == front + [c];
      HexCharIs(c);
      HexValueIs(front);
      HexNumberLast(front, c);
    }
  }

  /** One to six hexadecimal digits up to 10FFFF. */
  predicate CodePoint(s: string) {
    1 <= |s| <= 6 && HexOnly(s) && HexNumber(s) <= 0x10FFFF
  }

  lemma HexOnlyIs(s: string)
    ensures HexOnly(s) <==> forall i :: 0 <= i < |s| ==> IsHexDigit(s[i])
    ensures HexOnly(s) ==> HexValue(s) == HexNumber(s)
    ensures IsCodePoint(s) <==> CodePoint(s)
  {
    forall i | 0 <= i < |s| ensures IsHexDigit(s[i]) <==> HexChar(s[i]) {
      HexCharIs(s[i]);
    }
    if HexOnly(s) {
      HexValueIs(s);
    }
  }

  // ----- runs -----

  /** From `a` up to `b` every character is accepted, and the one at `b`, if there is one, is not. */
  ghost predicate Run(text: string, a: nat, b: nat, accepts: char -> bool) {
    a <= b <= |text| && (forall k :: a <= k < b ==> accepts(text[k])) && (b < |text| ==> !accepts(text[b]))
  }

  lemma {:induction false} RunIff(text: string, a: nat, b: nat, accepts: char -> bool, same: char -> bool)
    requires a <= |text| && forall c :: accepts(c) <==> same(c)
    ensures Run(text, a, b, accepts) <==> b == RunEnd(text, a, same)
    decreases |text| - a
  {
    if AtAny(text, a, same) {
      assert accepts(text[a]);
      RunIff(text, a + 1, b, accepts, same);
    }
  }

  // ----- one unit of a string literal -----

  predicate InsideBraces(c: char) {
    c != '}' && c != '\n'
  }

  /** `\u{` and what follows up to `e`: a code point, or left as it stands. */
  ghost predicate BracedTo(text: string, a: nat, e: nat, b: nat, value: string, lang: Language)
    requires a + 3 <= e <= |text| && a <= b <= |text|
  {
    if e < |text| && text[e] == '}' then
      var hex := text[a + 3..e];
      b == e + 1 && value == if CodePoint(hex) then lang.fromCodePoint(HexNumber(hex)) else text[a..b]
    else b == e && value == text[a..b]
  }

  /** `\u{` with what follows up to the closing brace, the line break or the end of the text. */
  ghost predicate BracedUnit(text: string, a: nat, b: nat, value: string, lang: Language)
    requires a + 3 <= |text| && a <= b <= |text|
  {
    exists e: nat :: Run(text, a + 3, e, InsideBraces) && BracedTo(text, a, e, b, value, lang)
  }

  /** `\u` with the hexadecimal digits that follow, four at most. */
  ghost predicate PlainUnit(text: string, a: nat, b: nat, value: string, lang: Language)
    requires a + 2 <= |text| && a <= b <= |text|
  {
    && a + 2 <= b <= a + 6 && HexOnly(text[a + 2..b])
    && (b < a + 6 ==> b == |text| || !HexChar(text[b]))
    && value == if b == a + 6
                then lang.fromCodePoint(HexNumber(text[a + 2..b])) else text[a..b]
  }

  /** The characters from `a` up to `b` are one unit of a string literal, with this value. */
  ghost predicate Unit(text: string, a: nat, b: nat, value: string, lang: Language) {
    && a < b <= |text| && text[a] != '"' && text[a] != '\n'
    && if text[a] != '\\' then b == a + 1 && value == [text[a]]
       else if a + 1 == |text| then b == a + 1 && value == "\\"
       else if text[a + 1] != 'u' then b == a + 2 && value == text[a..a + 2]
       else if a + 2 < |text| && text[a + 2] == '{' then BracedUnit(text, a, b, value, lang)
       else PlainUnit(text, a, b, value, lang)
  }

  lemma SliceAfter(text: string, a: nat, m: nat, e: nat, prefix: string)
    requires a <= m <= e <= |text| && text[a..m] == prefix
    ensures text[a..e] == prefix + text[m..e]
  {
  }

  lemma SliceOneMore(text: string, a: nat, e: nat)
    requires a <= e < |text|
    ensures text[a..e + 1] == text[a..e] + [text[e]]
  {
  }

  lemma BracedToIff(text: string, a: nat, e: nat, b: nat, value: string, lang: Language)
    requires a + 3 <= |text| && a <= b <= |text| && text[a..a + 3] == "\\u{" && e == RunEnd(text, a + 3, InBraces)
    ensures BracedTo(text, a, e, b, value, lang) <==> BracedEscape(text, a + 3, lang) == Piece(value, b)
  {
    HexOnlyIs(text[a + 3..e]);
    SliceAfter(text, a, a + 3, e, "\\u{");
    if e < |text| {
      SliceOneMore(text, a, e);
    }
  }

  lemma BracedIff(text: string, a: nat, b: nat, value: string, lang: Language)
    requires a + 3 <= |text| && a <= b <= |text| && text[a..a + 3] == "\\u{"
    ensures BracedUnit(text, a, b, value, lang) <==> BracedEscape(text, a + 3, lang) == Piece(value, b)
  {
    var e := RunEnd(text, a + 3, InBraces);
    RunIff(text, a + 3, e, InsideBraces, InBraces);
    BracedToIff(text, a, e, b, value, lang);
    if BracedUnit(text, a, b, value, lang) {
      var other: nat :| Run(text, a + 3, other, InsideBraces) && BracedTo(text, a, other, b, value, lang);
      RunIff(text, a + 3, other, InsideBraces, InBraces);
    }
  }

  lemma {:induction false} HexRunIff(text: string, p: nat, e: nat, n: nat)
    requires p <= |text|
    ensures e == HexRunEnd(text, p, n)
       <==> && p <= e <= p + n && e <= |text| && HexOnly(text[p..e])
            && (e < p + n ==> e == |text| || !HexChar(text[e]))
    decreases n
  {
    if n > 0 && p < |text| {
      HexCharIs(text[p]);
      if HexChar(text[p]) {
        HexRunIff(text, p + 1, e, n - 1);
        if p + 1 <= e <= |text| {
          assert text[p..e] == [text[p]] + text[p + 1..e];
          HexOnlyConcat([text[p]], text[p + 1..e]);
          assert [text[p]][0] == text[p];
        }
      } else if p < e <= |text| {
        assert text[p..e][0] == text[p];
      }
    }
    if e == p {
      assert text[p..e] == "";
    }
  }

  lemma PlainIff(text: string, a: nat, b: nat, value: string, lang: Language)
    requires a + 2 <= |text| && a <= b <= |text| && text[a..a + 2] == "\\u"
    ensures PlainUnit(text, a, b, value, lang) <==> PlainEscape(text, a + 2, lang) == Piece(value, b)
  {
    var e := HexRunEnd(text, a + 2, 4);
    var hex := text[a + 2..e];
    HexRunIff(text, a + 2, e, 4);
    HexRunIff(text, a + 2, b, 4);
    HexOnlyIs(hex);
    SliceAfter(text, a, a + 2, e, "\\u");
  }

  /** A unit of a literal is the piece the lexer takes there. */
  lemma UnitIff(text: string, a: nat, b: nat, value: string, lang: Language)
    requires a < |text| && text[a] != '"' && text[a] != '\n'
    ensures Unit(text, a, b, value, lang) <==> StringPiece(text, a, lang) == Piece(value, b)
  {
    if text[a] == '\\' && a + 1 < |text| {
      assert text[a..a + 2] == [text[a], text[a + 1]];
      if text[a + 1] == 'u' && a <= b <= |text| {
        if a + 2 < |text| && text[a + 2] == '{' {
          assert text[a..a + 3] == [text[a], text[a + 1], text[a + 2]];
          BracedIff(text, a, b, value, lang);
        } else {
          PlainIff(text, a, b, value, lang);
        }
      }
    }
  }

  // ----- a whole literal -----

  /** The characters from `a` up to `q` are units, and `value` is their values one after the other. */
  ghost predicate Units(text: string, a: nat, q: nat, value: string, lang: Language)
    decreases q - a
  {
    || (a == q && value == "")
    || exists b: nat, v, rest ::
         Unit(text, a, b, v, lang) && b <= q && value == v + rest && Units(text, b, q, rest, lang)
  }

  /** What ends a literal: a quote, a line break, or the end of the text. */
  predicate Stops(text: string, q: nat) {
    q == |text| || (q < |text| && (text[q] == '"' || text[q] == '\n'))
  }

  lemma {:induction false} BodyIsUnits(text: string, a: nat, lang: Language)
    requires a <= |text|
    ensures var body := StringBody(text, a, lang);
            Stops(text, body.end) && Units(text, a, body.end, body.value, lang)
    decreases |text| - a
  {
    if InString(text, a) {
      var piece := StringPiece(text, a, lang);
      UnitIff(text, a, piece.end, piece.value, lang);
      BodyIsUnits(text, piece.end, lang);
    }
  }

  /** A text divides into units in one way. */
  lemma {:induction false} UnitsAreBody(text: string, a: nat, q: nat, value: string, lang: Language)
    requires a <= |text| && Stops(text, q) && Units(text, a, q, value, lang)
    ensures StringBody(text, a, lang) == Piece(value, q)
    decreases |text| - a
  {
    if !(a == q && value == "") {
      var b: nat, v, rest :|
        Unit(text, a, b, v, lang) && b <= q && value == v + rest && Units(text, b, q, rest, lang);
      UnitIff(text, a, b, v, lang);
      UnitsAreBody(text, b, q, rest, lang);
    }
  }

  // ----- string literals -----

  /** The literal opened at `p`: units up to what stops them, and the closing quote if that is what it is. */
  ghost predicate StringForm(text: string, p: nat, value: string, end: nat, lang: Language) {
    exists q: nat, inner ::
      && Stops(text, q) && Units(text, p + 1, q, inner, lang)
      && if q < |text| && text[q] == '"' then end == q + 1 && value == "\"" + inner + "\""
         else end == q && value == "\"" + inner
  }

  lemma StringIff(text: string, p: nat, value: string, end: nat, lang: Language)
    requires p < |text|
    ensures StringForm(text, p, value, end, lang) <==> StringLiteral(text, p, lang) == Piece(value, end)
  {
    var body := StringBody(text, p + 1, lang);
    BodyIsUnits(text, p + 1, lang);
    if StringForm(text, p, value, end, lang) {
      var q: nat, inner :|
        && Stops(text, q) && Units(text, p + 1, q, inner, lang)
        && if q < |text| && text[q] == '"' then end == q + 1 && value == "\"" + inner + "\""
           else end == q && value == "\"" + inner;
      UnitsAreBody(text, p + 1, q, inner, lang);
    }
  }

  lemma {:induction false} PlainUnits(text: string, a: nat, q: nat, lang: Language)
    requires a <= q <= |text| && forall k :: a <= k < q ==> text[k] != '\\' && text[k] != '"' && text[k] != '\n'
    ensures Units(text, a, q, text[a..q], lang)
    decreases q - a
  {
    if a < q {
      PlainUnits(text, a + 1, q, lang);
      assert Unit(text, a, a + 1, [text[a]], lang);
      assert text[a..q] == [text[a]] + text[a + 1..q];
    }
  }

  lemma PlainLiteral(text: string, p: nat, q: nat, lang: Language)
    requires p < q <= |text| && text[p] == '"' && Stops(text, q)
    requires forall k :: p < k < q ==> text[k] != '\\' && text[k] != '"' && text[k] != '\n'
    ensures var end := if q < |text| && text[q] == '"' then q + 1 else q;
            StringLiteral(text, p, lang) == Piece(text[p..end], end)
  {
    PlainUnits(text, p + 1, q, lang);
    UnitsAreBody(text, p + 1, q, text[p + 1..q], lang);
    SliceAfter(text, p, p + 1, q, "\"");
    if q < |text| {
      assert text[p..q + 1] == text[p..q] + [text[q]];
    }
  }

  /**
   Without a backslash before it, the first quote, line break or end of the text behind the opening quote ends the
   literal, the quote being its last character; its value is its text.
   */
  lemma PlainStringEnds(text: string, p: nat, q: nat, lang: Language)
    requires p < q <= |text| && text[p] == '"' && Stops(text, q)
    requires forall k :: p < k < q ==> text[k] != '\\' && text[k] != '"' && text[k] != '\n'
    ensures var end := if q < |text| && text[q] == '"' then q + 1 else q;
            LexemeAt(text, p, lang) == Lexeme(StringToken, text[p..end], end)
  {
    PlainLiteral(text, p, q, lang);
  }

  // ----- character literals -----

  /** An escape of two characters, one character, or none in front of a quote or a line break. */
  function CharLength(text: string, q: nat): nat
    requires q < |text|
  {
    if text[q] == '\'' || text[q] == '\n' then 0 else if text[q] == '\\' && q + 1 < |text| then 2 else 1
  }

  /** The literal opened at `p`; a quote in the last place takes one character more than there is. */
  ghost predicate CharForm(text: string, p: nat, value: string, end: nat) {
    var q := p + 1;
    if q >= |text| then value == "" && end == q + 1
    else
      var r := q + CharLength(text, q);
      value == text[q..r] && end == if r < |text| && text[r] == '\'' then r + 1 else r
  }

  lemma CharIff(text: string, p: nat, value: string, end: nat)
    requires p < |text|
    ensures CharForm(text, p, value, end)
       <==> value == Slice(text, p + 1, CharBodyEnd(text, p + 1)) && end == CharEnd(text, p)
  {
  }
}
