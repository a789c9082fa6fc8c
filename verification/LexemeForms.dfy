/**
 The form of every token, written out in characters: where it ends, what its text is and of which kind it is
 (lexer.ts). `Lexemes` computes the same.
 */
module LexemeForms {
  import opened CharacterClasses
  import opened JsText
  import opened Lexemes
  import opened LexerProperties
  import opened StringForms

  // ----- comments -----

  predicate ClosesAt(text: string, c: nat) {
    c + 1 < |text| && text[c] == '*' && text[c + 1] == '/'
  }

  /** Behind the first closing mark from `from` on, or at the end of a text that has none. */
  ghost predicate BlockForm(text: string, from: nat, end: nat) {
    || (end >= from + 2 && ClosesAt(text, end - 2) && forall c :: from <= c < end - 2 ==> !ClosesAt(text, c))
    || (end == |text| && forall c :: from <= c < |text| ==> !ClosesAt(text, c))
  }

  lemma {:induction false} BlockIff(text: string, from: nat, end: nat)
    requires from <= |text|
    ensures BlockForm(text, from, end) <==> end == BlockEnd(text, from)
    decreases |text| - from
  {
    if from < |text| && !ClosesAt(text, from) {
      BlockIff(text, from + 1, end);
    }
  }

  predicate NoLineBreak(c: char) {
    c as int != 0xA
  }

  // ----- numbers -----

  predicate DigitOrUnderscore(c: char) {
    AsciiDigit(c) || c == '_'
  }

  predicate OctalChar(c: char) {
    0x30 <= c as int <= 0x37
  }

  predicate BinaryChar(c: char) {
    c as int == 0x30 || c as int == 0x31
  }

  predicate Prefixed(text: string, p: nat, small: char, large: char) {
    p + 1 < |text| && text[p] == '0' && (text[p + 1] == small || text[p + 1] == large)
  }

  predicate DigitAt(text: string, p: nat) {
    p < |text| && AsciiDigit(text[p])
  }

  predicate SignAt(text: string, p: nat) {
    p < |text| && (text[p] == '+' || text[p] == '-')
  }

  /** A dot and the digits behind it, all of them, if at least one is there. */
  ghost predicate FractionForm(text: string, b: nat, c: nat) {
    if b < |text| && text[b] == '.' && DigitAt(text, b + 1) then Run(text, b + 1, c, AsciiDigit) else c == b
  }

  /** `e` or `E`, a sign or none, and the digits behind it, all of them, if at least one is there. */
  ghost predicate ExponentForm(text: string, c: nat, end: nat) {
    if c < |text| && (text[c] == 'e' || text[c] == 'E') && DigitAt(text, c + 1) then Run(text, c + 1, end, AsciiDigit)
    else if c < |text| && (text[c] == 'e' || text[c] == 'E') && SignAt(text, c + 1) && DigitAt(text, c + 2) then
      Run(text, c + 2, end, AsciiDigit)
    else end == c
  }

  /** A base prefix and all digits of the base, or digits and underscores, a fraction or none, an exponent or none. */
  ghost predicate NumberForm(text: string, p: nat, end: nat) {
    if Prefixed(text, p, 'x', 'X') then Run(text, p + 2, end, HexChar)
    else if Prefixed(text, p, 'b', 'B') then Run(text, p + 2, end, BinaryChar)
    else if Prefixed(text, p, 'o', 'O') then Run(text, p + 2, end, OctalChar)
    else exists b: nat, c: nat ::
      Run(text, p, b, DigitOrUnderscore) && FractionForm(text, b, c) && ExponentForm(text, c, end)
  }

  lemma NumberClasses(c: char)
    ensures AsciiDigit(c) <==> IsDigit(c)
    ensures HexChar(c) <==> IsHexDigit(c)
    ensures BinaryChar(c) <==> IsBinaryDigit(c)
    ensures OctalChar(c) <==> IsOctalDigit(c)
    ensures DigitOrUnderscore(c) <==> IsDigitOrSeparator(c)
  {
  }

  lemma DigitRunIff(text: string, a: nat, b: nat)
    requires a <= |text|
    ensures Run(text, a, b, AsciiDigit) <==> b == RunEnd(text, a, IsDigit)
  {
    RunIff(text, a, b, AsciiDigit, IsDigit);
  }

  lemma FractionIff(text: string, b: nat, c: nat)
    requires b <= |text|
    ensures FractionForm(text, b, c) <==> c == FractionEnd(text, b)
  {
    if b < |text| {
      DigitRunIff(text, b + 1, c);
    }
  }

  lemma ExponentIff(text: string, c: nat, end: nat)
    requires c <= |text|
    ensures ExponentForm(text, c, end) <==> end == ExponentEnd(text, c)
  {
    if c + 1 <= |text| {
      DigitRunIff(text, c + 1, end);
    }
    if c + 2 <= |text| {
      DigitRunIff(text, c + 2, end);
    }
  }

  lemma DecimalIff(text: string, p: nat, end: nat)
    requires p <= |text|
    ensures (exists b: nat, c: nat ::
               Run(text, p, b, DigitOrUnderscore) && FractionForm(text, b, c) && ExponentForm(text, c, end))
       <==> end == ExponentEnd(text, FractionEnd(text, RunEnd(text, p, IsDigitOrSeparator)))
  {
    var b := RunEnd(text, p, IsDigitOrSeparator);
    var c := FractionEnd(text, b);
    RunIff(text, p, b, DigitOrUnderscore, IsDigitOrSeparator);
    FractionIff(text, b, c);
    ExponentIff(text, c, end);
    forall other: nat, more: nat
      | Run(text, p, other, DigitOrUnderscore) && FractionForm(text, other, more) && ExponentForm(text, more, end)
      ensures other == b && more == c
    {
      RunIff(text, p, other, DigitOrUnderscore, IsDigitOrSeparator);
      FractionIff(text, b, more);
    }
  }

  lemma NumberIff(text: string, p: nat, end: nat)
    requires DigitAt(text, p)
    ensures NumberForm(text, p, end) <==> end == NumberEnd(text, p)
  {
    if p + 2 <= |text| {
      RunIff(text, p + 2, end, HexChar, IsHexDigit);
      RunIff(text, p + 2, end, BinaryChar, IsBinaryDigit);
      RunIff(text, p + 2, end, OctalChar, IsOctalDigit);
    }
    DecimalIff(text, p, end);
  }

  // ----- words, operators and symbols -----

  const PAIRS := {('-', '>'), ('=', '>'), ('=', '='), ('!', '='), ('<', '='), ('>', '='), ('&', '&'), ('|', '|'),
                  ('.', '.')}
  const OPERATORS := "+-*/%=<>!&|?"
  const SYMBOLS := "(){}[],:;.@"

  predicate WordStart(c: char) {
    AsciiLetter(c) || c == '_'
  }

  predicate PairAt(text: string, p: nat, c: char, d: char) {
    p + 1 < |text| && text[p] == c && text[p + 1] == d
  }

  predicate OperatorPairAt(text: string, p: nat) {
    p + 1 < |text| && (text[p], text[p + 1]) in PAIRS
  }

  /** The kinds of line comments that begin with two slashes. */
  function SlashKind(value: string): Kind {
    if "///" <= value then DocComment else if "//fungi:" <= value then GenComment else CommentToken
  }

  /** A token whose value is its text, neither a string nor a character literal. */
  ghost predicate RawForm(text: string, p: nat, kind: Kind, end: nat, lang: Language)
    requires p < end <= |text|
  {
    if AsciiDigit(text[p]) then kind == NumberToken && NumberForm(text, p, end)
    else if WordStart(text[p]) then
      Run(text, p, end, AsciiWord) && kind == if text[p..end] in lang.keywords then KeywordToken else IdentifierToken
    else if PairAt(text, p, '/', '*') then kind == CommentToken && BlockForm(text, p + 2, end)
    else if PairAt(text, p, '/', '/') then Run(text, p, end, NoLineBreak) && kind == SlashKind(text[p..end])
    else if PairAt(text, p, ';', ';') then Run(text, p, end, NoLineBreak) && kind == GovComment
    else if text[p] == ';' || text[p] == '\n' then kind == NewlineToken && end == p + 1
    else if OperatorPairAt(text, p) then kind == OperatorToken && end == p + 2
    else if text[p] in OPERATORS then kind == OperatorToken && end == p + 1
    else text[p] in SYMBOLS && kind == SymbolToken && end == p + 1
  }

  /** The token that the text has at `p`. */
  ghost predicate Form(text: string, p: nat, kind: Kind, value: string, end: nat, lang: Language)
    requires p < |text|
  {
    if text[p] == '"' then kind == StringToken && StringForm(text, p, value, end, lang)
    else if text[p] == '\'' then kind == CharToken && CharForm(text, p, value, end)
    else p < end <= |text| && value == text[p..end] && RawForm(text, p, kind, end, lang)
  }

  lemma RawIs(kind: Kind, text: string, p: nat, end: nat)
    requires p <= end <= |text|
    ensures Raw(kind, text, p, end) == Lexeme(kind, text[p..end], end)
  {
  }

  lemma SignClasses(c: char)
    ensures WordStart(c) <==> IsIdentStart(c)
    ensures AsciiWord(c) <==> IsIdentContinue(c)
    ensures c in OPERATORS <==> IsOneCharOperator(c)
    ensures c in SYMBOLS <==> IsSymbol(c)
    ensures NoLineBreak(c) <==> NotNewline(c)
  {
  }

  lemma OperatorPairs(c: char, d: char)
    ensures (c, d) in PAIRS <==> IsTwoCharOperator(c, d)
  {
  }

  // The lexeme at an offset, case by case.

  lemma NumberLexeme(text: string, p: nat, lang: Language)
    requires p < |text| && AsciiDigit(text[p])
    ensures LexemeAt(text, p, lang) == Raw(NumberToken, text, p, NumberEnd(text, p))
  {
  }

  lemma NumberHasForm(text: string, p: nat, kind: Kind, value: string, end: nat, lang: Language)
    requires p < |text| && AsciiDigit(text[p])
    ensures LexemeAt(text, p, lang) == Lexeme(kind, value, end) <==> Form(text, p, kind, value, end, lang)
  {
    NumberLexeme(text, p, lang);
    NumberIff(text, p, end);
    RawIs(NumberToken, text, p, NumberEnd(text, p));
  }

  lemma WordHasForm(text: string, p: nat, kind: Kind, value: string, end: nat, lang: Language)
    requires p < |text| && WordStart(text[p])
    ensures LexemeAt(text, p, lang) == Lexeme(kind, value, end) <==> Form(text, p, kind, value, end, lang)
  {
    WordLexeme(text, p, lang);
    var stop := RunEnd(text, p, IsIdentContinue);
    RunIff(text, p, end, AsciiWord, IsIdentContinue);
    assert AtAny(text, p, IsIdentContinue) && stop > p;
    RawIs(if text[p..stop] in lang.keywords then KeywordToken else IdentifierToken, text, p, stop);
  }

  lemma BlockHasForm(text: string, p: nat, kind: Kind, value: string, end: nat, lang: Language)
    requires PairAt(text, p, '/', '*')
    ensures LexemeAt(text, p, lang) == Lexeme(kind, value, end) <==> Form(text, p, kind, value, end, lang)
  {
    BlockIff(text, p + 2, end);
    RawIs(CommentToken, text, p, BlockEnd(text, p + 2));
  }

  lemma LineHasForm(text: string, p: nat, kind: Kind, value: string, end: nat, lang: Language)
    requires PairAt(text, p, '/', '/')
    ensures LexemeAt(text, p, lang) == Lexeme(kind, value, end) <==> Form(text, p, kind, value, end, lang)
  {
    LineCommentFacts(kind, text, p);
    LineCommentKeepsPrefix(kind, text, p, "///");
    LineCommentKeepsPrefix(kind, text, p, "//fungi:");
    StartsThree(text, p, '/', '/', '/');
    RunIff(text, p, end, NoLineBreak, NotNewline);
  }

  lemma PunctuationChars(c: char)
    requires IsPunctuation(c)
    ensures !AsciiDigit(c) && !WordStart(c) && c != '"' && c != '\'' && c != '\n'
  {
  }

  lemma SemicolonHasForm(text: string, p: nat, kind: Kind, value: string, end: nat, lang: Language)
    requires p < |text| && text[p] == ';'
    ensures LexemeAt(text, p, lang) == Lexeme(kind, value, end) <==> Form(text, p, kind, value, end, lang)
  {
    LineCommentFacts(kind, text, p);
    RunIff(text, p, end, NoLineBreak, NotNewline);
    RawIs(NewlineToken, text, p, p + 1);
  }

  lemma SignLexeme(text: string, p: nat, lang: Language) returns (end: nat)
    requires p < |text| && IsPunctuation(text[p]) && text[p] != ';'
    requires !PairAt(text, p, '/', '*') && !PairAt(text, p, '/', '/')
    ensures p < end <= |text|
    ensures end == if OperatorPairAt(text, p) then p + 2 else p + 1
    ensures LexemeAt(text, p, lang)
         == Lexeme(if OperatorPairAt(text, p) || text[p] in OPERATORS then OperatorToken else SymbolToken,
                   text[p..end], end)
  {
    end := if OperatorPairAt(text, p) then p + 2 else p + 1;
    PunctuationLexeme(text, p, lang);
    SignClasses(text[p]);
    if p + 1 < |text| {
      OperatorPairs(text[p], text[p + 1]);
    }
  }

  lemma SignHasForm(text: string, p: nat, kind: Kind, value: string, end: nat, lang: Language)
    requires p < |text| && IsPunctuation(text[p]) && text[p] != ';'
    requires !PairAt(text, p, '/', '*') && !PairAt(text, p, '/', '/')
    ensures LexemeAt(text, p, lang) == Lexeme(kind, value, end) <==> Form(text, p, kind, value, end, lang)
  {
    var stop := SignLexeme(text, p, lang);
    PunctuationChars(text[p]);
    SignClasses(text[p]);
  }

  // ----- every token -----

  /** A blank, or a character that begins nothing. */
  predicate Skipped(c: char) {
    c == ' ' || c == '\t' || c == '\r' ||
      !(AsciiDigit(c) || WordStart(c) || c == '\n' || c == '"' || c == '\'' || c in OPERATORS || c in SYMBOLS)
  }

  lemma SkippedIff(text: string, p: nat, lang: Language)
    requires p < |text|
    ensures Skipped(text[p]) <==> !LexemeAt(text, p, lang).Lexeme?
    ensures Skipped(text[p]) <==> IsBlank(text[p]) || IsRefused(text[p])
  {
    SignClasses(text[p]);
    LexemeOrIgnorable(text, p, lang);
  }

  lemma NoFormSkipped(text: string, p: nat, kind: Kind, value: string, end: nat, lang: Language)
    requires p < |text| && Skipped(text[p])
    ensures !Form(text, p, kind, value, end, lang)
  {
    assert !PairAt(text, p, '/', '*') && !PairAt(text, p, '/', '/');
  }

  /** The lexer finds a token at an offset if and only if the characters there have its form. */
  lemma LexemeIff(text: string, p: nat, kind: Kind, value: string, end: nat, lang: Language)
    requires p < |text|
    ensures LexemeAt(text, p, lang) == Lexeme(kind, value, end) <==> Form(text, p, kind, value, end, lang)
  {
    SkippedIff(text, p, lang);
    SignClasses(text[p]);
    if Skipped(text[p]) {
      NoFormSkipped(text, p, kind, value, end, lang);
    } else if AsciiDigit(text[p]) {
      NumberHasForm(text, p, kind, value, end, lang);
    } else if WordStart(text[p]) {
      WordHasForm(text, p, kind, value, end, lang);
    } else if text[p] == '"' {
      StringIff(text, p, value, end, lang);
    } else if text[p] == '\'' {
      CharIff(text, p, value, end);
    } else if text[p] == '\n' {
      RawIs(NewlineToken, text, p, p + 1);
    } else if PairAt(text, p, '/', '*') {
      BlockHasForm(text, p, kind, value, end, lang);
    } else if PairAt(text, p, '/', '/') {
      LineHasForm(text, p, kind, value, end, lang);
    } else if text[p] == ';' {
      SemicolonHasForm(text, p, kind, value, end, lang);
    } else {
      SignHasForm(text, p, kind, value, end, lang);
    }
  }

  /**
   Every token but the end of file has its form, at its own start; what stands between one token and the next is
   skipped. With `TokensTile` this says which tokens a text has.
   */
  lemma TokensHaveForm(source: string, lang: Language, i: nat)
    requires Scanned(source) && i < |Outer(Tokens(source, lang))|
    ensures var text, t := WithoutMark(source), Outer(Tokens(source, lang))[i];
            if t.kind.EofToken? then t.value == "" && t.start == t.end
            else t.start < |text| && Form(text, t.start, t.kind, t.value, t.end, lang)
  {
    var text, t := WithoutMark(source), Outer(Tokens(source, lang))[i];
    TokenIsOfText(source, lang, i);
    if !t.kind.EofToken? {
      LexemeIff(text, t.start, t.kind, t.value, t.end, lang);
    }
  }
}
