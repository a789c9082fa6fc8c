/**
 What the lexer makes of a text (lexer.ts): the token at each offset, and the tokens of a whole text.

 Everything here is a function of the text and an offset; line and column numbers are computed from
 the offset alone.
 */
module Lexemes {
  import opened JsText

  datatype Kind =
    | NewlineToken | CommentToken | DocComment | GenComment | GovComment | CharToken | StringToken
    | NumberToken | OperatorToken | SymbolToken | KeywordToken | IdentifierToken | EofToken

  datatype Position = Position(line: nat, column: nat)

  /** Covers the offsets [start, end); `first` and `past` are the positions of the two. */
  datatype Token = Token(kind: Kind, value: string, first: Position, past: Position, start: nat, end: nat)

  /** The active and the reserved words, and the text a code point stands for. */
  datatype Language = Language(keywords: set<string>, fromCodePoint: nat -> string)

  const MAX_FILE_SIZE: nat := 10 * 1024 * 1024
  const MAX_TOKEN_COUNT: nat := 1_000_000

  // ----- positions -----

  function NewlinesBefore(text: string, p: nat): nat {
    if p == 0 then 0 else NewlinesBefore(text, p - 1) + if At(text, p - 1, '\n') then 1 else 0
  }

  /** Where the line of offset `p` begins. */
  function LineStart(text: string, p: nat): (start: nat)
    ensures start <= p
  {
    if p == 0 || At(text, p - 1, '\n') then p else LineStart(text, p - 1)
  }

  /** Lines and columns count from 1. */
  function PositionAt(text: string, p: nat): Position {
    Position(1 + NewlinesBefore(text, p), 1 + p - LineStart(text, p))
  }

  // ----- looking at the text -----

  predicate At(text: string, p: nat, c: char) {
    p < |text| && text[p] == c
  }

  predicate AtAny(text: string, p: nat, accepts: char -> bool) {
    p < |text| && accepts(text[p])
  }

  /** The text between two offsets, as far as it exists. */
  function Slice(text: string, p: nat, q: nat): string {
    if p <= q <= |text| then text[p..q] else if p <= |text| then text[p..] else ""
  }

  /** The end of the run of accepted characters from `p` on. */
  function RunEnd(text: string, p: nat, accepts: char -> bool): (end: nat)
    requires p <= |text|
    ensures p <= end <= |text|
    decreases |text| - p
  {
    if AtAny(text, p, accepts) then RunEnd(text, p + 1, accepts) else p
  }

  predicate IsBlank(c: char) {
    c == ' ' || c == '\t' || c == '\r'
  }

  predicate NotNewline(c: char) {
    c != '\n'
  }

  predicate IsHexDigit(c: char) {
    IsDigit(c) || 'a' <= c <= 'f' || 'A' <= c <= 'F'
  }

  predicate IsBinaryDigit(c: char) {
    c == '0' || c == '1'
  }

  predicate IsOctalDigit(c: char) {
    '0' <= c <= '7'
  }

  predicate IsDigitOrSeparator(c: char) {
    IsDigit(c) || c == '_'
  }

  predicate IsIdentStart(c: char) {
    IsLetter(c) || c == '_'
  }

  predicate IsIdentContinue(c: char) {
    IsIdentStart(c) || IsDigit(c)
  }

  predicate InBraces(c: char) {
    c != '}' && c != '\n'
  }

  predicate IsOneCharOperator(c: char) {
    c in ['+', '-', '*', '/', '%', '=', '<', '>', '!', '&', '|', '?']
  }

  predicate IsSymbol(c: char) {
    c in ['(', ')', '{', '}', '[', ']', ',', ':', ';', '.', '@']
  }

  predicate IsTwoCharOperator(c: char, d: char) {
    || (c == '-' && d == '>') || (c == '=' && d == '>') || (c == '=' && d == '=') || (c == '!' && d == '=')
    || (c == '<' && d == '=') || (c == '>' && d == '=') || (c == '&' && d == '&') || (c == '|' && d == '|')
    || (c == '.' && d == '.')
  }

  // ----- comments -----

  /** After the opening of a block comment: behind the first closing mark, or the end of the text. */
  function BlockEnd(text: string, p: nat): (end: nat)
    requires p <= |text|
    ensures p <= end <= |text|
    decreases |text| - p
  {
    if p == |text| then p
    else if At(text, p, '*') && At(text, p + 1, '/') then p + 2
    else BlockEnd(text, p + 1)
  }

  /** The line breaks inside a block comment; the program gives them column 0. */
  function InnerNewlines(text: string, p: nat, end: nat): seq<Token>
    decreases end - p
  {
    if p >= end then []
    else if At(text, p, '\n') then [InnerNewline(text, p)] + InnerNewlines(text, p + 1, end)
    else InnerNewlines(text, p + 1, end)
  }

  function InnerNewline(text: string, p: nat): Token {
    Token(NewlineToken, "\n", Position(PositionAt(text, p).line, 0), PositionAt(text, p + 1), p, p + 1)
  }

  predicate Starts(text: string, p: nat, prefix: string) {
    p <= |text| && prefix <= text[p..]
  }

  // ----- character and string literals -----

  /** The end of what stands between the quotes of a character literal opened before `q`. */
  function CharBodyEnd(text: string, q: nat): nat {
    if At(text, q, '\\') then (if q + 1 < |text| then q + 2 else q + 1)
    else if !At(text, q, '\'') && !At(text, q, '\n') then q + 1
    else q
  }

  function CharEnd(text: string, p: nat): nat {
    var body := CharBodyEnd(text, p + 1);
    if At(text, body, '\'') then body + 1 else body
  }

  function HexDigitValue(c: char): nat {
    if IsDigit(c) then c as nat - '0' as nat
    else if 'a' <= c <= 'f' then c as nat - 'a' as nat + 10
    else if 'A' <= c <= 'F' then c as nat - 'A' as nat + 10
    else 0
  }

  function HexValue(s: string): nat {
    if s == "" then 0 else 16 * HexValue(s[..|s| - 1]) + HexDigitValue(s[|s| - 1])
  }

  predicate IsCodePoint(s: string) {
    1 <= |s| <= 6 && (forall i :: 0 <= i < |s| ==> IsHexDigit(s[i])) && HexValue(s) <= 0x10FFFF
  }

  /** At most `n` hex digits. */
  function HexRunEnd(text: string, p: nat, n: nat): (end: nat)
    requires p <= |text|
    ensures p <= end <= |text|
    decreases n
  {
    if n > 0 && AtAny(text, p, IsHexDigit) then HexRunEnd(text, p + 1, n - 1) else p
  }

  /** What a piece of a string literal is replaced by, and where it ends. */
  datatype Piece = Piece(value: string, end: nat)

  /** `\u{X}` with `p` behind the opening brace. */
  function BracedEscape(text: string, p: nat, lang: Language): (r: Piece)
    requires p <= |text|
    ensures p <= r.end <= |text|
  {
    var e := RunEnd(text, p, InBraces);
    var hex := text[p..e];
    if At(text, e, '}') then
      Piece(if IsCodePoint(hex) then lang.fromCodePoint(HexValue(hex)) else "\\u{" + hex + "}", e + 1)
    else Piece("\\u{" + hex, e)
  }

  /** `\uXXXX` with `p` behind the `u`. */
  function PlainEscape(text: string, p: nat, lang: Language): (r: Piece)
    requires p <= |text|
    ensures p <= r.end <= |text|
  {
    var e := HexRunEnd(text, p, 4);
    var hex := text[p..e];
    Piece(if |hex| == 4 then lang.fromCodePoint(HexValue(hex)) else "\\u" + hex, e)
  }

  /** An escape, with `p` behind the backslash. */
  function Escape(text: string, p: nat, lang: Language): (r: Piece)
    requires p <= |text|
    ensures p <= r.end <= |text|
  {
    if At(text, p, 'u') then
      if At(text, p + 1, '{') then BracedEscape(text, p + 2, lang) else PlainEscape(text, p + 1, lang)
    else if p < |text| then Piece("\\" + [text[p]], p + 1)
    else Piece("\\", p)
  }

  /** One step inside a string literal. */
  function StringPiece(text: string, p: nat, lang: Language): (r: Piece)
    requires p < |text|
    ensures p < r.end <= |text|
  {
    if text[p] == '\\' then Escape(text, p + 1, lang) else Piece([text[p]], p + 1)
  }

  predicate InString(text: string, p: nat) {
    p < |text| && text[p] != '"' && text[p] != '\n'
  }

  function StringBody(text: string, p: nat, lang: Language): (r: Piece)
    requires p <= |text|
    ensures p <= r.end <= |text|
    decreases |text| - p
  {
    if InString(text, p) then
      var piece := StringPiece(text, p, lang);
      var rest := StringBody(text, piece.end, lang);
      Piece(piece.value + rest.value, rest.end)
    else Piece("", p)
  }

  function StringLiteral(text: string, p: nat, lang: Language): (r: Piece)
    requires p < |text|
    ensures p < r.end <= |text|
  {
    var body := StringBody(text, p + 1, lang);
    if At(text, body.end, '"') then Piece("\"" + body.value + "\"", body.end + 1)
    else Piece("\"" + body.value, body.end)
  }

  // ----- numbers -----

  predicate AtDigit(text: string, p: nat) {
    AtAny(text, p, IsDigit)
  }

  function FractionEnd(text: string, p: nat): (end: nat)
    requires p <= |text|
    ensures p <= end <= |text|
  {
    if At(text, p, '.') && AtDigit(text, p + 1) then RunEnd(text, p + 1, IsDigit) else p
  }

  predicate AtSign(text: string, p: nat) {
    At(text, p, '+') || At(text, p, '-')
  }

  predicate AtExponent(text: string, p: nat) {
    && (At(text, p, 'e') || At(text, p, 'E'))
    && ((AtSign(text, p + 1) && AtDigit(text, p + 2)) || AtDigit(text, p + 1))
  }

  function ExponentEnd(text: string, p: nat): (end: nat)
    requires p <= |text|
    ensures p <= end <= |text|
  {
    if AtExponent(text, p) then RunEnd(text, if AtSign(text, p + 1) then p + 2 else p + 1, IsDigit) else p
  }

  function NumberEnd(text: string, p: nat): (end: nat)
    requires AtDigit(text, p)
    ensures p < end <= |text|
  {
    if At(text, p, '0') && (At(text, p + 1, 'x') || At(text, p + 1, 'X')) then RunEnd(text, p + 2, IsHexDigit)
    else if At(text, p, '0') && (At(text, p + 1, 'b') || At(text, p + 1, 'B')) then RunEnd(text, p + 2, IsBinaryDigit)
    else if At(text, p, '0') && (At(text, p + 1, 'o') || At(text, p + 1, 'O')) then RunEnd(text, p + 2, IsOctalDigit)
    else ExponentEnd(text, FractionEnd(text, RunEnd(text, p, IsDigitOrSeparator)))
  }

  // ----- one token -----

  /** Blanks and refused characters make no token. */
  datatype Lexeme = Blank | Refused | Lexeme(kind: Kind, value: string, end: nat)

  function LineComment(kind: Kind, text: string, p: nat): Lexeme
    requires p < |text|
  {
    Raw(kind, text, p, RunEnd(text, p, NotNewline))
  }

  /** A token whose value is the text it covers. */
  function Raw(kind: Kind, text: string, p: nat, end: nat): Lexeme {
    Lexeme(kind, Slice(text, p, end), end)
  }

  function Word(text: string, p: nat, lang: Language): Lexeme
    requires p < |text|
  {
    var end := RunEnd(text, p, IsIdentContinue);
    Raw(if Slice(text, p, end) in lang.keywords then KeywordToken else IdentifierToken, text, p, end)
  }

  /** At `/` with `/` behind it. */
  function LineCommentAt(text: string, p: nat): Lexeme
    requires p < |text|
  {
    if At(text, p + 2, '/') then LineComment(DocComment, text, p)
    else if Starts(text, p, "//fungi:") then LineComment(GenComment, text, p)
    else LineComment(CommentToken, text, p)
  }

  predicate IsPunctuation(c: char) {
    IsOneCharOperator(c) || IsSymbol(c)
  }

  function PunctuationAt(text: string, p: nat): Lexeme
    requires p < |text|
  {
    var c := text[p];
    if p + 1 < |text| && IsTwoCharOperator(c, text[p + 1]) then Raw(OperatorToken, text, p, p + 2)
    else if IsOneCharOperator(c) then Raw(OperatorToken, text, p, p + 1)
    else if c == ';' && At(text, p + 1, ';') then LineComment(GovComment, text, p)
    else if c == ';' then Raw(NewlineToken, text, p, p + 1)
    else Raw(SymbolToken, text, p, p + 1)
  }

  function LexemeAt(text: string, p: nat, lang: Language): (r: Lexeme)
    requires p < |text|
  {
    var c := text[p];
    if IsBlank(c) then Blank
    else if c == '\n' then Lexeme(NewlineToken, "\n", p + 1)
    else if c == '/' && At(text, p + 1, '*') then Raw(CommentToken, text, p, BlockEnd(text, p + 2))
    else if c == '/' && At(text, p + 1, '/') then LineCommentAt(text, p)
    else if c == '\'' then Lexeme(CharToken, Slice(text, p + 1, CharBodyEnd(text, p + 1)), CharEnd(text, p))
    else if c == '"' then
      var s := StringLiteral(text, p, lang);
      Lexeme(StringToken, s.value, s.end)
    else if IsDigit(c) then Raw(NumberToken, text, p, NumberEnd(text, p))
    else if IsPunctuation(c) then PunctuationAt(text, p)
    else if IsIdentStart(c) then Word(text, p, lang)
    else Refused
  }

  // ----- all tokens -----

  function Spanning(text: string, kind: Kind, value: string, p: nat, q: nat): Token {
    Token(kind, value, PositionAt(text, p), PositionAt(text, q), p, q)
  }

  function Eof(text: string, p: nat): Token {
    Spanning(text, EofToken, "", p, p)
  }

  /** The tokens a lexeme at `p` adds: a block comment is preceded by its line breaks. */
  function TokensOf(text: string, p: nat, lexeme: Lexeme): seq<Token>
    requires p < |text| && lexeme.Lexeme?
  {
    (if lexeme.kind == CommentToken && At(text, p + 1, '*') then InnerNewlines(text, p + 2, lexeme.end) else [])
    + [Spanning(text, lexeme.kind, lexeme.value, p, lexeme.end)]
  }

  lemma LexemeAdvances(text: string, p: nat, lang: Language)
    requires p < |text| && LexemeAt(text, p, lang).Lexeme?
    ensures p < LexemeAt(text, p, lang).end <= |text| + 1
  {
    assert RunEnd(text, p, NotNewline) > p || text[p] == '\n';
    assert RunEnd(text, p, IsIdentContinue) > p || !IsIdentContinue(text[p]);
  }

  /** Scanning from `p` with `n` tokens made; a line break that makes them too many stops the scan. */
  function Scan(text: string, p: nat, n: nat, lang: Language): seq<Token>
    decreases |text| + 1 - p
  {
    if p >= |text| then [Eof(text, p)]
    else
      var lexeme := LexemeAt(text, p, lang);
      if lexeme.Lexeme? then
        LexemeAdvances(text, p, lang);
        var made := TokensOf(text, p, lexeme);
        if text[p] == '\n' && n + 1 > MAX_TOKEN_COUNT then made + [Eof(text, lexeme.end)]
        else made + Scan(text, lexeme.end, n + |made|, lang)
      else Scan(text, p + 1, n, lang)
  }

  /** What is still to come after a turn of the loop, which may have been the last one. */
  function Rest(text: string, p: nat, newline: bool, made: nat, lang: Language): seq<Token> {
    if newline && made > MAX_TOKEN_COUNT then [Eof(text, p)] else Scan(text, p, made, lang)
  }

  /** One step of the reference scan. */
  lemma ScanStep(text: string, p: nat, n: nat, lang: Language) returns (made: seq<Token>, end: nat)
    requires p < |text|
    ensures var lexeme := LexemeAt(text, p, lang);
            if lexeme.Lexeme? then made == TokensOf(text, p, lexeme) && end == lexeme.end else made == [] && end == p + 1
    ensures p < end <= |text| + 1 && (text[p] == '\n' ==> |made| == 1)
    ensures Scan(text, p, n, lang) == made + Rest(text, end, text[p] == '\n', n + |made|, lang)
  {
    var lexeme := LexemeAt(text, p, lang);
    if lexeme.Lexeme? {
      LexemeAdvances(text, p, lang);
      made, end := TokensOf(text, p, lexeme), lexeme.end;
    } else {
      made, end := [], p + 1;
      assert [] + Scan(text, p + 1, n, lang) == Scan(text, p + 1, n, lang);
    }
  }

  /** A byte order mark is only meaningful, and only dropped, at the start. */
  function WithoutMark(source: string): string {
    if source != "" && source[0] == '\U{FEFF}' then source[1..] else source
  }

  function Tokens(source: string, lang: Language): seq<Token> {
    var text := WithoutMark(source);
    if |text| > MAX_FILE_SIZE then [Token(EofToken, "", Position(1, 1), Position(1, 1), 0, 0)]
    else Scan(text, 0, 0, lang)
  }
}
