/**
 The scan loop of the lexer (lexer.ts): one cursor with its line and column, advanced a character at
 a time, and the list of tokens made so far. Every method is proved against the functions of
 `Lexemes`; the diagnostics, and the counters kept only for them, are left out.
 */
module Lexer {
  import opened JsText
  import opened Lexemes
  import opened Collections

  class Scanner {
    const text: string
    const lang: Language
    var pos: nat
    var line: nat
    var col: nat
    var tokens: seq<Token>

    constructor (text: string, lang: Language)
      ensures this.text == text && this.lang == lang
      ensures pos == 0 && tokens == [] && Tracks()
    {
      this.text := text;
      this.lang := lang;
      pos, line, col := 0, 1, 1;
      tokens := [];
    }

    /** Line and column are those of the offset. */
    predicate Tracks()
      reads this
    {
      Position(line, col) == PositionAt(text, pos)
    }

    /** The character under the cursor is consumed; past the end the cursor still moves. */
    method Advance()
      requires Tracks()
      modifies this`pos, this`line, this`col
      ensures pos == old(pos) + 1 && Tracks()
    {
      var newline := pos < |text| && text[pos] == '\n';
      pos := pos + 1;
      if newline {
        line := line + 1;
        col := 1;
      } else {
        col := col + 1;
      }
    }

    method AdvanceWhile(accepts: char -> bool)
      requires Tracks() && pos <= |text|
      modifies this`pos, this`line, this`col
      ensures pos == RunEnd(text, old(pos), accepts) && Tracks()
    {
      while pos < |text| && accepts(text[pos])
        invariant Tracks() && pos <= |text|
        invariant RunEnd(text, pos, accepts) == RunEnd(text, old(pos), accepts)
        decreases |text| - pos
      {
        Advance();
      }
    }

    /** Adds a token that began at `start` and ends at the cursor. */
    method Push(kind: Kind, value: string, start: nat, first: Position)
      requires Tracks() && first == PositionAt(text, start)
      modifies this`tokens
      ensures tokens == old(tokens) + [Spanning(text, kind, value, start, pos)]
    {
      tokens := tokens + [Token(kind, value, first, Position(line, col), start, pos)];
    }

    /** A token whose value is the text it covers. */
    method PushRaw(kind: Kind, start: nat, first: Position)
      requires Tracks() && first == PositionAt(text, start) && start <= pos <= |text|
      modifies this`tokens
      ensures tokens == old(tokens) + [Spanning(text, kind, text[start..pos], start, pos)]
    {
      Push(kind, text[start..pos], start, first);
    }

    /** Behind the opening of a block comment. */
    method ScanBlockComment()
      requires Tracks() && pos <= |text|
      modifies this`pos, this`line, this`col, this`tokens
      ensures pos == BlockEnd(text, old(pos)) && Tracks()
      ensures tokens == old(tokens) + InnerNewlines(text, old(pos), pos)
    {
      ghost var start := pos;
      ghost var end := BlockEnd(text, pos);
      var open := true;
      while open && pos < |text|
        invariant Tracks() && start <= pos <= end <= |text|
        invariant if open then BlockEnd(text, pos) == end else pos == end
        invariant tokens + InnerNewlines(text, pos, end) == old(tokens) + InnerNewlines(text, start, end)
        decreases |text| - pos, open
      {
        if text[pos] == '*' && At(text, pos + 1, '/') {
          NoInnerNewlines(text, pos);
          Advance();
          Advance();
          open := false;
        } else if text[pos] == '\n' {
          Advance();
          tokens := tokens + [Token(NewlineToken, "\n", Position(line - 1, 0), Position(line, col), pos - 1, pos)];
        } else {
          Advance();
        }
      }
    }

    /** Behind the opening quote of a character literal. */
    method ScanCharBody() returns (value: string)
      requires Tracks() && pos <= |text|
      modifies this`pos, this`line, this`col
      ensures pos == CharBodyEnd(text, old(pos)) && value == Slice(text, old(pos), pos) && Tracks()
    {
      ghost var from := pos;
      value := "";
      if At(text, pos, '\\') {
        value := value + [text[pos]];
        Advance();
        if pos < |text| {
          value := value + [text[pos]];
          Advance();
        }
        assert value == text[from..pos];
      } else if !At(text, pos, '\'') && !At(text, pos, '\n') {
        value := if pos < |text| then [text[pos]] else "";
        Advance();
        assert value == Slice(text, from, pos);
      } else {
        assert value == text[from..pos];
      }
    }

    /** At the opening quote of a character literal. */
    method ScanChar(first: Position)
      requires Tracks() && pos < |text| && first == PositionAt(text, pos)
      modifies this`pos, this`line, this`col, this`tokens
      ensures pos == CharEnd(text, old(pos)) && Tracks()
      ensures tokens == old(tokens)
           + [Spanning(text, CharToken, Slice(text, old(pos) + 1, CharBodyEnd(text, old(pos) + 1)), old(pos), pos)]
    {
      var start := pos;
      Advance();
      var value := ScanCharBody();
      if At(text, pos, '\'') {
        Advance();
      }
      Push(CharToken, value, start, first);
    }

    /** Behind the backslash of an escape in a string literal; answers what it stands for. */
    /** Behind the opening brace. */
    method ScanBraces() returns (value: string)
      requires Tracks() && pos <= |text|
      modifies this`pos, this`line, this`col
      ensures Piece(value, pos) == BracedEscape(text, old(pos), lang) && Tracks()
    {
      var from := pos;
      AdvanceWhile(InBraces);
      var hex := text[from..pos];
      if At(text, pos, '}') {
        Advance();
        value := if IsCodePoint(hex) then lang.fromCodePoint(HexValue(hex)) else "\\u{" + hex + "}";
      } else {
        value := "\\u{" + hex;
      }
    }

    method ScanEscape() returns (value: string)
      requires Tracks() && pos <= |text|
      modifies this`pos, this`line, this`col
      ensures Piece(value, pos) == Escape(text, old(pos), lang) && Tracks()
    {
      if At(text, pos, 'u') {
        Advance();
        if At(text, pos, '{') {
          Advance();
          value := ScanBraces();
        } else {
          var hex := ScanHexDigits(4);
          value := if |hex| == 4 then lang.fromCodePoint(HexValue(hex)) else "\\u" + hex;
        }
      } else if pos < |text| {
        value := "\\" + [text[pos]];
        Advance();
      } else {
        value := "\\";
      }
    }

    /** At most `limit` hex digits. */
    method ScanHexDigits(limit: nat) returns (hex: string)
      requires Tracks() && pos <= |text|
      modifies this`pos, this`line, this`col
      ensures pos == HexRunEnd(text, old(pos), limit) && hex == text[old(pos)..pos] && Tracks()
    {
      ghost var from := pos;
      hex := "";
      var i := 0;
      while i < limit && pos < |text| && IsHexDigit(text[pos])
        invariant Tracks() && from <= pos <= |text| && i <= limit
        invariant hex == text[from..pos]
        invariant HexRunEnd(text, pos, limit - i) == HexRunEnd(text, from, limit)
      {
        assert text[from..pos + 1] == text[from..pos] + [text[pos]];
        hex := hex + [text[pos]];
        Advance();
        i := i + 1;
      }
    }

    /** Inside a string literal, up to its closing quote, the end of its line or the end of the text. */
    method ScanStringBody() returns (value: string)
      requires Tracks() && pos <= |text|
      modifies this`pos, this`line, this`col
      ensures Piece(value, pos) == StringBody(text, old(pos), lang) && Tracks()
    {
      ghost var from := pos;
      ghost var body := StringBody(text, pos, lang);
      value := "";
      while pos < |text| && text[pos] != '"' && text[pos] != '\n'
        invariant Tracks() && pos <= |text|
        invariant body == Piece(value + StringBody(text, pos, lang).value, StringBody(text, pos, lang).end)
        decreases |text| - pos
      {
        ghost var piece := StringPiece(text, pos, lang);
        ghost var before := value;
        StringStep(text, pos, lang, before);
        if text[pos] == '\\' {
          Advance();
          var escaped := ScanEscape();
          value := value + escaped;
        } else {
          value := value + [text[pos]];
          Advance();
        }
        assert pos == piece.end && value == before + piece.value;
      }
    }

    /** At the opening quote of a string literal. */
    method ScanString(first: Position)
      requires Tracks() && pos < |text| && first == PositionAt(text, pos)
      modifies this`pos, this`line, this`col, this`tokens
      ensures var literal := StringLiteral(text, old(pos), lang);
              && pos == literal.end && Tracks()
              && tokens == old(tokens) + [Spanning(text, StringToken, literal.value, old(pos), pos)]
    {
      var start := pos;
      Advance();
      var body := ScanStringBody();
      var value := "\"" + body;
      if At(text, pos, '"') {
        value := value + "\"";
        Advance();
      }
      Push(StringToken, value, start, first);
    }

    method ScanFraction()
      requires Tracks() && pos <= |text|
      modifies this`pos, this`line, this`col
      ensures pos == FractionEnd(text, old(pos)) && Tracks()
    {
      if At(text, pos, '.') && AtDigit(text, pos + 1) {
        Advance();
        AdvanceWhile(IsDigit);
      }
    }

    method ScanExponent()
      requires Tracks() && pos <= |text|
      modifies this`pos, this`line, this`col
      ensures pos == ExponentEnd(text, old(pos)) && Tracks()
    {
      if AtExponent(text, pos) {
        Advance();
        if AtSign(text, pos) {
          Advance();
        }
        AdvanceWhile(IsDigit);
      }
    }

    /** `0` and a base letter, then digits. */
    method ScanBased(digits: char -> bool)
      requires Tracks() && pos + 2 <= |text|
      modifies this`pos, this`line, this`col
      ensures pos == RunEnd(text, old(pos) + 2, digits) && Tracks()
    {
      Advance();
      Advance();
      AdvanceWhile(digits);
    }

    /** At a digit. */
    method ScanNumber()
      requires Tracks() && AtDigit(text, pos)
      modifies this`pos, this`line, this`col
      ensures pos == NumberEnd(text, old(pos)) && Tracks()
    {
      if text[pos] == '0' && (At(text, pos + 1, 'x') || At(text, pos + 1, 'X')) {
        ScanBased(IsHexDigit);
        return;
      }
      if text[pos] == '0' && (At(text, pos + 1, 'b') || At(text, pos + 1, 'B')) {
        ScanBased(IsBinaryDigit);
        return;
      }
      if text[pos] == '0' && (At(text, pos + 1, 'o') || At(text, pos + 1, 'O')) {
        ScanBased(IsOctalDigit);
        return;
      }
      AdvanceWhile(IsDigitOrSeparator);
      ScanFraction();
      ScanExponent();
    }

    /** To the end of the line. */
    method ScanLine(kind: Kind, first: Position)
      requires Tracks() && pos < |text| && first == PositionAt(text, pos)
      modifies this`pos, this`line, this`col, this`tokens
      ensures Made(LineComment(kind, text, old(pos)), old(pos), old(tokens))
    {
      var start := pos;
      AdvanceWhile(NotNewline);
      PushRaw(kind, start, first);
    }

    /** `n` characters that are their own token. */
    method ScanFixed(kind: Kind, n: nat, first: Position)
      requires Tracks() && pos + n <= |text| && 1 <= n <= 2 && first == PositionAt(text, pos)
      modifies this`pos, this`line, this`col, this`tokens
      ensures Made(Raw(kind, text, old(pos), old(pos) + n), old(pos), old(tokens))
    {
      var start := pos;
      Advance();
      if n == 2 {
        Advance();
      }
      PushRaw(kind, start, first);
    }

    /** The lexeme that began at `start` is behind the cursor, its own token is the last one. */
    predicate Made(lexeme: Lexeme, start: nat, before: seq<Token>)
      reads this
    {
      && lexeme.Lexeme? && Tracks() && pos == lexeme.end
      && tokens == before + [Spanning(text, lexeme.kind, lexeme.value, start, lexeme.end)]
    }

    /** At `/` with `/` behind it. */
    method ScanLineComment(first: Position)
      requires Tracks() && pos < |text| && first == PositionAt(text, pos)
      requires text[pos] == '/'
      modifies this`pos, this`line, this`col, this`tokens
      ensures Made(LineCommentAt(text, old(pos)), old(pos), old(tokens))
    {
      if At(text, pos + 2, '/') {
        ScanLine(DocComment, first);
      } else if Starts(text, pos, "//fungi:") {
        ScanLine(GenComment, first);
      } else {
        ScanLine(CommentToken, first);
      }
    }

    /** At an operator, a symbol or a semicolon. */
    method ScanPunctuation(first: Position)
      requires Tracks() && pos < |text| && first == PositionAt(text, pos) && IsPunctuation(text[pos])
      modifies this`pos, this`line, this`col, this`tokens
      ensures Made(PunctuationAt(text, old(pos)), old(pos), old(tokens))
    {
      var c := text[pos];
      if pos + 1 < |text| && IsTwoCharOperator(c, text[pos + 1]) {
        ScanFixed(OperatorToken, 2, first);
      } else if IsOneCharOperator(c) {
        ScanFixed(OperatorToken, 1, first);
      } else if c == ';' && At(text, pos + 1, ';') {
        ScanLine(GovComment, first);
      } else if c == ';' {
        ScanFixed(NewlineToken, 1, first);
      } else {
        ScanFixed(SymbolToken, 1, first);
      }
    }

    /** At a letter or underscore. */
    method ScanWord(first: Position)
      requires Tracks() && pos < |text| && first == PositionAt(text, pos) && IsIdentStart(text[pos])
      modifies this`pos, this`line, this`col, this`tokens
      ensures Made(Word(text, old(pos), lang), old(pos), old(tokens))
    {
      var start := pos;
      AdvanceWhile(IsIdentContinue);
      var value := text[start..pos];
      if value in lang.keywords {
        Push(KeywordToken, value, start, first);
      } else {
        Push(IdentifierToken, value, start, first);
      }
    }

    /** At `/` with `*` behind it. */
    method ScanComment(first: Position)
      requires Tracks() && pos + 1 < |text| && first == PositionAt(text, pos)
      modifies this`pos, this`line, this`col, this`tokens
      ensures Tracks() && pos == BlockEnd(text, old(pos) + 2)
      ensures tokens == old(tokens) + InnerNewlines(text, old(pos) + 2, pos)
                        + [Spanning(text, CommentToken, Slice(text, old(pos), pos), old(pos), pos)]
    {
      var start := pos;
      Advance();
      Advance();
      ScanBlockComment();
      PushRaw(CommentToken, start, first);
    }

    /** One turn of the scan loop. */
    method ScanOne()
      requires Tracks() && pos < |text|
      modifies this`pos, this`line, this`col, this`tokens
      ensures Tracks()
      ensures var lexeme := LexemeAt(text, old(pos), lang);
              if lexeme.Lexeme? then
                pos == lexeme.end && tokens == old(tokens) + TokensOf(text, old(pos), lexeme)
              else pos == old(pos) + 1 && tokens == old(tokens)
    {
      var start := pos;
      var first := Position(line, col);
      var c := text[pos];
      if IsBlank(c) {
        Advance();
      } else if c == '\n' {
        Advance();
        Push(NewlineToken, "\n", start, first);
      } else if c == '/' && At(text, pos + 1, '*') {
        ScanComment(first);
      } else if c == '/' && At(text, pos + 1, '/') {
        ScanLineComment(first);
      } else if c == '\'' {
        ScanChar(first);
      } else if c == '"' {
        ScanString(first);
      } else if IsDigit(c) {
        ScanNumber();
        PushRaw(NumberToken, start, first);
      } else if IsPunctuation(c) {
        ScanPunctuation(first);
      } else if IsIdentStart(c) {
        ScanWord(first);
      } else {
        Advance();
      }
    }
  }

  lemma StringStep(text: string, p: nat, lang: Language, before: string)
    requires InString(text, p)
    ensures var piece, body := StringPiece(text, p, lang), StringBody(text, p, lang);
            var rest := StringBody(text, piece.end, lang);
            before + body.value == before + piece.value + rest.value && body.end == rest.end
  {
  }

  lemma NoInnerNewlines(text: string, p: nat)
    requires At(text, p, '*') && At(text, p + 1, '/')
    ensures InnerNewlines(text, p, p + 2) == []
  {
    assert InnerNewlines(text, p + 1, p + 2) == [];
  }

  /** lex */
  method Lex(source: string, lang: Language) returns (tokens: seq<Token>)
    ensures tokens == Tokens(source, lang)
  {
    var text := WithoutMark(source);
    if |text| > MAX_FILE_SIZE {
      return [Token(EofToken, "", Position(1, 1), Position(1, 1), 0, 0)];
    }
    var scanner := new Scanner(text, lang);
    ghost var all := Scan(text, 0, 0, lang);
    var stopped := false;
    while !stopped && scanner.pos < |text|
      invariant scanner.Tracks() && scanner.pos <= |text| + 1
      invariant if stopped then all == scanner.tokens + [Eof(text, scanner.pos)]
                else all == scanner.tokens + Scan(text, scanner.pos, |scanner.tokens|, lang)
      decreases |text| + 1 - scanner.pos, stopped
      modifies scanner
    {
      var newline := text[scanner.pos] == '\n';
      ghost var start := scanner.pos;
      ghost var before := scanner.tokens;
      ghost var made, end := ScanStep(text, start, |before|, lang);
      scanner.ScanOne();
      Assoc(before, made, Rest(text, end, newline, |scanner.tokens|, lang));
      if newline && |scanner.tokens| > MAX_TOKEN_COUNT {
        stopped := true;
      }
    }
    tokens := scanner.tokens + [Token(EofToken, "", Position(scanner.line, scanner.col), Position(scanner.line, scanner.col),
                                      scanner.pos, scanner.pos)];
  }
}
