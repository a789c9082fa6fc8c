/**
 What holds of the tokens of every text (lexer.ts): they tile it, they know where they are, and they
 say what stands there. The line breaks recorded inside block comments, whose column is 0, are set aside.
 */
module LexerProperties {
  import opened JsText
  import opened Lexemes
  import opened Collections

  /** The tokens but for the line breaks inside block comments. */
  function Outer(tokens: seq<Token>): seq<Token> {
    if tokens == [] then []
    else if tokens[0].first.column > 0 then [tokens[0]] + Outer(tokens[1..])
    else Outer(tokens[1..])
  }

  lemma {:induction false} OuterConcat(a: seq<Token>, b: seq<Token>)
    ensures Outer(a + b) == Outer(a) + Outer(b)
    decreases |a|
  {
    if a == [] {
      assert a + b == b;
    } else {
      OuterConcat(a[1..], b);
      assert (a + b)[1..] == a[1..] + b && (a + b)[0] == a[0];
      Assoc([a[0]], Outer(a[1..]), Outer(b));
    }
  }

  lemma {:induction false} InnerIsNotOuter(text: string, p: nat, end: nat)
    ensures Outer(InnerNewlines(text, p, end)) == []
    decreases end - p
  {
    if p < end {
      InnerIsNotOuter(text, p + 1, end);
      if At(text, p, '\n') {
        OuterConcat([InnerNewline(text, p)], InnerNewlines(text, p + 1, end));
        assert [InnerNewline(text, p)][1..] == [];
      }
    }
  }

  lemma OuterOne(t: Token)
    requires t.first.column > 0
    ensures Outer([t]) == [t]
  {
    assert [t][1..] == [];
  }

  function OuterScan(text: string, p: nat, n: nat, lang: Language): seq<Token> {
    Outer(Scan(text, p, n, lang))
  }

  function TokenAt(text: string, p: nat, lang: Language): Token
    requires p < |text| && LexemeAt(text, p, lang).Lexeme?
  {
    var lexeme := LexemeAt(text, p, lang);
    Spanning(text, lexeme.kind, lexeme.value, p, lexeme.end)
  }

  lemma OuterTokensOf(text: string, p: nat, lang: Language)
    requires p < |text| && LexemeAt(text, p, lang).Lexeme?
    ensures Outer(TokensOf(text, p, LexemeAt(text, p, lang))) == [TokenAt(text, p, lang)]
  {
    var lexeme := LexemeAt(text, p, lang);
    OuterOne(TokenAt(text, p, lang));
    InnerIsNotOuter(text, p + 2, lexeme.end);
    OuterConcat(InnerNewlines(text, p + 2, lexeme.end), [TokenAt(text, p, lang)]);
    assert [] + [TokenAt(text, p, lang)] == [TokenAt(text, p, lang)];
  }

  /** What follows the lexeme at `p`: the rest of the scan, or the end if too many tokens were made. */
  function AfterLexeme(text: string, p: nat, n: nat, lang: Language): seq<Token>
    requires p < |text| && LexemeAt(text, p, lang).Lexeme?
  {
    var lexeme := LexemeAt(text, p, lang);
    if Stops(text, p, n) then [Eof(text, lexeme.end)]
    else OuterScan(text, lexeme.end, n + |TokensOf(text, p, lexeme)|, lang)
  }

  predicate Stops(text: string, p: nat, n: nat) {
    At(text, p, '\n') && n + 1 > MAX_TOKEN_COUNT
  }

  /** The scan, one outer token at a time. */
  lemma OuterScanStep(text: string, p: nat, n: nat, lang: Language)
    requires p < |text| && LexemeAt(text, p, lang).Lexeme?
    ensures OuterScan(text, p, n, lang) == [TokenAt(text, p, lang)] + AfterLexeme(text, p, n, lang)
    ensures p < LexemeAt(text, p, lang).end <= |text| + 1
  {
    var made, end := ScanStep(text, p, n, lang);
    OuterTokensOf(text, p, lang);
    OuterConcat(made, Rest(text, end, text[p] == '\n', n + |made|, lang));
    OuterOne(Eof(text, end));
  }

  lemma OuterScanSkip(text: string, p: nat, n: nat, lang: Language)
    requires p < |text| && !LexemeAt(text, p, lang).Lexeme?
    ensures OuterScan(text, p, n, lang) == OuterScan(text, p + 1, n, lang)
  {
  }

  lemma OuterScanEnd(text: string, p: nat, n: nat, lang: Language)
    requires p >= |text|
    ensures OuterScan(text, p, n, lang) == [Eof(text, p)]
  {
    OuterOne(Eof(text, p));
  }

  // ----- the tokens tile the text -----

  /** A character that begins no token. */
  predicate IsRefused(c: char) {
    !IsBlank(c) && c != '\n' && c != '\'' && c != '"' && !IsDigit(c) && !IsPunctuation(c) && !IsIdentStart(c)
  }

  /** Nothing but blanks and refused characters between two offsets, as far as there is text. */
  predicate Ignorable(text: string, p: nat, q: nat) {
    forall k :: p <= k < q && k < |text| ==> IsBlank(text[k]) || IsRefused(text[k])
  }

  /** From `from` on the tokens follow each other without overlap, and skip only what is ignorable. */
  predicate Tiles(text: string, tokens: seq<Token>, from: nat)
    decreases |tokens|
  {
    && tokens != []
    && from <= tokens[0].start && Ignorable(text, from, tokens[0].start)
    && if |tokens| == 1 then tokens[0].kind.EofToken? && tokens[0].start == tokens[0].end
       else !tokens[0].kind.EofToken? && tokens[0].start < tokens[0].end && Tiles(text, tokens[1..], tokens[0].end)
  }

  lemma TilesCons(text: string, t: Token, rest: seq<Token>, from: nat)
    requires Tiles(text, rest, t.end) && !t.kind.EofToken?
    requires from <= t.start < t.end && Ignorable(text, from, t.start)
    ensures Tiles(text, [t] + rest, from)
  {
    assert ([t] + rest)[1..] == rest;
  }

  lemma TilesFromBefore(text: string, tokens: seq<Token>, p: nat)
    requires p < |text| && (IsBlank(text[p]) || IsRefused(text[p])) && Tiles(text, tokens, p + 1)
    ensures Tiles(text, tokens, p)
  {
  }

  /** A character without a lexeme is a blank or refused, and no lexeme is an end of file. */
  lemma LexemeOrIgnorable(text: string, p: nat, lang: Language)
    requires p < |text|
    ensures !LexemeAt(text, p, lang).Lexeme? <==> IsBlank(text[p]) || IsRefused(text[p])
    ensures LexemeAt(text, p, lang).Lexeme? ==> !LexemeAt(text, p, lang).kind.EofToken?
  {
  }

  lemma TilesFromLexeme(text: string, p: nat, n: nat, lang: Language)
    requires p < |text| && LexemeAt(text, p, lang).Lexeme?
    requires Tiles(text, AfterLexeme(text, p, n, lang), LexemeAt(text, p, lang).end)
    ensures Tiles(text, OuterScan(text, p, n, lang), p)
  {
    LexemeOrIgnorable(text, p, lang);
    OuterScanStep(text, p, n, lang);
    TilesCons(text, TokenAt(text, p, lang), AfterLexeme(text, p, n, lang), p);
  }

  lemma {:induction false} ScanTiles(text: string, p: nat, n: nat, lang: Language)
    ensures Tiles(text, OuterScan(text, p, n, lang), p)
    decreases |text| + 1 - p
  {
    if p >= |text| {
      OuterScanEnd(text, p, n, lang);
    } else {
      var lexeme := LexemeAt(text, p, lang);
      if !lexeme.Lexeme? {
        LexemeOrIgnorable(text, p, lang);
        OuterScanSkip(text, p, n, lang);
        ScanTiles(text, p + 1, n, lang);
        TilesFromBefore(text, OuterScan(text, p + 1, n, lang), p);
      } else {
        LexemeAdvances(text, p, lang);
        if !Stops(text, p, n) {
          ScanTiles(text, lexeme.end, n + |TokensOf(text, p, lexeme)|, lang);
        }
        TilesFromLexeme(text, p, n, lang);
      }
    }
  }

  /** A text too large is not scanned at all. */
  predicate Scanned(source: string) {
    |WithoutMark(source)| <= MAX_FILE_SIZE
  }

  /** The tokens of a source tile it from its first offset to its end-of-file token. */
  lemma TokensTile(source: string, lang: Language)
    requires Scanned(source)
    ensures Tiles(WithoutMark(source), Outer(Tokens(source, lang)), 0)
  {
    ScanTiles(WithoutMark(source), 0, 0, lang);
  }

  /** Tokens come in order and do not overlap. */
  lemma {:induction false} TiledInOrder(text: string, tokens: seq<Token>, from: nat, i: nat, j: nat)
    requires Tiles(text, tokens, from) && i < j < |tokens|
    ensures from <= tokens[i].start < tokens[i].end <= tokens[j].start
    decreases |tokens|
  {
    if i > 0 {
      TiledInOrder(text, tokens[1..], tokens[0].end, i - 1, j - 1);
    } else if j > 1 {
      TiledInOrder(text, tokens[1..], tokens[0].end, 0, j - 1);
      assert tokens[1..][j - 1] == tokens[j];
    } else {
      assert tokens[1..][0] == tokens[1];
    }
  }

  /** Whatever no token covers before the end-of-file token is a blank or a refused character. */
  lemma {:induction false} TiledCovers(text: string, tokens: seq<Token>, from: nat, p: nat)
    requires Tiles(text, tokens, from) && from <= p < |text| && p < tokens[|tokens| - 1].start
    requires forall i :: 0 <= i < |tokens| ==> !(tokens[i].start <= p < tokens[i].end)
    ensures IsBlank(text[p]) || IsRefused(text[p])
    decreases |tokens|
  {
    if p >= tokens[0].start {
      assert tokens[0].end <= p;
      var rest := tokens[1..];
      forall i | 0 <= i < |rest| ensures !(rest[i].start <= p < rest[i].end) {
        assert rest[i] == tokens[i + 1];
      }
      TiledCovers(text, rest, tokens[0].end, p);
    }
  }

  // ----- every token is what stands at its start -----

  /** The token is the one the text has at the token's own start; the end of file has none. */
  predicate IsTokenOf(text: string, t: Token, lang: Language) {
    if t.kind.EofToken? then t == Eof(text, t.start)
    else t.start < |text| && LexemeAt(text, t.start, lang).Lexeme? && t == TokenAt(text, t.start, lang)
  }

  lemma TokenAtIsOfText(text: string, p: nat, lang: Language)
    requires p < |text| && LexemeAt(text, p, lang).Lexeme?
    ensures IsTokenOf(text, TokenAt(text, p, lang), lang)
  {
    LexemeOrIgnorable(text, p, lang);
  }

  predicate AllOfText(text: string, tokens: seq<Token>, lang: Language) {
    tokens == [] || (IsTokenOf(text, tokens[0], lang) && AllOfText(text, tokens[1..], lang))
  }

  lemma {:induction false} AllOfTextAt(text: string, tokens: seq<Token>, lang: Language, i: nat)
    requires AllOfText(text, tokens, lang) && i < |tokens|
    ensures IsTokenOf(text, tokens[i], lang)
    decreases i
  {
    if i > 0 {
      AllOfTextAt(text, tokens[1..], lang, i - 1);
    }
  }

  lemma AllOfTextCons(text: string, t: Token, rest: seq<Token>, lang: Language)
    requires IsTokenOf(text, t, lang) && AllOfText(text, rest, lang)
    ensures AllOfText(text, [t] + rest, lang)
  {
    assert ([t] + rest)[1..] == rest;
  }

  lemma {:induction false} ScanIsOfText(text: string, p: nat, n: nat, lang: Language)
    ensures AllOfText(text, OuterScan(text, p, n, lang), lang)
    decreases |text| + 1 - p
  {
    if p >= |text| {
      OuterScanEnd(text, p, n, lang);
      EofIsOfText(text, p, lang);
    } else {
      if !LexemeAt(text, p, lang).Lexeme? {
        OuterScanSkip(text, p, n, lang);
        ScanIsOfText(text, p + 1, n, lang);
      } else {
        var made, end := ScanStep(text, p, n, lang);
        if !Stops(text, p, n) {
          ScanIsOfText(text, end, n + |made|, lang);
        }
        StepIsOfText(text, p, n, lang, made, end);
      }
    }
  }

  lemma EofIsOfText(text: string, p: nat, lang: Language)
    ensures AllOfText(text, [Eof(text, p)], lang)
  {
    assert [Eof(text, p)][1..] == [];
  }

  lemma StepIsOfText(text: string, p: nat, n: nat, lang: Language, made: seq<Token>, end: nat)
    requires p < |text| && LexemeAt(text, p, lang).Lexeme?
    requires end == LexemeAt(text, p, lang).end && made == TokensOf(text, p, LexemeAt(text, p, lang))
    requires Stops(text, p, n) || AllOfText(text, OuterScan(text, end, n + |made|, lang), lang)
    ensures AllOfText(text, OuterScan(text, p, n, lang), lang)
  {
    EofIsOfText(text, end, lang);
    OuterScanStep(text, p, n, lang);
    TokenAtIsOfText(text, p, lang);
    AllOfTextCons(text, TokenAt(text, p, lang), AfterLexeme(text, p, n, lang), lang);
  }

  lemma TokenIsOfText(source: string, lang: Language, i: nat)
    requires Scanned(source) && i < |Outer(Tokens(source, lang))|
    ensures IsTokenOf(WithoutMark(source), Outer(Tokens(source, lang))[i], lang)
  {
    ScanIsOfText(WithoutMark(source), 0, 0, lang);
    AllOfTextAt(WithoutMark(source), Outer(Tokens(source, lang)), lang, i);
  }

  /** Line and column at both ends of a token are the positions of its two offsets. */
  lemma TokensKnowWhereTheyAre(source: string, lang: Language, i: nat)
    requires Scanned(source) && i < |Outer(Tokens(source, lang))|
    ensures var text, t := WithoutMark(source), Outer(Tokens(source, lang))[i];
            t.first == PositionAt(text, t.start) && t.past == PositionAt(text, t.end)
  {
    TokenIsOfText(source, lang, i);
  }

  /** Column 1 is the beginning of the text or follows a line break, and no line break is on the way. */
  lemma {:induction false} LineStartMeaning(text: string, p: nat)
    ensures var start := LineStart(text, p);
            && (start == 0 || At(text, start - 1, '\n'))
            && (forall k :: start <= k < p ==> !At(text, k, '\n'))
            && NewlinesBefore(text, start) == NewlinesBefore(text, p)
    decreases p
  {
    if p > 0 && !At(text, p - 1, '\n') {
      LineStartMeaning(text, p - 1);
    }
  }

  predicate Precedes(a: Position, b: Position) {
    a.line < b.line || (a.line == b.line && a.column < b.column)
  }

  lemma PositionSteps(text: string, p: nat)
    ensures Precedes(PositionAt(text, p), PositionAt(text, p + 1))
  {
  }

  /** Positions order offsets, so a position belongs to one offset only. */
  lemma {:induction false} PositionsOrderOffsets(text: string, p: nat, q: nat)
    requires p < q
    ensures Precedes(PositionAt(text, p), PositionAt(text, q))
    decreases q - p
  {
    PositionSteps(text, q - 1);
    if p < q - 1 {
      PositionsOrderOffsets(text, p, q - 1);
    }
  }

  // ----- where a token ends -----

  /** A quote in the last place, opening a character literal that nothing follows. */
  predicate IsDanglingQuote(text: string, t: Token) {
    t.kind.CharToken? && t.start + 1 == |text|
  }

  predicate HasDanglingQuote(text: string, tokens: seq<Token>) {
    exists i :: 0 <= i < |tokens| && IsDanglingQuote(text, tokens[i])
  }

  lemma HasDanglingCons(text: string, t: Token, rest: seq<Token>)
    ensures HasDanglingQuote(text, [t] + rest) <==> IsDanglingQuote(text, t) || HasDanglingQuote(text, rest)
  {
    var all := [t] + rest;
    if IsDanglingQuote(text, t) {
      assert IsDanglingQuote(text, all[0]);
    }
    if HasDanglingQuote(text, rest) {
      var i :| 0 <= i < |rest| && IsDanglingQuote(text, rest[i]);
      assert all[i + 1] == rest[i];
    }
  }

  lemma LexemeEnd(text: string, p: nat, lang: Language)
    requires p < |text| && LexemeAt(text, p, lang).Lexeme?
    ensures p < LexemeAt(text, p, lang).end <= |text| + 1
    ensures LexemeAt(text, p, lang).end == |text| + 1 <==> IsDanglingQuote(text, TokenAt(text, p, lang))
  {
    LexemeAdvances(text, p, lang);
  }

  /** The scan ends with the end of file, one past the text exactly after a dangling quote. */
  predicate EndsRight(text: string, tokens: seq<Token>) {
    && tokens != [] && tokens[|tokens| - 1].kind.EofToken? && tokens[|tokens| - 1].start <= |text| + 1
    && (tokens[|tokens| - 1].start == |text| + 1 <==> HasDanglingQuote(text, tokens))
  }

  lemma EofEndsRight(text: string, p: nat)
    requires p <= |text|
    ensures EndsRight(text, [Eof(text, p)])
  {
  }

  lemma {:induction false} ScanEndsRight(text: string, p: nat, n: nat, lang: Language)
    requires p <= |text|
    ensures EndsRight(text, OuterScan(text, p, n, lang))
    decreases |text| - p
  {
    if p == |text| {
      OuterScanEnd(text, p, n, lang);
      EofEndsRight(text, p);
    } else {
      var lexeme := LexemeAt(text, p, lang);
      if !lexeme.Lexeme? {
        OuterScanSkip(text, p, n, lang);
        ScanEndsRight(text, p + 1, n, lang);
      } else {
        var rest := AfterLexeme(text, p, n, lang);
        OuterScanStep(text, p, n, lang);
        LexemeEnd(text, p, lang);
        HasDanglingCons(text, TokenAt(text, p, lang), rest);
        if lexeme.end == |text| + 1 {
          OuterOne(Eof(text, lexeme.end));
        } else {
          if Stops(text, p, n) {
            EofEndsRight(text, lexeme.end);
          } else {
            ScanEndsRight(text, lexeme.end, n + |TokensOf(text, p, lexeme)|, lang);
          }
          EndsRightCons(text, TokenAt(text, p, lang), rest);
        }
      }
    }
  }

  lemma EndsRightCons(text: string, t: Token, rest: seq<Token>)
    requires !IsDanglingQuote(text, t) && EndsRight(text, rest)
    ensures EndsRight(text, [t] + rest)
  {
    HasDanglingCons(text, t, rest);
  }

  /**
   Every token stays inside the text, but for a character literal opened by a quote in the last place:
   that one, and with it the end of file, lies one past the end.
   */
  lemma TokensStayInside(source: string, lang: Language, i: nat)
    requires Scanned(source) && i < |Outer(Tokens(source, lang))|
    ensures var text, tokens := WithoutMark(source), Outer(Tokens(source, lang));
            && EndsRight(text, tokens)
            && (!tokens[i].kind.EofToken? ==>
                  tokens[i].end <= |text| || (IsDanglingQuote(text, tokens[i]) && tokens[i].end == |text| + 1))
  {
    var text, tokens := WithoutMark(source), Outer(Tokens(source, lang));
    ScanEndsRight(text, 0, 0, lang);
    TokenIsOfText(source, lang, i);
    if !tokens[i].kind.EofToken? {
      LexemeEnd(text, tokens[i].start, lang);
    }
  }

  /** A character literal opened in the last place begins with the quote that stands there. */
  lemma DanglingQuoteIsLast(text: string, t: Token, lang: Language)
    requires t.start < |text| && LexemeAt(text, t.start, lang).Lexeme? && t == TokenAt(text, t.start, lang)
    requires IsDanglingQuote(text, t)
    ensures text[|text| - 1] == '\''
  {
    LexemeEnd(text, t.start, lang);
  }

  /** In a text that does not end in a quote every token stays inside, the final end of file included. */
  lemma NoFinalQuoteStaysInside(source: string, lang: Language, i: nat)
    requires Scanned(source) && i < |Outer(Tokens(source, lang))|
    requires var text := WithoutMark(source); text == "" || text[|text| - 1] != '\''
    ensures var text, tokens := WithoutMark(source), Outer(Tokens(source, lang));
            && (!tokens[i].kind.EofToken? ==> tokens[i].end <= |text|)
            && tokens[|tokens| - 1].kind.EofToken? && tokens[|tokens| - 1].start <= |text|
  {
    var text, tokens := WithoutMark(source), Outer(Tokens(source, lang));
    TokensStayInside(source, lang, i);
    forall k | 0 <= k < |tokens| ensures !IsDanglingQuote(text, tokens[k]) {
      TokenIsOfText(source, lang, k);
      if IsDanglingQuote(text, tokens[k]) {
        DanglingQuoteIsLast(text, tokens[k], lang);
      }
    }
  }

  // ----- what a token says -----

  lemma {:induction false} RunAccepts(text: string, p: nat, accepts: char -> bool)
    requires p <= |text|
    ensures var end := RunEnd(text, p, accepts);
            (forall k :: p <= k < end ==> accepts(text[k])) && !AtAny(text, end, accepts)
    decreases |text| - p
  {
    if AtAny(text, p, accepts) {
      RunAccepts(text, p + 1, accepts);
    }
  }

  /** Kinds whose value is the text they cover; literals are decoded, the end of file covers nothing. */
  predicate IsRaw(kind: Kind) {
    !kind.CharToken? && !kind.StringToken? && !kind.EofToken?
  }

  /** Slicing the source at a token's offsets recovers its text. */
  lemma LexemeSlice(text: string, p: nat, lang: Language)
    requires p < |text| && LexemeAt(text, p, lang).Lexeme? && IsRaw(LexemeAt(text, p, lang).kind)
    ensures LexemeAt(text, p, lang).end <= |text|
    ensures LexemeAt(text, p, lang).value == text[p..LexemeAt(text, p, lang).end]
  {
    var lexeme := LexemeAt(text, p, lang);
    LexemeEnd(text, p, lang);
    if text[p] == '\n' {
      assert text[p..p + 1] == "\n";
    } else {
      assert lexeme == Raw(lexeme.kind, text, p, lexeme.end);
    }
  }

  /** A line comment runs to the end of its line. */
  predicate RunsToLineEnd(text: string, t: Token)
    requires t.start <= t.end <= |text|
  {
    '\n' !in t.value && (t.end == |text| || text[t.end] == '\n')
  }

  /** What the kind of a token says about its text. */
  predicate Says(text: string, t: Token, lang: Language)
    requires t.start < t.end <= |text| && t.value == text[t.start..t.end]
  {
    match t.kind
    case GenComment => "//fungi:" <= t.value && RunsToLineEnd(text, t)
    case DocComment => "///" <= t.value && RunsToLineEnd(text, t)
    case GovComment => ";;" <= t.value && RunsToLineEnd(text, t)
    case CommentToken =>
      && !("//fungi:" <= t.value) && !("///" <= t.value)
      && ("/*" <= t.value || ("//" <= t.value && RunsToLineEnd(text, t)))
    case KeywordToken => IsWholeWord(text, t) && t.value in lang.keywords
    case IdentifierToken => IsWholeWord(text, t) && t.value !in lang.keywords
    case NewlineToken => t.value == "\n" || (t.value == ";" && !At(text, t.end, ';'))
    case OperatorToken => IsWholeOperator(text, t)
    case SymbolToken => |t.value| == 1 && IsSymbol(t.value[0]) && t.value != ";" && !BeginsPair(text, t)
    case NumberToken => IsDigit(t.value[0])
    case _ => true
  }

  /** With the character behind it the token's character would have made a longer operator. */
  predicate BeginsPair(text: string, t: Token)
    requires |t.value| == 1
  {
    t.end < |text| && IsTwoCharOperator(t.value[0], text[t.end])
  }

  /** Two characters if they make an operator, one otherwise. */
  predicate IsWholeOperator(text: string, t: Token) {
    || (|t.value| == 2 && IsTwoCharOperator(t.value[0], t.value[1]))
    || (|t.value| == 1 && IsOneCharOperator(t.value[0]) && !BeginsPair(text, t))
  }

  predicate IsWholeWord(text: string, t: Token)
    requires t.end <= |text|
  {
    t.value != "" && IsIdentStart(t.value[0]) && (forall c :: c in t.value ==> IsIdentContinue(c))
    && !AtAny(text, t.end, IsIdentContinue)
  }

  lemma PrefixOfSlice(text: string, p: nat, end: nat, prefix: string)
    requires p <= end <= |text|
    ensures prefix <= text[p..end] <==> p + |prefix| <= end && Starts(text, p, prefix)
  {
    if p + |prefix| <= end {
      assert text[p..end][..|prefix|] == text[p..][..|prefix|];
    }
  }

  lemma LineCommentFacts(kind: Kind, text: string, p: nat)
    requires p < |text| && text[p] != '\n'
    ensures var c := LineComment(kind, text, p);
            && p < c.end <= |text| && c.kind == kind && c.value == text[p..c.end]
            && '\n' !in c.value && (c.end == |text| || text[c.end] == '\n')
  {
    RunAccepts(text, p, NotNewline);
    var end := RunEnd(text, p, NotNewline);
    assert AtAny(text, p, NotNewline);
    assert text[p..end] == Slice(text, p, end);
  }

  /** A line comment keeps a mark at its start that has no line break in it, and gains none. */
  lemma LineCommentKeepsPrefix(kind: Kind, text: string, p: nat, prefix: string)
    requires p < |text| && text[p] != '\n' && '\n' !in prefix
    ensures prefix <= LineComment(kind, text, p).value <==> Starts(text, p, prefix)
  {
    LineCommentFacts(kind, text, p);
    var end := LineComment(kind, text, p).end;
    PrefixOfSlice(text, p, end, prefix);
    assert Starts(text, p, prefix) ==> forall k :: 0 <= k < |prefix| ==> prefix[k] in prefix && text[p + k] == prefix[k];
  }

  lemma StartsTwo(text: string, p: nat, c: char, d: char)
    ensures Starts(text, p, [c, d]) <==> At(text, p, c) && At(text, p + 1, d)
  {
    if p + 2 <= |text| {
      assert text[p..][..2] == [text[p], text[p + 1]];
    }
  }

  lemma StartsThree(text: string, p: nat, c: char, d: char, e: char)
    ensures Starts(text, p, [c, d, e]) <==> At(text, p, c) && At(text, p + 1, d) && At(text, p + 2, e)
  {
    if p + 3 <= |text| {
      assert text[p..][..3] == [text[p], text[p + 1], text[p + 2]];
    }
  }

  lemma LineCommentSays(text: string, p: nat, lang: Language)
    requires At(text, p, '/') && At(text, p + 1, '/')
    ensures var t := TokenAt(text, p, lang);
            t.start < t.end <= |text| && t.value == text[t.start..t.end] && Says(text, t, lang)
  {
    var kind := LineCommentAt(text, p).kind;
    LineCommentFacts(kind, text, p);
    LineCommentKeepsPrefix(kind, text, p, "//fungi:");
    LineCommentKeepsPrefix(kind, text, p, "///");
    LineCommentKeepsPrefix(kind, text, p, "//");
    StartsTwo(text, p, '/', '/');
    StartsThree(text, p, '/', '/', '/');
  }

  lemma BlockCommentSays(text: string, p: nat, lang: Language)
    requires At(text, p, '/') && At(text, p + 1, '*')
    ensures var t := TokenAt(text, p, lang);
            t.start < t.end <= |text| && t.value == text[t.start..t.end] && Says(text, t, lang)
  {
    LexemeSlice(text, p, lang);
    var end := BlockEnd(text, p + 2);
    PrefixOfSlice(text, p, end, "/*");
    StartsTwo(text, p, '/', '*');
    assert text[p..end][1] == '*';
  }

  lemma SemicolonSays(text: string, p: nat, lang: Language)
    requires At(text, p, ';')
    ensures var t := TokenAt(text, p, lang);
            t.start < t.end <= |text| && t.value == text[t.start..t.end] && Says(text, t, lang)
  {
    LineCommentFacts(GovComment, text, p);
    LineCommentKeepsPrefix(GovComment, text, p, ";;");
    StartsTwo(text, p, ';', ';');
  }

  lemma PunctuationLexeme(text: string, p: nat, lang: Language)
    requires p < |text| && IsPunctuation(text[p])
    requires !(text[p] == '/' && (At(text, p + 1, '*') || At(text, p + 1, '/')))
    ensures LexemeAt(text, p, lang) == PunctuationAt(text, p)
  {
    PunctuationIsElse(text[p]);
  }

  lemma PunctuationIsElse(c: char)
    requires IsPunctuation(c)
    ensures !IsBlank(c) && !IsDigit(c) && c != '\n' && c != '\'' && c != '"'
  {
  }

  lemma SignSays(text: string, p: nat, lexeme: Lexeme, lang: Language)
    requires p < |text| && IsPunctuation(text[p]) && text[p] != ';' && lexeme == PunctuationAt(text, p)
    ensures var t := Spanning(text, lexeme.kind, lexeme.value, p, lexeme.end);
            t.start < t.end <= |text| && t.value == text[t.start..t.end] && Says(text, t, lang)
  {
    if lexeme.kind.SymbolToken? {
      assert lexeme.end == p + 1 && lexeme.value == text[p..p + 1];
    } else {
      assert lexeme.kind.OperatorToken? && lexeme.end <= |text|;
    }
  }

  lemma PunctuationSays(text: string, p: nat, lang: Language)
    requires p < |text| && IsPunctuation(text[p]) && text[p] != ';'
    requires !(text[p] == '/' && (At(text, p + 1, '*') || At(text, p + 1, '/')))
    ensures var t := TokenAt(text, p, lang);
            t.start < t.end <= |text| && t.value == text[t.start..t.end] && Says(text, t, lang)
  {
    PunctuationLexeme(text, p, lang);
    SignSays(text, p, PunctuationAt(text, p), lang);
  }

  lemma WordSays(text: string, p: nat, lang: Language)
    requires p < |text| && IsIdentStart(text[p])
    ensures var t := TokenAt(text, p, lang);
            t.start < t.end <= |text| && t.value == text[t.start..t.end] && Says(text, t, lang)
  {
    var end := RunEnd(text, p, IsIdentContinue);
    WordLexeme(text, p, lang);
    RunAccepts(text, p, IsIdentContinue);
    assert p < end <= |text|;
  }

  lemma WordLexeme(text: string, p: nat, lang: Language)
    requires p < |text| && IsIdentStart(text[p])
    ensures LexemeAt(text, p, lang) == Word(text, p, lang)
  {
  }

  lemma LexemeSays(text: string, p: nat, lang: Language)
    requires p < |text| && LexemeAt(text, p, lang).Lexeme? && IsRaw(LexemeAt(text, p, lang).kind)
    ensures var t := TokenAt(text, p, lang);
            t.start < t.end <= |text| && t.value == text[t.start..t.end] && Says(text, t, lang)
  {
    if At(text, p, '/') && At(text, p + 1, '/') {
      LineCommentSays(text, p, lang);
    } else if At(text, p, '/') && At(text, p + 1, '*') {
      BlockCommentSays(text, p, lang);
    } else if text[p] == ';' {
      SemicolonSays(text, p, lang);
    } else if IsPunctuation(text[p]) {
      PunctuationSays(text, p, lang);
    } else if IsIdentStart(text[p]) {
      WordSays(text, p, lang);
    } else {
      LexemeSlice(text, p, lang);
      LexemeEnd(text, p, lang);
    }
  }

  lemma {:induction false} PlainStringBody(text: string, p: nat, lang: Language)
    requires p <= |text|
    requires forall k :: p <= k < StringBody(text, p, lang).end ==> text[k] != '\\'
    ensures StringBody(text, p, lang).value == text[p..StringBody(text, p, lang).end]
    decreases |text| - p
  {
    if InString(text, p) {
      var rest := StringBody(text, p + 1, lang);
      assert StringBody(text, p, lang).end >= p + 1;
      assert StringPiece(text, p, lang) == Piece([text[p]], p + 1);
      PlainStringBody(text, p + 1, lang);
      assert text[p..rest.end] == [text[p]] + text[p + 1..rest.end];
    }
  }

  /** A string literal without escapes is its own text, quotes included. */
  lemma PlainStringIsItsText(text: string, p: nat, lang: Language)
    requires At(text, p, '"')
    requires forall k :: p <= k < StringLiteral(text, p, lang).end ==> text[k] != '\\'
    ensures StringLiteral(text, p, lang).value == text[p..StringLiteral(text, p, lang).end]
  {
    var body := StringBody(text, p + 1, lang);
    PlainStringBody(text, p + 1, lang);
    assert text[p..body.end] == [text[p]] + text[p + 1..body.end];
  }

  /**
   Slicing the source at a token's offsets recovers its text, and the text is of the token's kind: a
   generated comment never passes for an authored one or the other way around, a keyword is a whole word.
   */
  lemma TokensSayWhatTheyAre(source: string, lang: Language, i: nat)
    requires Scanned(source) && i < |Outer(Tokens(source, lang))|
    requires IsRaw(Outer(Tokens(source, lang))[i].kind)
    ensures var text, t := WithoutMark(source), Outer(Tokens(source, lang))[i];
            t.start < t.end <= |text| && t.value == text[t.start..t.end] && Says(text, t, lang)
  {
    var text, t := WithoutMark(source), Outer(Tokens(source, lang))[i];
    TokenIsOfText(source, lang, i);
    LexemeSays(text, t.start, lang);
  }
}
