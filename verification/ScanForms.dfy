/**
 What belongs to the token list of a text besides its tokens proper: where the list ends, and the line breaks recorded
 for block comments (lexer.ts).
 */
module ScanForms {
  import opened JsText
  import opened Lexemes
  import opened LexerProperties

  // ----- the start -----

  /** A byte order mark at the start is no part of the text. */
  lemma MarkIff(source: string, text: string)
    ensures WithoutMark(source) == text
       <==> source == ['\U{FEFF}'] + text || (source == text && (text == "" || text[0] as int != 0xFEFF))
  {
    if source != "" && source[0] == '\U{FEFF}' {
      assert source == ['\U{FEFF}'] + source[1..];
    } else {
      assert source != ['\U{FEFF}'] + text;
    }
  }

  /** A text of more than 10 MB is not read. */
  lemma TooLarge(source: string, lang: Language)
    requires |WithoutMark(source)| > 10_485_760
    ensures Tokens(source, lang) == [Token(EofToken, "", Position(1, 1), Position(1, 1), 0, 0)]
  {
  }

  // ----- the end -----

  /** A line break that is not inside a comment. */
  predicate IsLineBreak(t: Token) {
    t.kind.NewlineToken? && t.value == "\n" && t.first.column > 0
  }

  /** With `n` tokens before it the list ends at the end of the text, or with the line break that is too many. */
  ghost predicate EndsInTime(text: string, tokens: seq<Token>, n: nat) {
    && tokens != []
    && var last := tokens[|tokens| - 1];
       && last.kind.EofToken?
       && (last.start < |text| ==> |tokens| > 1 && IsLineBreak(tokens[|tokens| - 2]) && n + |tokens| - 1 > 1_000_000)
       && forall i :: 0 <= i < |tokens| - 2 && IsLineBreak(tokens[i]) ==> n + i + 1 <= 1_000_000
  }

  lemma NoLineBreakMade(text: string, p: nat, lexeme: Lexeme, t: Token)
    requires p < |text| && lexeme.Lexeme? && t in TokensOf(text, p, lexeme) && text[p] != '\n'
    requires lexeme.kind.NewlineToken? ==> lexeme.value != "\n"
    ensures !IsLineBreak(t)
  {
    if t in InnerNewlines(text, p + 2, lexeme.end) {
      InnerAre(text, p + 2, lexeme.end, t);
    }
  }

  /** The recorded line breaks have column 0. */
  lemma {:induction false} InnerAre(text: string, p: nat, end: nat, t: Token)
    requires t in InnerNewlines(text, p, end)
    ensures p <= t.start < end && At(text, t.start, '\n')
    ensures t == Token(NewlineToken, "\n", Position(PositionAt(text, t.start).line, 0),
                       PositionAt(text, t.start + 1), t.start, t.start + 1)
    decreases end - p
  {
    if t != InnerNewline(text, p) || !At(text, p, '\n') {
      InnerAre(text, p + 1, end, t);
    }
  }

  lemma {:induction false} InnerAll(text: string, p: nat, end: nat, k: nat)
    requires p <= k < end && At(text, k, '\n')
    ensures InnerNewline(text, k) in InnerNewlines(text, p, end)
    decreases end - p
  {
    if p < k {
      InnerAll(text, p + 1, end, k);
    }
  }

  lemma EndsInTimeCons(text: string, made: seq<Token>, rest: seq<Token>, n: nat)
    requires EndsInTime(text, rest, n + |made|) && forall t :: t in made ==> !IsLineBreak(t)
    ensures EndsInTime(text, made + rest, n)
  {
    var all := made + rest;
    forall i | 0 <= i < |all| - 2 && IsLineBreak(all[i]) ensures n + i + 1 <= 1_000_000 {
      assert all[i] in made || all[i] == rest[i - |made|];
    }
  }

  lemma EndsInTimeBreak(text: string, t: Token, rest: seq<Token>, n: nat)
    requires EndsInTime(text, rest, n + 1) && n + 1 <= 1_000_000
    ensures EndsInTime(text, [t] + rest, n)
  {
  }

  lemma LineBreakLexeme(text: string, p: nat, lang: Language)
    requires p < |text|
    ensures var l := LexemeAt(text, p, lang);
            if text[p] == '\n' then l == Lexeme(NewlineToken, "\n", p + 1) && |TokensOf(text, p, l)| == 1
            else l.Lexeme? && l.kind.NewlineToken? ==> l.value != "\n"
  {
  }

  /** The list of any scan ends in time. */
  lemma {:induction false} ScanEndsInTime(text: string, p: nat, n: nat, lang: Language)
    ensures EndsInTime(text, Scan(text, p, n, lang), n)
    decreases |text| + 1 - p
  {
    if p < |text| {
      var made, end := ScanStep(text, p, n, lang);
      var lexeme := LexemeAt(text, p, lang);
      LineBreakLexeme(text, p, lang);
      if text[p] == '\n' && n + 1 > MAX_TOKEN_COUNT {
        assert IsLineBreak(made[0]);
      } else {
        ScanEndsInTime(text, end, n + |made|, lang);
        if text[p] == '\n' {
          EndsInTimeBreak(text, made[0], Scan(text, end, n + 1, lang), n);
        } else {
          forall t | t in made ensures !IsLineBreak(t) {
            NoLineBreakMade(text, p, lexeme, t);
          }
          EndsInTimeCons(text, made, Scan(text, end, n + |made|, lang), n);
        }
      }
    }
  }

  /**
   The end of file stands at the end of the text unless a line break makes more than a million tokens; the first
   line break that does is the last token.
   */
  lemma TokensEndInTime(source: string, lang: Language)
    requires Scanned(source)
    ensures EndsInTime(WithoutMark(source), Tokens(source, lang), 0)
  {
    ScanEndsInTime(WithoutMark(source), 0, 0, lang);
  }

  // ----- the line breaks inside block comments -----

  /** A recorded line break at `k`. */
  ghost predicate Recorded(tokens: seq<Token>, k: nat) {
    exists t :: t in tokens && t.first.column == 0 && t.start == k
  }

  /** The token is a block comment with a line break at `k` behind its opening mark. */
  predicate Spans(text: string, t: Token, k: nat) {
    && t.kind.CommentToken? && t.first.column > 0 && At(text, t.start, '/') && At(text, t.start + 1, '*')
    && t.start + 2 <= k < t.end && At(text, k, '\n')
  }

  ghost predicate Spanned(text: string, tokens: seq<Token>, k: nat) {
    exists t :: t in tokens && Spans(text, t, k)
  }

  lemma RecordedConcat(text: string, a: seq<Token>, b: seq<Token>, k: nat)
    ensures Recorded(a + b, k) <==> Recorded(a, k) || Recorded(b, k)
    ensures Spanned(text, a + b, k) <==> Spanned(text, a, k) || Spanned(text, b, k)
  {
    assert forall t :: t in a + b <==> t in a || t in b;
  }

  lemma RecordedAt(text: string, p: nat, lexeme: Lexeme, k: nat)
    requires p < |text| && lexeme.Lexeme? && (lexeme.kind == CommentToken ==> At(text, p, '/'))
    ensures Recorded(TokensOf(text, p, lexeme), k) <==> Spanned(text, TokensOf(text, p, lexeme), k)
  {
    var made := TokensOf(text, p, lexeme);
    var token := Spanning(text, lexeme.kind, lexeme.value, p, lexeme.end);
    assert token in made;
    if Recorded(made, k) {
      var t :| t in made && t.first.column == 0 && t.start == k;
      InnerAre(text, p + 2, lexeme.end, t);
      assert Spans(text, token, k);
    }
    if Spanned(text, made, k) {
      var t :| t in made && Spans(text, t, k);
      if t in InnerNewlines(text, p + 2, lexeme.end) {
        InnerAre(text, p + 2, lexeme.end, t);
        assert false;
      }
      InnerAll(text, p + 2, lexeme.end, k);
      assert InnerNewline(text, k) in made;
    }
  }

  lemma CommentsBeginWithSlash(text: string, p: nat, lang: Language)
    requires p < |text| && LexemeAt(text, p, lang).Lexeme?
    ensures LexemeAt(text, p, lang).kind == CommentToken ==> At(text, p, '/')
  {
  }

  lemma EofRecordsNothing(text: string, p: nat, k: nat)
    ensures !Recorded([Eof(text, p)], k) && !Spanned(text, [Eof(text, p)], k)
  {
  }

  lemma MadeRecords(text: string, p: nat, lang: Language, made: seq<Token>, k: nat)
    requires p < |text|
    requires var l := LexemeAt(text, p, lang); made == if l.Lexeme? then TokensOf(text, p, l) else []
    ensures Recorded(made, k) <==> Spanned(text, made, k)
  {
    if LexemeAt(text, p, lang).Lexeme? {
      CommentsBeginWithSlash(text, p, lang);
      RecordedAt(text, p, LexemeAt(text, p, lang), k);
    }
  }

  lemma RestRecords(text: string, p: nat, newline: bool, made: nat, lang: Language, k: nat)
    requires Recorded(Scan(text, p, made, lang), k) <==> Spanned(text, Scan(text, p, made, lang), k)
    ensures var rest := Rest(text, p, newline, made, lang); Recorded(rest, k) <==> Spanned(text, rest, k)
  {
    EofRecordsNothing(text, p, k);
  }

  /** In any scan the recorded line breaks are those that its block comments span. */
  lemma {:induction false} ScanRecords(text: string, p: nat, n: nat, lang: Language, k: nat)
    ensures Recorded(Scan(text, p, n, lang), k) <==> Spanned(text, Scan(text, p, n, lang), k)
    decreases |text| + 1 - p
  {
    if p >= |text| {
      EofRecordsNothing(text, p, k);
    } else {
      var made, end := ScanStep(text, p, n, lang);
      var rest := Rest(text, end, text[p] == '\n', n + |made|, lang);
      ScanRecords(text, end, n + |made|, lang, k);
      RestRecords(text, end, text[p] == '\n', n + |made|, lang, k);
      RecordedConcat(text, made, rest, k);
      MadeRecords(text, p, lang, made, k);
    }
  }

  /** The token is a recorded line break: column 0, and otherwise where it stands. */
  predicate IsRecord(text: string, t: Token) {
    && t.kind == NewlineToken && t.value == "\n" && t.end == t.start + 1
    && t.first == Position(PositionAt(text, t.start).line, 0) && t.past == PositionAt(text, t.end)
  }

  lemma {:induction false} ScanRecordsAre(text: string, p: nat, n: nat, lang: Language, t: Token)
    requires t in Scan(text, p, n, lang) && t.first.column == 0
    ensures IsRecord(text, t)
    decreases |text| + 1 - p
  {
    if p < |text| {
      var made, end := ScanStep(text, p, n, lang);
      if t in made {
        InnerAre(text, p + 2, end, t);
      } else {
        ScanRecordsAre(text, end, n + |made|, lang, t);
      }
    }
  }

  /** The line breaks recorded with column 0 are exactly those inside the block comments. */
  lemma InnerLineBreaks(source: string, lang: Language, k: nat)
    requires Scanned(source)
    ensures var text, tokens := WithoutMark(source), Tokens(source, lang);
            && (Recorded(tokens, k) <==> Spanned(text, tokens, k))
            && forall t :: t in tokens && t.first.column == 0 ==> IsRecord(text, t)
  {
    var text, tokens := WithoutMark(source), Tokens(source, lang);
    ScanRecords(text, 0, 0, lang, k);
    forall t | t in tokens && t.first.column == 0 ensures IsRecord(text, t) {
      ScanRecordsAre(text, 0, 0, lang, t);
    }
  }
}
