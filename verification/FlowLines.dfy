/**
 What a flow declaration and a generated line look like, without the functions that recognise them, and what a
 rewrite puts above each declaration (flow-dependency-analysis.ts).
 */
module FlowLines {
  import opened CharacterClasses
  import opened GeneratedComments
  import opened JsText
  import opened Options
  import opened TextForms
  import opened TextLines

  // ----- a declaration -----

  /** Nothing, or one of the three words and at least one blank. */
  ghost predicate Qualifier(q: string) {
    || q == ""
    || exists gap :: gap != "" && Blank(gap) && (q == "pure" + gap || q == "secure" + gap || q == "guarded" + gap)
  }

  /** The line declares `name`: an indent, a qualifier or none, `flow`, blanks, and the whole word `name`. */
  ghost predicate Declares(line: string, indent: string, name: string) {
    && Blank(indent) && name != "" && Word(name)
    && exists q, gap, rest ::
         Qualifier(q) && gap != "" && Blank(gap) && NoWordFirst(rest) && line == indent + q + "flow" + gap + name + rest
  }

  lemma PureFirst(gap: string, after: string)
    requires gap != "" && Blank(gap) && NoSpaceFirst(after)
    ensures var s := "pure" + gap + after; AfterQualifier(s) == after && NoSpaceFirst(s)
  {
    WordThenGap("pure", gap, after);
  }

  lemma SecureFirst(gap: string, after: string)
    requires gap != "" && Blank(gap) && NoSpaceFirst(after)
    ensures var s := "secure" + gap + after; AfterQualifier(s) == after && NoSpaceFirst(s)
  {
    WordThenGap("secure", gap, after);
    OtherWord("pure", "secure" + gap + after);
  }

  lemma GuardedFirst(gap: string, after: string)
    requires gap != "" && Blank(gap) && NoSpaceFirst(after)
    ensures var s := "guarded" + gap + after; AfterQualifier(s) == after && NoSpaceFirst(s)
  {
    WordThenGap("guarded", gap, after);
    OtherWord("pure", "guarded" + gap + after);
    OtherWord("secure", "guarded" + gap + after);
  }

  /** Behind the indent: the qualifier, if there is one, is recognised and `flow` follows. */
  lemma QualifierFirst(q: string, after: string)
    requires Qualifier(q) && after != "" && after[0] == 'f'
    ensures AfterQualifier(q + after) == after && NoSpaceFirst(q + after)
  {
    if q == "" {
      assert q + after == after;
      OtherWord("pure", after);
      OtherWord("secure", after);
      OtherWord("guarded", after);
    } else {
      var gap :| gap != "" && Blank(gap) && (q == "pure" + gap || q == "secure" + gap || q == "guarded" + gap);
      if q == "pure" + gap {
        PureFirst(gap, after);
      } else if q == "secure" + gap {
        SecureFirst(gap, after);
      } else {
        GuardedFirst(gap, after);
      }
    }
  }

  lemma QualifierFound(s: string) returns (q: string)
    ensures Qualifier(q) && s == q + AfterQualifier(s)
  {
    q := "";
    if AfterWord("pure", s).Some? {
      q := QualifierOf("pure", s);
    } else if AfterWord("secure", s).Some? {
      q := QualifierOf("secure", s);
    } else if AfterWord("guarded", s).Some? {
      q := QualifierOf("guarded", s);
    }
  }

  lemma QualifierOf(word: string, s: string) returns (q: string)
    requires AfterWord(word, s).Some?
    ensures s == q + AfterWord(word, s).value
    ensures exists gap :: gap != "" && Blank(gap) && q == word + gap
  {
    var rest := AfterWord(word, s).value;
    AfterWordStarts(word, s);
    AfterWordIff(word, s, rest);
    var gap :| gap != "" && Blank(gap) && s == word + gap + rest;
    q := word + gap;
  }

  /** `word`, blanks, and a whole word: the whole word is what is read. */
  lemma NameRead(word: string, gap: string, name: string, rest: string)
    requires gap != "" && Blank(gap) && name != "" && Word(name) && NoWordFirst(rest)
    ensures AfterWord(word, word + gap + (name + rest)) == Some(name + rest)
    ensures WordRun(name + rest) == |name| && (name + rest)[..|name|] == name
  {
    var body := name + rest;
    ClassesAre(name[0]);
    assert body[0] == name[0];
    WordThenGap(word, gap, body);
    assert body[..|name|] == name && body[|name|..] == rest;
    WordRunIff(body, |name|);
  }

  lemma IndentRead(indent: string, s: string)
    requires Blank(indent) && NoSpaceFirst(s)
    ensures Indent(indent + s) == indent && (indent + s)[SpaceRun(indent + s)..] == s
  {
    SpaceRunOf(indent, s);
  }

  lemma FivePieces(a: string, b: string, c: string, d: string, e: string, f: string)
    ensures a + b + c + d + e + f == a + (b + (c + d + (e + f)))
  {
  }

  lemma DeclarationRead(line: string, indent: string, name: string)
    requires Declares(line, indent, name)
    ensures FlowName(line) == Some(name) && Indent(line) == indent
  {
    var q, gap, rest :| Qualifier(q) && gap != "" && Blank(gap) && NoWordFirst(rest)
                        && line == indent + q + "flow" + gap + name + rest;
    var behind := "flow" + gap + (name + rest);
    FivePieces(indent, q, "flow", gap, name, rest);
    NameRead("flow", gap, name, rest);
    QualifierFirst(q, behind);
    IndentRead(indent, q + behind);
  }

  lemma NameFound(word: string, behind: string) returns (gap: string, name: string, rest: string)
    requires AfterWord(word, behind).Some?
    ensures gap != "" && Blank(gap) && Word(name) && NoWordFirst(rest) && behind == word + gap + (name + rest)
    ensures var body := AfterWord(word, behind).value; name == body[..WordRun(body)]
  {
    var body := AfterWord(word, behind).value;
    AfterWordStarts(word, behind);
    AfterWordIff(word, behind, body);
    gap :| gap != "" && Blank(gap) && behind == word + gap + body;
    WordRunIff(body, WordRun(body));
    name, rest := body[..WordRun(body)], body[WordRun(body)..];
    assert body == name + rest;
  }

  lemma DeclarationFound(line: string)
    requires FlowName(line).Some?
    ensures Declares(line, Indent(line), FlowName(line).value)
  {
    var indent, s := SplitAtSpaces(line);
    var q := QualifierFound(s);
    var gap, name, rest := NameFound("flow", AfterQualifier(s));
    FivePieces(indent, q, "flow", gap, name, rest);
  }

  /** A line is taken for the declaration of `name` behind `indent` if and only if it has that form. */
  lemma FlowNameIff(line: string, indent: string, name: string)
    ensures Declares(line, indent, name) <==> FlowName(line) == Some(name) && Indent(line) == indent
  {
    if Declares(line, indent, name) {
      DeclarationRead(line, indent, name);
    }
    if FlowName(line) == Some(name) {
      DeclarationFound(line);
    }
  }

  // ----- a generated line -----

  ghost predicate Generated(line: string) {
    exists blanks, rest :: Blank(blanks) && line == blanks + "//fungi:" + rest
  }

  lemma GeneratedIff(line: string)
    ensures IsGenerated(line) <==> Generated(line)
  {
    var gap, s := SplitAtSpaces(line);
    if IsGenerated(line) {
      assert line == gap + "//fungi:" + s[|MARKER|..];
    }
    forall blanks, rest | Blank(blanks) && line == blanks + "//fungi:" + rest ensures IsGenerated(line) {
      var behind := "//fungi:" + rest;
      assert behind[0] == '/' && line == blanks + behind;
      SpaceRunOf(blanks, behind);
      assert line[|blanks|..] == behind;
    }
  }

  // ----- the rewritten text -----

  /** The declaration of a flow with fresh lines. */
  ghost predicate DeclaresKnown(line: string, blocks: Blocks) {
    exists indent, name :: Declares(line, indent, name) && name in blocks
  }

  lemma KnownIff(line: string, blocks: Blocks)
    ensures Known(line, RenewalFrom(blocks)) <==> DeclaresKnown(line, blocks)
  {
    if Known(line, RenewalFrom(blocks)) {
      FlowNameIff(line, Indent(line), FlowName(line).value);
    }
    forall indent, name | Declares(line, indent, name) && name in blocks ensures Known(line, RenewalFrom(blocks)) {
      FlowNameIff(line, indent, name);
    }
  }

  /** Line `i` is generated, and so is everything between it and a declaration further down. */
  ghost predicate Replaced(lines: seq<string>, i: nat, blocks: Blocks) {
    exists j: nat :: i < j < |lines| && DeclaresKnown(lines[j], blocks) && AllOfThem(lines, i, j)
  }

  ghost predicate AllOfThem(lines: seq<string>, i: nat, j: nat)
    requires j <= |lines|
  {
    forall k :: i <= k < j ==> Generated(lines[k])
  }

  lemma AllOfThemStep(lines: seq<string>, i: nat)
    ensures forall j :: i < j < |lines| ==>
              (AllOfThem(lines, i, j) <==> Generated(lines[i]) && AllOfThem(lines, i + 1, j))
  {
  }

  lemma {:induction false} OnFlowIff(lines: seq<string>, i: nat, blocks: Blocks)
    requires i <= |lines|
    ensures OnFlow(lines[i..], RenewalFrom(blocks))
       <==> exists j: nat :: i <= j < |lines| && DeclaresKnown(lines[j], blocks) && AllOfThem(lines, i, j)
    decreases |lines| - i
  {
    if i < |lines| {
      OnFlowIff(lines, i + 1, blocks);
      KnownIff(lines[i], blocks);
      GeneratedIff(lines[i]);
      assert lines[i..][0] == lines[i] && lines[i..][1..] == lines[i + 1..];
      if DeclaresKnown(lines[i], blocks) {
        assert AllOfThem(lines, i, i);
      }
      AllOfThemStep(lines, i);
    }
  }

  /** The lines a rewrite takes out are those between an untouched line and a known declaration. */
  lemma StaleIff(lines: seq<string>, i: nat, blocks: Blocks)
    requires i < |lines|
    ensures Stale(lines[i..], RenewalFrom(blocks)) <==> Replaced(lines, i, blocks)
  {
    OnFlowIff(lines, i + 1, blocks);
    GeneratedIff(lines[i]);
    assert lines[i..][0] == lines[i] && lines[i..][1..] == lines[i + 1..];
    AllOfThemStep(lines, i);
  }

  lemma {:induction false} IndentedAt(indent: string, block: seq<string>, k: nat)
    requires k < |block|
    ensures Indented(indent, block)[k] == indent + block[k]
  {
    if k > 0 {
      IndentedAt(indent, block[1..], k - 1);
    }
  }

  /** Directly above line `j` stand exactly these lines, each behind `indent`, and no generated line above them. */
  ghost predicate CarriesBlock(lines: seq<string>, j: nat, indent: string, block: seq<string>)
    requires j < |lines|
  {
    && |block| <= j
    && (forall k :: 0 <= k < |block| ==> lines[j - |block| + k] == indent + block[k])
    && (|block| < j ==> !Generated(lines[j - |block| - 1]))
  }

  /** In the rewritten text every declaration of a flow with fresh lines carries exactly these. */
  lemma DeclarationsAreCurrent(source: string, blocks: Blocks, j: nat, indent: string, name: string)
    requires WellFormed(blocks) && j < |SplitNewlines(TextRewrite(source, blocks))|
    requires Declares(SplitNewlines(TextRewrite(source, blocks))[j], indent, name) && name in blocks
    ensures CarriesBlock(SplitNewlines(TextRewrite(source, blocks)), j, indent, blocks[name])
  {
    var after, renew := SplitNewlines(TextRewrite(source, blocks)), RenewalFrom(blocks);
    TextRewriteIsConservative(source, blocks);
    FlowNameIff(after[j], indent, name);
    assert BlockInPlace(after, j, renew);
    CarriesIndented(after, j, indent, blocks[name]);
  }

  lemma CarriesIndented(lines: seq<string>, j: nat, indent: string, block: seq<string>)
    requires j < |lines| && Above(lines, j, Indented(indent, block))
    ensures CarriesBlock(lines, j, indent, block)
  {
    var above := Indented(indent, block);
    forall k | 0 <= k < |block| ensures lines[j - |block| + k] == indent + block[k] {
      IndentedAt(indent, block, k);
      assert lines[j - |block| + k] == lines[j - |block|..j][k];
    }
    if |block| < j {
      GeneratedIff(lines[j - |block| - 1]);
    }
  }
}
