/** Blanks, words and prefixes of a text, told apart by its characters, and that JsText takes them apart in that way. */
module TextForms {
  import opened CharacterClasses
  import opened JsText
  import opened Options

  // ----- runs -----

  predicate NoSpaceFirst(s: string) {
    s == "" || s[0] as int !in SPACES
  }

  predicate NoWordFirst(s: string) {
    s == "" || !AsciiWord(s[0])
  }

  lemma {:induction false} SpaceRunIff(s: string, n: nat)
    requires n <= |s|
    ensures SpaceRun(s) == n <==> Blank(s[..n]) && NoSpaceFirst(s[n..])
    decreases |s|
  {
    if s != "" {
      ClassesAre(s[0]);
      if n > 0 {
        SpaceRunIff(s[1..], n - 1);
        assert s[..n] == [s[0]] + s[1..][..n - 1] && s[n..] == s[1..][n - 1..];
        BlankCons(s[0], s[1..][..n - 1]);
      } else {
        assert s[0..] == s;
      }
    }
  }

  lemma BlankCons(c: char, s: string)
    ensures Blank([c] + s) <==> c as int in SPACES && Blank(s)
  {
    assert ([c] + s)[0] == c;
    assert forall i :: 0 <= i < |s| ==> s[i] == ([c] + s)[i + 1];
  }

  lemma {:induction false} WordRunIff(s: string, n: nat)
    requires n <= |s|
    ensures WordRun(s) == n <==> Word(s[..n]) && NoWordFirst(s[n..])
    decreases |s|
  {
    if s != "" {
      ClassesAre(s[0]);
      if n > 0 {
        WordRunIff(s[1..], n - 1);
        assert s[..n] == [s[0]] + s[1..][..n - 1] && s[n..] == s[1..][n - 1..];
        WordCons(s[0], s[1..][..n - 1]);
      } else {
        assert s[0..] == s;
      }
    }
  }

  lemma WordCons(c: char, s: string)
    ensures Word([c] + s) <==> AsciiWord(c) && Word(s)
  {
    assert ([c] + s)[0] == c;
    assert forall i :: 0 <= i < |s| ==> s[i] == ([c] + s)[i + 1];
  }

  /** Blanks in front of something else are told apart in one way. */
  lemma SpaceRunOf(gap: string, rest: string)
    requires Blank(gap) && NoSpaceFirst(rest)
    ensures SpaceRun(gap + rest) == |gap|
  {
    var s := gap + rest;
    assert s[..|gap|] == gap && s[|gap|..] == rest;
    SpaceRunIff(s, |gap|);
  }

  lemma SplitAtSpaces(s: string) returns (gap: string, rest: string)
    ensures s == gap + rest && Blank(gap) && NoSpaceFirst(rest)
    ensures gap == s[..SpaceRun(s)] && rest == s[SpaceRun(s)..]
  {
    gap, rest := s[..SpaceRun(s)], s[SpaceRun(s)..];
    SpaceRunIff(s, SpaceRun(s));
  }

  // ----- a word and the blanks behind it -----

  lemma AfterWordIff(word: string, s: string, rest: string)
    requires NoSpaceFirst(rest)
    ensures AfterWord(word, s) == Some(rest) <==> exists gap :: gap != "" && Blank(gap) && s == word + gap + rest
  {
    if word <= s {
      var gap, more := SplitAtSpaces(s[|word|..]);
      assert s == word + gap + more;
      assert s[|word| + |gap|..] == more;
      if AfterWord(word, s) == Some(rest) {
        assert gap != "" && s == word + gap + rest;
      }
    }
    forall gap | gap != "" && Blank(gap) && s == word + gap + rest ensures AfterWord(word, s) == Some(rest) {
      assert s[|word|..] == gap + rest && word <= s;
      SpaceRunOf(gap, rest);
      assert s[|word| + |gap|..] == rest;
    }
  }

  /** What stands behind the blanks begins with none. */
  lemma AfterWordStarts(word: string, s: string)
    ensures AfterWord(word, s).Some? ==> NoSpaceFirst(AfterWord(word, s).value)
  {
    if AfterWord(word, s).Some? {
      var gap, more := SplitAtSpaces(s[|word|..]);
      assert s[|word| + |gap|..] == more;
    }
  }

  lemma OtherWord(word: string, s: string)
    requires word != "" && s != "" && s[0] != word[0]
    ensures AfterWord(word, s).None?
  {
  }

  lemma WordThenGap(word: string, gap: string, after: string)
    requires gap != "" && Blank(gap) && NoSpaceFirst(after)
    ensures AfterWord(word, word + gap + after) == Some(after)
    ensures word != "" ==> (word + gap + after)[0] == word[0]
  {
    AfterWordIff(word, word + gap + after, after);
  }

  // ----- blanks around a text -----

  predicate Bare(s: string) {
    s == "" || (s[0] as int !in SPACES && s[|s| - 1] as int !in SPACES)
  }

  lemma {:induction false} TrimStartIs(blanks: string, s: string)
    requires Blank(blanks) && (s == "" || s[0] as int !in SPACES)
    ensures TrimStart(blanks + s) == s
    decreases |blanks|
  {
    if blanks == "" {
      assert blanks + s == s;
      if s != "" {
        ClassesAre(s[0]);
      }
    } else {
      ClassesAre(blanks[0]);
      TrimStartIs(blanks[1..], s);
      assert (blanks + s)[1..] == blanks[1..] + s;
    }
  }

  lemma {:induction false} TrimEndIs(s: string, blanks: string)
    requires Blank(blanks) && (s == "" || s[|s| - 1] as int !in SPACES)
    ensures TrimEnd(s + blanks) == s
    decreases |blanks|
  {
    if blanks == "" {
      assert s + blanks == s;
      if s != "" {
        ClassesAre(s[|s| - 1]);
      }
    } else {
      var c := blanks[|blanks| - 1];
      ClassesAre(c);
      TrimEndIs(s, blanks[..|blanks| - 1]);
      var t := s + blanks;
      assert t[|t| - 1] == c && t[..|t| - 1] == s + blanks[..|blanks| - 1];
    }
  }

  lemma {:induction false} StartTrimmed(s: string) returns (blanks: string)
    ensures Blank(blanks) && s == blanks + TrimStart(s)
    ensures TrimStart(s) != "" ==> TrimStart(s)[0] as int !in SPACES
    decreases |s|
  {
    blanks := "";
    if s != "" {
      ClassesAre(s[0]);
      if IsSpace(s[0]) {
        blanks := StartTrimmed(s[1..]);
        blanks := [s[0]] + blanks;
      }
    }
  }

  lemma {:induction false} EndTrimmed(s: string) returns (blanks: string)
    ensures Blank(blanks) && s == TrimEnd(s) + blanks
    ensures TrimEnd(s) != "" ==> TrimEnd(s)[|TrimEnd(s)| - 1] as int !in SPACES
    decreases |s|
  {
    blanks := "";
    if s != "" {
      ClassesAre(s[|s| - 1]);
      if IsSpace(s[|s| - 1]) {
        blanks := EndTrimmed(s[..|s| - 1]);
        blanks := blanks + [s[|s| - 1]];
      }
    }
  }

  /** Trimming takes away the blanks around a text, and nothing else. */
  lemma TrimIff(s: string, core: string)
    ensures Trim(s) == core
       <==> Bare(core) && exists before, behind :: Blank(before) && Blank(behind) && s == before + core + behind
  {
    if Trim(s) == core {
      var before := StartTrimmed(s);
      var behind := EndTrimmed(TrimStart(s));
      assert s == before + core + behind;
      assert core != "" ==> TrimStart(s)[0] == core[0];
    }
    forall before, behind | Blank(before) && Blank(behind) && s == before + core + behind && Bare(core)
      ensures Trim(s) == core
    {
      Trimmed(before, core, behind);
    }
  }

  lemma Trimmed(before: string, core: string, behind: string)
    requires Blank(before) && Blank(behind) && Bare(core)
    ensures Trim(before + core + behind) == core
  {
    if core == "" {
      var all := before + core + behind;
      assert forall i :: 0 <= i < |behind| ==> all[|before| + i] == behind[i];
      assert forall i :: 0 <= i < |before| ==> all[i] == before[i];
      assert Blank(all);
      TrimStartIs(all, "");
      assert all + "" == all;
    } else {
      var s := core + behind;
      assert s[0] == core[0] && before + core + behind == before + s;
      TrimStartIs(before, s);
      TrimEndIs(core, behind);
    }
  }

  lemma BareIsTrimmed(s: string)
    requires Bare(s)
    ensures Trim(s) == s
  {
    Trimmed("", s, "");
    assert "" + s + "" == s;
  }
}
