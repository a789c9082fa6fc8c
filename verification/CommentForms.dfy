/** The generated lines of a flow, written out (renderDependencyComments of flow-dependency-analysis.ts). */
module CommentForms {
  import opened CharacterClasses
  import opened DecimalSpelling
  import opened DecimalText
  import opened GeneratedComments

  /** The number in digits, without a leading zero. */
  ghost predicate IsCount(text: string, n: nat) {
    PlainWhole(text) && PlaceValue(text) == n
  }

  lemma CountIff(text: string, n: nat)
    ensures text == Digits(n) <==> IsCount(text, n)
  {
    DigitsArePlain(n);
    NumberOfDigits(n);
    NumberIsPlaceValue(Digits(n));
    if IsCount(text, n) {
      NumberIsPlaceValue(text);
      if text == "0" {
        assert text[..0] == "" && Number("") == 0;
      } else {
        DigitsBack(text);
      }
    }
  }

  /** The names one after the other, a comma and a blank between two of them. */
  ghost predicate Joined(names: seq<string>, text: string) {
    if |names| <= 1 then text == (if names == [] then "" else names[0])
    else exists rest :: Joined(names[1..], rest) && text == names[0] + ", " + rest
  }

  lemma {:induction false} JoinedIff(names: seq<string>, text: string)
    ensures text == JoinNames(names) <==> Joined(names, text)
    decreases |names|
  {
    if |names| > 1 {
      JoinedIff(names[1..], JoinNames(names[1..]));
      if Joined(names, text) {
        var rest :| Joined(names[1..], rest) && text == names[0] + ", " + rest;
        JoinedIff(names[1..], rest);
      }
    }
  }

  /** One line with the number of names and the names. */
  ghost predicate Lists(line: string, heading: string, names: seq<string>) {
    exists count, list :: IsCount(count, |names|) && Joined(names, list) && line == heading + count + ") " + list
  }

  /** One line with the number of dependants, and without any the remark that the flow may be deleted. */
  ghost predicate TellsImpact(line: string, impact: nat) {
    if impact == 0 then line == "//fungi: IMPACT: (0) \U{2014} safe to delete"
    else exists count :: IsCount(count, impact) && line == "//fungi: IMPACT: (" + count + ")"
  }

  lemma ListedIff(heading: string, names: seq<string>, line: string)
    requires names != []
    ensures [line] == Listed(heading, names) <==> Lists(line, "//fungi: " + heading + ": (", names)
  {
    var count, list := Digits(|names|), JoinNames(names);
    CountIff(count, |names|);
    JoinedIff(names, list);
    var mark := "//fungi: " + heading + ": (";
    var whole := MARKER + " " + heading + ": (" + count + ") " + list;
    assert mark + count + ") " + list == whole;
    assert Listed(heading, names) == [whole];
    if Lists(line, mark, names) {
      var c, l :| IsCount(c, |names|) && Joined(names, l) && line == mark + c + ") " + l;
      CountIff(c, |names|);
      JoinedIff(names, l);
    }
  }

  lemma NoImpact()
    ensures ImpactLine(0) == "//fungi: IMPACT: (0) \U{2014} safe to delete"
  {
    DigitsArePlain(0);
    assert MARKER + " IMPACT: (" == "//fungi: IMPACT: (";
  }

  lemma ImpactIff(impact: nat, line: string)
    ensures line == ImpactLine(impact) <==> TellsImpact(line, impact)
  {
    var count := Digits(impact);
    CountIff(count, impact);
    if impact == 0 {
      NoImpact();
    } else {
      assert ImpactLine(impact) == "//fungi: IMPACT: (" + count + ")";
      if TellsImpact(line, impact) {
        var c :| IsCount(c, impact) && line == "//fungi: IMPACT: (" + c + ")";
        CountIff(c, impact);
      }
    }
  }

  /** The line of a list that is not empty, none of an empty one. */
  ghost predicate ListLines(lines: seq<string>, heading: string, names: seq<string>) {
    if names == [] then lines == [] else |lines| == 1 && Lists(lines[0], heading, names)
  }

  /** The fresh lines of a flow: what it uses, what uses it, and always its impact. */
  lemma RenderedIff(uses: seq<string>, usedBy: seq<string>, impact: nat, lines: seq<string>)
    ensures lines == RenderDependencyComments(uses, usedBy, impact)
       <==> exists a, b, last ::
              && ListLines(a, "//fungi: USES: (", uses) && ListLines(b, "//fungi: USEDBY: (", usedBy)
              && TellsImpact(last, impact) && lines == a + b + [last]
  {
    var a, b, last := Listed("USES", uses), Listed("USEDBY", usedBy), ImpactLine(impact);
    ListLinesIff("USES", "//fungi: USES: (", uses, a);
    ListLinesIff("USEDBY", "//fungi: USEDBY: (", usedBy, b);
    ImpactIff(impact, last);
    forall a', b', last' | ListLines(a', "//fungi: USES: (", uses) && ListLines(b', "//fungi: USEDBY: (", usedBy)
                           && TellsImpact(last', impact)
      ensures a' == a && b' == b && last' == last
    {
      ListLinesIff("USES", "//fungi: USES: (", uses, a');
      ListLinesIff("USEDBY", "//fungi: USEDBY: (", usedBy, b');
      ImpactIff(impact, last');
    }
  }

  lemma ListLinesIff(heading: string, mark: string, names: seq<string>, lines: seq<string>)
    requires mark == "//fungi: " + heading + ": ("
    ensures lines == Listed(heading, names) <==> ListLines(lines, mark, names)
  {
    if names != [] {
      if |lines| == 1 {
        ListedIff(heading, names, lines[0]);
        assert lines == [lines[0]];
      }
    }
  }
}
