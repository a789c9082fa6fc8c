/** Splitting a text at line breaks and joining lines again. */
module TextLines {
  /** source.split("\n") */
  function SplitNewlines(source: string): (lines: seq<string>)
    ensures lines != []
  {
    if source == "" then [""]
    else
      var rest := SplitNewlines(source[1..]);
      if source[0] == '\n' then [""] + rest else [[source[0]] + rest[0]] + rest[1..]
  }

  /** lines.join("\n") */
  function JoinNewlines(lines: seq<string>): string {
    if lines == [] then "" else if |lines| == 1 then lines[0] else lines[0] + "\n" + JoinNewlines(lines[1..])
  }

  predicate OneLine(s: string) {
    '\n' !in s
  }

  predicate OneLineEach(lines: seq<string>) {
    forall l :: l in lines ==> OneLine(l)
  }

  lemma SplitCons(c: char, source: string)
    ensures SplitNewlines([c] + source)
         == if c == '\n' then [""] + SplitNewlines(source)
            else [[c] + SplitNewlines(source)[0]] + SplitNewlines(source)[1..]
  {
    assert ([c] + source)[1..] == source;
  }

  lemma {:induction false} SplitLine(line: string)
    requires OneLine(line)
    ensures SplitNewlines(line) == [line]
    decreases |line|
  {
    if line != "" {
      SplitLine(line[1..]);
      assert line == [line[0]] + line[1..];
      SplitCons(line[0], line[1..]);
    }
  }

  lemma {:induction false} SplitFirstLine(line: string, rest: string)
    requires OneLine(line)
    ensures SplitNewlines(line + "\n" + rest) == [line] + SplitNewlines(rest)
    decreases |line|
  {
    if line == "" {
      assert line + "\n" + rest == ['\n'] + rest;
      SplitCons('\n', rest);
    } else {
      SplitFirstLine(line[1..], rest);
      assert line + "\n" + rest == [line[0]] + (line[1..] + "\n" + rest);
      SplitCons(line[0], line[1..] + "\n" + rest);
      assert ([line[1..]] + SplitNewlines(rest))[1..] == SplitNewlines(rest);
      assert [line[0]] + line[1..] == line;
    }
  }

  lemma {:induction false} SplitJoin(lines: seq<string>)
    requires lines != [] && OneLineEach(lines)
    ensures SplitNewlines(JoinNewlines(lines)) == lines
    decreases |lines|
  {
    assert lines[0] in lines;
    if |lines| == 1 {
      SplitLine(lines[0]);
    } else {
      assert forall l :: l in lines[1..] ==> l in lines;
      SplitJoin(lines[1..]);
      SplitFirstLine(lines[0], JoinNewlines(lines[1..]));
    }
  }

  lemma {:induction false} SplitIsOneLineEach(source: string)
    ensures OneLineEach(SplitNewlines(source))
    decreases |source|
  {
    if source != "" {
      var rest := SplitNewlines(source[1..]);
      SplitIsOneLineEach(source[1..]);
      assert rest[0] in rest && forall l :: l in rest[1..] ==> l in rest;
    }
  }
}
