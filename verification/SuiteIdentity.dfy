/**
 Which contract-test suites share the text that testSuiteDigest hashes.

 A line is "dimension NUL id NUL assertion"; the lines are sorted and joined by line breaks.
 */
module SuiteIdentity {
  import opened TextLines
  import opened SuiteDigest

  // ----- the dimensions -----

  predicate IsDimension(d: string) {
    d == "fault" || d == "egress" || d == "deny" || d == "bound" || d == "subst"
  }

  lemma {:induction false} EntriesOfDimension(dimension: string, obligations: seq<Obligation>)
    ensures forall e :: e in EntriesOf(dimension, obligations) ==> e.dimension == dimension
  {
    if obligations != [] {
      EntriesOfDimension(dimension, obligations[1..]);
    }
  }

  lemma EntriesDimension(suite: Suite)
    ensures forall e :: e in Entries(suite) ==> IsDimension(e.dimension)
  {
    EntriesOfDimension("fault", suite.faultInjection);
    EntriesOfDimension("egress", suite.effectEgress);
    EntriesOfDimension("deny", suite.capabilityDenial);
    EntriesOfDimension("bound", suite.boundary);
    EntriesOfDimension("subst", suite.substrateViolation);
  }

  /** The suite that holds one obligation. */
  function SuiteOf(d: string, o: Obligation): Suite
    requires IsDimension(d)
  {
    if d == "fault" then Suite([o], [], [], [], [])
    else if d == "egress" then Suite([], [o], [], [], [])
    else if d == "deny" then Suite([], [], [o], [], [])
    else if d == "bound" then Suite([], [], [], [o], [])
    else Suite([], [], [], [], [o])
  }

  lemma SuiteOfEntry(d: string, o: Obligation)
    requires IsDimension(d)
    ensures Entries(SuiteOf(d, o)) == [Entry(d, o.id, o.assertion)]
    ensures PreImage(SuiteOf(d, o)) == Line(Entry(d, o.id, o.assertion))
  {
    var e := Entry(d, o.id, o.assertion);
    assert [o][1..] == [];
    assert EntriesOf(d, [o]) == [e];
    assert Entries(SuiteOf(d, o)) == [e];
    OneLineText(e);
  }

  lemma OneLineText(e: Entry)
    ensures JoinNewlines(Sorted(Lines([e]))) == Line(e)
  {
    assert [e][1..] == [] && [Line(e)][1..] == [];
    assert Lines([e]) == [Line(e)];
    assert Sorted([Line(e)]) == [Line(e)];
  }

  // ----- reading a line back -----

  /** Where the first `c` stands, or the text ends. */
  function FirstOf(c: char, s: string): nat {
    if s == "" || s[0] == c then 0 else 1 + FirstOf(c, s[1..])
  }

  lemma {:induction false} FirstOfEndsField(c: char, a: string, x: string)
    requires c !in a && (x == "" || x[0] == c)
    ensures FirstOf(c, a + x) == |a|
    decreases |a|
  {
    if a == "" {
      assert a + x == x;
    } else {
      FirstOfEndsField(c, a[1..], x);
      assert (a + x)[1..] == a[1..] + x;
      assert (a + x)[0] == a[0] && a[0] in a;
    }
  }

  /** A field ends at the first `c`, or where the text ends. */
  lemma FieldUnique(c: char, a: string, x: string, b: string, y: string)
    requires c !in a && c !in b && a + x == b + y
    requires (x == "" || x[0] == c) && (y == "" || y[0] == c)
    ensures a == b && x == y
  {
    FirstOfEndsField(c, a, x);
    FirstOfEndsField(c, b, y);
    assert a == (a + x)[..|a|] && b == (b + y)[..|b|];
    assert x == (a + x)[|a|..] && y == (b + y)[|b|..];
  }

  lemma FirstFieldUnique(a: string, x: string, b: string, y: string)
    requires '\0' !in a && '\0' !in b && a + "\0" + x == b + "\0" + y
    ensures a == b && x == y
  {
    var p, q := "\0" + x, "\0" + y;
    assert a + "\0" + x == a + p && b + "\0" + y == b + q;
    FieldUnique('\0', a, p, b, q);
    assert x == p[1..] && y == q[1..];
  }

  /** The first two NULs of a text end the dimension and the id. */
  lemma FieldsUnique(e: Entry, x: string, f: Entry, y: string)
    requires '\0' !in e.dimension && '\0' !in e.id && '\0' !in f.dimension && '\0' !in f.id
    requires Line(e) + x == Line(f) + y
    ensures e.dimension == f.dimension && e.id == f.id && e.assertion + x == f.assertion + y
  {
    var p, q := e.id + "\0" + (e.assertion + x), f.id + "\0" + (f.assertion + y);
    assert Line(e) + x == e.dimension + "\0" + p && Line(f) + y == f.dimension + "\0" + q;
    FirstFieldUnique(e.dimension, p, f.dimension, q);
    FirstFieldUnique(e.id, e.assertion + x, f.id, f.assertion + y);
  }

  // ----- suites whose separators stay separators -----

  /** No NUL in the id and no line break in the assertion. */
  predicate IsClean(e: Entry) {
    '\0' !in e.id && OneLine(e.assertion)
  }

  predicate AllClean(entries: seq<Entry>) {
    forall e :: e in entries ==> IsClean(e)
  }

  /** Clean, and of one of the dimensions. */
  predicate IsReadable(e: Entry) {
    IsClean(e) && IsDimension(e.dimension)
  }

  predicate AllReadable(entries: seq<Entry>) {
    forall e :: e in entries ==> IsReadable(e)
  }

  lemma DimensionHasNoNul(d: string)
    requires IsDimension(d)
    ensures '\0' !in d && d != ""
  {
  }

  /** What joining puts behind the first of some lines. */
  function Behind(lines: seq<string>): string
    requires lines != []
  {
    if |lines| == 1 then "" else "\n" + JoinNewlines(lines[1..])
  }

  lemma JoinFirst(lines: seq<string>)
    requires lines != []
    ensures JoinNewlines(lines) == lines[0] + Behind(lines)
  {
    if |lines| > 1 {
      assert lines[0] + "\n" + JoinNewlines(lines[1..]) == lines[0] + ("\n" + JoinNewlines(lines[1..]));
    } else {
      assert lines[0] + "" == lines[0];
    }
  }

  lemma LineUnique(e: Entry, x: string, f: Entry, y: string)
    requires IsReadable(e) && IsReadable(f) && Line(e) + x == Line(f) + y
    requires (x == "" || x[0] == '\n') && (y == "" || y[0] == '\n')
    ensures e == f && x == y
  {
    DimensionHasNoNul(e.dimension);
    DimensionHasNoNul(f.dimension);
    FieldsUnique(e, x, f, y);
    FieldUnique('\n', e.assertion, x, f.assertion, y);
  }

  lemma {:induction false} EveryLineHasEntry(entries: seq<Entry>, l: string) returns (e: Entry)
    requires l in Lines(entries)
    ensures e in entries && l == Line(e)
    decreases |entries|
  {
    if l == Line(entries[0]) {
      e := entries[0];
    } else {
      e := EveryLineHasEntry(entries[1..], l);
    }
  }

  /** Every string is the line of a readable entry. */
  ghost predicate ReadableLines(lines: seq<string>) {
    forall l :: l in lines ==> exists e :: IsReadable(e) && l == Line(e)
  }

  lemma FirstLineUnique(xs: seq<string>, ys: seq<string>)
    requires ReadableLines(xs) && ReadableLines(ys) && xs != [] && ys != [] && JoinNewlines(xs) == JoinNewlines(ys)
    ensures xs[0] == ys[0] && Behind(xs) == Behind(ys)
  {
    assert xs[0] in xs && ys[0] in ys;
    var e, f :| IsReadable(e) && xs[0] == Line(e) && IsReadable(f) && ys[0] == Line(f);
    JoinFirst(xs);
    JoinFirst(ys);
    LineUnique(e, Behind(xs), f, Behind(ys));
  }

  lemma BehindUnique(xs: seq<string>, ys: seq<string>)
    requires xs != [] && ys != [] && Behind(xs) == Behind(ys)
    ensures JoinNewlines(xs[1..]) == JoinNewlines(ys[1..]) && (|xs| == 1 <==> |ys| == 1)
  {
    assert |xs| > 1 ==> JoinNewlines(xs[1..]) == Behind(xs)[1..];
    assert |ys| > 1 ==> JoinNewlines(ys[1..]) == Behind(ys)[1..];
  }

  lemma {:induction false} JoinIsInjective(xs: seq<string>, ys: seq<string>)
    requires ReadableLines(xs) && ReadableLines(ys) && JoinNewlines(xs) == JoinNewlines(ys)
    ensures xs == ys
    decreases |xs|
  {
    if xs != [] && ys != [] {
      FirstLineUnique(xs, ys);
      BehindUnique(xs, ys);
      assert forall l :: l in xs[1..] ==> l in xs;
      assert forall l :: l in ys[1..] ==> l in ys;
      JoinIsInjective(xs[1..], ys[1..]);
      assert xs == [xs[0]] + xs[1..] && ys == [ys[0]] + ys[1..];
    } else if xs != [] {
      JoinNotEmpty(xs);
    } else if ys != [] {
      JoinNotEmpty(ys);
    }
  }

  lemma JoinNotEmpty(lines: seq<string>)
    requires ReadableLines(lines) && lines != []
    ensures JoinNewlines(lines) != ""
  {
    JoinFirst(lines);
    assert lines[0] in lines;
    var e :| IsReadable(e) && lines[0] == Line(e);
  }

  lemma {:induction false} LinesCount(entries: seq<Entry>, e: Entry)
    requires AllReadable(entries) && IsReadable(e)
    ensures multiset(Lines(entries))[Line(e)] == multiset(entries)[e]
    decreases |entries|
  {
    if entries != [] {
      assert entries[0] in entries && forall f :: f in entries[1..] ==> f in entries;
      LinesCount(entries[1..], e);
      HeadAndTail(entries);
      HeadAndTail(Lines(entries));
      assert Lines(entries)[1..] == Lines(entries[1..]);
      if Line(entries[0]) == Line(e) {
        LineUnique(entries[0], "", e, "");
      }
    }
  }

  lemma SameLinesSameEntries(a: seq<Entry>, b: seq<Entry>)
    requires AllReadable(a) && AllReadable(b)
    ensures multiset(Lines(a)) == multiset(Lines(b)) <==> multiset(a) == multiset(b)
  {
    if multiset(Lines(a)) == multiset(Lines(b)) {
      forall e ensures multiset(a)[e] == multiset(b)[e] {
        if IsReadable(e) {
          LinesCount(a, e);
          LinesCount(b, e);
        } else {
          assert e !in a && e !in b;
        }
      }
    }
    if multiset(a) == multiset(b) {
      forall l ensures multiset(Lines(a))[l] == multiset(Lines(b))[l] {
        if l in Lines(a) || l in Lines(b) {
          var e := EveryLineHasEntry(if l in Lines(a) then a else b, l);
          LinesCount(a, e);
          LinesCount(b, e);
        }
      }
    }
  }

  lemma SortedReadable(entries: seq<Entry>)
    requires AllReadable(entries)
    ensures ReadableLines(Sorted(Lines(entries)))
  {
    SortedIsSorted(Lines(entries));
    forall l | l in Sorted(Lines(entries)) ensures exists e :: IsReadable(e) && l == Line(e) {
      assert l in multiset(Sorted(Lines(entries)));
      var e := EveryLineHasEntry(entries, l);
    }
  }

  /**
   The hashed texts of two suites whose ids hold no NUL and whose assertions hold no line break are
   equal if and only if the suites hold the same obligations, each as often, under the same
   dimensions; their order never matters.
   */
  lemma SamePreImageIffSameObligations(s: Suite, t: Suite)
    requires AllClean(Entries(s)) && AllClean(Entries(t))
    ensures PreImage(s) == PreImage(t) <==> multiset(Entries(s)) == multiset(Entries(t))
  {
    EntriesDimension(s);
    EntriesDimension(t);
    SortForgetsOnlyOrder(Lines(Entries(s)), Lines(Entries(t)));
    SameLinesSameEntries(Entries(s), Entries(t));
    if PreImage(s) == PreImage(t) {
      SortedReadable(Entries(s));
      SortedReadable(Entries(t));
      JoinIsInjective(Sorted(Lines(Entries(s))), Sorted(Lines(Entries(t))));
    }
  }

  // ----- suites that the text identifies among all suites -----

  /** No other obligations have the same text. */
  ghost predicate Identified(s: Suite) {
    forall t :: PreImage(t) == PreImage(s) ==> multiset(Entries(t)) == multiset(Entries(s))
  }

  predicate HasNul(e: Entry) {
    '\0' in e.id || '\0' in e.assertion
  }

  function Nuls(s: string): nat {
    if s == "" then 0 else (if s[0] == '\0' then 1 else 0) + Nuls(s[1..])
  }

  lemma {:induction false} NulsConcat(a: string, b: string)
    ensures Nuls(a + b) == Nuls(a) + Nuls(b)
    decreases |a|
  {
    if a == "" {
      assert a + b == b;
    } else {
      NulsConcat(a[1..], b);
      assert (a + b)[1..] == a[1..] + b;
    }
  }

  lemma {:induction false} NoNuls(s: string)
    ensures Nuls(s) == 0 <==> '\0' !in s
  {
    if s != "" {
      NoNuls(s[1..]);
      assert s == [s[0]] + s[1..];
    }
  }

  lemma NulsOfLine(e: Entry)
    ensures Nuls(Line(e)) == Nuls(e.dimension) + Nuls(e.id) + Nuls(e.assertion) + 2
  {
    var nul := "\0";
    assert nul[1..] == "";
    assert Nuls(nul) == 1;
    NulsConcat(e.dimension, nul);
    NulsConcat(e.dimension + nul, e.id);
    NulsConcat(e.dimension + nul + e.id, nul);
    NulsConcat(e.dimension + nul + e.id + nul, e.assertion);
  }

  /** Joining keeps every NUL. */
  lemma {:induction false} NulsOfJoin(lines: seq<string>)
    requires forall l :: l in lines ==> Nuls(l) >= 2
    ensures Nuls(JoinNewlines(lines)) >= 2 * |lines|
    decreases |lines|
  {
    if lines != [] {
      assert lines[0] in lines;
      JoinFirst(lines);
      NulsConcat(lines[0], Behind(lines));
      if |lines| > 1 {
        NulsConcat("\n", JoinNewlines(lines[1..]));
        assert forall l :: l in lines[1..] ==> l in lines;
        NulsOfJoin(lines[1..]);
      }
    }
  }

  lemma {:induction false} LinesLength(entries: seq<Entry>)
    ensures |Lines(entries)| == |entries|
  {
    if entries != [] {
      LinesLength(entries[1..]);
    }
  }

  /** Two NULs for every obligation. */
  lemma NulsOfPreImage(s: Suite)
    ensures Nuls(PreImage(s)) >= 2 * |Entries(s)|
    ensures |Sorted(Lines(Entries(s)))| == |Entries(s)|
  {
    var entries := Entries(s);
    var lines := Sorted(Lines(entries));
    LinesLength(entries);
    SortedIsSorted(Lines(entries));
    assert |multiset(lines)| == |lines| && |multiset(Lines(entries))| == |Lines(entries)|;
    forall l | l in lines ensures Nuls(l) >= 2 {
      assert l in multiset(lines);
      var e := EveryLineHasEntry(entries, l);
      NulsOfLine(e);
    }
    NulsOfJoin(lines);
  }

  lemma PreImageOfOne(s: Suite)
    requires |Entries(s)| == 1
    ensures PreImage(s) == Line(Entries(s)[0]) && IsDimension(Entries(s)[0].dimension)
  {
    EntriesDimension(s);
    assert Entries(s) == [Entries(s)[0]];
    OneLineText(Entries(s)[0]);
  }

  lemma NoNulLineUnique(e: Entry, f: Entry)
    requires IsDimension(e.dimension) && IsDimension(f.dimension) && !HasNul(e) && Line(e) == Line(f)
    ensures e == f
  {
    NulsOfLine(e);
    NulsOfLine(f);
    DimensionHasNoNul(e.dimension);
    DimensionHasNoNul(f.dimension);
    NoNuls(e.dimension);
    NoNuls(f.dimension);
    NoNuls(e.id);
    NoNuls(f.id);
    NoNuls(e.assertion);
    assert Line(e) + "" == Line(f) + "";
    FieldsUnique(e, "", f, "");
    assert e.assertion == e.assertion + "" && f.assertion == f.assertion + "";
  }

  lemma EmptyPreImage(s: Suite)
    ensures Entries(s) == [] ==> PreImage(s) == ""
  {
  }

  lemma NoNulIsIdentified(s: Suite, t: Suite)
    requires |Entries(s)| == 1 && !HasNul(Entries(s)[0]) && PreImage(t) == PreImage(s)
    ensures Entries(t) == Entries(s)
  {
    var e := Entries(s)[0];
    PreImageOfOne(s);
    NulsOfLine(e);
    DimensionHasNoNul(e.dimension);
    NoNuls(e.dimension);
    NoNuls(e.id);
    NoNuls(e.assertion);
    NulsOfPreImage(t);
    EmptyPreImage(t);
    assert |Entries(t)| == 1;
    PreImageOfOne(t);
    NoNulLineUnique(e, Entries(t)[0]);
  }

  lemma EmptyIsIdentified(s: Suite, t: Suite)
    requires Entries(s) == [] && PreImage(t) == PreImage(s)
    ensures Entries(t) == []
  {
    NulsOfPreImage(t);
    EmptyPreImage(s);
  }

  /** All obligations of a suite read as one: the text behind the first line becomes its assertion. */
  lemma ObligationsMerge(s: Suite) returns (t: Suite)
    requires |Entries(s)| >= 2
    ensures PreImage(t) == PreImage(s) && |Entries(t)| == 1
  {
    var entries := Entries(s);
    var lines := Sorted(Lines(entries));
    NulsOfPreImage(s);
    SortedIsSorted(Lines(entries));
    assert lines[0] in multiset(lines);
    var e := EveryLineHasEntry(entries, lines[0]);
    EntriesDimension(s);
    var o := Obligation(e.id, e.assertion + Behind(lines));
    t := SuiteOf(e.dimension, o);
    SuiteOfEntry(e.dimension, o);
    JoinFirst(lines);
    LineOfLonger(e, Behind(lines));
  }

  lemma LineOfLonger(e: Entry, x: string)
    ensures Line(Entry(e.dimension, e.id, e.assertion + x)) == Line(e) + x
  {
  }

  /** A NUL inside the only obligation can be read as the one that ends its id. */
  lemma BoundaryMoves(s: Suite) returns (t: Suite)
    requires |Entries(s)| == 1 && HasNul(Entries(s)[0])
    ensures PreImage(t) == PreImage(s) && multiset(Entries(t)) != multiset(Entries(s))
  {
    var e := Entries(s)[0];
    PreImageOfOne(s);
    var o := OtherReading(e);
    t := SuiteOf(e.dimension, o);
    SuiteOfEntry(e.dimension, o);
    assert e in multiset(Entries(s));
    assert e !in multiset(Entries(t));
  }

  lemma OtherReading(e: Entry) returns (o: Obligation)
    requires HasNul(e)
    ensures o.id != e.id && Line(Entry(e.dimension, o.id, o.assertion)) == Line(e)
  {
    if '\0' in e.id {
      var k :| 0 <= k < |e.id| && e.id[k] == '\0';
      o := Obligation(e.id[..k], e.id[k + 1..] + "\0" + e.assertion);
      assert e.id == e.id[..k] + "\0" + e.id[k + 1..];
      assert Line(Entry(e.dimension, o.id, o.assertion)) == Line(e);
    } else {
      var k :| 0 <= k < |e.assertion| && e.assertion[k] == '\0';
      o := Obligation(e.id + "\0" + e.assertion[..k], e.assertion[k + 1..]);
      assert e.assertion == e.assertion[..k] + "\0" + e.assertion[k + 1..];
      assert Line(Entry(e.dimension, o.id, o.assertion)) == Line(e);
    }
  }

  /**
   The text identifies the obligations of a suite among all suites if and only if there are none, or
   exactly one without a NUL in its id and its assertion.
   */
  lemma IdentifiedIff(s: Suite)
    ensures Identified(s) <==> (|Entries(s)| == 0 || (|Entries(s)| == 1 && !HasNul(Entries(s)[0])))
  {
    if |Entries(s)| == 0 {
      forall t | PreImage(t) == PreImage(s) ensures multiset(Entries(t)) == multiset(Entries(s)) {
        EmptyIsIdentified(s, t);
      }
    } else if |Entries(s)| == 1 && !HasNul(Entries(s)[0]) {
      forall t | PreImage(t) == PreImage(s) ensures multiset(Entries(t)) == multiset(Entries(s)) {
        NoNulIsIdentified(s, t);
      }
    } else if |Entries(s)| == 1 {
      var t := BoundaryMoves(s);
    } else {
      var t := ObligationsMerge(s);
      assert |multiset(Entries(t))| == 1 && |multiset(Entries(s))| >= 2;
    }
  }
}
