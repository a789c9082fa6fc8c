/**
 Applying machine-made edits to a source text (fix-edit.ts).

 The program sorts the edits from the end of the text to its start, drops the ones that do not fit
 or overlap, and splices the rest in one after the other. What that amounts to is in EditSubstitution.
 */
module FixEdits {
  import opened Options
  import opened Collections

  // ----- lines and their terminators -----

  datatype Split = Split(lines: seq<string>, seps: seq<string>)

  function FirstNewline(s: string): (i: nat)
    ensures i <= |s| && (i < |s| ==> s[i] == '\n')
  {
    if s == "" || s[0] == '\n' then 0 else 1 + FirstNewline(s[1..])
  }

  /** source.split(/(\r?\n)/), with lines and terminators told apart. */
  function SplitLines(s: string): (r: Split)
    ensures |r.lines| == |r.seps| + 1
    decreases |s|
  {
    var i := FirstNewline(s);
    if i == |s| then Split([s], [])
    else
      var j := if i > 0 && s[i - 1] == '\r' then i - 1 else i;
      var rest := SplitLines(s[i + 1..]);
      Split([s[..j]] + rest.lines, [s[j..i + 1]] + rest.seps)
  }

  function JoinLines(lines: seq<string>, seps: seq<string>): string
    requires |lines| == |seps| + 1
  {
    if seps == [] then lines[0] else lines[0] + seps[0] + JoinLines(lines[1..], seps[1..])
  }

  /** Splitting loses nothing: rejoining gives the source back, terminators included. */
  lemma {:induction false} JoinSplit(s: string)
    ensures JoinLines(SplitLines(s).lines, SplitLines(s).seps) == s
    decreases |s|
  {
    var i := FirstNewline(s);
    if i < |s| {
      var j := if i > 0 && s[i - 1] == '\r' then i - 1 else i;
      JoinSplit(s[i + 1..]);
      JoinCons(s[..j], s[j..i + 1], SplitLines(s[i + 1..]));
      ThreePieces(s, j, i + 1);
    }
  }

  lemma JoinCons(line: string, sep: string, rest: Split)
    requires |rest.lines| == |rest.seps| + 1
    ensures JoinLines([line] + rest.lines, [sep] + rest.seps) == line + sep + JoinLines(rest.lines, rest.seps)
  {
    assert ([line] + rest.lines)[1..] == rest.lines && ([sep] + rest.seps)[1..] == rest.seps;
  }

  lemma ThreePieces(s: string, j: nat, k: nat)
    requires j <= k <= |s|
    ensures s[..j] + s[j..k] + s[k..] == s
  {
  }

  // ----- edits -----

  /** Replaces columns [column, endColumn) of a line, both 1-based. */
  datatype FixEdit = FixEdit(line: int, column: int, endColumn: int, replacement: string)

  predicate Overlaps(a: FixEdit, b: FixEdit) {
    a.line == b.line && a.column < b.endColumn && b.column < a.endColumn
  }

  /** Strictly later in the text: sorted to the front. */
  predicate Later(a: FixEdit, b: FixEdit) {
    a.line > b.line || (a.line == b.line && a.column > b.column)
  }

  /** The sort of the source is stable: `e` passes only what is strictly later. */
  function InsertSorted(e: FixEdit, sorted: seq<FixEdit>): seq<FixEdit> {
    if sorted != [] && Later(sorted[0], e) then [sorted[0]] + InsertSorted(e, sorted[1..]) else [e] + sorted
  }

  function SortDescending(edits: seq<FixEdit>): seq<FixEdit> {
    if edits == [] then [] else InsertSorted(edits[0], SortDescending(edits[1..]))
  }

  predicate Fits(e: FixEdit, lines: seq<string>) {
    0 <= e.line - 1 < |lines| && e.column >= 1 && e.endColumn >= e.column && e.endColumn - 1 <= |lines[e.line - 1]|
  }

  predicate Accepts(valid: seq<FixEdit>, e: FixEdit, lines: seq<string>) {
    Fits(e, lines) && !exists v :: v in valid && Overlaps(v, e)
  }

  /** The edits kept out of `sorted`, `valid` having been kept before. */
  function Accepted(sorted: seq<FixEdit>, valid: seq<FixEdit>, lines: seq<string>): seq<FixEdit>
    decreases |sorted|
  {
    if sorted == [] then valid
    else Accepted(sorted[1..], if Accepts(valid, sorted[0], lines) then valid + [sorted[0]] else valid, lines)
  }

  function AcceptedEdits(edits: seq<FixEdit>, lines: seq<string>): seq<FixEdit> {
    Accepted(SortDescending(edits), [], lines)
  }

  // ----- splicing one after the other -----

  // String.slice answers up to the end of the text when asked for more.

  function Take(text: string, n: nat): string {
    if n <= |text| then text[..n] else text
  }

  function Drop(text: string, n: nat): string {
    if n <= |text| then text[n..] else ""
  }

  function Splice(text: string, e: FixEdit): string
    requires 1 <= e.column <= e.endColumn
  {
    Take(text, e.column - 1) + e.replacement + Drop(text, e.endColumn - 1)
  }

  /** The edit names one of `n` lines and a span of columns. */
  predicate Placed(e: FixEdit, n: nat) {
    0 <= e.line - 1 < n && 1 <= e.column <= e.endColumn
  }

  function SpliceOne(lines: seq<string>, e: FixEdit): (r: seq<string>)
    requires Placed(e, |lines|)
    ensures |r| == |lines|
  {
    lines[e.line - 1 := Splice(lines[e.line - 1], e)]
  }

  ghost predicate AllPlaced(edits: seq<FixEdit>, n: nat) {
    forall i :: 0 <= i < |edits| ==> Placed(edits[i], n)
  }

  /** The lines after splicing in the edits from index `k` on. */
  function SpliceFrom(lines: seq<string>, edits: seq<FixEdit>, k: nat): (r: seq<string>)
    requires k <= |edits| && AllPlaced(edits, |lines|)
    ensures |r| == |lines|
    decreases |edits| - k
  {
    if k == |edits| then lines else SpliceFrom(SpliceOne(lines, edits[k]), edits, k + 1)
  }

  /** The lines with the accepted edits spliced in. */
  function AppliedLines(lines: seq<string>, edits: seq<FixEdit>): (r: seq<string>)
    ensures |r| == |lines|
  {
    AcceptedPlaced(SortDescending(edits), lines);
    SpliceFrom(lines, AcceptedEdits(edits, lines), 0)
  }

  datatype Outcome = Outcome(result: string, applied: nat, skipped: nat)

  function Applied(source: string, edits: seq<FixEdit>): Outcome {
    var split := SplitLines(source);
    var valid := AcceptedEdits(edits, split.lines);
    AcceptedCount(SortDescending(edits), [], split.lines);
    SortKeepsLength(edits);
    Outcome(JoinLines(AppliedLines(split.lines, edits), split.seps), |valid|, |edits| - |valid|)
  }

  lemma {:induction false} AcceptedFit(sorted: seq<FixEdit>, valid: seq<FixEdit>, lines: seq<string>)
    requires forall e :: e in valid ==> Fits(e, lines)
    ensures forall e :: e in Accepted(sorted, valid, lines) ==> Fits(e, lines)
    decreases |sorted|
  {
    if sorted != [] {
      AcceptedFit(sorted[1..], if Accepts(valid, sorted[0], lines) then valid + [sorted[0]] else valid, lines);
    }
  }

  lemma AcceptedPlaced(sorted: seq<FixEdit>, lines: seq<string>)
    ensures AllPlaced(Accepted(sorted, [], lines), |lines|)
  {
    AcceptedFit(sorted, [], lines);
    var valid := Accepted(sorted, [], lines);
    forall i | 0 <= i < |valid| ensures Placed(valid[i], |lines|) {
      assert Fits(valid[i], lines);
    }
  }

  lemma {:induction false} AcceptedCount(sorted: seq<FixEdit>, valid: seq<FixEdit>, lines: seq<string>)
    ensures |Accepted(sorted, valid, lines)| <= |sorted| + |valid|
    decreases |sorted|
  {
    if sorted != [] {
      AcceptedCount(sorted[1..], if Accepts(valid, sorted[0], lines) then valid + [sorted[0]] else valid, lines);
    }
  }

  lemma {:induction false} InsertKeepsLength(e: FixEdit, sorted: seq<FixEdit>)
    ensures |InsertSorted(e, sorted)| == |sorted| + 1
    ensures multiset(InsertSorted(e, sorted)) == multiset(sorted) + multiset{e}
  {
    if sorted != [] && Later(sorted[0], e) {
      InsertKeepsLength(e, sorted[1..]);
      assert sorted == [sorted[0]] + sorted[1..];
    }
  }

  lemma {:induction false} SortKeepsLength(edits: seq<FixEdit>)
    ensures |SortDescending(edits)| == |edits|
    ensures multiset(SortDescending(edits)) == multiset(edits)
  {
    if edits != [] {
      SortKeepsLength(edits[1..]);
      InsertKeepsLength(edits[0], SortDescending(edits[1..]));
      assert edits == [edits[0]] + edits[1..];
    }
  }

  // ----- the program -----

  method ApplyFixEdits(source: string, edits: seq<FixEdit>) returns (r: Outcome)
    ensures r == Applied(source, edits)
    ensures r.applied + r.skipped == |edits|
  {
    var split := SplitLines(source);
    SortKeepsLength(edits);
    if edits == [] {
      JoinSplit(source);
      return Outcome(source, 0, 0);
    }
    var lineText, sorted := split.lines, SortDescending(edits);
    var valid, skipped, i := [], 0, 0;
    while i < |sorted|
      invariant 0 <= i <= |sorted|
      invariant |valid| + skipped == i
      invariant Accepted(sorted[i..], valid, lineText) == Accepted(sorted, [], lineText)
    {
      var e := sorted[i];
      assert sorted[i..][1..] == sorted[i + 1..];
      if Fits(e, lineText) && !exists v :: v in valid && Overlaps(v, e) {
        valid := valid + [e];
      } else {
        skipped := skipped + 1;
      }
      i := i + 1;
    }
    assert valid == Accepted(sorted, [], lineText);
    AcceptedPlaced(sorted, lineText);
    lineText := SpliceEach(lineText, valid);
    var out := Rejoin(lineText, split.seps);
    r := Outcome(out, |valid|, skipped);
  }

  method SpliceEach(lines: seq<string>, valid: seq<FixEdit>) returns (lineText: seq<string>)
    requires AllPlaced(valid, |lines|)
    ensures lineText == SpliceFrom(lines, valid, 0)
  {
    lineText := lines;
    var applied := 0;
    while applied < |valid|
      invariant 0 <= applied <= |valid| && |lineText| == |lines|
      invariant SpliceFrom(lineText, valid, applied) == SpliceFrom(lines, valid, 0)
    {
      var e := valid[applied];
      lineText := SpliceOne(lineText, e);
      applied := applied + 1;
    }
  }

  lemma JoinStep(lines: seq<string>, seps: seq<string>, i: nat, out: string)
    requires |lines| == |seps| + 1 && i < |seps|
    ensures out + JoinLines(lines[i..], seps[i..])
         == out + lines[i] + seps[i] + JoinLines(lines[i + 1..], seps[i + 1..])
  {
    var rest := JoinLines(lines[i + 1..], seps[i + 1..]);
    assert lines[i..][1..] == lines[i + 1..] && seps[i..][1..] == seps[i + 1..];
    Assoc(out, lines[i] + seps[i], rest);
    Assoc(out, lines[i], seps[i]);
  }

  method Rejoin(lines: seq<string>, seps: seq<string>) returns (out: string)
    requires |lines| == |seps| + 1
    ensures out == JoinLines(lines, seps)
  {
    out := "";
    var i := 0;
    while i < |seps|
      invariant 0 <= i <= |seps|
      invariant out + JoinLines(lines[i..], seps[i..]) == JoinLines(lines, seps)
    {
      JoinStep(lines, seps, i, out);
      out := out + lines[i] + seps[i];
      i := i + 1;
    }
    out := out + lines[i];
  }

  // ----- accepting the result -----

  datatype AutoFixOutcome = AutoFixOutcome(fixedSource: string, applied: nat, skipped: nat, accepted: bool)

  /** `recheck` counts the errors of a candidate, or throws (None). */
  method ComputeAutoFix(source: string, edits: seq<FixEdit>, originalErrorCount: int, recheck: string -> Option<int>)
    returns (r: AutoFixOutcome)
    ensures r.accepted <==>
              && Applied(source, edits).applied > 0
              && recheck(Applied(source, edits).result).Some?
              && recheck(Applied(source, edits).result).value <= originalErrorCount
    ensures r.fixedSource == if r.accepted then Applied(source, edits).result else source
    ensures r.applied == Applied(source, edits).applied && r.applied + r.skipped == |edits|
  {
    if edits == [] {
      return AutoFixOutcome(source, 0, 0, false);
    }
    var fix := ApplyFixEdits(source, edits);
    if fix.applied == 0 {
      return AutoFixOutcome(source, 0, fix.skipped, false);
    }
    var count := recheck(fix.result);
    var accepted := count.Some? && count.value <= originalErrorCount;
    r := AutoFixOutcome(if accepted then fix.result else source, fix.applied, fix.skipped, accepted);
  }
}
