/**
 Keeping the generated `//fungi:` comment block above each flow current
 (flow-dependency-analysis.ts).

 The program scans the lines from the last to the first and splices each known flow's fresh block
 over the old one. `Rewritten` is the reference: one pass that looks only ahead.
 */
module GeneratedComments {
  import opened JsText
  import opened DecimalText
  import opened Options
  import opened TextLines
  import opened Collections

  // ----- what a line is -----

  function AfterQualifier(s: string): string {
    if AfterWord("pure", s).Some? then AfterWord("pure", s).value
    else if AfterWord("secure", s).Some? then AfterWord("secure", s).value
    else if AfterWord("guarded", s).Some? then AfterWord("guarded", s).value
    else s
  }

  function Indent(line: string): string {
    line[..SpaceRun(line)]
  }

  /** The name a flow declaration on this line declares. */
  function FlowName(line: string): Option<string> {
    var rest :- AfterWord("flow", AfterQualifier(line[SpaceRun(line)..]));
    var n := WordRun(rest);
    if n > 0 then Some(rest[..n]) else None
  }

  const MARKER := "//fungi:"

  predicate IsGenerated(line: string) {
    MARKER <= line[SpaceRun(line)..]
  }

  lemma GeneratedIsNoFlow(line: string)
    requires IsGenerated(line)
    ensures FlowName(line).None?
  {
    var s := line[SpaceRun(line)..];
    assert s[0] == '/';
  }

  // ----- the reference -----

  /** Fresh comment lines by flow name. */
  type Blocks = map<string, seq<string>>

  function Indented(indent: string, block: seq<string>): (r: seq<string>)
    ensures |r| == |block|
  {
    if block == [] then [] else [indent + block[0]] + Indented(indent, block[1..])
  }

  /** What belongs directly above a line: something only for a flow that has fresh comment lines. */
  type Renewal = string -> Option<seq<string>>

  function RenewalFrom(blocks: Blocks): Renewal {
    line =>
      var name := FlowName(line);
      if name.Some? && name.value in blocks then Some(Indented(Indent(line), blocks[name.value])) else None
  }

  predicate Known(line: string, renew: Renewal) {
    renew(line).Some?
  }

  function Block(line: string, renew: Renewal): seq<string>
    requires Known(line, renew)
  {
    renew(line).value
  }

  predicate AllGenerated(lines: seq<string>) {
    forall l :: l in lines ==> IsGenerated(l)
  }

  /** Only generated lines are put above a flow, and no flow is itself a generated line. */
  ghost predicate Marked(renew: Renewal) {
    forall line :: Known(line, renew) ==> !IsGenerated(line) && AllGenerated(Block(line, renew))
  }

  /** The text begins with a known flow, generated lines directly above it allowed. */
  predicate OnFlow(lines: seq<string>, renew: Renewal) {
    lines != [] && (Known(lines[0], renew) || (IsGenerated(lines[0]) && OnFlow(lines[1..], renew)))
  }

  /** The first line is in a run of generated lines directly above a known flow. */
  predicate Stale(lines: seq<string>, renew: Renewal)
    requires lines != []
  {
    IsGenerated(lines[0]) && OnFlow(lines[1..], renew)
  }

  /** What the first line becomes. */
  function Emitted(lines: seq<string>, renew: Renewal): seq<string>
    requires lines != []
  {
    if Stale(lines, renew) then []
    else if Known(lines[0], renew) then Block(lines[0], renew) + [lines[0]]
    else [lines[0]]
  }

  function Rewritten(lines: seq<string>, renew: Renewal): seq<string> {
    if lines == [] then [] else Emitted(lines, renew) + Rewritten(lines[1..], renew)
  }

  lemma RewrittenStep(lines: seq<string>, renew: Renewal)
    requires lines != []
    ensures var rest := Rewritten(lines[1..], renew);
            Rewritten(lines, renew)
            == if Stale(lines, renew) then rest
               else if Known(lines[0], renew) then Block(lines[0], renew) + [lines[0]] + rest
               else [lines[0]] + rest
  {
  }

  lemma HeadFirst<T>(a: seq<T>, b: seq<T>)
    requires a != []
    ensures a + b == [a[0]] + (a[1..] + b)
  {
  }

  // ----- the loop -----

  lemma StaleAt(lines: seq<string>, i: nat, renew: Renewal)
    requires 0 < i < |lines|
    ensures Stale(lines[i - 1..], renew)
       <==> IsGenerated(lines[i - 1]) && (Known(lines[i], renew) || Stale(lines[i..], renew))
  {
    assert lines[i - 1..][1..] == lines[i..];
  }

  lemma DroppedAt(lines: seq<string>, i: nat, renew: Renewal)
    requires i < |lines| && Stale(lines[i..], renew)
    ensures Rewritten(lines[i..], renew) == Rewritten(lines[i + 1..], renew)
  {
    assert lines[i..][1..] == lines[i + 1..];
  }

  /** A run of generated lines directly above a known flow is dropped whole. */
  lemma {:induction false} RunIsStale(lines: seq<string>, start: nat, i: nat, renew: Renewal)
    requires start <= i < |lines| && Known(lines[i], renew)
    requires forall k :: start <= k < i ==> IsGenerated(lines[k])
    ensures start < i ==> Stale(lines[start..], renew)
    ensures Rewritten(lines[start..], renew) == Rewritten(lines[i..], renew)
    decreases i - start
  {
    if start < i {
      RunIsStale(lines, start + 1, i, renew);
      StaleAt(lines, start + 1, renew);
      DroppedAt(lines, start, renew);
    }
  }

  lemma KeptAt(lines: seq<string>, i: nat, renew: Renewal)
    requires i < |lines| && !Stale(lines[i..], renew) && !Known(lines[i], renew)
    ensures Rewritten(lines[i..], renew) == [lines[i]] + Rewritten(lines[i + 1..], renew)
  {
    assert lines[i..][1..] == lines[i + 1..];
  }

  lemma RefreshedAt(lines: seq<string>, i: nat, renew: Renewal)
    requires i < |lines| && !Stale(lines[i..], renew) && Known(lines[i], renew)
    ensures Rewritten(lines[i..], renew)
         == Block(lines[i], renew) + [lines[i]] + Rewritten(lines[i + 1..], renew)
  {
    assert lines[i..][1..] == lines[i + 1..];
  }

  lemma AboveRun(lines: seq<string>, start: nat, i: nat, renew: Renewal)
    requires start <= i < |lines| && (start > 0 ==> !IsGenerated(lines[start - 1]))
    ensures start > 0 ==> !Stale(lines[start - 1..], renew)
  {
    if start > 0 {
      StaleAt(lines, start, renew);
    }
  }

  /** Splicing at [start, i) in terms of the untouched text above and the finished text below. */
  lemma SplicedPieces(source: seq<string>, lines: seq<string>, start: nat, i: nat, done: seq<string>,
                      block: seq<string>, more: seq<string>)
    requires start <= i < |source| && lines == source[..i + 1] + done
    requires more == block + [source[i]] + done
    ensures lines[..start] + block + lines[i..] == source[..start] + more
  {
    assert lines[..start] == source[..start];
    assert lines[i..] == [source[i]] + done;
  }

  lemma PassedPieces(source: seq<string>, lines: seq<string>, i: nat, done: seq<string>, more: seq<string>)
    requires i < |source| && lines == source[..i + 1] + done && more == [source[i]] + done
    ensures lines == source[..i] + more
  {
    assert source[..i + 1] == source[..i] + [source[i]];
  }

  /** A known flow at `i`: its block spliced over the run of generated lines from `start` on. */
  lemma RefreshedStep(source: seq<string>, lines: seq<string>, start: nat, i: nat, done: seq<string>, renew: Renewal)
    requires start <= i < |source| && lines == source[..i + 1] + done && done == Rewritten(source[i + 1..], renew)
    requires !Stale(source[i..], renew) && Known(source[i], renew)
    requires forall k :: start <= k < i ==> IsGenerated(lines[k])
    requires start > 0 ==> !IsGenerated(lines[start - 1])
    ensures lines[..start] + Block(source[i], renew) + lines[i..] == source[..start] + Rewritten(source[start..], renew)
    ensures start > 0 ==> !Stale(source[start - 1..], renew)
  {
    assert forall k :: 0 <= k <= i ==> lines[k] == source[k];
    RefreshedAt(source, i, renew);
    RunIsStale(source, start, i, renew);
    AboveRun(source, start, i, renew);
    SplicedPieces(source, lines, start, i, done, Block(source[i], renew), Rewritten(source[start..], renew));
  }

  /** Any other line at `i` stays. */
  lemma PassedStep(source: seq<string>, lines: seq<string>, i: nat, done: seq<string>, renew: Renewal)
    requires i < |source| && lines == source[..i + 1] + done && done == Rewritten(source[i + 1..], renew)
    requires !Stale(source[i..], renew) && !Known(source[i], renew)
    ensures lines == source[..i] + Rewritten(source[i..], renew)
    ensures i > 0 ==> !Stale(source[i - 1..], renew)
  {
    KeptAt(source, i, renew);
    if i > 0 {
      StaleAt(source, i, renew);
    }
    PassedPieces(source, lines, i, done, Rewritten(source[i..], renew));
  }

  /** Where the run of generated lines directly above line `i` begins. */
  method RunStart(lines: seq<string>, i: nat) returns (start: nat)
    requires i < |lines|
    ensures start <= i && forall k :: start <= k < i ==> IsGenerated(lines[k])
    ensures start > 0 ==> !IsGenerated(lines[start - 1])
  {
    start := i;
    while start > 0 && IsGenerated(lines[start - 1])
      invariant 0 <= start <= i && forall k :: start <= k < i ==> IsGenerated(lines[k])
    {
      start := start - 1;
    }
  }

  /** rewriteGeneratedComments, on lines: those before `i` are still to be looked at. */
  method RewriteLines(source: seq<string>, blocks: Blocks) returns (lines: seq<string>)
    ensures lines == Rewritten(source, RenewalFrom(blocks))
  {
    ghost var renew := RenewalFrom(blocks);
    lines := source;
    ghost var done: seq<string> := [];
    var i := |source|;
    while i > 0
      invariant 0 <= i <= |source|
      invariant lines == source[..i] + done && done == Rewritten(source[i..], renew)
      invariant i > 0 ==> !Stale(source[i - 1..], renew)
    {
      i := i - 1;
      var line := lines[i];
      assert line == source[i];
      var name := FlowName(line);
      if name.Some? && name.value in blocks {
        var start := RunStart(lines, i);
        ghost var more := Rewritten(source[start..], renew);
        RefreshedStep(source, lines, start, i, done, renew);
        lines := lines[..start] + Indented(Indent(line), blocks[name.value]) + lines[i..];
        done := more;
        i := start;
      } else {
        PassedStep(source, lines, i, done, renew);
        done := Rewritten(source[i..], renew);
      }
    }
    assert source[0..] == source;
  }

  // ----- what a rewrite keeps -----

  /** The text without the blocks that a rewrite replaces. */
  function Stripped(lines: seq<string>, renew: Renewal): seq<string> {
    if lines == [] then []
    else if Stale(lines, renew) then Stripped(lines[1..], renew)
    else [lines[0]] + Stripped(lines[1..], renew)
  }

  /** Everything but `//fungi:` lines. */
  function Authored(lines: seq<string>): seq<string> {
    if lines == [] then []
    else if IsGenerated(lines[0]) then Authored(lines[1..])
    else [lines[0]] + Authored(lines[1..])
  }

  lemma OnFlowCons(line: string, rest: seq<string>, renew: Renewal)
    ensures OnFlow([line] + rest, renew) == (Known(line, renew) || (IsGenerated(line) && OnFlow(rest, renew)))
    ensures Stripped([line] + rest, renew)
         == if IsGenerated(line) && OnFlow(rest, renew) then Stripped(rest, renew)
            else [line] + Stripped(rest, renew)
  {
    assert ([line] + rest)[1..] == rest;
  }

  lemma {:induction false} BlockOnFlow(block: seq<string>, rest: seq<string>, renew: Renewal)
    requires AllGenerated(block) && rest != [] && Known(rest[0], renew)
    ensures OnFlow(block + rest, renew) && Stripped(block + rest, renew) == Stripped(rest, renew)
    decreases |block|
  {
    if block == [] {
      assert block + rest == rest;
    } else {
      assert block[0] in block;
      BlockOnFlow(block[1..], rest, renew);
      OnFlowCons(block[0], block[1..] + rest, renew);
      HeadFirst(block, rest);
    }
  }

  lemma RefreshedKeepsStripped(line: string, rest: seq<string>, renew: Renewal)
    requires Marked(renew) && Known(line, renew)
    ensures OnFlow(Block(line, renew) + [line] + rest, renew)
    ensures Stripped(Block(line, renew) + [line] + rest, renew) == [line] + Stripped(rest, renew)
  {
    var block := Block(line, renew);
    BlockOnFlow(block, [line] + rest, renew);
    OnFlowCons(line, rest, renew);
    Assoc(block, [line], rest);
  }

  /** A rewrite leaves everything outside the replaced blocks alone, other `//fungi:` lines included. */
  lemma {:induction false} RewrittenKeepsStripped(lines: seq<string>, renew: Renewal)
    requires Marked(renew)
    ensures OnFlow(Rewritten(lines, renew), renew) == OnFlow(lines, renew)
    ensures Stripped(Rewritten(lines, renew), renew) == Stripped(lines, renew)
    decreases |lines|
  {
    if lines != [] {
      var rest := Rewritten(lines[1..], renew);
      RewrittenKeepsStripped(lines[1..], renew);
      RewrittenStep(lines, renew);
      OnFlowCons(lines[0], rest, renew);
      if !Stale(lines, renew) && Known(lines[0], renew) {
        RefreshedKeepsStripped(lines[0], rest, renew);
      }
    }
  }

  /** A rewrite only depends on what is outside the blocks it replaces. */
  lemma {:induction false} RewrittenFromStripped(lines: seq<string>, renew: Renewal)
    ensures OnFlow(Stripped(lines, renew), renew) ==> OnFlow(lines, renew)
    ensures Rewritten(Stripped(lines, renew), renew) == Rewritten(lines, renew)
    decreases |lines|
  {
    if lines != [] {
      var rest := Stripped(lines[1..], renew);
      RewrittenFromStripped(lines[1..], renew);
      if !Stale(lines, renew) {
        assert ([lines[0]] + rest)[1..] == rest;
      }
    }
  }

  /** Rewriting twice is rewriting once. */
  lemma RewriteIsIdempotent(lines: seq<string>, renew: Renewal)
    requires Marked(renew)
    ensures Rewritten(Rewritten(lines, renew), renew) == Rewritten(lines, renew)
  {
    RewrittenFromStripped(Rewritten(lines, renew), renew);
    RewrittenKeepsStripped(lines, renew);
    RewrittenFromStripped(lines, renew);
  }

  lemma {:induction false} StrippedKeepsAuthored(lines: seq<string>, renew: Renewal)
    ensures Authored(Stripped(lines, renew)) == Authored(lines)
    decreases |lines|
  {
    if lines != [] {
      StrippedKeepsAuthored(lines[1..], renew);
      assert ([lines[0]] + Stripped(lines[1..], renew))[1..] == Stripped(lines[1..], renew);
    }
  }

  /** No authored line is changed, dropped, added or moved past another. */
  lemma RewriteKeepsAuthored(lines: seq<string>, renew: Renewal)
    requires Marked(renew)
    ensures Authored(Rewritten(lines, renew)) == Authored(lines)
  {
    StrippedKeepsAuthored(Rewritten(lines, renew), renew);
    RewrittenKeepsStripped(lines, renew);
    StrippedKeepsAuthored(lines, renew);
  }

  // ----- every known flow is current -----

  /** Directly above line `j` stands `block` and no further generated line. */
  predicate Above(lines: seq<string>, j: nat, block: seq<string>)
    requires j <= |lines|
  {
    && |block| <= j
    && lines[j - |block|..j] == block
    && (|block| < j ==> !IsGenerated(lines[j - |block| - 1]))
  }

  /** The flow at `j` carries its fresh block. */
  predicate BlockInPlace(lines: seq<string>, j: nat, renew: Renewal)
    requires j < |lines| && Known(lines[j], renew)
  {
    Above(lines, j, Block(lines[j], renew))
  }

  lemma SliceBelow<T>(above: seq<T>, lines: seq<T>, i: nat, j: nat)
    requires i <= j <= |lines|
    ensures (above + lines)[|above| + i..|above| + j] == lines[i..j]
    ensures i > 0 ==> (above + lines)[|above| + i - 1] == lines[i - 1]
    ensures i == 0 && above != [] ==> (above + lines)[|above| + i - 1] == above[|above| - 1]
    ensures j < |lines| ==> (above + lines)[|above| + j] == lines[j]
  {
  }

  lemma AboveBelow(above: seq<string>, lines: seq<string>, j: nat, block: seq<string>)
    requires j <= |lines| && Above(lines, j, block) && above != []
    requires |block| == j ==> !IsGenerated(above[|above| - 1])
    ensures Above(above + lines, |above| + j, block)
  {
    SliceBelow(above, lines, j - |block|, j);
  }

  lemma BlockOnTop(lines: seq<string>, j: nat, renew: Renewal)
    requires Marked(renew) && j < |lines| && Known(lines[j], renew)
    requires BlockInPlace(lines, j, renew) && |Block(lines[j], renew)| == j
    ensures OnFlow(lines, renew)
  {
    var block := Block(lines[j], renew);
    BlockOnFlow(block, lines[j..], renew);
    assert lines == lines[..j] + lines[j..] && lines[0..j] == lines[..j];
  }

  predicate AllInPlace(lines: seq<string>, renew: Renewal) {
    forall j :: 0 <= j < |lines| && Known(lines[j], renew) ==> BlockInPlace(lines, j, renew)
  }

  lemma InPlaceAfter(above: seq<string>, rest: seq<string>, k: nat, renew: Renewal)
    requires k < |rest| && Known(rest[k], renew) && BlockInPlace(rest, k, renew)
    requires above != []
    requires !IsGenerated(above[|above| - 1]) || (Marked(renew) && !OnFlow(rest, renew))
    ensures (above + rest)[|above| + k] == rest[k] && BlockInPlace(above + rest, |above| + k, renew)
  {
    var block := Block(rest[k], renew);
    if |block| == k && IsGenerated(above[|above| - 1]) {
      BlockOnTop(rest, k, renew);
    }
    AboveBelow(above, rest, k, block);
    SliceBelow(above, rest, 0, k);
  }

  lemma InPlaceBelowLine(line: string, rest: seq<string>, renew: Renewal)
    requires Marked(renew) && AllInPlace(rest, renew)
    requires !Known(line, renew) && (IsGenerated(line) ==> !OnFlow(rest, renew))
    ensures AllInPlace([line] + rest, renew)
  {
    var all := [line] + rest;
    forall j | 0 <= j < |all| && Known(all[j], renew) ensures BlockInPlace(all, j, renew) {
      assert j > 0 && all[j] == rest[j - 1];
      assert BlockInPlace(rest, j - 1, renew);
      InPlaceAfter([line], rest, j - 1, renew);
    }
  }

  lemma BlockHoldsNoFlow(line: string, rest: seq<string>, j: nat, renew: Renewal)
    requires Marked(renew) && Known(line, renew) && j < |Block(line, renew)|
    ensures !Known((Block(line, renew) + [line] + rest)[j], renew)
  {
    var block := Block(line, renew);
    assert (block + [line] + rest)[j] == block[j] && block[j] in block;
  }

  lemma InPlaceAtFlow(line: string, rest: seq<string>, renew: Renewal)
    requires Known(line, renew)
    ensures Above(Block(line, renew) + [line] + rest, |Block(line, renew)|, Block(line, renew))
  {
  }

  lemma InPlaceBelowFlow(line: string, rest: seq<string>, renew: Renewal)
    requires Marked(renew) && AllInPlace(rest, renew) && Known(line, renew)
    ensures AllInPlace(Block(line, renew) + [line] + rest, renew)
  {
    var above := Block(line, renew) + [line];
    var all := above + rest;
    forall j | 0 <= j < |all| && Known(all[j], renew) ensures BlockInPlace(all, j, renew) {
      if j < |Block(line, renew)| {
        BlockHoldsNoFlow(line, rest, j, renew);
        assert false;
      } else if j < |above| {
        InPlaceAtFlow(line, rest, renew);
      } else {
        var k := j - |above|;
        assert all[j] == rest[k];
        InPlaceAfter(above, rest, k, renew);
      }
    }
  }

  /** After a rewrite every known flow carries exactly its fresh block. */
  lemma {:induction false} RewrittenIsCurrent(lines: seq<string>, renew: Renewal)
    requires Marked(renew)
    ensures AllInPlace(Rewritten(lines, renew), renew)
    decreases |lines|
  {
    if lines != [] {
      var rest := Rewritten(lines[1..], renew);
      RewrittenIsCurrent(lines[1..], renew);
      RewrittenStep(lines, renew);
      if Stale(lines, renew) {
      } else if Known(lines[0], renew) {
        InPlaceBelowFlow(lines[0], rest, renew);
      } else {
        RewrittenKeepsStripped(lines[1..], renew);
        InPlaceBelowLine(lines[0], rest, renew);
      }
    }
  }

  // ----- fresh lines carry the marker -----

  /** Fresh lines are single lines that carry the marker at their start. */
  predicate FreshLines(block: seq<string>) {
    forall l :: l in block ==> MARKER <= l && OneLine(l)
  }

  predicate WellFormed(blocks: Blocks) {
    forall n :: n in blocks ==> FreshLines(blocks[n])
  }

  /** What is put above a line breaks no line. */
  ghost predicate SingleLines(renew: Renewal) {
    forall line :: Known(line, renew) && OneLine(line) ==> OneLineEach(Block(line, renew))
  }

  lemma IndentRun(line: string)
    ensures forall k :: 0 <= k < SpaceRun(line) ==> IsSpace(line[k])
  {
  }

  lemma {:induction false} MarkedIsGenerated(indent: string, l: string)
    requires forall k :: 0 <= k < |indent| ==> IsSpace(indent[k])
    requires MARKER <= l
    ensures IsGenerated(indent + l)
    decreases |indent|
  {
    if indent == "" {
      assert indent + l == l;
      assert l[0] == '/';
    } else {
      MarkedIsGenerated(indent[1..], l);
      assert (indent + l)[1..] == indent[1..] + l;
      assert (indent + l)[SpaceRun(indent + l)..] == (indent[1..] + l)[SpaceRun(indent[1..] + l)..];
    }
  }

  lemma {:induction false} IndentedIsGenerated(indent: string, block: seq<string>)
    requires forall k :: 0 <= k < |indent| ==> IsSpace(indent[k])
    requires FreshLines(block)
    ensures AllGenerated(Indented(indent, block))
    decreases |block|
  {
    if block != [] {
      assert block[0] in block && forall l :: l in block[1..] ==> l in block;
      MarkedIsGenerated(indent, block[0]);
      IndentedIsGenerated(indent, block[1..]);
    }
  }

  lemma {:induction false} IndentedOneLineEach(indent: string, block: seq<string>)
    requires OneLine(indent) && OneLineEach(block)
    ensures OneLineEach(Indented(indent, block))
    decreases |block|
  {
    if block != [] {
      assert block[0] in block && forall l :: l in block[1..] ==> l in block;
      IndentedOneLineEach(indent, block[1..]);
    }
  }

  lemma RenewedLine(line: string, block: seq<string>)
    requires FreshLines(block)
    ensures AllGenerated(Indented(Indent(line), block))
    ensures OneLine(line) ==> OneLineEach(Indented(Indent(line), block))
  {
    IndentRun(line);
    IndentedIsGenerated(Indent(line), block);
    if OneLine(line) {
      IndentedOneLineEach(Indent(line), block);
    }
  }

  /** Well-formed fresh lines make a rewrite to which everything below applies. */
  lemma RenewalIsMarked(blocks: Blocks)
    requires WellFormed(blocks)
    ensures Marked(RenewalFrom(blocks)) && SingleLines(RenewalFrom(blocks))
  {
    var renew := RenewalFrom(blocks);
    forall line | Known(line, renew)
      ensures !IsGenerated(line) && AllGenerated(Block(line, renew))
      ensures OneLine(line) ==> OneLineEach(Block(line, renew))
    {
      RenewedLine(line, blocks[FlowName(line).value]);
      if IsGenerated(line) {
        GeneratedIsNoFlow(line);
      }
    }
  }

  // ----- the whole source -----

  function RewrittenText(source: string, renew: Renewal): string {
    JoinNewlines(Rewritten(SplitNewlines(source), renew))
  }

  /** The text that rewriteGeneratedComments answers. */
  function TextRewrite(source: string, blocks: Blocks): string {
    RewrittenText(source, RenewalFrom(blocks))
  }

  /** rewriteGeneratedComments */
  method RewriteGeneratedComments(source: string, blocks: Blocks) returns (text: string)
    ensures text == TextRewrite(source, blocks)
  {
    var lines := RewriteLines(SplitNewlines(source), blocks);
    text := JoinNewlines(lines);
  }

  lemma {:induction false} RewrittenOneLineEach(lines: seq<string>, renew: Renewal)
    requires SingleLines(renew) && OneLineEach(lines)
    ensures OneLineEach(Rewritten(lines, renew)) && (lines != [] ==> Rewritten(lines, renew) != [])
    decreases |lines|
  {
    if lines != [] {
      assert lines[0] in lines && forall l :: l in lines[1..] ==> l in lines;
      RewrittenOneLineEach(lines[1..], renew);
      RewrittenStep(lines, renew);
    }
  }

  lemma SplitRewritten(source: string, renew: Renewal)
    requires SingleLines(renew)
    ensures SplitNewlines(RewrittenText(source, renew)) == Rewritten(SplitNewlines(source), renew)
  {
    SplitIsOneLineEach(source);
    RewrittenOneLineEach(SplitNewlines(source), renew);
    SplitJoin(Rewritten(SplitNewlines(source), renew));
  }

  /** Rewriting a source twice is rewriting it once. */
  lemma TextRewriteIsIdempotent(source: string, blocks: Blocks)
    requires WellFormed(blocks)
    ensures TextRewrite(TextRewrite(source, blocks), blocks) == TextRewrite(source, blocks)
  {
    var renew := RenewalFrom(blocks);
    RenewalIsMarked(blocks);
    SplitRewritten(source, renew);
    RewriteIsIdempotent(SplitNewlines(source), renew);
  }

  /** Only machine-owned lines differ, and outside the replaced blocks not even those. */
  lemma TextRewriteIsConservative(source: string, blocks: Blocks)
    requires WellFormed(blocks)
    ensures var before, after := SplitNewlines(source), SplitNewlines(TextRewrite(source, blocks));
            && Authored(after) == Authored(before)
            && Stripped(after, RenewalFrom(blocks)) == Stripped(before, RenewalFrom(blocks))
            && AllInPlace(after, RenewalFrom(blocks))
  {
    var lines, renew := SplitNewlines(source), RenewalFrom(blocks);
    RenewalIsMarked(blocks);
    SplitRewritten(source, renew);
    RewriteKeepsAuthored(lines, renew);
    RewrittenKeepsStripped(lines, renew);
    RewrittenIsCurrent(lines, renew);
  }

  // ----- the fresh lines -----

  function JoinNames(names: seq<string>): string {
    if names == [] then "" else if |names| == 1 then names[0] else names[0] + ", " + JoinNames(names[1..])
  }

  function Listed(heading: string, names: seq<string>): seq<string> {
    if names == [] then [] else [MARKER + " " + heading + ": (" + Digits(|names|) + ") " + JoinNames(names)]
  }

  function ImpactLine(impact: nat): string {
    MARKER + " IMPACT: (" + Digits(impact) + ")" + if impact == 0 then " \U{2014} safe to delete" else ""
  }

  /** renderDependencyComments */
  function RenderDependencyComments(uses: seq<string>, usedBy: seq<string>, impact: nat): seq<string> {
    Listed("USES", uses) + Listed("USEDBY", usedBy) + [ImpactLine(impact)]
  }

  lemma {:induction false} JoinNamesOneLine(names: seq<string>)
    requires OneLineEach(names)
    ensures OneLine(JoinNames(names))
    decreases |names|
  {
    if names != [] {
      assert names[0] in names && forall l :: l in names[1..] ==> l in names;
      JoinNamesOneLine(names[1..]);
    }
  }

  lemma ListedWellFormed(heading: string, names: seq<string>)
    requires OneLine(heading) && OneLineEach(names)
    ensures FreshLines(Listed(heading, names))
  {
    JoinNamesOneLine(names);
    NumberOfDigits(|names|);
  }

  lemma ImpactWellFormed(impact: nat)
    ensures MARKER <= ImpactLine(impact) && OneLine(ImpactLine(impact))
  {
    NumberOfDigits(impact);
  }

  /** What the program renders is what the rewrite needs. */
  lemma RenderedIsWellFormed(uses: seq<string>, usedBy: seq<string>, impact: nat)
    requires OneLineEach(uses) && OneLineEach(usedBy)
    ensures FreshLines(RenderDependencyComments(uses, usedBy, impact))
  {
    ListedWellFormed("USES", uses);
    ListedWellFormed("USEDBY", usedBy);
    ImpactWellFormed(impact);
  }
}
