/**
 Applying accepted edits one after the other, measured against one left-to-right pass over the
 untouched line that replaces every accepted span.
 */
module EditSubstitution {
  import opened FixEdits
  import opened Collections

  // ----- the reference: one pass over the untouched line -----

  /** Spans in the order of the text, disjoint, from `from` on. */
  predicate Ascending(text: string, edits: seq<FixEdit>, from: nat) {
    if edits == [] then from <= |text|
    else from <= edits[0].column - 1 <= edits[0].endColumn - 1 <= |text| && Ascending(text, edits[1..], edits[0].endColumn - 1)
  }

  /** The text from `from` on, with every span replaced and every other character kept. */
  function Substituted(text: string, edits: seq<FixEdit>, from: nat): string
    requires Ascending(text, edits, from)
  {
    if edits == [] then text[from..]
    else Kept(text, edits[0], from) + Substituted(text, edits[1..], edits[0].endColumn - 1)
  }

  /** The text up to an edit, and its replacement. */
  function Kept(text: string, e: FixEdit, from: nat): string
    requires from <= e.column - 1 <= |text|
  {
    text[from..e.column - 1] + e.replacement
  }

  function Reverse(edits: seq<FixEdit>): seq<FixEdit> {
    if edits == [] then [] else Reverse(edits[1..]) + [edits[0]]
  }

  function OnLine(edits: seq<FixEdit>, line: int): seq<FixEdit> {
    if edits == [] then []
    else if edits[0].line == line then [edits[0]] + OnLine(edits[1..], line)
    else OnLine(edits[1..], line)
  }

  // ----- one line: right to left is the same as in one pass -----

  function SpliceLine(text: string, edits: seq<FixEdit>): string
    requires forall e :: e in edits ==> 1 <= e.column <= e.endColumn
    decreases |edits|
  {
    if edits == [] then text else SpliceLine(Splice(text, edits[0]), edits[1..])
  }

  lemma {:induction false} OnLineSubset(edits: seq<FixEdit>, line: int)
    ensures forall e :: e in OnLine(edits, line) ==> e in edits && e.line == line
  {
    if edits != [] {
      OnLineSubset(edits[1..], line);
    }
  }

  lemma SpliceOneAt(lines: seq<string>, e: FixEdit, li: nat)
    requires Placed(e, |lines|) && li < |lines|
    ensures SpliceOne(lines, e)[li] == if e.line == li + 1 then Splice(lines[li], e) else lines[li]
  {
  }

  lemma OnLineStep(edits: seq<FixEdit>, k: nat, line: int)
    requires k < |edits|
    ensures OnLine(edits[k..], line)
         == if edits[k].line == line then [edits[k]] + OnLine(edits[k + 1..], line) else OnLine(edits[k + 1..], line)
  {
    assert edits[k..][0] == edits[k] && edits[k..][1..] == edits[k + 1..];
  }

  lemma SpliceLineStep(text: string, e: FixEdit, rest: seq<FixEdit>)
    requires forall x :: x in [e] + rest ==> 1 <= x.column <= x.endColumn
    ensures e in [e] + rest
    ensures forall x :: x in rest ==> 1 <= x.column <= x.endColumn
    ensures SpliceLine(text, [e] + rest) == SpliceLine(Splice(text, e), rest)
  {
    assert ([e] + rest)[0] == e && ([e] + rest)[1..] == rest;
    assert forall x :: x in rest ==> x in [e] + rest;
  }

  lemma {:induction false} SpliceFromByLine(lines: seq<string>, edits: seq<FixEdit>, k: nat, li: nat)
    requires k <= |edits| && AllPlaced(edits, |lines|) && li < |lines|
    requires forall e :: e in OnLine(edits[k..], li + 1) ==> 1 <= e.column <= e.endColumn
    ensures SpliceFrom(lines, edits, k)[li] == SpliceLine(lines[li], OnLine(edits[k..], li + 1))
    decreases |edits| - k
  {
    if k < |edits| {
      var e, rest := edits[k], OnLine(edits[k + 1..], li + 1);
      OnLineStep(edits, k, li + 1);
      SpliceOneAt(lines, e, li);
      if e.line == li + 1 {
        SpliceLineStep(lines[li], e, rest);
      }
      SpliceFromByLine(SpliceOne(lines, e), edits, k + 1, li);
    }
  }

  /** Each span ends where the previous one begins, or before. */
  predicate RightToLeft(edits: seq<FixEdit>, limit: int) {
    edits == []
    || (1 <= edits[0].column <= edits[0].endColumn && edits[0].endColumn - 1 <= limit
        && RightToLeft(edits[1..], edits[0].column - 1))
  }

  lemma {:induction false} RightToLeftWithin(edits: seq<FixEdit>, limit: int)
    requires RightToLeft(edits, limit)
    ensures forall e :: e in edits ==> 1 <= e.column <= e.endColumn && e.endColumn - 1 <= limit
  {
    if edits != [] {
      RightToLeftWithin(edits[1..], edits[0].column - 1);
      assert edits == [edits[0]] + edits[1..];
    }
  }

  lemma SpliceInFront(a: string, b: string, e: FixEdit)
    requires 1 <= e.column <= e.endColumn && e.endColumn - 1 <= |a|
    ensures Splice(a, e) == a[..e.column - 1] + (e.replacement + a[e.endColumn - 1..])
    ensures Splice(a + b, e) == a[..e.column - 1] + ((e.replacement + a[e.endColumn - 1..]) + b)
  {
    assert (a + b)[..e.column - 1] == a[..e.column - 1];
    assert (a + b)[e.endColumn - 1..] == a[e.endColumn - 1..] + b;
  }

  /** Splices inside the front leave the back alone. */
  lemma {:induction false} SpliceFront(a: string, b: string, edits: seq<FixEdit>)
    requires RightToLeft(edits, |a|)
    requires forall e :: e in edits ==> 1 <= e.column <= e.endColumn
    ensures SpliceLine(a + b, edits) == SpliceLine(a, edits) + b
    decreases |edits|
  {
    if edits != [] {
      var e := edits[0];
      var front, tail := a[..e.column - 1], e.replacement + a[e.endColumn - 1..];
      SpliceInFront(a, b, e);
      SpliceFront(front, tail, edits[1..]);
      SpliceFront(front, tail + b, edits[1..]);
      Assoc(SpliceLine(front, edits[1..]), tail, b);
    }
  }

  lemma PutInFront(p: string, a: string, b: string, c: string)
    ensures p + (a + b + c) == p + a + b + c
  {
    Assoc(p, a + b, c);
    Assoc(p, a, b);
  }

  lemma {:induction false} SubstituteLast(text: string, edits: seq<FixEdit>, last: FixEdit, from: nat)
    requires 1 <= last.column <= last.endColumn && last.endColumn - 1 <= |text|
    requires Ascending(text[..last.column - 1], edits, from)
    ensures Ascending(text, edits + [last], from)
    ensures Substituted(text, edits + [last], from)
         == Substituted(text[..last.column - 1], edits, from) + last.replacement + text[last.endColumn - 1..]
    decreases |edits|
  {
    var front := text[..last.column - 1];
    if edits == [] {
      SubstituteOnly(text, last, from);
      assert edits + [last] == [last];
    } else {
      var e, tail := edits[0], edits[1..];
      HeadFirst(edits, last);
      SubstituteLast(text, tail, last, e.endColumn - 1);
      SubstituteStep(text, front, e, tail, last, from);
    }
  }

  lemma SubstituteStep(text: string, front: string, e: FixEdit, tail: seq<FixEdit>, last: FixEdit, from: nat)
    requires 1 <= last.column <= last.endColumn && last.endColumn - 1 <= |text| && front == text[..last.column - 1]
    requires Ascending(front, [e] + tail, from) && Ascending(front, tail, e.endColumn - 1)
    requires Ascending(text, tail + [last], e.endColumn - 1)
    requires Substituted(text, tail + [last], e.endColumn - 1)
          == Substituted(front, tail, e.endColumn - 1) + last.replacement + text[last.endColumn - 1..]
    ensures Ascending(text, [e] + (tail + [last]), from)
    ensures Substituted(text, [e] + (tail + [last]), from)
         == Substituted(front, [e] + tail, from) + last.replacement + text[last.endColumn - 1..]
  {
    assert ([e] + tail)[0] == e && ([e] + tail)[1..] == tail;
    PassStep(text, e, tail + [last], from);
    PassStep(front, e, tail, from);
    KeptInFront(text, front, e, from);
    PutInFront(Kept(front, e, from), Substituted(front, tail, e.endColumn - 1), last.replacement,
               text[last.endColumn - 1..]);
  }

  lemma HeadFirst(edits: seq<FixEdit>, last: FixEdit)
    requires edits != []
    ensures edits == [edits[0]] + edits[1..]
    ensures edits + [last] == [edits[0]] + (edits[1..] + [last])
  {
  }

  lemma SubstituteOnly(text: string, e: FixEdit, from: nat)
    requires from <= e.column - 1 <= e.endColumn - 1 <= |text|
    ensures Ascending(text, [e], from)
    ensures Substituted(text, [e], from) == text[..e.column - 1][from..] + e.replacement + text[e.endColumn - 1..]
  {
    assert [e][1..] == [];
    assert text[..e.column - 1][from..] == text[from..e.column - 1];
  }

  lemma PassStep(text: string, e: FixEdit, rest: seq<FixEdit>, from: nat)
    requires from <= e.column - 1 <= e.endColumn - 1 <= |text| && Ascending(text, rest, e.endColumn - 1)
    ensures Ascending(text, [e] + rest, from)
    ensures Substituted(text, [e] + rest, from) == Kept(text, e, from) + Substituted(text, rest, e.endColumn - 1)
  {
    assert ([e] + rest)[0] == e && ([e] + rest)[1..] == rest;
  }

  lemma KeptInFront(text: string, front: string, e: FixEdit, from: nat)
    requires from <= e.column - 1 <= |front| && front <= text
    ensures Kept(text, e, from) == Kept(front, e, from)
  {
    assert text[from..e.column - 1] == front[from..e.column - 1];
  }

  lemma {:induction false} RightToLeftIsOnePass(text: string, edits: seq<FixEdit>)
    requires RightToLeft(edits, |text|)
    requires forall e :: e in edits ==> 1 <= e.column <= e.endColumn
    ensures Ascending(text, Reverse(edits), 0)
    ensures SpliceLine(text, edits) == Substituted(text, Reverse(edits), 0)
    decreases |edits|
  {
    if edits != [] {
      var e, rest := edits[0], edits[1..];
      var front, tail := text[..e.column - 1], e.replacement + text[e.endColumn - 1..];
      SpliceInFront(text, "", e);
      SpliceFront(front, tail, rest);
      RightToLeftIsOnePass(front, rest);
      SubstituteLast(text, Reverse(rest), e, 0);
      Assoc(SpliceLine(front, rest), e.replacement, text[e.endColumn - 1..]);
    }
  }

  // ----- sorting and accepting put the spans of a line right to left -----

  predicate IsInsertion(e: FixEdit) {
    e.column == e.endColumn
  }

  predicate SameStart(a: FixEdit, b: FixEdit) {
    a.line == b.line && a.column == b.column
  }

  /** Among edits that start together, no insertion comes before a replacement. */
  ghost predicate InsertionsLast(edits: seq<FixEdit>) {
    forall i, j :: 0 <= i < j < |edits| && SameStart(edits[i], edits[j]) && IsInsertion(edits[i]) ==> IsInsertion(edits[j])
  }

  ghost predicate NeverLater(edits: seq<FixEdit>) {
    forall i, j :: 0 <= i < j < |edits| ==> !Later(edits[j], edits[i])
  }

  ghost predicate Apart(edits: seq<FixEdit>) {
    forall i, j :: 0 <= i < j < |edits| ==> !Overlaps(edits[i], edits[j])
  }

  lemma {:induction false} InsertSortedOrdered(e: FixEdit, sorted: seq<FixEdit>)
    requires NeverLater(sorted)
    ensures NeverLater(InsertSorted(e, sorted))
    ensures forall x :: x in InsertSorted(e, sorted) <==> x == e || x in sorted
  {
    if sorted != [] && Later(sorted[0], e) {
      InsertSortedOrdered(e, sorted[1..]);
      var r := InsertSorted(e, sorted[1..]);
      assert sorted == [sorted[0]] + sorted[1..];
      forall x | x in r ensures !Later(x, sorted[0]) {
        if x != e {
          var k :| 0 <= k < |sorted[1..]| && sorted[1..][k] == x;
          assert sorted[k + 1] == x;
        }
      }
    } else if sorted != [] {
      forall k | 0 <= k < |sorted| ensures !Later(sorted[k], e) {
        assert k > 0 ==> !Later(sorted[k], sorted[0]);
      }
    }
  }

  lemma {:induction false} SortOrdered(edits: seq<FixEdit>)
    ensures NeverLater(SortDescending(edits))
    ensures forall x :: x in SortDescending(edits) <==> x in edits
  {
    if edits != [] {
      SortOrdered(edits[1..]);
      InsertSortedOrdered(edits[0], SortDescending(edits[1..]));
      assert edits == [edits[0]] + edits[1..];
    }
  }

  lemma {:induction false} AcceptedOrdered(sorted: seq<FixEdit>, valid: seq<FixEdit>, lines: seq<string>)
    requires NeverLater(sorted) && NeverLater(valid) && Apart(valid)
    requires forall v, e :: v in valid && e in sorted ==> !Later(e, v)
    ensures NeverLater(Accepted(sorted, valid, lines)) && Apart(Accepted(sorted, valid, lines))
    decreases |sorted|
  {
    if sorted != [] {
      var e, rest := sorted[0], sorted[1..];
      assert sorted == [e] + rest;
      assert forall x :: x in rest ==> x in sorted;
      forall x | x in rest ensures !Later(x, e) {
        var k :| 0 <= k < |rest| && rest[k] == x;
        assert sorted[k + 1] == x;
      }
      assert NeverLater(rest) by {
        assert forall k :: 0 <= k < |rest| ==> rest[k] == sorted[k + 1];
      }
      if Accepts(valid, e, lines) {
        LastOrdered(valid, e);
        AcceptedOrdered(rest, valid + [e], lines);
      } else {
        AcceptedOrdered(rest, valid, lines);
      }
    }
  }

  lemma LastOrdered(valid: seq<FixEdit>, e: FixEdit)
    requires NeverLater(valid) && Apart(valid)
    requires forall v :: v in valid ==> !Later(e, v) && !Overlaps(v, e)
    ensures NeverLater(valid + [e]) && Apart(valid + [e])
    ensures forall v :: v in valid + [e] ==> v in valid || v == e
  {
  }

  lemma {:induction false} OnLineOrdered(valid: seq<FixEdit>, line: int)
    requires NeverLater(valid) && Apart(valid)
    ensures NeverLater(OnLine(valid, line)) && Apart(OnLine(valid, line))
  {
    if valid != [] {
      var v, rest := valid[0], valid[1..];
      assert forall k :: 0 <= k < |rest| ==> rest[k] == valid[k + 1];
      OnLineOrdered(rest, line);
      OnLineSubset(rest, line);
      forall x | x in rest ensures !Later(x, v) && !Overlaps(v, x) {
        var k :| 0 <= k < |rest| && rest[k] == x;
      }
    }
  }

  /** The accepted edits of a line, in the order they are spliced in. */
  function OwnEdits(edits: seq<FixEdit>, lines: seq<string>, li: nat): seq<FixEdit> {
    OnLine(AcceptedEdits(edits, lines), li + 1)
  }

  predicate InText(text: string, e: FixEdit) {
    1 <= e.column <= e.endColumn && e.endColumn - 1 <= |text|
  }

  /** Edits of one line, each within the text, disjoint, from the end of the text to its start. */
  ghost predicate LineEdits(text: string, own: seq<FixEdit>, line: int) {
    && (forall e :: e in own ==> InText(text, e) && e.line == line)
    && NeverLater(own) && Apart(own)
  }

  lemma OwnEditsFit(edits: seq<FixEdit>, lines: seq<string>, li: nat)
    requires li < |lines|
    ensures LineEdits(lines[li], OwnEdits(edits, lines, li), li + 1)
  {
    var sorted, valid := SortDescending(edits), AcceptedEdits(edits, lines);
    SortOrdered(edits);
    AcceptedOrdered(sorted, [], lines);
    AcceptedFit(sorted, [], lines);
    OnLineOrdered(valid, li + 1);
    OnLineSubset(valid, li + 1);
    forall e | e in OwnEdits(edits, lines, li) ensures InText(lines[li], e) && e.line == li + 1 {
      assert e in valid && Fits(e, lines);
    }
  }

  lemma {:induction false} LineRightToLeft(text: string, own: seq<FixEdit>, line: int, limit: int)
    requires LineEdits(text, own, line) && InsertionsLast(own)
    requires forall e :: e in own ==> e.endColumn - 1 <= limit
    ensures RightToLeft(own, limit)
    decreases own
  {
    if own != [] {
      var v, rest := own[0], own[1..];
      assert forall k :: 0 <= k < |rest| ==> rest[k] == own[k + 1];
      assert forall x :: x in rest ==> x in own;
      assert v in own;
      forall x | x in rest ensures x.endColumn - 1 <= v.column - 1 {
        var k :| 0 <= k < |rest| && rest[k] == x;
        assert !Later(own[k + 1], own[0]) && !Overlaps(own[0], own[k + 1]);
        assert SameStart(own[0], own[k + 1]) && IsInsertion(own[0]) ==> IsInsertion(own[k + 1]);
      }
      LineRightToLeft(text, rest, line, v.column - 1);
    }
  }

  lemma AppliedByLine(lines: seq<string>, edits: seq<FixEdit>, li: nat)
    requires li < |lines|
    ensures forall e :: e in OwnEdits(edits, lines, li) ==> 1 <= e.column <= e.endColumn
    ensures AppliedLines(lines, edits)[li] == SpliceLine(lines[li], OwnEdits(edits, lines, li))
  {
    var valid := AcceptedEdits(edits, lines);
    OwnEditsFit(edits, lines, li);
    AcceptedPlaced(SortDescending(edits), lines);
    assert valid[0..] == valid;
    forall e | e in OwnEdits(edits, lines, li) ensures 1 <= e.column <= e.endColumn {
      assert InText(lines[li], e);
    }
    SpliceFromByLine(lines, valid, 0, li);
  }

  /**
   Unless an accepted insertion precedes an accepted replacement that starts at the same place,
   applying the edits one after the other is one simultaneous substitution: the line becomes the
   line with its accepted spans, which are disjoint, replaced, and nothing else changed.
   */
  lemma ApplyIsSubstitution(lines: seq<string>, edits: seq<FixEdit>, li: nat)
    requires li < |lines| && InsertionsLast(OwnEdits(edits, lines, li))
    ensures var spans := Reverse(OwnEdits(edits, lines, li));
            && Ascending(lines[li], spans, 0)
            && AppliedLines(lines, edits)[li] == Substituted(lines[li], spans, 0)
  {
    var own := OwnEdits(edits, lines, li);
    OwnEditsFit(edits, lines, li);
    AppliedByLine(lines, edits, li);
    assert forall e :: e in own ==> InText(lines[li], e);
    LineRightToLeft(lines[li], own, li + 1, |lines[li]|);
    RightToLeftIsOnePass(lines[li], own);
  }

  // ----- exactly then, for all replacement texts -----

  /** `result` is `text` with every one of the edits replaced in a single pass. */
  ghost predicate IsSubstitution(text: string, own: seq<FixEdit>, result: string) {
    exists spans :: multiset(spans) == multiset(own) && Ascending(text, spans, 0) && Substituted(text, spans, 0) == result
  }

  predicate SameSpan(a: FixEdit, b: FixEdit) {
    a == b.(replacement := a.replacement)
  }

  /** The same edits, with other texts to put in. */
  ghost predicate SameSpans(a: seq<FixEdit>, b: seq<FixEdit>) {
    |a| == |b| && forall i :: 0 <= i < |a| ==> SameSpan(a[i], b[i])
  }

  /** Whatever the edits put in, the line becomes its simultaneous substitution. */
  ghost predicate AlwaysSubstitutes(lines: seq<string>, edits: seq<FixEdit>, li: nat)
    requires li < |lines|
  {
    forall others :: SameSpans(edits, others) ==>
      IsSubstitution(lines[li], OwnEdits(others, lines, li), AppliedLines(lines, others)[li])
  }

  lemma {:induction false} ReverseKeeps(edits: seq<FixEdit>)
    ensures multiset(Reverse(edits)) == multiset(edits)
  {
    if edits != [] {
      ReverseKeeps(edits[1..]);
      assert edits == [edits[0]] + edits[1..];
    }
  }

  // Sorting and accepting look at spans only.

  lemma {:induction false} SameSpansInsert(e: FixEdit, f: FixEdit, a: seq<FixEdit>, b: seq<FixEdit>)
    requires SameSpan(e, f) && SameSpans(a, b)
    ensures SameSpans(InsertSorted(e, a), InsertSorted(f, b))
    decreases |a|
  {
    if a != [] && Later(a[0], e) {
      SameSpansInsert(e, f, a[1..], b[1..]);
    }
  }

  lemma {:induction false} SameSpansSort(a: seq<FixEdit>, b: seq<FixEdit>)
    requires SameSpans(a, b)
    ensures SameSpans(SortDescending(a), SortDescending(b))
    decreases |a|
  {
    if a != [] {
      SameSpansSort(a[1..], b[1..]);
      SameSpansInsert(a[0], b[0], SortDescending(a[1..]), SortDescending(b[1..]));
    }
  }

  lemma SameSpansAccepts(v: seq<FixEdit>, w: seq<FixEdit>, e: FixEdit, f: FixEdit, lines: seq<string>)
    requires SameSpans(v, w) && SameSpan(e, f)
    ensures Accepts(v, e, lines) == Accepts(w, f, lines)
  {
    if x :| x in v && Overlaps(x, e) {
      var k :| 0 <= k < |v| && v[k] == x;
      assert w[k] in w && Overlaps(w[k], f);
    }
    if y :| y in w && Overlaps(y, f) {
      var k :| 0 <= k < |w| && w[k] == y;
      assert v[k] in v && Overlaps(v[k], e);
    }
  }

  lemma {:induction false} SameSpansAccepted(a: seq<FixEdit>, b: seq<FixEdit>, v: seq<FixEdit>, w: seq<FixEdit>,
                                             lines: seq<string>)
    requires SameSpans(a, b) && SameSpans(v, w)
    ensures SameSpans(Accepted(a, v, lines), Accepted(b, w, lines))
    decreases |a|
  {
    if a != [] {
      SameSpansAccepts(v, w, a[0], b[0], lines);
      if Accepts(v, a[0], lines) {
        SameSpansAccepted(a[1..], b[1..], v + [a[0]], w + [b[0]], lines);
      } else {
        SameSpansAccepted(a[1..], b[1..], v, w, lines);
      }
    }
  }

  lemma {:induction false} SameSpansOnLine(a: seq<FixEdit>, b: seq<FixEdit>, line: int)
    requires SameSpans(a, b)
    ensures SameSpans(OnLine(a, line), OnLine(b, line))
    decreases |a|
  {
    if a != [] {
      SameSpansOnLine(a[1..], b[1..], line);
    }
  }

  lemma SameSpansOwn(a: seq<FixEdit>, b: seq<FixEdit>, lines: seq<string>, li: nat)
    requires SameSpans(a, b)
    ensures SameSpans(OwnEdits(a, lines, li), OwnEdits(b, lines, li))
  {
    SameSpansSort(a, b);
    SameSpansAccepted(SortDescending(a), SortDescending(b), [], [], lines);
    SameSpansOnLine(AcceptedEdits(a, lines), AcceptedEdits(b, lines), li + 1);
  }

  lemma SameSpansLast(a: seq<FixEdit>, b: seq<FixEdit>)
    requires SameSpans(a, b) && InsertionsLast(a)
    ensures InsertionsLast(b)
  {
    forall i, j | 0 <= i < j < |b| && SameStart(b[i], b[j]) && IsInsertion(b[i]) ensures IsInsertion(b[j]) {
      assert SameSpan(a[i], b[i]) && SameSpan(a[j], b[j]);
    }
  }

  // Any texts for the accepted edits of a line are those of some list of edits.

  lemma {:induction false} UnInsert(e: FixEdit, sorted: seq<FixEdit>, r: seq<FixEdit>)
    returns (f: FixEdit, others: seq<FixEdit>)
    requires SameSpans(InsertSorted(e, sorted), r)
    ensures SameSpan(e, f) && SameSpans(sorted, others) && InsertSorted(f, others) == r
    decreases |sorted|
  {
    if sorted != [] && Later(sorted[0], e) {
      var tail;
      f, tail := UnInsert(e, sorted[1..], r[1..]);
      others := [r[0]] + tail;
      assert others[1..] == tail;
    } else {
      f, others := r[0], r[1..];
    }
  }

  lemma {:induction false} UnSort(edits: seq<FixEdit>, r: seq<FixEdit>) returns (others: seq<FixEdit>)
    requires SameSpans(SortDescending(edits), r)
    ensures SameSpans(edits, others) && SortDescending(others) == r
    decreases |edits|
  {
    if edits == [] {
      others := [];
    } else {
      var f, rest := UnInsert(edits[0], SortDescending(edits[1..]), r);
      var tail := UnSort(edits[1..], rest);
      others := [f] + tail;
      assert others[1..] == tail;
    }
  }

  lemma {:induction false} AcceptedPrefix(sorted: seq<FixEdit>, valid: seq<FixEdit>, lines: seq<string>)
    ensures valid <= Accepted(sorted, valid, lines)
    decreases |sorted|
  {
    if sorted != [] {
      AcceptedPrefix(sorted[1..], if Accepts(valid, sorted[0], lines) then valid + [sorted[0]] else valid, lines);
    }
  }

  lemma {:induction false} UnAccept(sorted: seq<FixEdit>, valid: seq<FixEdit>, lines: seq<string>, r: seq<FixEdit>)
    returns (others: seq<FixEdit>)
    requires SameSpans(Accepted(sorted, valid, lines), r)
    ensures |valid| <= |r| && SameSpans(sorted, others) && Accepted(others, r[..|valid|], lines) == r
    decreases |sorted|
  {
    AcceptedPrefix(sorted, valid, lines);
    var n := |valid|;
    if sorted == [] {
      others := [];
      assert r[..n] == r;
    } else if Accepts(valid, sorted[0], lines) {
      AcceptedPrefix(sorted[1..], valid + [sorted[0]], lines);
      var tail := UnAccept(sorted[1..], valid + [sorted[0]], lines, r);
      others := [r[n]] + tail;
      assert others[1..] == tail && r[..n + 1] == r[..n] + [r[n]];
      SameSpansAccepts(valid, r[..n], sorted[0], r[n], lines);
    } else {
      var tail := UnAccept(sorted[1..], valid, lines, r);
      others := [sorted[0]] + tail;
      assert others[1..] == tail;
      SameSpansAccepts(valid, r[..n], sorted[0], sorted[0], lines);
    }
  }

  lemma {:induction false} UnOnLine(valid: seq<FixEdit>, line: int, own: seq<FixEdit>) returns (others: seq<FixEdit>)
    requires SameSpans(OnLine(valid, line), own)
    ensures SameSpans(valid, others) && OnLine(others, line) == own
    decreases |valid|
  {
    if valid == [] {
      others := [];
    } else if valid[0].line == line {
      var tail := UnOnLine(valid[1..], line, own[1..]);
      others := [own[0]] + tail;
      assert others[1..] == tail;
    } else {
      var tail := UnOnLine(valid[1..], line, own);
      others := [valid[0]] + tail;
      assert others[1..] == tail;
    }
  }

  lemma OtherTexts(edits: seq<FixEdit>, lines: seq<string>, li: nat, own: seq<FixEdit>) returns (others: seq<FixEdit>)
    requires SameSpans(OwnEdits(edits, lines, li), own)
    ensures SameSpans(edits, others) && OwnEdits(others, lines, li) == own
  {
    var valid := UnOnLine(AcceptedEdits(edits, lines), li + 1, own);
    var sorted := UnAccept(SortDescending(edits), [], lines, valid);
    others := UnSort(edits, sorted);
    assert valid[..0] == [];
  }

  // An insertion in front of a replacement loses its letter.

  function Spanned(text: string, e: FixEdit): string
    requires InText(text, e)
  {
    text[e.column - 1..e.endColumn - 1]
  }

  predicate Restores(text: string, e: FixEdit) {
    InText(text, e) && e.replacement == Spanned(text, e)
  }

  /** The insertion at index `i` puts in one letter, every other edit puts back what it takes out. */
  ghost predicate OneLetter(text: string, own: seq<FixEdit>, i: nat, z: char) {
    && i < |own| && own[i].replacement == [z]
    && forall k :: 0 <= k < |own| && k != i ==> Restores(text, own[k])
  }

  lemma {:induction false} SpliceLineConcat(text: string, a: seq<FixEdit>, b: seq<FixEdit>)
    requires forall e :: e in a + b ==> 1 <= e.column <= e.endColumn
    ensures forall e :: e in a || e in b ==> 1 <= e.column <= e.endColumn
    ensures SpliceLine(text, a + b) == SpliceLine(SpliceLine(text, a), b)
    decreases |a|
  {
    forall e | e in a || e in b ensures 1 <= e.column <= e.endColumn {
      assert e in a + b;
    }
    if a == [] {
      assert a + b == b;
    } else {
      assert (a + b)[1..] == a[1..] + b && (a + b)[0] == a[0];
      assert forall e :: e in a[1..] + b ==> e in a + b;
      SpliceLineConcat(Splice(text, a[0]), a[1..], b);
    }
  }

  lemma RestoreKeeps(text: string, now: string, e: FixEdit, c: nat)
    requires Restores(text, e) && c <= |text| && text[..c] <= now && (IsInsertion(e) || e.endColumn - 1 <= c)
    ensures Splice(now, e) == now
  {
    if !IsInsertion(e) {
      var i, j := e.column - 1, e.endColumn - 1;
      assert now[i..j] == text[..c][i..j] == text[i..j];
      assert now == now[..i] + now[i..j] + now[j..];
    }
  }

  /** Edits that put back what they take out of an unchanged front change nothing. */
  lemma {:induction false} RestoringKeeps(text: string, now: string, edits: seq<FixEdit>, c: nat)
    requires c <= |text| && text[..c] <= now
    requires forall e :: e in edits ==> Restores(text, e) && (IsInsertion(e) || e.endColumn - 1 <= c)
    ensures forall e :: e in edits ==> 1 <= e.column <= e.endColumn
    ensures SpliceLine(now, edits) == now
    decreases |edits|
  {
    forall e | e in edits ensures 1 <= e.column <= e.endColumn {
      assert Restores(text, e);
    }
    if edits != [] {
      RestoreKeeps(text, now, edits[0], c);
      assert forall e :: e in edits[1..] ==> e in edits;
      RestoringKeeps(text, now, edits[1..], c);
    }
  }

  /** The letter goes in and is swallowed at once by the replacement behind it. */
  lemma Swallow(text: string, insertion: FixEdit, replacing: FixEdit, z: char)
    requires InText(text, insertion) && IsInsertion(insertion) && insertion.replacement == [z]
    requires Restores(text, replacing) && !IsInsertion(replacing) && SameStart(insertion, replacing)
    ensures var c, after := insertion.column - 1, Splice(Splice(text, insertion), replacing);
            c < |text| && text[..c + 1] <= after
  {
    var c, d := insertion.column - 1, replacing.endColumn - 1;
    LetterGone(text, c, d, z);
    assert Splice(text, insertion) == text[..c] + [z] + text[c..];
  }

  lemma LetterGone(text: string, c: nat, d: nat, z: char)
    requires c < d <= |text|
    ensures var once := text[..c] + [z] + text[c..];
            text[..c + 1] <= once[..c] + text[c..d] + once[d..]
  {
    var once := text[..c] + [z] + text[c..];
    assert once[..c] + text[c..d] == text[..d];
    assert text[..d][..c + 1] == text[..c + 1];
  }

  /** At index `i` an insertion, further on at `j` a replacement that starts with it. */
  predicate Clash(own: seq<FixEdit>, i: nat, j: nat) {
    i < j < |own| && SameStart(own[i], own[j]) && IsInsertion(own[i]) && !IsInsertion(own[j])
  }

  /** Where the others stand when an insertion comes before a replacement that starts with it. */
  lemma Neighbours(text: string, own: seq<FixEdit>, line: int, i: nat, j: nat, k: nat)
    requires LineEdits(text, own, line) && Clash(own, i, j) && k < |own| && k != i && k != j
    ensures i < k ==> IsInsertion(own[k]) || own[k].endColumn <= own[i].column
    ensures i < k < j ==> IsInsertion(own[k])
    ensures !(own[k].column < own[i].column < own[k].endColumn)
  {
    assert own[i] in own && own[j] in own && own[k] in own;
    assert if i < k then !Overlaps(own[i], own[k]) && !Later(own[k], own[i])
           else !Overlaps(own[k], own[i]) && !Later(own[i], own[k]);
    assert if j < k then !Overlaps(own[j], own[k]) && !Later(own[k], own[j])
           else !Overlaps(own[k], own[j]) && !Later(own[j], own[k]);
  }

  /** Splices around an insertion and the replacement behind it. */
  lemma SpliceAround(text: string, before: seq<FixEdit>, insertion: FixEdit, between: seq<FixEdit>,
                     replacing: FixEdit, behind: seq<FixEdit>, z: char)
    requires InText(text, insertion) && IsInsertion(insertion) && insertion.replacement == [z]
    requires Restores(text, replacing) && !IsInsertion(replacing) && SameStart(insertion, replacing)
    requires forall e :: e in before ==> Restores(text, e)
    requires forall e :: e in between ==> Restores(text, e) && IsInsertion(e)
    requires forall e :: e in behind ==> Restores(text, e) && (IsInsertion(e) || e.endColumn <= insertion.column)
    requires forall e :: e in before + ([insertion] + (between + ([replacing] + behind))) ==> 1 <= e.column <= e.endColumn
    ensures insertion.column - 1 < |text|
    ensures text[..insertion.column] <= SpliceLine(text, before + ([insertion] + (between + ([replacing] + behind))))
  {
    var once := Splice(text, insertion);
    Swallow(text, insertion, replacing, z);
    RestoringKeeps(text, text, before, |text|);
    RestoringKeeps(text, once, between, 0);
    RestoringKeeps(text, Splice(once, replacing), behind, insertion.column - 1);
    SpliceInOrder(text, before, insertion, between, replacing, behind);
  }

  lemma LetterSwallowed(text: string, own: seq<FixEdit>, line: int, i: nat, j: nat, z: char)
    requires LineEdits(text, own, line) && OneLetter(text, own, i, z) && Clash(own, i, j)
    ensures forall e :: e in own ==> 1 <= e.column <= e.endColumn
    ensures own[i].column - 1 < |text| && text[..own[i].column] <= SpliceLine(text, own)
  {
    var before, between, behind := own[..i], own[i + 1..j], own[j + 1..];
    assert own[i] in own;
    forall e | e in own ensures 1 <= e.column <= e.endColumn {
      assert InText(text, e);
    }
    forall e | e in before ensures Restores(text, e) {
      var k :| 0 <= k < i && own[k] == e;
    }
    forall e | e in between ensures Restores(text, e) && IsInsertion(e) {
      var k :| i < k < j && own[k] == e;
      Neighbours(text, own, line, i, j, k);
    }
    forall e | e in behind ensures Restores(text, e) && (IsInsertion(e) || e.endColumn <= own[i].column) {
      var k :| j < k < |own| && own[k] == e;
      Neighbours(text, own, line, i, j, k);
    }
    FivePieces(own, i, j);
    SpliceAround(text, before, own[i], between, own[j], behind, z);
  }

  lemma FivePieces<T>(s: seq<T>, i: nat, j: nat)
    requires i < j < |s|
    ensures s == s[..i] + ([s[i]] + (s[i + 1..j] + ([s[j]] + s[j + 1..])))
  {
  }

  lemma SpliceInOrder(text: string, before: seq<FixEdit>, x: FixEdit, between: seq<FixEdit>, y: FixEdit,
                      behind: seq<FixEdit>)
    requires forall e :: e in before + ([x] + (between + ([y] + behind))) ==> 1 <= e.column <= e.endColumn
    ensures x in before + ([x] + (between + ([y] + behind))) && y in before + ([x] + (between + ([y] + behind)))
    ensures forall e :: e in before || e in between || e in behind ==> 1 <= e.column <= e.endColumn
    ensures SpliceLine(text, before + ([x] + (between + ([y] + behind))))
         == SpliceLine(Splice(SpliceLine(Splice(SpliceLine(text, before), x), between), y), behind)
  {
    var fourth := [y] + behind;
    var third := between + fourth;
    var second := [x] + third;
    SpliceLineConcat(text, before, second);
    SpliceLineStep(SpliceLine(text, before), x, third);
    SpliceLineConcat(Splice(SpliceLine(text, before), x), between, fourth);
    SpliceLineStep(SpliceLine(Splice(SpliceLine(text, before), x), between), y, behind);
    assert x in second && y in fourth && y in third && y in second;
  }

  lemma {:induction false} AscendingFrom(text: string, spans: seq<FixEdit>, from: nat, e: FixEdit)
    requires Ascending(text, spans, from) && e in spans
    ensures from <= e.column - 1
  {
    if e != spans[0] {
      assert e in spans[1..];
      AscendingFrom(text, spans[1..], spans[0].endColumn - 1, e);
    }
  }

  /** An edit that leaves the place of a letter alone. */
  predicate Spares(text: string, e: FixEdit, column: int) {
    Restores(text, e) && !(e.column < column < e.endColumn)
  }

  /** In one pass the letter stays: every edit in front of it puts back what it takes out. */
  lemma {:induction false} LetterStays(text: string, spans: seq<FixEdit>, from: nat, letter: FixEdit, z: char)
    requires Ascending(text, spans, from) && letter in spans && from <= letter.column - 1
    requires InText(text, letter) && IsInsertion(letter) && letter.replacement == [z]
    requires forall e :: e in spans ==> e == letter || Spares(text, e, letter.column)
    ensures text[from..letter.column - 1] + [z] <= Substituted(text, spans, from)
    decreases |spans|
  {
    var e, rest := spans[0], spans[1..];
    assert spans == [e] + rest;
    if e == letter {
      Prefix(Kept(text, e, from), Substituted(text, rest, e.endColumn - 1));
    } else {
      assert letter in rest && e in spans;
      AscendingFrom(text, rest, e.endColumn - 1, letter);
      assert forall x :: x in rest ==> x in spans;
      LetterStays(text, rest, e.endColumn - 1, letter, z);
      KeptBefore(text, e, from, letter.column - 1, z, Substituted(text, rest, e.endColumn - 1));
    }
  }

  lemma KeptBefore(text: string, e: FixEdit, from: nat, c: nat, z: char, rest: string)
    requires Restores(text, e) && from <= e.column - 1 && e.endColumn - 1 <= c <= |text|
    requires text[e.endColumn - 1..c] + [z] <= rest
    ensures text[from..c] + [z] <= Kept(text, e, from) + rest
  {
    RestoredKept(text, e, from);
    Further(text, from, e.endColumn - 1, c, z, rest);
  }

  lemma Prefix(a: string, b: string)
    ensures a <= a + b
  {
  }

  lemma RestoredKept(text: string, e: FixEdit, from: nat)
    requires Restores(text, e) && from <= e.column - 1
    ensures Kept(text, e, from) == text[from..e.endColumn - 1]
  {
  }

  lemma Further(text: string, from: nat, j: nat, c: nat, z: char, rest: string)
    requires from <= j <= c <= |text| && text[j..c] + [z] <= rest
    ensures text[from..c] + [z] <= text[from..j] + rest
  {
    assert text[from..c] + [z] == text[from..j] + (text[j..c] + [z]);
    assert text[from..j] + rest == text[from..j] + (text[j..c] + [z]) + rest[c - j + 1..];
  }

  /** The accepted edits with a letter at `i` and all else put back. */
  function Lettered(text: string, own: seq<FixEdit>, i: nat, z: char): (r: seq<FixEdit>)
    requires forall k :: 0 <= k < |own| ==> InText(text, own[k])
    ensures |r| == |own|
  {
    seq(|own|, k requires 0 <= k < |own| =>
      own[k].(replacement := if k == i then [z] else Spanned(text, own[k])))
  }

  lemma SameSpansFit(text: string, a: seq<FixEdit>, b: seq<FixEdit>, line: int)
    requires SameSpans(a, b) && LineEdits(text, a, line)
    ensures LineEdits(text, b, line)
  {
    forall e | e in b ensures InText(text, e) && e.line == line {
      var k :| 0 <= k < |b| && b[k] == e;
      assert SameSpan(a[k], b[k]) && a[k] in a;
    }
    forall i, j | 0 <= i < j < |b| ensures !Later(b[j], b[i]) && !Overlaps(b[i], b[j]) {
      assert SameSpan(a[i], b[i]) && SameSpan(a[j], b[j]);
      assert !Later(a[j], a[i]) && !Overlaps(a[i], a[j]);
    }
  }

  lemma LetteredAt(text: string, own: seq<FixEdit>, i: nat, z: char, k: nat)
    requires (forall j :: 0 <= j < |own| ==> InText(text, own[j])) && k < |own|
    ensures var r := Lettered(text, own, i, z); SameSpan(own[k], r[k]) && (k != i ==> Restores(text, r[k]))
  {
    assert InText(text, own[k]);
  }

  lemma LetteredEdits(text: string, own: seq<FixEdit>, line: int, i: nat, z: char)
    requires LineEdits(text, own, line) && i < |own|
    ensures forall k :: 0 <= k < |own| ==> InText(text, own[k])
    ensures var r := Lettered(text, own, i, z);
            SameSpans(own, r) && LineEdits(text, r, line) && OneLetter(text, r, i, z)
  {
    forall k | 0 <= k < |own| ensures InText(text, own[k]) {
      assert own[k] in own;
    }
    var r := Lettered(text, own, i, z);
    forall k | 0 <= k < |own| ensures SameSpan(own[k], r[k]) && (k != i ==> Restores(text, r[k])) {
      LetteredAt(text, own, i, z, k);
    }
    SameSpansFit(text, own, r, line);
  }

  /** Every other edit puts back what it takes out, and none spans the place of the letter. */
  lemma OthersRestore(text: string, own: seq<FixEdit>, line: int, i: nat, j: nat, z: char, e: FixEdit)
    requires LineEdits(text, own, line) && OneLetter(text, own, i, z) && Clash(own, i, j) && e in own
    ensures e == own[i] || Spares(text, e, own[i].column)
  {
    var k :| 0 <= k < |own| && own[k] == e;
    if k != i && k != j {
      Neighbours(text, own, line, i, j, k);
    }
  }

  lemma LetterShows(text: string, own: seq<FixEdit>, line: int, i: nat, j: nat, z: char, spans: seq<FixEdit>)
    requires LineEdits(text, own, line) && OneLetter(text, own, i, z) && Clash(own, i, j)
    requires multiset(spans) == multiset(own) && Ascending(text, spans, 0)
    ensures 1 <= own[i].column <= |text| + 1
    ensures text[0..own[i].column - 1] + [z] <= Substituted(text, spans, 0)
  {
    var letter := own[i];
    assert letter in multiset(own) && InText(text, letter);
    forall e | e in spans ensures e == letter || Spares(text, e, letter.column) {
      assert e in multiset(spans);
      OthersRestore(text, own, line, i, j, z, e);
    }
    LetterStays(text, spans, 0, letter, z);
  }

  /** So with these texts the result is not the simultaneous substitution. */
  lemma LetterIsLost(text: string, own: seq<FixEdit>, line: int, i: nat, j: nat, z: char)
    requires LineEdits(text, own, line) && OneLetter(text, own, i, z) && Clash(own, i, j)
    requires 1 <= own[i].column <= |text| ==> text[own[i].column - 1] != z
    ensures forall e :: e in own ==> 1 <= e.column <= e.endColumn
    ensures !IsSubstitution(text, own, SpliceLine(text, own))
  {
    LetterSwallowed(text, own, line, i, j, z);
    assert own[i] in own && InText(text, own[i]);
    forall spans: seq<FixEdit> | multiset(spans) == multiset(own) && Ascending(text, spans, 0)
      ensures Substituted(text, spans, 0) != SpliceLine(text, own)
    {
      LetterShows(text, own, line, i, j, z, spans);
      PrefixesDiffer(text, own[i].column - 1, z, Substituted(text, spans, 0), SpliceLine(text, own));
    }
  }

  lemma PrefixesDiffer(text: string, c: nat, z: char, a: string, b: string)
    requires c < |text| && text[c] != z && text[0..c] + [z] <= a && text[..c + 1] <= b
    ensures a != b
  {
    assert a[c] == (text[0..c] + [z])[c] && b[c] == text[..c + 1][c];
  }

  /**
   For any list of edits: a line becomes the simultaneous substitution of its accepted edits,
   whatever texts they put in, if and only if no accepted insertion precedes an accepted replacement
   that starts at the same place.
   */
  lemma SubstitutesIff(lines: seq<string>, edits: seq<FixEdit>, li: nat)
    requires li < |lines|
    ensures AlwaysSubstitutes(lines, edits, li) <==> InsertionsLast(OwnEdits(edits, lines, li))
  {
    if InsertionsLast(OwnEdits(edits, lines, li)) {
      forall others | SameSpans(edits, others)
        ensures IsSubstitution(lines[li], OwnEdits(others, lines, li), AppliedLines(lines, others)[li])
      {
        SameSpansOwn(edits, others, lines, li);
        SameSpansLast(OwnEdits(edits, lines, li), OwnEdits(others, lines, li));
        ApplyIsSubstitution(lines, others, li);
        ReverseKeeps(OwnEdits(others, lines, li));
      }
    } else {
      var others := LostLetter(lines, edits, li);
    }
  }

  /** A letter for each place of the text, other than the one it holds. */
  function OtherThan(text: string, c: int): char {
    if 0 <= c < |text| && text[c] == 'a' then 'b' else 'a'
  }

  lemma LetteredLoses(text: string, own: seq<FixEdit>, line: int, i: nat, j: nat) returns (lettered: seq<FixEdit>)
    requires LineEdits(text, own, line) && Clash(own, i, j)
    ensures SameSpans(own, lettered) && forall e :: e in lettered ==> 1 <= e.column <= e.endColumn
    ensures !IsSubstitution(text, lettered, SpliceLine(text, lettered))
  {
    var z := OtherThan(text, own[i].column - 1);
    LetteredEdits(text, own, line, i, z);
    lettered := Lettered(text, own, i, z);
    ClashStays(own, lettered, i, j);
    LetterIsLost(text, lettered, line, i, j, z);
  }

  lemma ClashStays(a: seq<FixEdit>, b: seq<FixEdit>, i: nat, j: nat)
    requires SameSpans(a, b) && Clash(a, i, j)
    ensures Clash(b, i, j) && b[i].column == a[i].column
  {
    assert SameSpan(a[i], b[i]) && SameSpan(a[j], b[j]);
  }

  lemma FindClash(own: seq<FixEdit>) returns (i: nat, j: nat)
    requires !InsertionsLast(own)
    ensures Clash(own, i, j)
  {
    i, j :| 0 <= i < j < |own| && SameStart(own[i], own[j]) && IsInsertion(own[i]) && !IsInsertion(own[j]);
  }

  /** Texts under which an inserted letter vanishes. */
  lemma LostLetter(lines: seq<string>, edits: seq<FixEdit>, li: nat) returns (others: seq<FixEdit>)
    requires li < |lines| && !InsertionsLast(OwnEdits(edits, lines, li))
    ensures SameSpans(edits, others)
    ensures !IsSubstitution(lines[li], OwnEdits(others, lines, li), AppliedLines(lines, others)[li])
  {
    OwnEditsFit(edits, lines, li);
    var i, j := FindClash(OwnEdits(edits, lines, li));
    var lettered := LetteredLoses(lines[li], OwnEdits(edits, lines, li), li + 1, i, j);
    others := OtherTexts(edits, lines, li, lettered);
    AppliedByLine(lines, others, li);
  }
}
