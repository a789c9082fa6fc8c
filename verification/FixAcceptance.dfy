/**
 Which edits are applied, and at what lines (fix-edit.ts).

 The program sorts the edits, looks at one after the other and keeps what fits. Here the same choice is
 described on the list as it was given, by the places of the edits in it.
 */
module FixAcceptance {
  import opened FixEdits
  import opened EditSubstitution
  import opened Collections

  // ----- the lines of a text -----

  /** Lines hold no '\n', a terminator is one '\n' with the '\r' in front of it, if there is one. */
  predicate ProperLines(lines: seq<string>, seps: seq<string>)
    requires |lines| == |seps| + 1
  {
    && (forall i :: 0 <= i < |lines| ==> '\n' !in lines[i])
    && (forall i :: 0 <= i < |seps| ==> ProperEnd(lines[i], seps[i]))
  }

  predicate ProperEnd(line: string, sep: string) {
    sep == "\r\n" || (sep == "\n" && !(line != "" && line[|line| - 1] == '\r'))
  }

  lemma ProperCons(line: string, sep: string, lines: seq<string>, seps: seq<string>)
    requires |lines| == |seps| + 1
    ensures ProperLines([line] + lines, [sep] + seps)
       <==> '\n' !in line && ProperEnd(line, sep) && ProperLines(lines, seps)
  {
    var all, ends := [line] + lines, [sep] + seps;
    assert all[0] == line && ends[0] == sep;
    assert forall i :: 0 <= i < |lines| ==> all[i + 1] == lines[i];
    assert forall i :: 0 <= i < |seps| ==> ends[i + 1] == seps[i];
    if ProperLines(all, ends) {
      forall i | 0 <= i < |lines| ensures '\n' !in lines[i] {
        assert '\n' !in all[i + 1];
      }
      forall i | 0 <= i < |seps| ensures ProperEnd(lines[i], seps[i]) {
        assert ProperEnd(all[i + 1], ends[i + 1]);
      }
    }
  }

  lemma {:induction false} NewlineIsFirst(s: string)
    ensures '\n' !in s[..FirstNewline(s)]
  {
    if s != "" && s[0] != '\n' {
      NewlineIsFirst(s[1..]);
      assert s[..FirstNewline(s)] == [s[0]] + s[1..][..FirstNewline(s[1..])];
    }
  }

  lemma {:induction false} NewlineAfter(line: string, rest: string)
    requires '\n' !in line && rest != "" && rest[0] == '\n'
    ensures FirstNewline(line + rest) == |line|
    decreases |line|
  {
    if line == "" {
      assert line + rest == rest;
    } else {
      NewlineAfter(line[1..], rest);
      assert (line + rest)[1..] == line[1..] + rest && line[0] in line;
    }
  }

  lemma {:induction false} NoNewline(line: string)
    requires '\n' !in line
    ensures FirstNewline(line) == |line|
    decreases |line|
  {
    if line != "" {
      assert line[0] in line;
      NoNewline(line[1..]);
    }
  }

  lemma {:induction false} SplitIsProper(s: string)
    ensures ProperLines(SplitLines(s).lines, SplitLines(s).seps)
    decreases |s|
  {
    var i := FirstNewline(s);
    NewlineIsFirst(s);
    if i == |s| {
      assert s[..i] == s;
    } else {
      SplitIsProper(s[i + 1..]);
      var rest := SplitLines(s[i + 1..]);
      var j := if i > 0 && s[i - 1] == '\r' then i - 1 else i;
      assert forall c :: c in s[..j] ==> c in s[..i];
      LineEnd(s, j, i);
      ProperCons(s[..j], s[j..i + 1], rest.lines, rest.seps);
    }
  }

  lemma LineEnd(s: string, j: nat, i: nat)
    requires i < |s| && s[i] == '\n'
    requires j == if i > 0 && s[i - 1] == '\r' then i - 1 else i
    ensures ProperEnd(s[..j], s[j..i + 1])
  {
    if j < i {
      assert s[j..i + 1] == [s[j], s[i]];
    } else {
      assert s[j..i + 1] == [s[i]];
    }
  }

  /** One line and its terminator are found again in front of any text. */
  lemma SplitFirst(line: string, sep: string, rest: string)
    requires '\n' !in line && ProperEnd(line, sep)
    ensures SplitLines(line + sep + rest)
         == Split([line] + SplitLines(rest).lines, [sep] + SplitLines(rest).seps)
  {
    var s := line + sep + rest;
    var body := if sep == "\n" then line else line + "\r";
    assert '\n' !in body;
    assert s == body + (['\n'] + rest);
    NewlineAfter(body, ['\n'] + rest);
    var i := |body|;
    assert s[i] == '\n' && s[i + 1..] == rest;
    assert i > 0 ==> s[i - 1] == body[i - 1];
    assert s[..|line|] == line && s[|line|..i + 1] == sep;
  }

  lemma ProperTail(lines: seq<string>, seps: seq<string>)
    requires |lines| == |seps| + 1 && seps != [] && ProperLines(lines, seps)
    ensures '\n' !in lines[0] && ProperEnd(lines[0], seps[0]) && ProperLines(lines[1..], seps[1..])
    ensures lines == [lines[0]] + lines[1..] && seps == [seps[0]] + seps[1..]
  {
    assert lines == [lines[0]] + lines[1..] && seps == [seps[0]] + seps[1..];
    ProperCons(lines[0], seps[0], lines[1..], seps[1..]);
  }

  /** The split is the only way to cut a text into lines and terminators. */
  lemma {:induction false} SplitIff(s: string, lines: seq<string>, seps: seq<string>)
    requires |lines| == |seps| + 1
    ensures SplitLines(s) == Split(lines, seps) <==> JoinLines(lines, seps) == s && ProperLines(lines, seps)
    decreases |seps|
  {
    JoinSplit(s);
    SplitIsProper(s);
    if JoinLines(lines, seps) == s && ProperLines(lines, seps) {
      if seps == [] {
        NoNewline(s);
        assert lines == [s];
      } else {
        SplitIff(JoinLines(lines[1..], seps[1..]), lines[1..], seps[1..]);
        ProperTail(lines, seps);
        SplitFirst(lines[0], seps[0], JoinLines(lines[1..], seps[1..]));
      }
    }
  }

  // ----- which edits are applied -----

  /** The edit names a line of the text and a span of its columns, the place behind its last one included. */
  predicate InBounds(e: FixEdit, lines: seq<string>) {
    1 <= e.line <= |lines| && 1 <= e.column <= e.endColumn <= |lines[e.line - 1]| + 1
  }

  /** They share a column, or one inserts strictly inside the other. */
  predicate Collide(a: FixEdit, b: FixEdit) {
    a.line == b.line && !(a.endColumn <= b.column) && !(b.endColumn <= a.column)
  }

  /** Edit `i` is looked at before edit `j`: it starts later in the text, or at the same place and is listed first. */
  predicate Before(edits: seq<FixEdit>, i: nat, j: nat)
    requires i < |edits| && j < |edits|
  {
    || edits[i].line > edits[j].line
    || (edits[i].line == edits[j].line && edits[i].column > edits[j].column)
    || (edits[i].line == edits[j].line && edits[i].column == edits[j].column && i < j)
  }

  /** Places in the list, in the order in which they are looked at. */
  ghost predicate Visited(edits: seq<FixEdit>, order: seq<nat>) {
    && (forall k :: 0 <= k < |order| ==> order[k] < |edits|)
    && (forall k, l :: 0 <= k < l < |order| ==> Before(edits, order[k], order[l]))
  }

  /** Edit `i` fits and none of `chosen` that is looked at before it is in its way. */
  ghost predicate Free(edits: seq<FixEdit>, lines: seq<string>, chosen: seq<nat>, i: nat)
    requires i < |edits| && Visited(edits, chosen)
  {
    && InBounds(edits[i], lines)
    && forall k :: 0 <= k < |chosen| && Before(edits, chosen[k], i) ==> !Collide(edits[chosen[k]], edits[i])
  }

  /** Exactly the edits that nothing chosen is in the way of are chosen. */
  ghost predicate Chosen(edits: seq<FixEdit>, lines: seq<string>, chosen: seq<nat>) {
    && Visited(edits, chosen)
    && forall i: nat :: i < |edits| ==> (i in chosen <==> Free(edits, lines, chosen, i))
  }

  function Listed(edits: seq<FixEdit>, order: seq<nat>): (r: seq<FixEdit>)
    requires forall k :: 0 <= k < |order| ==> order[k] < |edits|
    ensures |r| == |order|
  {
    seq(|order|, k requires 0 <= k < |order| => edits[order[k]])
  }

  lemma {:induction false} InsertAt(e: FixEdit, sorted: seq<FixEdit>) returns (p: nat)
    requires NeverLater(sorted)
    ensures p <= |sorted| && InsertSorted(e, sorted) == sorted[..p] + [e] + sorted[p..]
    ensures forall k :: 0 <= k < p ==> Later(sorted[k], e)
    ensures forall k :: p <= k < |sorted| ==> !Later(sorted[k], e)
  {
    if sorted != [] && Later(sorted[0], e) {
      p := InsertAt(e, sorted[1..]);
      p := p + 1;
      assert sorted[..p] == [sorted[0]] + sorted[1..][..p - 1] && sorted[p..] == sorted[1..][p - 1..];
      forall k | 0 <= k < |sorted| ensures k < p <==> Later(sorted[k], e) {
        if k > 0 {
          assert sorted[k] == sorted[1..][k - 1];
        }
      }
    } else {
      p := 0;
      forall k | 0 <= k < |sorted| ensures !Later(sorted[k], e) {
        assert k > 0 ==> !Later(sorted[k], sorted[0]);
      }
    }
  }

  ghost predicate Covers(order: seq<nat>, n: nat) {
    forall i: nat :: i < n ==> i in order
  }

  /** The first place put in at `p`, the others moved up by one. */
  function WithFirst(below: seq<nat>, p: nat): (order: seq<nat>)
    requires p <= |below|
    ensures |order| == |below| + 1 && order[p] == 0
    ensures forall k :: 0 <= k < p ==> order[k] == below[k] + 1
    ensures forall k :: p < k < |order| ==> order[k] == below[k - 1] + 1
  {
    seq(|below| + 1, k requires 0 <= k <= |below| =>
      if k < p then below[k] + 1 else if k == p then 0 else below[k - 1] + 1)
  }

  lemma WithFirstCovers(below: seq<nat>, p: nat, n: nat)
    requires p <= |below| && Covers(below, n)
    ensures Covers(WithFirst(below, p), n + 1)
  {
    var order := WithFirst(below, p);
    forall i: nat | i < n + 1 ensures i in order {
      if i > 0 {
        assert i - 1 in below;
        var k :| 0 <= k < |below| && below[k] == i - 1;
        assert order[if k < p then k else k + 1] == i;
      } else {
        assert order[p] == 0;
      }
    }
  }

  lemma BeforeBelow(edits: seq<FixEdit>, below: seq<nat>, p: nat, order: seq<nat>, k: nat, l: nat)
    requires edits != [] && Visited(edits[1..], below) && p <= |below|
    requires order == WithFirst(below, p)
    requires k < l < |order| && k != p && l != p
    ensures order[k] < |edits| && order[l] < |edits| && Before(edits, order[k], order[l])
  {
    var a, b := if k < p then k else k - 1, if l < p then l else l - 1;
    assert Before(edits[1..], below[a], below[b]);
  }

  lemma BeforeFirst(edits: seq<FixEdit>, i: nat)
    requires i + 1 < |edits|
    ensures Later(edits[1..][i], edits[0]) ==> Before(edits, i + 1, 0)
    ensures !Later(edits[1..][i], edits[0]) ==> Before(edits, 0, i + 1)
  {
  }

  lemma SortedOrder(edits: seq<FixEdit>, below: seq<nat>, p: nat, order: seq<nat>)
    requires edits != [] && Visited(edits[1..], below) && p <= |below|
    requires order == WithFirst(below, p)
    requires forall k :: 0 <= k < |below| ==> (k < p <==> Later(edits[1..][below[k]], edits[0]))
    ensures Visited(edits, order)
  {
    forall k, l | 0 <= k < l < |order| ensures Before(edits, order[k], order[l]) {
      if k == p {
        BeforeFirst(edits, below[l - 1]);
      } else if l == p {
        BeforeFirst(edits, below[k]);
      } else {
        BeforeBelow(edits, below, p, order, k, l);
      }
    }
  }

  lemma ListedOrder(edits: seq<FixEdit>, below: seq<nat>, p: nat, order: seq<nat>)
    requires edits != [] && Visited(edits[1..], below) && p <= |below|
    requires order == WithFirst(below, p)
    ensures forall k :: 0 <= k < |order| ==> order[k] < |edits|
    ensures Listed(edits, order)
         == Listed(edits[1..], below)[..p] + [edits[0]] + Listed(edits[1..], below)[p..]
  {
  }

  /** The sort lists every place once. */
  lemma {:induction false} SortOrder(edits: seq<FixEdit>) returns (order: seq<nat>)
    ensures Visited(edits, order) && Covers(order, |edits|)
    ensures SortDescending(edits) == Listed(edits, order)
  {
    if edits == [] {
      order := [];
    } else {
      var below := SortOrder(edits[1..]);
      order := InsertFirst(edits, below);
    }
  }

  lemma InsertFirst(edits: seq<FixEdit>, below: seq<nat>) returns (order: seq<nat>)
    requires edits != [] && Visited(edits[1..], below) && Covers(below, |edits| - 1)
    requires SortDescending(edits[1..]) == Listed(edits[1..], below)
    ensures Visited(edits, order) && Covers(order, |edits|)
    ensures SortDescending(edits) == Listed(edits, order)
  {
    SortOrdered(edits[1..]);
    var p := InsertAt(edits[0], Listed(edits[1..], below));
    order := WithFirst(below, p);
    PlacesLater(edits, below, p);
    SortedOrder(edits, below, p, order);
    ListedOrder(edits, below, p, order);
    WithFirstCovers(below, p, |edits| - 1);
  }

  lemma PlacesLater(edits: seq<FixEdit>, below: seq<nat>, p: nat)
    requires edits != [] && Visited(edits[1..], below) && p <= |below|
    requires forall k :: 0 <= k < p ==> Later(Listed(edits[1..], below)[k], edits[0])
    requires forall k :: p <= k < |below| ==> !Later(Listed(edits[1..], below)[k], edits[0])
    ensures forall k :: 0 <= k < |below| ==> (k < p <==> Later(edits[1..][below[k]], edits[0]))
  {
    forall k | 0 <= k < |below| ensures k < p <==> Later(edits[1..][below[k]], edits[0]) {
      assert Listed(edits[1..], below)[k] == edits[1..][below[k]];
    }
  }

  // One pass over the sorted list.

  /** The places chosen among the first `k` looked at. */
  ghost predicate ChosenUpTo(edits: seq<FixEdit>, lines: seq<string>, order: seq<nat>, k: nat, chosen: seq<nat>)
    requires Visited(edits, order) && k <= |order|
  {
    && Visited(edits, chosen)
    && (forall c :: c in chosen ==> c in order[..k])
    && forall m :: 0 <= m < k ==> (order[m] in chosen <==> Free(edits, lines, chosen, order[m]))
  }

  lemma BeforeIsStrict(edits: seq<FixEdit>, i: nat, j: nat)
    requires i < |edits| && j < |edits| && Before(edits, i, j)
    ensures !Before(edits, j, i) && i != j
  {
  }

  lemma ChosenBefore(edits: seq<FixEdit>, lines: seq<string>, order: seq<nat>, k: nat, chosen: seq<nat>, c: nat)
    requires Visited(edits, order) && k < |order| && ChosenUpTo(edits, lines, order, k, chosen) && c in chosen
    ensures c < |edits| && Before(edits, c, order[k])
  {
    assert c in order[..k];
    var m :| 0 <= m < k && order[m] == c;
  }

  /** What is looked at later is in nobody's way before. */
  lemma FreeStays(edits: seq<FixEdit>, lines: seq<string>, chosen: seq<nat>, next: nat, i: nat)
    requires Visited(edits, chosen + [next]) && Visited(edits, chosen) && i < |edits| && next < |edits|
    requires Before(edits, i, next)
    ensures Free(edits, lines, chosen + [next], i) <==> Free(edits, lines, chosen, i)
  {
    var more := chosen + [next];
    BeforeIsStrict(edits, i, next);
    assert forall k :: 0 <= k < |chosen| ==> more[k] == chosen[k];
    if Free(edits, lines, more, i) {
      forall k | 0 <= k < |chosen| && Before(edits, chosen[k], i) ensures !Collide(edits[chosen[k]], edits[i]) {
        assert more[k] == chosen[k];
      }
    }
  }

  lemma AcceptsIffFree(edits: seq<FixEdit>, lines: seq<string>, order: seq<nat>, k: nat, chosen: seq<nat>)
    requires Visited(edits, order) && k < |order| && ChosenUpTo(edits, lines, order, k, chosen)
    ensures Accepts(Listed(edits, chosen), edits[order[k]], lines) <==> Free(edits, lines, chosen, order[k])
  {
    var valid, e := Listed(edits, chosen), edits[order[k]];
    forall m | 0 <= m < |chosen| ensures Before(edits, chosen[m], order[k]) && valid[m] == edits[chosen[m]] {
      ChosenBefore(edits, lines, order, k, chosen, chosen[m]);
    }
    if Free(edits, lines, chosen, order[k]) {
      forall v | v in valid ensures !Overlaps(v, e) {
        var m :| 0 <= m < |valid| && valid[m] == v;
        assert !Collide(edits[chosen[m]], e);
      }
    }
    if Accepts(valid, e, lines) {
      forall m | 0 <= m < |chosen| ensures !Collide(edits[chosen[m]], e) {
        assert valid[m] in valid;
      }
    }
  }

  lemma ChosenStep(edits: seq<FixEdit>, lines: seq<string>, order: seq<nat>, k: nat, chosen: seq<nat>)
    returns (more: seq<nat>)
    requires Visited(edits, order) && k < |order| && ChosenUpTo(edits, lines, order, k, chosen)
    ensures more == if Free(edits, lines, chosen, order[k]) then chosen + [order[k]] else chosen
    ensures ChosenUpTo(edits, lines, order, k + 1, more)
  {
    more := chosen;
    assert order[..k + 1] == order[..k] + [order[k]];
    var i := order[k];
    forall c | c in chosen ensures Before(edits, c, i) {
      ChosenBefore(edits, lines, order, k, chosen, c);
    }
    assert i !in chosen;
    if Free(edits, lines, chosen, i) {
      more := chosen + [i];
      assert Visited(edits, more);
      forall m | 0 <= m < k ensures order[m] in more <==> Free(edits, lines, more, order[m]) {
        FreeStays(edits, lines, chosen, i, order[m]);
        BeforeIsStrict(edits, order[m], i);
      }
      assert Free(edits, lines, more, i) by {
        forall m | 0 <= m < |more| && Before(edits, more[m], i) ensures !Collide(edits[more[m]], edits[i]) {
          assert m < |chosen|;
        }
      }
      assert more[k - k + |chosen|] == i;
    }
  }

  lemma AcceptedStep(sorted: seq<FixEdit>, k: nat, valid: seq<FixEdit>, lines: seq<string>)
    requires k < |sorted|
    ensures Accepted(sorted[k..], valid, lines)
         == Accepted(sorted[k + 1..], if Accepts(valid, sorted[k], lines) then valid + [sorted[k]] else valid, lines)
  {
    assert sorted[k..][1..] == sorted[k + 1..];
  }

  lemma ListedNext(edits: seq<FixEdit>, chosen: seq<nat>, i: nat)
    requires (forall k :: 0 <= k < |chosen| ==> chosen[k] < |edits|) && i < |edits|
    ensures forall k :: 0 <= k < |chosen + [i]| ==> (chosen + [i])[k] < |edits|
    ensures Listed(edits, chosen + [i]) == Listed(edits, chosen) + [edits[i]]
  {
  }

  lemma {:induction false} AcceptedOrder(edits: seq<FixEdit>, lines: seq<string>, order: seq<nat>, k: nat,
                                         chosen: seq<nat>)
    returns (all: seq<nat>)
    requires Visited(edits, order) && k <= |order| && ChosenUpTo(edits, lines, order, k, chosen)
    ensures ChosenUpTo(edits, lines, order, |order|, all)
    ensures Accepted(Listed(edits, order)[k..], Listed(edits, chosen), lines) == Listed(edits, all)
    decreases |order| - k
  {
    if k == |order| {
      all := chosen;
    } else {
      AcceptsIffFree(edits, lines, order, k, chosen);
      var more := ChosenStep(edits, lines, order, k, chosen);
      AcceptedStep(Listed(edits, order), k, Listed(edits, chosen), lines);
      ListedNext(edits, chosen, order[k]);
      all := AcceptedOrder(edits, lines, order, k + 1, more);
    }
  }

  /**
   What is applied, described on the list as given: its edits at some places, in the order in which they are
   looked at, and a place is among them if and only if its edit is in bounds and does not collide with one
   chosen before it.
   */
  lemma AcceptedIsChosen(edits: seq<FixEdit>, lines: seq<string>) returns (chosen: seq<nat>)
    ensures Chosen(edits, lines, chosen) && AcceptedEdits(edits, lines) == Listed(edits, chosen)
  {
    var order := SortOrder(edits);
    chosen := AcceptedOrder(edits, lines, order, 0, []);
    assert Listed(edits, order)[0..] == Listed(edits, order) && Listed(edits, []) == [];
    forall i: nat | i < |edits| ensures i in chosen <==> Free(edits, lines, chosen, i) {
      assert i in order;
      var m :| 0 <= m < |order| && order[m] == i;
    }
  }

  // ----- there is no other choice -----

  lemma {:induction false} SameChosen(edits: seq<FixEdit>, lines: seq<string>, order: seq<nat>, a: seq<nat>,
                                      b: seq<nat>, m: nat)
    requires Visited(edits, order) && Covers(order, |edits|) && Chosen(edits, lines, a) && Chosen(edits, lines, b)
    requires m < |order|
    ensures order[m] in a <==> order[m] in b
    decreases m
  {
    forall l | 0 <= l < m ensures order[l] in a <==> order[l] in b {
      SameChosen(edits, lines, order, a, b, l);
    }
    FreeAlike(edits, lines, order, a, b, m);
    FreeAlike(edits, lines, order, b, a, m);
  }

  lemma FreeAlike(edits: seq<FixEdit>, lines: seq<string>, order: seq<nat>, a: seq<nat>, b: seq<nat>, m: nat)
    requires Visited(edits, order) && Covers(order, |edits|) && Visited(edits, a) && Visited(edits, b) && m < |order|
    requires forall l :: 0 <= l < m ==> (order[l] in a <==> order[l] in b)
    ensures Free(edits, lines, a, order[m]) ==> Free(edits, lines, b, order[m])
  {
    if Free(edits, lines, a, order[m]) {
      forall k | 0 <= k < |b| && Before(edits, b[k], order[m]) ensures !Collide(edits[b[k]], edits[order[m]]) {
        assert b[k] in order && b[k] in b;
        var l :| 0 <= l < |order| && order[l] == b[k];
        assert l < m by {
          if m < l {
            BeforeIsStrict(edits, order[m], order[l]);
          }
        }
        var c :| 0 <= c < |a| && a[c] == b[k];
      }
    }
  }

  lemma NoElements(a: seq<nat>, b: seq<nat>)
    requires forall i: nat :: i in a ==> i in b
    ensures b == [] ==> a == []
  {
    if a != [] {
      assert a[0] in a;
    }
  }

  lemma FirstOf(edits: seq<FixEdit>, a: seq<nat>, i: nat)
    requires Visited(edits, a) && i in a
    ensures i < |edits| && (i == a[0] || Before(edits, a[0], i))
  {
    var k :| 0 <= k < |a| && a[k] == i;
  }

  lemma {:induction false} SameElements(edits: seq<FixEdit>, a: seq<nat>, b: seq<nat>)
    requires Visited(edits, a) && Visited(edits, b) && forall i: nat :: i in a <==> i in b
    ensures a == b
    decreases |a|
  {
    if a == [] || b == [] {
      NoElements(a, b);
      NoElements(b, a);
    } else {
      assert a[0] in b && b[0] in a;
      assert a[0] == b[0] by {
        FirstOf(edits, a, b[0]);
        FirstOf(edits, b, a[0]);
      }
      forall i: nat ensures i in a[1..] <==> i in b[1..] {
        InTail(edits, a, i);
        InTail(edits, b, i);
      }
      SameElements(edits, a[1..], b[1..]);
    }
  }

  lemma InTail(edits: seq<FixEdit>, a: seq<nat>, i: nat)
    requires Visited(edits, a) && a != []
    ensures i in a[1..] <==> i in a && i != a[0]
  {
    if i in a[1..] {
      var k :| 0 <= k < |a[1..]| && a[1..][k] == i;
      assert Before(edits, a[0], a[k + 1]);
    }
  }

  /** Two choices of this kind are the same. */
  lemma ChosenIsUnique(edits: seq<FixEdit>, lines: seq<string>, a: seq<nat>, b: seq<nat>)
    requires Chosen(edits, lines, a) && Chosen(edits, lines, b)
    ensures a == b
  {
    var order := SortOrder(edits);
    forall i: nat ensures i in a <==> i in b {
      if i < |edits| {
        assert i in order;
        var m :| 0 <= m < |order| && order[m] == i;
        SameChosen(edits, lines, order, a, b, m);
      }
    }
    SameElements(edits, a, b);
  }

  // ----- when nothing is skipped -----

  /** Every edit is in bounds and no two collide. */
  ghost predicate Clean(edits: seq<FixEdit>, lines: seq<string>) {
    && (forall i :: 0 <= i < |edits| ==> InBounds(edits[i], lines))
    && (forall i, j :: 0 <= i < j < |edits| ==> !Collide(edits[i], edits[j]))
  }

  lemma {:induction false} ManyPlaces(edits: seq<FixEdit>, order: seq<nat>) returns (places: set<nat>)
    requires Visited(edits, order)
    ensures |places| == |order| && forall i: nat :: i in places <==> i in order
    decreases |order|
  {
    if order == [] {
      places := {};
    } else {
      var below := ManyPlaces(edits, order[1..]);
      places := below + {order[0]};
      InTail(edits, order, order[0]);
      forall i: nat ensures i in places <==> i in order {
        InTail(edits, order, i);
      }
    }
  }

  lemma {:induction false} AllPlaces(n: nat) returns (all: set<nat>)
    ensures |all| == n && forall i: nat :: i in all <==> i < n
  {
    if n == 0 {
      all := {};
    } else {
      all := AllPlaces(n - 1);
      all := all + {n - 1};
    }
  }

  lemma CoversIff(edits: seq<FixEdit>, order: seq<nat>)
    requires Visited(edits, order)
    ensures Covers(order, |edits|) <==> |order| == |edits|
    ensures |order| <= |edits|
  {
    var places := ManyPlaces(edits, order);
    var all := AllPlaces(|edits|);
    forall i: nat | i in places ensures i in all {
      var k :| 0 <= k < |order| && order[k] == i;
    }
    Fewer(places, all);
    if Covers(order, |edits|) {
      Fewer(all, places);
    } else {
      var i: nat :| i < |edits| && i !in order;
      Fewer(places, all - {i});
    }
  }

  lemma ChosenAllIff(edits: seq<FixEdit>, lines: seq<string>, chosen: seq<nat>)
    requires Chosen(edits, lines, chosen)
    ensures Covers(chosen, |edits|) <==> Clean(edits, lines)
  {
    if Covers(chosen, |edits|) {
      forall i | 0 <= i < |edits| ensures InBounds(edits[i], lines) {
        assert i in chosen && Free(edits, lines, chosen, i);
      }
      forall i, j | 0 <= i < j < |edits| ensures !Collide(edits[i], edits[j]) {
        NoneCollide(edits, lines, chosen, i, j);
        NoneCollide(edits, lines, chosen, j, i);
      }
    }
    if Clean(edits, lines) {
      forall i: nat | i < |edits| ensures i in chosen {
        forall k | 0 <= k < |chosen| && Before(edits, chosen[k], i) ensures !Collide(edits[chosen[k]], edits[i]) {
          BeforeIsStrict(edits, chosen[k], i);
        }
        assert Free(edits, lines, chosen, i);
      }
    }
  }

  lemma NoneCollide(edits: seq<FixEdit>, lines: seq<string>, chosen: seq<nat>, i: nat, j: nat)
    requires Chosen(edits, lines, chosen) && Covers(chosen, |edits|) && i < |edits| && j < |edits|
    ensures Before(edits, i, j) ==> !Collide(edits[i], edits[j]) && !Collide(edits[j], edits[i])
  {
    if Before(edits, i, j) {
      assert i in chosen && j in chosen;
      var k :| 0 <= k < |chosen| && chosen[k] == i;
      assert Free(edits, lines, chosen, j);
    }
  }

  /** Every edit is applied if and only if all are in bounds and no two collide. */
  lemma NothingSkippedIff(source: string, edits: seq<FixEdit>)
    ensures Applied(source, edits).skipped == 0 <==> Clean(edits, SplitLines(source).lines)
    ensures Applied(source, edits).skipped == 0 <==> Applied(source, edits).applied == |edits|
  {
    var lines := SplitLines(source).lines;
    var chosen := AcceptedIsChosen(edits, lines);
    ChosenAllIff(edits, lines, chosen);
    CoversIff(edits, chosen);
  }
}
