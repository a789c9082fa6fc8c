/**
 The digest of a contract-test suite (testSuiteDigest of leak-proof.ts). The hash is a parameter; which
 suites share the text that is hashed is in SuiteIdentity.
 */
module SuiteDigest {
  import opened TextLines

  datatype Obligation = Obligation(id: string, assertion: string)

  datatype Suite = Suite(faultInjection: seq<Obligation>, effectEgress: seq<Obligation>,
                         capabilityDenial: seq<Obligation>, boundary: seq<Obligation>,
                         substrateViolation: seq<Obligation>)

  /** An obligation under its dimension. */
  datatype Entry = Entry(dimension: string, id: string, assertion: string)

  function EntriesOf(dimension: string, obligations: seq<Obligation>): seq<Entry> {
    if obligations == [] then []
    else [Entry(dimension, obligations[0].id, obligations[0].assertion)] + EntriesOf(dimension, obligations[1..])
  }

  function Entries(suite: Suite): seq<Entry> {
    EntriesOf("fault", suite.faultInjection) + EntriesOf("egress", suite.effectEgress)
    + EntriesOf("deny", suite.capabilityDenial) + EntriesOf("bound", suite.boundary)
    + EntriesOf("subst", suite.substrateViolation)
  }

  function Line(e: Entry): string {
    e.dimension + "\0" + e.id + "\0" + e.assertion
  }

  function Lines(entries: seq<Entry>): seq<string> {
    if entries == [] then [] else [Line(entries[0])] + Lines(entries[1..])
  }

  // ----- sorting -----

  /** The order of Array.prototype.sort on strings. */
  predicate AtMost(a: string, b: string) {
    a == "" || (b != "" && (a[0] < b[0] || (a[0] == b[0] && AtMost(a[1..], b[1..]))))
  }

  lemma {:induction false} AtMostTotal(a: string, b: string)
    ensures AtMost(a, b) || AtMost(b, a)
    ensures AtMost(a, b) && AtMost(b, a) ==> a == b
    decreases |a|
  {
    if a != "" && b != "" {
      AtMostTotal(a[1..], b[1..]);
      assert a == [a[0]] + a[1..] && b == [b[0]] + b[1..];
    }
  }

  lemma {:induction false} AtMostTransitive(a: string, b: string, c: string)
    requires AtMost(a, b) && AtMost(b, c)
    ensures AtMost(a, c)
    decreases |a|
  {
    if a != "" && a[0] == b[0] == c[0] {
      AtMostTransitive(a[1..], b[1..], c[1..]);
    }
  }

  function Insert(x: string, xs: seq<string>): seq<string> {
    if xs == [] || AtMost(x, xs[0]) then [x] + xs else [xs[0]] + Insert(x, xs[1..])
  }

  function Sorted(xs: seq<string>): seq<string> {
    if xs == [] then [] else Insert(xs[0], Sorted(xs[1..]))
  }

  /** Every string is at most all that follow it. */
  predicate IsSorted(xs: seq<string>) {
    xs == [] || ((forall y :: y in xs[1..] ==> AtMost(xs[0], y)) && IsSorted(xs[1..]))
  }

  lemma HeadAndTail<T>(xs: seq<T>)
    requires xs != []
    ensures multiset(xs) == multiset{xs[0]} + multiset(xs[1..])
  {
    assert xs == [xs[0]] + xs[1..];
  }

  lemma {:induction false} InsertKeepsSorted(x: string, xs: seq<string>)
    requires IsSorted(xs)
    ensures IsSorted(Insert(x, xs)) && multiset(Insert(x, xs)) == multiset{x} + multiset(xs)
    decreases |xs|
  {
    if xs != [] {
      var head, rest := xs[0], xs[1..];
      HeadAndTail(xs);
      if AtMost(x, head) {
        assert ([x] + xs)[1..] == xs;
        forall y | y in xs ensures AtMost(x, y) {
          if y != head {
            AtMostTransitive(x, head, y);
          }
        }
      } else {
        AtMostTotal(x, head);
        InsertKeepsSorted(x, rest);
        assert ([head] + Insert(x, rest))[1..] == Insert(x, rest);
        forall y | y in Insert(x, rest) ensures AtMost(head, y) {
          assert y in multiset(Insert(x, rest));
        }
      }
    }
  }

  lemma {:induction false} SortedIsSorted(xs: seq<string>)
    ensures IsSorted(Sorted(xs)) && multiset(Sorted(xs)) == multiset(xs)
    decreases |xs|
  {
    if xs != [] {
      SortedIsSorted(xs[1..]);
      InsertKeepsSorted(xs[0], Sorted(xs[1..]));
      HeadAndTail(xs);
    }
  }

  lemma {:induction false} SortedIsUnique(xs: seq<string>, ys: seq<string>)
    requires IsSorted(xs) && IsSorted(ys) && multiset(xs) == multiset(ys)
    ensures xs == ys
    decreases |xs|
  {
    assert |multiset(xs)| == |xs| && |multiset(ys)| == |ys|;
    if xs != [] {
      HeadAndTail(xs);
      HeadAndTail(ys);
      assert xs[0] in multiset(ys) && ys[0] in multiset(xs);
      AtMostTotal(xs[0], ys[0]);
      AtMostTotal(xs[0], xs[0]);
      assert xs[0] == ys[0];
      assert multiset(xs[1..]) == multiset(xs) - multiset{xs[0]};
      assert multiset(ys[1..]) == multiset(ys) - multiset{ys[0]};
      SortedIsUnique(xs[1..], ys[1..]);
    }
  }

  /** Two lists sort to the same if and only if they hold the same strings as often. */
  lemma SortForgetsOnlyOrder(xs: seq<string>, ys: seq<string>)
    ensures Sorted(xs) == Sorted(ys) <==> multiset(xs) == multiset(ys)
  {
    SortedIsSorted(xs);
    SortedIsSorted(ys);
    if multiset(xs) == multiset(ys) {
      SortedIsUnique(Sorted(xs), Sorted(ys));
    }
  }

  // ----- the hashed text -----

  function PreImage(suite: Suite): string {
    JoinNewlines(Sorted(Lines(Entries(suite))))
  }

  method PushLines(dimension: string, obligations: seq<Obligation>, before: seq<string>) returns (lines: seq<string>)
    ensures lines == before + Lines(EntriesOf(dimension, obligations))
  {
    lines := before;
    for i := 0 to |obligations|
      invariant lines + Lines(EntriesOf(dimension, obligations[i..])) == before + Lines(EntriesOf(dimension, obligations))
    {
      LinesStep(dimension, obligations, i);
      lines := lines + [dimension + "\0" + obligations[i].id + "\0" + obligations[i].assertion];
    }
  }

  lemma LinesStep(dimension: string, obligations: seq<Obligation>, i: nat)
    requires i < |obligations|
    ensures Lines(EntriesOf(dimension, obligations[i..]))
         == [dimension + "\0" + obligations[i].id + "\0" + obligations[i].assertion]
            + Lines(EntriesOf(dimension, obligations[i + 1..]))
  {
    assert obligations[i..][1..] == obligations[i + 1..];
    var rest := EntriesOf(dimension, obligations[i + 1..]);
    var first := Entry(dimension, obligations[i].id, obligations[i].assertion);
    assert ([first] + rest)[1..] == rest;
  }

  lemma {:induction false} LinesConcat(a: seq<Entry>, b: seq<Entry>)
    ensures Lines(a + b) == Lines(a) + Lines(b)
    decreases |a|
  {
    if a == [] {
      assert a + b == b;
    } else {
      LinesConcat(a[1..], b);
      assert (a + b)[1..] == a[1..] + b;
    }
  }

  lemma LinesOfFive(a: seq<Entry>, b: seq<Entry>, c: seq<Entry>, d: seq<Entry>, e: seq<Entry>)
    ensures Lines(a + b + c + d + e) == Lines(a) + Lines(b) + Lines(c) + Lines(d) + Lines(e)
  {
    LinesConcat(a, b);
    LinesConcat(a + b, c);
    LinesConcat(a + b + c, d);
    LinesConcat(a + b + c + d, e);
  }

  /** The lines of all five dimensions, one loop after the other. */
  method CollectLines(suite: Suite) returns (lines: seq<string>)
    ensures lines == Lines(Entries(suite))
  {
    LinesOfFive(EntriesOf("fault", suite.faultInjection), EntriesOf("egress", suite.effectEgress),
                EntriesOf("deny", suite.capabilityDenial), EntriesOf("bound", suite.boundary),
                EntriesOf("subst", suite.substrateViolation));
    lines := PushLines("fault", suite.faultInjection, []);
    assert lines == Lines(EntriesOf("fault", suite.faultInjection));
    lines := PushLines("egress", suite.effectEgress, lines);
    lines := PushLines("deny", suite.capabilityDenial, lines);
    lines := PushLines("bound", suite.boundary, lines);
    lines := PushLines("subst", suite.substrateViolation, lines);
  }

  /** testSuiteDigest, with the hash as a parameter */
  method TestSuiteDigest(suite: Suite, sha256: string -> string) returns (digest: string)
    ensures digest == sha256(PreImage(suite))
  {
    var lines := CollectLines(suite);
    digest := sha256(JoinNewlines(Sorted(lines)));
  }
}
