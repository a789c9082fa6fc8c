/**
 Exactly which witnesses vouch for an artifact, forged ones included, which findings a proof lists, and the order in
 which the lines of a suite are hashed (leak-proof.ts).
 */
module WitnessForms {
  import opened LeakWitness
  import opened Options
  import opened SuiteDigest

  // ----- vouching -----

  lemma {:induction false} OnlyWarnings(leaks: seq<Finding>)
    requires forall l :: l in leaks ==> l.severity == Warn
    ensures CountDenies(leaks) == 0
    decreases |leaks|
  {
    if leaks != [] {
      assert leaks[0] in leaks;
      OnlyWarnings(leaks[1..]);
    }
  }

  /**
   Any witness, built or forged, vouches for the expected artifact if and only if it is of the right schema, bound to
   it and to a suite, and its proof is of the right schema, says clean and no denial, and lists warnings only.
   */
  lemma VouchesIff(w: Witness, expected: string)
    ensures VouchesClean(w, expected)
       <==> && w.schema == "fungi.testwitness.v1" && w.wasmSha256 == expected && expected != "" && w.suiteDigest != ""
            && w.proof.schema == "fungi.leakproof.v1" && w.proof.verdict == "clean" && w.proof.denies == 0
            && forall l :: l in w.proof.leaks ==> l.severity == Warn
  {
    if forall l :: l in w.proof.leaks ==> l.severity == Warn {
      OnlyWarnings(w.proof.leaks);
    }
  }

  // ----- findings -----

  ghost predicate Begins(code: string, prefix: string) {
    exists rest :: code == prefix + rest
  }

  /** The families of codes that are leaks, by category. */
  ghost predicate InFamily(code: string, c: Category) {
    match c
    case TenantIsolation => Begins(code, "FUNGI-TENANT-")
    case SecretEgress => Begins(code, "FUNGI-SECRET-") || Begins(code, "FUNGI-VALUESTATE-")
    case PrivacyEgress => Begins(code, "FUNGI-PRIVACY-")
    case UndeclaredEffect => Begins(code, "FUNGI-EFFECT-") || Begins(code, "FUNGI-STDLIB-")
    case SubstrateMisuse => Begins(code, "FUNGI-SUBSTRATE-")
  }

  lemma PrefixIff(code: string, prefix: string)
    ensures prefix <= code <==> Begins(code, prefix)
  {
    if prefix <= code {
      assert code == prefix + code[|prefix|..];
    }
  }

  lemma FamilyIff(code: string, c: Category)
    ensures CategoryOf(code) == Some(c) <==> InFamily(code, c)
  {
    PrefixIff(code, "FUNGI-TENANT-");
    PrefixIff(code, "FUNGI-SECRET-");
    PrefixIff(code, "FUNGI-VALUESTATE-");
    PrefixIff(code, "FUNGI-PRIVACY-");
    PrefixIff(code, "FUNGI-EFFECT-");
    PrefixIff(code, "FUNGI-STDLIB-");
    PrefixIff(code, "FUNGI-SUBSTRATE-");
    FamiliesDiffer(code);
  }

  lemma FamiliesDiffer(code: string)
    ensures "FUNGI-TENANT-" <= code ==> code[6] == 'T'
    ensures "FUNGI-SECRET-" <= code ==> code[6] == 'S' && code[7] == 'E'
    ensures "FUNGI-VALUESTATE-" <= code ==> code[6] == 'V'
    ensures "FUNGI-PRIVACY-" <= code ==> code[6] == 'P'
    ensures "FUNGI-EFFECT-" <= code ==> code[6] == 'E'
    ensures "FUNGI-STDLIB-" <= code ==> code[6] == 'S' && code[7] == 'T'
    ensures "FUNGI-SUBSTRATE-" <= code ==> code[6] == 'S' && code[7] == 'U'
  {
  }

  /** The finding made of a diagnostic: an error denies, a warning warns, anything else is no finding. */
  ghost predicate IsFindingOf(f: Finding, d: Diagnostic) {
    && f.code == d.code && InFamily(d.code, f.category)
    && ((d.severity == Error && f.severity == Deny) || (d.severity == Warning && f.severity == Warn))
  }

  lemma FindingOfIff(d: Diagnostic, f: Finding)
    ensures FindingsOf(d) == [f] <==> IsFindingOf(f, d)
  {
    FamilyIff(d.code, f.category);
  }

  ghost predicate IsLeak(d: Diagnostic) {
    exists f :: IsFindingOf(f, d)
  }

  lemma LeakIff(d: Diagnostic)
    ensures FindingsOf(d) == if IsLeak(d) then [FindingsOf(d)[0]] else []
    ensures IsLeak(d) ==> IsFindingOf(FindingsOf(d)[0], d)
  {
    if FindingsOf(d) != [] {
      FindingOfIff(d, FindingsOf(d)[0]);
    }
    if IsLeak(d) {
      var f :| IsFindingOf(f, d);
      FindingOfIff(d, f);
    }
  }

  /** The findings are those of the diagnostics at these places, in their order, and every leak is there. */
  ghost predicate Lists(ds: seq<Diagnostic>, places: seq<nat>, findings: seq<Finding>) {
    && |places| == |findings| && Ascending(places)
    && (forall k :: 0 <= k < |places| ==> places[k] < |ds| && IsFindingOf(findings[k], ds[places[k]]))
    && (forall i: nat :: i < |ds| && IsLeak(ds[i]) ==> i in places)
  }

  predicate Ascending(places: seq<nat>) {
    forall k, l :: 0 <= k < l < |places| ==> places[k] < places[l]
  }

  lemma AscendingUp(places: seq<nat>)
    requires Ascending(places)
    ensures Ascending(MovedUp(places)) && Ascending([0] + MovedUp(places))
  {
  }

  function MovedUp(places: seq<nat>): (moved: seq<nat>)
    ensures |moved| == |places| && forall k :: 0 <= k < |moved| ==> moved[k] == places[k] + 1
  {
    seq(|places|, k requires 0 <= k < |places| => places[k] + 1)
  }

  lemma InMovedUp(places: seq<nat>, i: nat)
    requires i in places
    ensures i + 1 in MovedUp(places)
  {
    var k :| 0 <= k < |places| && places[k] == i;
    assert MovedUp(places)[k] == i + 1;
  }

  lemma ListsSkip(d: Diagnostic, rest: seq<Diagnostic>, places: seq<nat>, findings: seq<Finding>)
    requires Lists(rest, places, findings) && !IsLeak(d)
    ensures Lists([d] + rest, MovedUp(places), findings)
  {
    var ds := [d] + rest;
    AscendingUp(places);
    forall i: nat | i < |ds| && IsLeak(ds[i]) ensures i in MovedUp(places) {
      assert i > 0 && ds[i] == rest[i - 1];
      InMovedUp(places, i - 1);
    }
  }

  lemma InPlaces(d: Diagnostic, rest: seq<Diagnostic>, places: seq<nat>, i: nat)
    requires forall j: nat :: j < |rest| && IsLeak(rest[j]) ==> j in places
    requires i < |[d] + rest| && IsLeak(([d] + rest)[i])
    ensures i in [0] + MovedUp(places)
  {
    if i > 0 {
      assert ([d] + rest)[i] == rest[i - 1];
      InMovedUp(places, i - 1);
    }
  }

  lemma ListsTake(d: Diagnostic, rest: seq<Diagnostic>, places: seq<nat>, f: Finding, findings: seq<Finding>)
    requires Lists(rest, places, findings) && IsFindingOf(f, d)
    ensures Lists([d] + rest, [0] + MovedUp(places), [f] + findings)
  {
    var ds, all := [d] + rest, [0] + MovedUp(places);
    AscendingUp(places);
    forall k | 0 <= k < |all| ensures all[k] < |ds| && IsFindingOf(([f] + findings)[k], ds[all[k]]) {
      if k > 0 {
        assert ds[all[k]] == rest[places[k - 1]];
      }
    }
    forall i: nat | i < |ds| && IsLeak(ds[i]) ensures i in all {
      InPlaces(d, rest, places, i);
    }
  }

  /** A proof lists the finding of every leak, in the order of the diagnostics, and nothing else. */
  lemma {:induction false} FindingsAre(ds: seq<Diagnostic>) returns (places: seq<nat>)
    ensures Lists(ds, places, Findings(ds))
    decreases |ds|
  {
    if ds == [] {
      places := [];
    } else {
      var d, rest := ds[0], ds[1..];
      assert ds == [d] + rest;
      var below := FindingsAre(rest);
      LeakIff(d);
      if IsLeak(d) {
        ListsTake(d, rest, below, FindingsOf(d)[0], Findings(rest));
        places := [0] + MovedUp(below);
      } else {
        ListsSkip(d, rest, below, Findings(rest));
        places := MovedUp(below);
        assert [] + Findings(rest) == Findings(rest);
      }
    }
  }

  // ----- the summary -----

  lemma {:induction false} CountLast(leaks: seq<Finding>, l: Finding, c: Category)
    ensures CountDenies(leaks + [l]) == CountDenies(leaks) + if l.severity == Deny then 1 else 0
    ensures CountIn(leaks + [l], c) == CountIn(leaks, c) + if l.category == c then 1 else 0
    decreases |leaks|
  {
    if leaks == [] {
      assert leaks + [l] == [l] && [l][1..] == [];
    } else {
      CountLast(leaks[1..], l, c);
      assert (leaks + [l])[1..] == leaks[1..] + [l];
    }
  }

  ghost function Denying(leaks: seq<Finding>): set<nat> {
    set i: nat | i < |leaks| && leaks[i].severity == Deny
  }

  ghost function Within(leaks: seq<Finding>, c: Category): set<nat> {
    set i: nat | i < |leaks| && leaks[i].category == c
  }

  lemma DenyingLast(front: seq<Finding>, l: Finding)
    ensures |Denying(front + [l])| == |Denying(front)| + if l.severity == Deny then 1 else 0
  {
    var all, k := front + [l], |front|;
    forall i: nat ensures i in Denying(all) <==> i in Denying(front) || (i == k && l.severity == Deny) {
      assert i < k ==> all[i] == front[i];
    }
    assert Denying(all) == Denying(front) + if l.severity == Deny then {k} else {};
  }

  lemma WithinLast(front: seq<Finding>, l: Finding, c: Category)
    ensures |Within(front + [l], c)| == |Within(front, c)| + if l.category == c then 1 else 0
  {
    var all, k := front + [l], |front|;
    forall i: nat ensures i in Within(all, c) <==> i in Within(front, c) || (i == k && l.category == c) {
      assert i < k ==> all[i] == front[i];
    }
    assert Within(all, c) == Within(front, c) + if l.category == c then {k} else {};
  }

  /** The counts are the numbers of findings that deny, and of those of each category. */
  lemma {:induction false} CountsAre(leaks: seq<Finding>, c: Category)
    ensures CountDenies(leaks) == |Denying(leaks)| && CountIn(leaks, c) == |Within(leaks, c)|
    decreases |leaks|
  {
    if leaks != [] {
      var k := |leaks| - 1;
      var front, l := leaks[..k], leaks[k];
      assert leaks == front + [l];
      CountsAre(front, c);
      CountLast(front, l, c);
      DenyingLast(front, l);
      WithinLast(front, l, c);
    }
  }

  /** The verdict is "leak" if and only if some error is a leak, and "clean" otherwise; the counts are those. */
  lemma SummaryIs(ds: seq<Diagnostic>, p: Proof, c: Category)
    requires IsProofOf(p, ds)
    ensures p.verdict == if exists d :: d in ds && d.severity == Error && IsLeak(d) then "leak" else "clean"
    ensures p.denies == |Denying(p.leaks)| && p.total == |p.leaks| && At(p.byCategory, c) == |Within(p.leaks, c)|
  {
    CountsAre(p.leaks, c);
    DeniesAreLeakErrors(ds);
    forall d | d in ds ensures IsLeakError(d) <==> d.severity == Error && IsLeak(d) {
      LeakIff(d);
    }
  }

  // ----- the order of the lines of a suite -----

  /** `a` is a beginning of `b`, or has the smaller code unit where the two first differ. */
  ghost predicate NotAfter(a: string, b: string) {
    exists k: nat :: k <= |a| && k <= |b| && a[..k] == b[..k] &&
      (k == |a| || (k < |b| && k < |a| && a[k] as int < b[k] as int))
  }

  lemma {:induction false} AtMostIff(a: string, b: string)
    ensures AtMost(a, b) <==> NotAfter(a, b)
    decreases |a|
  {
    if a == "" {
      assert a[..0] == b[..0];
    } else if b != "" {
      AtMostIff(a[1..], b[1..]);
      if a[0] < b[0] {
        assert a[..0] == b[..0];
      } else if a[0] == b[0] {
        NotAfterCons(a, b);
      }
    }
  }

  lemma NotAfterCons(a: string, b: string)
    requires a != "" && b != "" && a[0] == b[0]
    ensures NotAfter(a, b) <==> NotAfter(a[1..], b[1..])
  {
    var c, d := a[1..], b[1..];
    if NotAfter(c, d) {
      var k: nat :| k <= |c| && k <= |d| && c[..k] == d[..k]
                    && (k == |c| || (k < |d| && k < |c| && c[k] as int < d[k] as int));
      assert a[..k + 1] == [a[0]] + c[..k] && b[..k + 1] == [b[0]] + d[..k];
    }
    if NotAfter(a, b) {
      var k: nat :| k <= |a| && k <= |b| && a[..k] == b[..k]
                    && (k == |a| || (k < |b| && k < |a| && a[k] as int < b[k] as int));
      assert k > 0 ==> c[..k - 1] == a[..k][1..] && d[..k - 1] == b[..k][1..];
    }
  }
}
