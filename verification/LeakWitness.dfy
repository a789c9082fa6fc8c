/**
 The leak proof of a module and the witness that carries it (leak-proof.ts). The prose of findings,
 the code anchors and the hash are left out.
 */
module LeakWitness {
  import opened Options

  datatype Severity = Error | Warning | Info

  datatype Diagnostic = Diagnostic(code: string, severity: Severity)

  datatype Category = TenantIsolation | SecretEgress | PrivacyEgress | UndeclaredEffect | SubstrateMisuse

  /** What a finding may claim; anything but the first two is forged. */
  datatype LeakSeverity = Deny | Warn | Forged(text: string)

  datatype Finding = Finding(code: string, category: Category, severity: LeakSeverity)

  datatype Proof = Proof(schema: string, verdict: string, leaks: seq<Finding>, total: nat, denies: nat,
                         byCategory: map<Category, nat>)

  datatype Witness = Witness(schema: string, wasmSha256: string, proof: Proof, suiteDigest: string)

  const PROOF_SCHEMA := "fungi.leakproof.v1"
  const WITNESS_SCHEMA := "fungi.testwitness.v1"

  /** The first matching prefix decides; most codes are no leaks. */
  function CategoryOf(code: string): Option<Category> {
    if "FUNGI-TENANT-" <= code then Some(TenantIsolation)
    else if "FUNGI-SECRET-" <= code || "FUNGI-VALUESTATE-" <= code then Some(SecretEgress)
    else if "FUNGI-PRIVACY-" <= code then Some(PrivacyEgress)
    else if "FUNGI-EFFECT-" <= code || "FUNGI-STDLIB-" <= code then Some(UndeclaredEffect)
    else if "FUNGI-SUBSTRATE-" <= code then Some(SubstrateMisuse)
    else None
  }

  /** A diagnostic that refuses the module. */
  predicate IsLeakError(d: Diagnostic) {
    d.severity.Error? && CategoryOf(d.code).Some?
  }

  function FindingsOf(d: Diagnostic): seq<Finding> {
    if d.severity.Info? || CategoryOf(d.code).None? then []
    else [Finding(d.code, CategoryOf(d.code).value, if d.severity.Error? then Deny else Warn)]
  }

  function Findings(diagnostics: seq<Diagnostic>): seq<Finding> {
    if diagnostics == [] then [] else FindingsOf(diagnostics[0]) + Findings(diagnostics[1..])
  }

  function CountDenies(leaks: seq<Finding>): nat {
    if leaks == [] then 0 else (if leaks[0].severity.Deny? then 1 else 0) + CountDenies(leaks[1..])
  }

  function CountIn(leaks: seq<Finding>, c: Category): nat {
    if leaks == [] then 0 else (if leaks[0].category == c then 1 else 0) + CountIn(leaks[1..], c)
  }

  function At(counts: map<Category, nat>, c: Category): nat {
    if c in counts then counts[c] else 0
  }

  // ----- building -----

  lemma FindingsStep(diagnostics: seq<Diagnostic>, i: nat, leaks: seq<Finding>)
    requires i < |diagnostics|
    ensures leaks + Findings(diagnostics[i..]) == leaks + FindingsOf(diagnostics[i]) + Findings(diagnostics[i + 1..])
    ensures FindingsOf(diagnostics[i]) == [] ==> leaks + FindingsOf(diagnostics[i]) == leaks
  {
    assert diagnostics[i..][1..] == diagnostics[i + 1..];
  }

  method CollectFindings(diagnostics: seq<Diagnostic>) returns (leaks: seq<Finding>)
    ensures leaks == Findings(diagnostics)
  {
    leaks := [];
    for i := 0 to |diagnostics|
      invariant leaks + Findings(diagnostics[i..]) == Findings(diagnostics)
    {
      FindingsStep(diagnostics, i, leaks);
      var d := diagnostics[i];
      if d.severity.Info? {
        continue;
      }
      var category := CategoryOf(d.code);
      if category.None? {
        continue;
      }
      leaks := leaks + [Finding(d.code, category.value, if d.severity.Error? then Deny else Warn)];
    }
  }

  method CountByCategory(leaks: seq<Finding>) returns (counts: map<Category, nat>)
    ensures forall c :: At(counts, c) == CountIn(leaks, c)
  {
    counts := map[];
    for i := 0 to |leaks|
      invariant forall c :: At(counts, c) + CountIn(leaks[i..], c) == CountIn(leaks, c)
    {
      assert leaks[i..][1..] == leaks[i + 1..];
      var c := leaks[i].category;
      counts := counts[c := At(counts, c) + 1];
    }
  }

  method CountDenied(leaks: seq<Finding>) returns (n: nat)
    ensures n == CountDenies(leaks)
  {
    n := 0;
    for i := 0 to |leaks|
      invariant n + CountDenies(leaks[i..]) == CountDenies(leaks)
    {
      assert leaks[i..][1..] == leaks[i + 1..];
      if leaks[i].severity.Deny? {
        n := n + 1;
      }
    }
  }

  /** What buildLeakProof answers; the order of the category counts is left out. */
  predicate IsProofOf(p: Proof, diagnostics: seq<Diagnostic>) {
    && p.schema == PROOF_SCHEMA
    && p.leaks == Findings(diagnostics)
    && p.total == |p.leaks| && p.denies == CountDenies(p.leaks)
    && p.verdict == (if p.denies > 0 then "leak" else "clean")
    && forall c :: At(p.byCategory, c) == CountIn(p.leaks, c)
  }

  /** buildLeakProof */
  method BuildLeakProof(diagnostics: seq<Diagnostic>) returns (p: Proof)
    ensures IsProofOf(p, diagnostics)
  {
    var leaks := CollectFindings(diagnostics);
    var denies := CountDenied(leaks);
    var byCategory := CountByCategory(leaks);
    p := Proof(PROOF_SCHEMA, if denies > 0 then "leak" else "clean", leaks, |leaks|, denies, byCategory);
  }

  /** buildTestWitness */
  function BuildTestWitness(wasmSha256: string, proof: Proof, suiteDigest: string): Witness {
    Witness(WITNESS_SCHEMA, wasmSha256, proof, suiteDigest)
  }

  /** witnessVouchesClean */
  predicate VouchesClean(w: Witness, expected: string) {
    && w.schema == WITNESS_SCHEMA
    && w.wasmSha256 != "" && expected != "" && w.wasmSha256 == expected
    && w.suiteDigest != ""
    && w.proof.schema == PROOF_SCHEMA && w.proof.verdict == "clean" && w.proof.denies == 0
    && (forall l :: l in w.proof.leaks ==> l.severity.Deny? || l.severity.Warn?)
    && (forall l :: l in w.proof.leaks ==> !l.severity.Deny?)
    && CountDenies(w.proof.leaks) == w.proof.denies
  }

  // ----- what a witness vouches for -----

  lemma {:induction false} DeniesAreLeakErrors(diagnostics: seq<Diagnostic>)
    ensures CountDenies(Findings(diagnostics)) > 0 <==> exists d :: d in diagnostics && IsLeakError(d)
    ensures forall l :: l in Findings(diagnostics) ==> l.severity.Deny? || l.severity.Warn?
    ensures CountDenies(Findings(diagnostics)) == 0 ==> forall l :: l in Findings(diagnostics) ==> l.severity.Warn?
    decreases |diagnostics|
  {
    if diagnostics != [] {
      var d, rest := diagnostics[0], diagnostics[1..];
      DeniesAreLeakErrors(rest);
      assert d in diagnostics && forall e :: e in diagnostics <==> e == d || e in rest;
      var own := FindingsOf(d);
      assert own != [] ==> own == [own[0]] && (own + Findings(rest))[1..] == Findings(rest);
      assert own == [] ==> own + Findings(rest) == Findings(rest);
    }
  }

  /** A built witness vouches for its artifact if and only if no diagnostic refuses the module. */
  lemma BuiltWitnessVouchesIff(diagnostics: seq<Diagnostic>, p: Proof, wasmSha256: string, digest: string, expected: string)
    requires IsProofOf(p, diagnostics)
    ensures VouchesClean(BuildTestWitness(wasmSha256, p, digest), expected)
       <==> && expected == wasmSha256 && wasmSha256 != "" && digest != ""
            && forall d :: d in diagnostics ==> !IsLeakError(d)
  {
    DeniesAreLeakErrors(diagnostics);
  }

  function SumOver(counts: map<Category, nat>): nat {
    At(counts, TenantIsolation) + At(counts, SecretEgress) + At(counts, PrivacyEgress)
    + At(counts, UndeclaredEffect) + At(counts, SubstrateMisuse)
  }

  lemma {:induction false} CategoriesPartition(leaks: seq<Finding>)
    ensures CountIn(leaks, TenantIsolation) + CountIn(leaks, SecretEgress) + CountIn(leaks, PrivacyEgress)
            + CountIn(leaks, UndeclaredEffect) + CountIn(leaks, SubstrateMisuse) == |leaks|
    decreases |leaks|
  {
    if leaks != [] {
      CategoriesPartition(leaks[1..]);
    }
  }

  /** The counts by category add up to the findings: none is lost and none counted twice. */
  lemma CountsAddUp(diagnostics: seq<Diagnostic>, p: Proof)
    requires IsProofOf(p, diagnostics)
    ensures SumOver(p.byCategory) == p.total == |Findings(diagnostics)|
  {
    CategoriesPartition(p.leaks);
  }
}
