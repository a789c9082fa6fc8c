/**
 What the alias pass of AliasCarry owes the runs of a flow body, exactly.

 A run performs every statement it comes to, in source order: of a condition it takes one branch, of
 a match one arm (the first wildcard at the latest) or none, a loop it takes any number of times, and
 it ends at its first return. Which branch is taken, and how often a loop, is left open. Names are
 those of one flat scope; the variable of a for-each or of a match arm is what it was before.

 For one provenance, `Flow` follows the facts that some run may have brought about: that it is still
 running, that a local holds a value of that provenance, that such a value was handed out.
 */
module AliasFlow {
  import opened AliasCarry
  import opened AliasRuns
  import opened Collections
  import opened Options

  // ----- runs -----

  datatype Run = Running(env: Env) | Ended(handed: set<Provenance>)

  function Step(e: Event, r: Run): Run {
    match r
    case Ended(_) => r
    case Running(env) =>
      match e
      case Bind(x, source) => Running(env[x := Value(source, env)])
      case Return(exprs) => Ended(ExposedAll(exprs, env))
  }

  /** The statement of a node itself. */
  function StepAt(n: Node, r: Run): Run {
    if OwnEvent(n) == [] then r else Step(OwnEvent(n)[0], r)
  }

  predicate IsBranching(n: Node) {
    n.kind.IfStmt? || n.kind.MatchExpr?
  }

  predicate IsWildcard(n: Node) {
    n.kind.MatchArm? && n.value == Some("_")
  }

  /** No alternative is looked at after this one: a wildcard arm, or the else of a condition. */
  predicate IsLastResort(alternatives: seq<Node>, isElse: bool)
    requires alternatives != []
  {
    isElse || IsWildcard(alternatives[0])
  }

  predicate IsCount(turns: nat, again: bool) {
    again || turns <= 1
  }

  /** How `runs` can be after going through a node; without `again`, loops are gone through at most once. */
  ghost function Ends(n: Node, runs: iset<Run>, again: bool): iset<Run>
    decreases n, |n.children| + 2
  {
    if n.kind.FnDecl? then runs
    else if IsLoop(n) then iset r, k: nat | IsCount(k, again) && r in Turns(n.children, runs, k, again) :: r
    else if IsBranching(n) && n.children != [] then
      OneOf(n.children[1..], n.kind.IfStmt?, false, Ends(n.children[0], runs, again), again)
    else iset r | r in EndsAll(n.children, runs, again) :: StepAt(n, r)
  }

  ghost function EndsAll(ns: seq<Node>, runs: iset<Run>, again: bool): iset<Run>
    decreases ns, 0
  {
    if ns == [] then runs else EndsAll(ns[1..], Ends(ns[0], runs, again), again)
  }

  /** One of the alternatives, or none if none is the last resort. */
  ghost function OneOf(alternatives: seq<Node>, isIf: bool, isElse: bool, runs: iset<Run>, again: bool): iset<Run>
    decreases alternatives, 1
  {
    if alternatives == [] then runs
    else
      Ends(alternatives[0], runs, again)
      + if IsLastResort(alternatives, isElse) then iset{}
        else OneOf(alternatives[1..], isIf, isIf, runs, again)
  }

  /** After at most `k` turns: after at most one less, and after one turn more. */
  ghost function Turns(ns: seq<Node>, runs: iset<Run>, k: nat, again: bool): iset<Run>
    decreases ns, k + 1
  {
    if k == 0 then runs
    else var before := Turns(ns, runs, k - 1, again); before + EndsAll(ns, before, again)
  }

  ghost function RunsOf(body: Node, again: bool): iset<Run> {
    Ends(body, iset{Running(map[])}, again)
  }

  // ----- facts about some run -----

  /** For a provenance: some run is still running, has it in a local, or has handed it out. */
  datatype Fact = Live | Held(name: string) | Out

  predicate Tells(r: Run, f: Fact, p: Provenance) {
    match f
    case Live => r.Running?
    case Held(x) => r.Running? && Read(x, r.env) == p
    case Out => r.Ended? && p in r.handed
  }

  predicate Carries(source: Source, facts: set<Fact>, p: Provenance) {
    match source
    case Field(f) => Live in facts && p == FromField(f)
    case Local(x) => Held(x) in facts
    case Opaque => Live in facts && p == Unknown
  }

  /** A returned expression hands `p` out. */
  predicate Hands(n: Node, facts: set<Fact>, p: Provenance) {
    !IsDischarge(n) && (Carries(SourceOf(n), facts, p) || HandsAny(n.children, facts, p))
  }

  predicate HandsAny(ns: seq<Node>, facts: set<Fact>, p: Provenance) {
    ns != [] && (Hands(ns[0], facts, p) || HandsAny(ns[1..], facts, p))
  }

  function FlowStep(e: Event, facts: set<Fact>, p: Provenance): set<Fact> {
    match e
    case Bind(x, source) => facts - {Held(x)} + if Carries(source, facts, p) then {Held(x)} else {}
    case Return(exprs) => facts * {Out} + if HandsAny(exprs, facts, p) then {Out} else {}
  }

  function FlowStepAt(n: Node, facts: set<Fact>, p: Provenance): set<Fact> {
    if OwnEvent(n) == [] then facts else FlowStep(OwnEvent(n)[0], facts, p)
  }

  function Flow(n: Node, facts: set<Fact>, p: Provenance, again: bool): set<Fact>
    decreases n, |n.children| + 2
  {
    if n.kind.FnDecl? then facts
    else if IsLoop(n) then FlowTurns(n.children, facts, p, if again then Enough(n.children, facts) else 1, again)
    else if IsBranching(n) && n.children != [] then
      FlowOneOf(n.children[1..], n.kind.IfStmt?, false, Flow(n.children[0], facts, p, again), p, again)
    else FlowStepAt(n, FlowAll(n.children, facts, p, again), p)
  }

  function FlowAll(ns: seq<Node>, facts: set<Fact>, p: Provenance, again: bool): set<Fact>
    decreases ns, 0
  {
    if ns == [] then facts else FlowAll(ns[1..], Flow(ns[0], facts, p, again), p, again)
  }

  function FlowOneOf(alternatives: seq<Node>, isIf: bool, isElse: bool, facts: set<Fact>, p: Provenance, again: bool)
    : set<Fact>
    decreases alternatives, 1
  {
    if alternatives == [] then facts
    else
      Flow(alternatives[0], facts, p, again)
      + if IsLastResort(alternatives, isElse) then {}
        else FlowOneOf(alternatives[1..], isIf, isIf, facts, p, again)
  }

  function FlowTurns(ns: seq<Node>, facts: set<Fact>, p: Provenance, k: nat, again: bool): set<Fact>
    decreases ns, k + 1
  {
    if k == 0 then facts
    else var before := FlowTurns(ns, facts, p, k - 1, again); before + FlowAll(ns, before, p, again)
  }

  /** Facts about the locals that statements bind. */
  function Bound(n: Node): set<Fact> {
    BoundAny(n.children) + if BoundName(n).Some? then {Held(BoundName(n).value)} else {}
  }

  function BoundAny(ns: seq<Node>): set<Fact> {
    if ns == [] then {} else Bound(ns[0]) + BoundAny(ns[1..])
  }

  /** All that a loop can ever bring about. */
  function Ceiling(ns: seq<Node>, facts: set<Fact>): set<Fact> {
    facts + BoundAny(ns) + {Out}
  }

  /** As many turns as there are facts to add. */
  function Enough(ns: seq<Node>, facts: set<Fact>): nat {
    |Ceiling(ns, facts)|
  }

  // ----- the facts of a tree are those of its runs -----

  /** Some run tells a fact exactly when the fact is among these. */
  ghost predicate Exact(facts: set<Fact>, runs: iset<Run>, p: Provenance) {
    forall f :: f in facts <==> exists r :: r in runs && Tells(r, f, p)
  }

  lemma ExactUnion(a: set<Fact>, s: iset<Run>, b: set<Fact>, t: iset<Run>, p: Provenance)
    requires Exact(a, s, p) && Exact(b, t, p)
    ensures Exact(a + b, s + t, p)
  {
    forall f ensures f in a + b <==> exists r :: r in s + t && Tells(r, f, p) {
      if f in a {
        var r :| r in s && Tells(r, f, p);
        assert r in s + t;
      }
      if f in b {
        var r :| r in t && Tells(r, f, p);
        assert r in s + t;
      }
    }
  }

  /** Some run reads `p` at this source. */
  ghost predicate SomeReads(source: Source, runs: iset<Run>, p: Provenance) {
    exists r :: r in runs && r.Running? && Value(source, r.env) == p
  }

  lemma CarriesExact(source: Source, facts: set<Fact>, runs: iset<Run>, p: Provenance)
    requires Exact(facts, runs, p)
    ensures Carries(source, facts, p) <==> SomeReads(source, runs, p)
  {
    var f := if source.Local? then Held(source.name) else Live;
    if f in facts {
      var r :| r in runs && Tells(r, f, p);
      assert Carries(source, facts, p) ==> Value(source, r.env) == p;
    }
    if SomeReads(source, runs, p) {
      var r :| r in runs && r.Running? && Value(source, r.env) == p;
      assert Tells(r, f, p);
    }
  }

  ghost predicate SomeHands(n: Node, runs: iset<Run>, p: Provenance) {
    exists r :: r in runs && r.Running? && p in Exposed(n, r.env)
  }

  ghost predicate SomeHandsAny(ns: seq<Node>, runs: iset<Run>, p: Provenance) {
    exists r :: r in runs && r.Running? && p in ExposedAll(ns, r.env)
  }

  lemma {:induction false} HandsExact(n: Node, facts: set<Fact>, runs: iset<Run>, p: Provenance)
    requires Exact(facts, runs, p)
    ensures Hands(n, facts, p) <==> SomeHands(n, runs, p)
    decreases n, 0
  {
    CarriesExact(SourceOf(n), facts, runs, p);
    HandsAnyExact(n.children, facts, runs, p);
    if Hands(n, facts, p) {
      if Carries(SourceOf(n), facts, p) {
        var r :| r in runs && r.Running? && Value(SourceOf(n), r.env) == p;
        assert p in Exposed(n, r.env);
      } else {
        var r :| r in runs && r.Running? && p in ExposedAll(n.children, r.env);
        assert p in Exposed(n, r.env);
      }
    }
  }

  lemma {:induction false} HandsAnyExact(ns: seq<Node>, facts: set<Fact>, runs: iset<Run>, p: Provenance)
    requires Exact(facts, runs, p)
    ensures HandsAny(ns, facts, p) <==> SomeHandsAny(ns, runs, p)
    decreases ns, 0
  {
    if ns != [] {
      HandsExact(ns[0], facts, runs, p);
      HandsAnyExact(ns[1..], facts, runs, p);
      if HandsAny(ns, facts, p) {
        if Hands(ns[0], facts, p) {
          var r :| r in runs && r.Running? && p in Exposed(ns[0], r.env);
          assert p in ExposedAll(ns, r.env);
        } else {
          var r :| r in runs && r.Running? && p in ExposedAll(ns[1..], r.env);
          assert p in ExposedAll(ns, r.env);
        }
      }
    }
  }

  /** What a fact after a statement needs before it. */
  lemma StepTells(e: Event, r: Run, f: Fact, p: Provenance)
    ensures Tells(Step(e, r), f, p) <==>
              if e.Bind? then
                if f == Held(e.name) then r.Running? && Value(e.source, r.env) == p else Tells(r, f, p)
              else
                f.Out? && (Tells(r, f, p) || (r.Running? && p in ExposedAll(e.exprs, r.env)))
  {
  }

  ghost function Stepped(e: Event, runs: iset<Run>): iset<Run> {
    iset r | r in runs :: Step(e, r)
  }

  /** Some run tells the fact after the statement. */
  ghost predicate SomeTells(f: Fact, runs: iset<Run>, p: Provenance) {
    exists r :: r in runs && Tells(r, f, p)
  }

  lemma SteppedTells(e: Event, runs: iset<Run>, f: Fact, p: Provenance)
    ensures SomeTells(f, Stepped(e, runs), p) <==> exists r :: r in runs && Tells(Step(e, r), f, p)
  {
    if SomeTells(f, Stepped(e, runs), p) {
      var t :| t in Stepped(e, runs) && Tells(t, f, p);
      var r :| r in runs && t == Step(e, r);
      assert Tells(Step(e, r), f, p);
    }
    if r :| r in runs && Tells(Step(e, r), f, p) {
      assert Step(e, r) in Stepped(e, runs);
    }
  }

  lemma StepExact(e: Event, facts: set<Fact>, runs: iset<Run>, p: Provenance)
    requires Exact(facts, runs, p)
    ensures Exact(FlowStep(e, facts, p), Stepped(e, runs), p)
  {
    if e.Bind? {
      CarriesExact(e.source, facts, runs, p);
    } else {
      HandsAnyExact(e.exprs, facts, runs, p);
    }
    forall f ensures f in FlowStep(e, facts, p) <==> exists r :: r in Stepped(e, runs) && Tells(r, f, p) {
      SteppedTells(e, runs, f, p);
      FactAfter(e, facts, runs, f, p);
      assert SomeTells(f, Stepped(e, runs), p) <==> exists r :: r in Stepped(e, runs) && Tells(r, f, p);
    }
  }

  lemma FactAfter(e: Event, facts: set<Fact>, runs: iset<Run>, f: Fact, p: Provenance)
    requires f in facts <==> SomeTells(f, runs, p)
    requires e.Bind? ==> (Carries(e.source, facts, p) <==> SomeReads(e.source, runs, p))
    requires e.Return? ==> (HandsAny(e.exprs, facts, p) <==> SomeHandsAny(e.exprs, runs, p))
    ensures f in FlowStep(e, facts, p) <==> exists r :: r in runs && Tells(Step(e, r), f, p)
  {
    forall r ensures Tells(Step(e, r), f, p) <==>
              if e.Bind? then
                if f == Held(e.name) then r.Running? && Value(e.source, r.env) == p else Tells(r, f, p)
              else
                f.Out? && (Tells(r, f, p) || (r.Running? && p in ExposedAll(e.exprs, r.env)))
    {
      StepTells(e, r, f, p);
    }
  }

  lemma {:induction false} NodeExact(n: Node, facts: set<Fact>, runs: iset<Run>, p: Provenance, again: bool)
    requires Exact(facts, runs, p)
    ensures Exact(Flow(n, facts, p, again), Ends(n, runs, again), p)
    decreases n, |n.children| + 2
  {
    if n.kind.FnDecl? {
    } else if IsLoop(n) {
      LoopExact(n, facts, runs, p, again);
    } else if IsBranching(n) && n.children != [] {
      NodeExact(n.children[0], facts, runs, p, again);
      OneOfExact(n.children[1..], n.kind.IfStmt?, false, Flow(n.children[0], facts, p, again),
                 Ends(n.children[0], runs, again), p, again);
    } else {
      AllExact(n.children, facts, runs, p, again);
      var before, ends := FlowAll(n.children, facts, p, again), EndsAll(n.children, runs, again);
      if OwnEvent(n) == [] {
        assert Ends(n, runs, again) == ends;
      } else {
        StepExact(OwnEvent(n)[0], before, ends, p);
        assert Ends(n, runs, again) == Stepped(OwnEvent(n)[0], ends);
      }
    }
  }

  lemma {:induction false} AllExact(ns: seq<Node>, facts: set<Fact>, runs: iset<Run>, p: Provenance, again: bool)
    requires Exact(facts, runs, p)
    ensures Exact(FlowAll(ns, facts, p, again), EndsAll(ns, runs, again), p)
    decreases ns, 0
  {
    if ns != [] {
      NodeExact(ns[0], facts, runs, p, again);
      AllExact(ns[1..], Flow(ns[0], facts, p, again), Ends(ns[0], runs, again), p, again);
    }
  }

  lemma {:induction false} OneOfExact(alternatives: seq<Node>, isIf: bool, isElse: bool, facts: set<Fact>,
                                      runs: iset<Run>, p: Provenance, again: bool)
    requires Exact(facts, runs, p)
    ensures Exact(FlowOneOf(alternatives, isIf, isElse, facts, p, again),
                  OneOf(alternatives, isIf, isElse, runs, again), p)
    decreases alternatives, 1
  {
    if alternatives != [] {
      var first, ends := Flow(alternatives[0], facts, p, again), Ends(alternatives[0], runs, again);
      NodeExact(alternatives[0], facts, runs, p, again);
      if IsLastResort(alternatives, isElse) {
        assert first + {} == first && ends + iset{} == ends;
      } else {
        OneOfExact(alternatives[1..], isIf, isIf, facts, runs, p, again);
        ExactUnion(first, ends, FlowOneOf(alternatives[1..], isIf, isIf, facts, p, again),
                   OneOf(alternatives[1..], isIf, isIf, runs, again), p);
      }
    }
  }

  lemma {:induction false} TurnsExact(ns: seq<Node>, facts: set<Fact>, runs: iset<Run>, p: Provenance, k: nat,
                                      again: bool)
    requires Exact(facts, runs, p)
    ensures Exact(FlowTurns(ns, facts, p, k, again), Turns(ns, runs, k, again), p)
    decreases ns, k + 1
  {
    if k > 0 {
      var before, ends := FlowTurns(ns, facts, p, k - 1, again), Turns(ns, runs, k - 1, again);
      TurnsExact(ns, facts, runs, p, k - 1, again);
      AllExact(ns, before, ends, p, again);
      ExactUnion(before, ends, FlowAll(ns, before, p, again), EndsAll(ns, ends, again), p);
    }
  }

  // ----- a loop: as many turns as there is something to add -----

  lemma {:induction false} FlowUnder(n: Node, facts: set<Fact>, p: Provenance, again: bool, top: set<Fact>)
    requires facts <= top && Bound(n) <= top && Out in top
    ensures Flow(n, facts, p, again) <= top
    decreases n, |n.children| + 2
  {
    if IsLoop(n) {
      TurnsUnder(n.children, facts, p, if again then Enough(n.children, facts) else 1, again, top);
    } else if IsBranching(n) && n.children != [] {
      assert BoundAny(n.children) == Bound(n.children[0]) + BoundAny(n.children[1..]);
      FlowUnder(n.children[0], facts, p, again, top);
      OneOfUnder(n.children[1..], n.kind.IfStmt?, false, Flow(n.children[0], facts, p, again), p, again, top);
    } else {
      AllUnder(n.children, facts, p, again, top);
    }
  }

  lemma {:induction false} AllUnder(ns: seq<Node>, facts: set<Fact>, p: Provenance, again: bool, top: set<Fact>)
    requires facts <= top && BoundAny(ns) <= top && Out in top
    ensures FlowAll(ns, facts, p, again) <= top
    decreases ns, 0
  {
    if ns != [] {
      FlowUnder(ns[0], facts, p, again, top);
      AllUnder(ns[1..], Flow(ns[0], facts, p, again), p, again, top);
    }
  }

  lemma {:induction false} OneOfUnder(alternatives: seq<Node>, isIf: bool, isElse: bool, facts: set<Fact>,
                                      p: Provenance, again: bool, top: set<Fact>)
    requires facts <= top && BoundAny(alternatives) <= top && Out in top
    ensures FlowOneOf(alternatives, isIf, isElse, facts, p, again) <= top
    decreases alternatives, 1
  {
    if alternatives != [] {
      FlowUnder(alternatives[0], facts, p, again, top);
      OneOfUnder(alternatives[1..], isIf, isIf, facts, p, again, top);
    }
  }

  lemma {:induction false} TurnsUnder(ns: seq<Node>, facts: set<Fact>, p: Provenance, k: nat, again: bool,
                                      top: set<Fact>)
    requires facts <= top && BoundAny(ns) <= top && Out in top
    ensures FlowTurns(ns, facts, p, k, again) <= top
    decreases ns, k + 1
  {
    if k > 0 {
      TurnsUnder(ns, facts, p, k - 1, again, top);
      AllUnder(ns, FlowTurns(ns, facts, p, k - 1, again), p, again, top);
    }
  }

  /** Up to any turn, something was added at every turn, or nothing is added any more. */
  lemma {:induction false} TurnsGrow(ns: seq<Node>, facts: set<Fact>, p: Provenance, k: nat, again: bool)
    ensures var now, next := FlowTurns(ns, facts, p, k, again), FlowTurns(ns, facts, p, k + 1, again);
            now <= next && (next == now || |next| > k)
    decreases k
  {
    var now, next := FlowTurns(ns, facts, p, k, again), FlowTurns(ns, facts, p, k + 1, again);
    assert next == now + FlowAll(ns, now, p, again);
    Fewer(now, next);
    if k > 0 {
      TurnsGrow(ns, facts, p, k - 1, again);
      assert now == FlowTurns(ns, facts, p, k - 1, again) ==> next == now;
    }
  }

  lemma {:induction false} TurnsOver(ns: seq<Node>, facts: set<Fact>, p: Provenance, again: bool, j: nat, k: nat)
    requires FlowTurns(ns, facts, p, j + 1, again) == FlowTurns(ns, facts, p, j, again)
    ensures FlowTurns(ns, facts, p, k, again) <= FlowTurns(ns, facts, p, j, again)
    ensures k >= j ==> FlowTurns(ns, facts, p, k, again) == FlowTurns(ns, facts, p, j, again)
    decreases if k > j then k - j else j - k
  {
    if k > j {
      TurnsOver(ns, facts, p, again, j, k - 1);
      var settled := FlowTurns(ns, facts, p, j, again);
      assert FlowTurns(ns, facts, p, k, again) == settled + FlowAll(ns, settled, p, again);
    } else if k < j {
      TurnsOver(ns, facts, p, again, j, k + 1);
      TurnsGrow(ns, facts, p, k, again);
    }
  }

  /** After as many turns as there are facts to add, no number of turns adds one. */
  lemma LoopSettles(ns: seq<Node>, facts: set<Fact>, p: Provenance, again: bool, k: nat)
    ensures FlowTurns(ns, facts, p, k, again) <= FlowTurns(ns, facts, p, Enough(ns, facts), again)
  {
    var enough := Enough(ns, facts);
    TurnsGrow(ns, facts, p, enough, again);
    TurnsUnder(ns, facts, p, enough + 1, again, Ceiling(ns, facts));
    Fewer(FlowTurns(ns, facts, p, enough + 1, again), Ceiling(ns, facts));
    TurnsOver(ns, facts, p, again, enough, k);
  }

  lemma {:induction false} LoopExact(n: Node, facts: set<Fact>, runs: iset<Run>, p: Provenance, again: bool)
    requires IsLoop(n) && Exact(facts, runs, p)
    ensures Exact(Flow(n, facts, p, again), Ends(n, runs, again), p)
    decreases n, |n.children| + 1
  {
    var ns := n.children;
    var rounds := if again then Enough(ns, facts) else 1;
    var settled := FlowTurns(ns, facts, p, rounds, again);
    TurnsExact(ns, facts, runs, p, rounds, again);
    forall f ensures f in settled <==> exists r :: r in Ends(n, runs, again) && Tells(r, f, p) {
      if f in settled {
        var r :| r in Turns(ns, runs, rounds, again) && Tells(r, f, p);
        assert IsCount(rounds, again);
        assert r in Ends(n, runs, again);
      }
      if r :| r in Ends(n, runs, again) && Tells(r, f, p) {
        var k: nat :| IsCount(k, again) && r in Turns(ns, runs, k, again);
        if again {
          LoopSettles(ns, facts, p, again, k);
        } else {
          TurnsGrow(ns, facts, p, 0, again);
        }
        TurnsExact(ns, facts, runs, p, k, again);
      }
    }
  }

  // ----- what the report owes -----

  /** Before the body every name stands for itself. */
  function Start(p: Provenance): set<Fact> {
    {Live} + if p.FromParameter? then {Held(p.name)} else {}
  }

  lemma BodyExact(body: Node, p: Provenance, again: bool)
    ensures Exact(Flow(body, Start(p), p, again), RunsOf(body, again), p)
  {
    var first := Running(map[]);
    assert forall f :: f in Start(p) <==> Tells(first, f, p);
    assert first in iset{first};
    NodeExact(body, Start(p), iset{first}, p, again);
  }

  /** Some run that comes through the body leaves `p` in `x` if and only if the flow of facts says so. */
  lemma MayHoldIff(body: Node, p: Provenance, x: string, again: bool)
    ensures (exists r :: r in RunsOf(body, again) && r.Running? && Read(x, r.env) == p)
            <==> Held(x) in Flow(body, Start(p), p, again)
  {
    BodyExact(body, p, again);
    if r :| r in RunsOf(body, again) && r.Running? && Read(x, r.env) == p {
      assert Tells(r, Held(x), p);
    }
  }

  /** Whenever a run hands `p` out, the program reports its name. */
  ghost predicate IsReported(flow: Node, body: Node, p: Provenance, again: bool)
    requires !p.Unknown?
  {
    forall r :: r in RunsOf(body, again) && r.Ended? && p in r.handed ==> p.name in BodyFieldNames(flow)
  }

  /** The report accounts for a field or a parameter on every run, if and only if the flow of facts
      does not have it handed out or its name is among the reported ones. */
  lemma ReportIsCompleteIff(flow: Node, body: Node, p: Provenance, again: bool)
    requires BodyBlock(flow.children) == Some(body) && !p.Unknown?
    ensures IsReported(flow, body, p, again)
            <==> Out !in Flow(body, Start(p), p, again) || p.name in BodyFieldNames(flow)
  {
    BodyExact(body, p, again);
    if Out in Flow(body, Start(p), p, again) {
      var r :| r in RunsOf(body, again) && Tells(r, Out, p);
    }
    if r :| r in RunsOf(body, again) && r.Ended? && p in r.handed {
      assert Tells(r, Out, p);
    }
  }
}
