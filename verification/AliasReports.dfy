/**
 What is accounted for on the wider runs of AliasRuns is accounted for on the runs of the program,
 those of AliasFlow: every one of them is among the wider runs.
 */
module AliasReports {
  import opened AliasCarry
  import opened AliasRuns
  import opened AliasFlow
  import opened Options

  // ----- wider runs, from a set of states -----

  ghost function After(states: iset<State>, n: Node, again: bool): iset<State> {
    iset s, c | s in states && IsChoice(n, c, again) :: RunTrace(Trace(n, c), s)
  }

  ghost function AfterAll(states: iset<State>, ns: seq<Node>, again: bool): iset<State> {
    iset s, cs | s in states && AreChoices(ns, cs, again) :: RunTrace(TraceAll(ns, cs), s)
  }

  ghost function AfterTurns(states: iset<State>, ns: seq<Node>, k: nat, again: bool): iset<State> {
    iset s, turns | s in states && |turns| <= k && AreTurns(ns, turns, again) :: RunTrace(TraceTurns(ns, turns), s)
  }

  lemma OneTurn(ns: seq<Node>, cs: seq<Choice>, again: bool)
    ensures TraceTurns(ns, [cs]) == TraceAll(ns, cs) && AreTurns(ns, [cs], again) == AreChoices(ns, cs, again)
  {
    assert [cs][1..] == [];
    assert TraceAll(ns, cs) + [] == TraceAll(ns, cs);
  }

  /** Going through a node without performing anything. */
  function Skip(n: Node): Choice
    decreases n, 0
  {
    Choice(if IsLoop(n) then [] else [SkipAll(n.children)], false)
  }

  function SkipAll(ns: seq<Node>): seq<Choice>
    decreases ns, 0
  {
    if ns == [] then [] else [Skip(ns[0])] + SkipAll(ns[1..])
  }

  lemma {:induction false} SkipSkips(n: Node, again: bool)
    ensures IsChoice(n, Skip(n), again) && Trace(n, Skip(n)) == []
    decreases n, 0
  {
    SkipAllSkips(n.children, again);
    OneTurn(n.children, SkipAll(n.children), again);
  }

  lemma {:induction false} SkipAllSkips(ns: seq<Node>, again: bool)
    ensures AreChoices(ns, SkipAll(ns), again) && TraceAll(ns, SkipAll(ns)) == []
    decreases ns, 0
  {
    if ns != [] {
      SkipSkips(ns[0], again);
      SkipAllSkips(ns[1..], again);
      assert SkipAll(ns)[1..] == SkipAll(ns[1..]);
    }
  }

  lemma AfterKeeps(states: iset<State>, n: Node, again: bool)
    ensures states <= After(states, n, again)
  {
    SkipSkips(n, again);
    forall s | s in states ensures s in After(states, n, again) {
      assert RunTrace(Trace(n, Skip(n)), s) == s;
    }
  }

  lemma AfterAllKeeps(states: iset<State>, ns: seq<Node>, again: bool)
    ensures states <= AfterAll(states, ns, again)
  {
    SkipAllSkips(ns, again);
    forall s | s in states ensures s in AfterAll(states, ns, again) {
      assert RunTrace(TraceAll(ns, SkipAll(ns)), s) == s;
    }
  }

  /** The children of a node once, with or without its own statement. */
  lemma AfterChildren(states: iset<State>, n: Node, again: bool, end: State, taken: bool)
    requires end in AfterAll(states, n.children, again)
    ensures RunTrace(if taken then OwnEvent(n) else [], end) in After(states, n, again)
  {
    var s, cs :| s in states && AreChoices(n.children, cs, again) && end == RunTrace(TraceAll(n.children, cs), s);
    var c := Choice([cs], taken);
    var own := if taken then OwnEvent(n) else [];
    OneTurn(n.children, cs, again);
    RunConcat(TraceAll(n.children, cs), own, s);
    assert IsChoice(n, c, again) && Trace(n, c) == TraceAll(n.children, cs) + own;
  }

  /** A first node, then the rest. */
  lemma AfterFirst(states: iset<State>, ns: seq<Node>, again: bool)
    requires ns != []
    ensures AfterAll(After(states, ns[0], again), ns[1..], again) <= AfterAll(states, ns, again)
  {
    var middle := After(states, ns[0], again);
    forall end | end in AfterAll(middle, ns[1..], again) ensures end in AfterAll(states, ns, again) {
      var mid, cs :| mid in middle && AreChoices(ns[1..], cs, again) && end == RunTrace(TraceAll(ns[1..], cs), mid);
      var s, c :| s in states && IsChoice(ns[0], c, again) && mid == RunTrace(Trace(ns[0], c), s);
      var all := [c] + cs;
      assert all[1..] == cs;
      RunConcat(Trace(ns[0], c), TraceAll(ns[1..], cs), s);
      assert AreChoices(ns, all, again) && end == RunTrace(TraceAll(ns, all), s);
    }
  }

  lemma {:induction false} LastTurn(ns: seq<Node>, turns: seq<seq<Choice>>, cs: seq<Choice>, again: bool)
    requires AreTurns(ns, turns, again) && AreChoices(ns, cs, again)
    ensures AreTurns(ns, turns + [cs], again)
    ensures TraceTurns(ns, turns + [cs]) == TraceTurns(ns, turns) + TraceAll(ns, cs)
    decreases |turns|
  {
    if turns == [] {
      OneTurn(ns, cs, again);
      assert turns + [cs] == [cs];
    } else {
      LastTurn(ns, turns[1..], cs, again);
      assert (turns + [cs])[1..] == turns[1..] + [cs];
      assert (turns + [cs])[0] == turns[0];
    }
  }

  lemma AfterTurnMore(states: iset<State>, ns: seq<Node>, k: nat, again: bool)
    ensures AfterAll(AfterTurns(states, ns, k, again), ns, again) <= AfterTurns(states, ns, k + 1, again)
  {
    var before := AfterTurns(states, ns, k, again);
    forall end | end in AfterAll(before, ns, again) ensures end in AfterTurns(states, ns, k + 1, again) {
      var mid, cs :| mid in before && AreChoices(ns, cs, again) && end == RunTrace(TraceAll(ns, cs), mid);
      var s, turns :| s in states && |turns| <= k && AreTurns(ns, turns, again)
                      && mid == RunTrace(TraceTurns(ns, turns), s);
      LastTurn(ns, turns, cs, again);
      RunConcat(TraceTurns(ns, turns), TraceAll(ns, cs), s);
      assert end == RunTrace(TraceTurns(ns, turns + [cs]), s);
    }
  }

  lemma AfterLoop(states: iset<State>, n: Node, k: nat, again: bool)
    requires IsLoop(n) && IsCount(k, again)
    ensures AfterTurns(states, n.children, k, again) <= After(states, n, again)
  {
    forall end | end in AfterTurns(states, n.children, k, again) ensures end in After(states, n, again) {
      var s, turns :| s in states && |turns| <= k && AreTurns(n.children, turns, again)
                      && end == RunTrace(TraceTurns(n.children, turns), s);
      var c := Choice(turns, false);
      assert IsChoice(n, c, again) && Trace(n, c) == TraceTurns(n.children, turns);
    }
  }

  // ----- every run of the program is among them -----

  /** The wider run has the same locals, or handed out at least as much. */
  predicate Matches(r: Run, s: State) {
    match r
    case Running(env) => s.env == env
    case Ended(handed) => handed <= s.returned
  }

  ghost predicate Wide(runs: iset<Run>, states: iset<State>) {
    forall r :: r in runs ==> exists s :: s in states && Matches(r, s)
  }

  lemma WideMore(runs: iset<Run>, states: iset<State>, more: iset<State>)
    requires Wide(runs, states) && states <= more
    ensures Wide(runs, more)
  {
    forall r | r in runs ensures exists s :: s in more && Matches(r, s) {
      var s :| s in states && Matches(r, s);
      assert s in more;
    }
  }

  lemma WideFewer(runs: iset<Run>, more: iset<Run>, states: iset<State>)
    requires Wide(more, states) && runs <= more
    ensures Wide(runs, states)
  {
  }

  lemma WideUnion(a: iset<Run>, b: iset<Run>, states: iset<State>)
    requires Wide(a, states) && Wide(b, states)
    ensures Wide(a + b, states)
  {
  }

  /** The statement of a node, skipped by a run that has ended. */
  lemma StepWide(n: Node, r: Run, s: State) returns (taken: bool)
    requires Matches(r, s)
    ensures Matches(StepAt(n, r), RunTrace(if taken then OwnEvent(n) else [], s))
  {
    taken := r.Running? && OwnEvent(n) != [];
    if taken {
      var e := OwnEvent(n)[0];
      assert OwnEvent(n) == [e] && [e][1..] == [];
      assert RunTrace([e], s) == Perform(e, s);
    }
  }

  lemma {:induction false} WideNode(n: Node, runs: iset<Run>, states: iset<State>, again: bool)
    requires Wide(runs, states)
    ensures Wide(Ends(n, runs, again), After(states, n, again))
    decreases n, |n.children| + 2
  {
    if n.kind.FnDecl? {
      AfterKeeps(states, n, again);
      WideMore(runs, states, After(states, n, again));
    } else if IsLoop(n) {
      WideLoop(n, runs, states, again);
    } else if IsBranching(n) && n.children != [] {
      WideBranches(n, runs, states, again);
    } else {
      WideAll(n.children, runs, states, again);
      forall r | r in Ends(n, runs, again) ensures exists s :: s in After(states, n, again) && Matches(r, s) {
        var q :| q in EndsAll(n.children, runs, again) && r == StepAt(n, q);
        var t :| t in AfterAll(states, n.children, again) && Matches(q, t);
        var taken := StepWide(n, q, t);
        AfterChildren(states, n, again, t, taken);
      }
    }
  }

  lemma {:induction false} WideAll(ns: seq<Node>, runs: iset<Run>, states: iset<State>, again: bool)
    requires Wide(runs, states)
    ensures Wide(EndsAll(ns, runs, again), AfterAll(states, ns, again))
    decreases ns, 0
  {
    if ns == [] {
      AfterAllKeeps(states, ns, again);
      WideMore(runs, states, AfterAll(states, ns, again));
    } else {
      WideNode(ns[0], runs, states, again);
      WideAll(ns[1..], Ends(ns[0], runs, again), After(states, ns[0], again), again);
      AfterFirst(states, ns, again);
      WideMore(EndsAll(ns, runs, again), AfterAll(After(states, ns[0], again), ns[1..], again),
               AfterAll(states, ns, again));
    }
  }

  /** Of the alternatives the others are skipped. */
  lemma {:induction false} WideOneOf(alternatives: seq<Node>, isIf: bool, isElse: bool, runs: iset<Run>,
                                     states: iset<State>, again: bool)
    requires Wide(runs, states)
    ensures Wide(OneOf(alternatives, isIf, isElse, runs, again), AfterAll(states, alternatives, again))
    decreases alternatives, 1
  {
    var all := AfterAll(states, alternatives, again);
    if alternatives == [] {
      AfterAllKeeps(states, alternatives, again);
      WideMore(runs, states, all);
    } else {
      var first, rest := alternatives[0], alternatives[1..];
      var middle := After(states, first, again);
      WideNode(first, runs, states, again);
      AfterAllKeeps(middle, rest, again);
      AfterFirst(states, alternatives, again);
      WideMore(Ends(first, runs, again), middle, all);
      AfterKeeps(states, first, again);
      WideMore(runs, states, middle);
      WideOneOf(rest, isIf, isIf, runs, middle, again);
      WideMore(OneOf(rest, isIf, isIf, runs, again), AfterAll(middle, rest, again), all);
      WideUnion(Ends(first, runs, again), OneOf(rest, isIf, isIf, runs, again), all);
      OneOfWithin(alternatives, isIf, isElse, runs, again);
      WideFewer(OneOf(alternatives, isIf, isElse, runs, again),
                Ends(first, runs, again) + OneOf(rest, isIf, isIf, runs, again), all);
    }
  }

  lemma OneOfWithin(alternatives: seq<Node>, isIf: bool, isElse: bool, runs: iset<Run>, again: bool)
    requires alternatives != []
    ensures OneOf(alternatives, isIf, isElse, runs, again)
         <= Ends(alternatives[0], runs, again) + OneOf(alternatives[1..], isIf, isIf, runs, again)
  {
  }

  lemma {:induction false} WideBranches(n: Node, runs: iset<Run>, states: iset<State>, again: bool)
    requires Wide(runs, states) && !n.kind.FnDecl? && !IsLoop(n) && IsBranching(n) && n.children != []
    ensures Wide(Ends(n, runs, again), After(states, n, again))
    decreases n, |n.children| + 1
  {
    var first, rest := n.children[0], n.children[1..];
    var ends, middle := Ends(first, runs, again), After(states, first, again);
    WideNode(first, runs, states, again);
    WideOneOf(rest, n.kind.IfStmt?, false, ends, middle, again);
    AfterFirst(states, n.children, again);
    WideMore(Ends(n, runs, again), AfterAll(middle, rest, again), AfterAll(states, n.children, again));
    forall s | s in AfterAll(states, n.children, again) ensures s in After(states, n, again) {
      AfterChildren(states, n, again, s, false);
    }
    WideMore(Ends(n, runs, again), AfterAll(states, n.children, again), After(states, n, again));
  }

  lemma {:induction false} WideTurns(ns: seq<Node>, runs: iset<Run>, states: iset<State>, k: nat, again: bool)
    requires Wide(runs, states)
    ensures Wide(Turns(ns, runs, k, again), AfterTurns(states, ns, k, again))
    decreases ns, k + 1
  {
    if k == 0 {
      forall s | s in states ensures s in AfterTurns(states, ns, 0, again) {
        assert AreTurns(ns, [], again) && RunTrace(TraceTurns(ns, []), s) == s;
      }
      WideMore(runs, states, AfterTurns(states, ns, 0, again));
    } else {
      var before, wider := Turns(ns, runs, k - 1, again), AfterTurns(states, ns, k - 1, again);
      WideTurns(ns, runs, states, k - 1, again);
      WideAll(ns, before, wider, again);
      AfterTurnMore(states, ns, k - 1, again);
      WideMore(EndsAll(ns, before, again), AfterAll(wider, ns, again), AfterTurns(states, ns, k, again));
      WideMore(before, wider, AfterTurns(states, ns, k, again));
    }
  }

  lemma {:induction false} WideLoop(n: Node, runs: iset<Run>, states: iset<State>, again: bool)
    requires Wide(runs, states) && IsLoop(n)
    ensures Wide(Ends(n, runs, again), After(states, n, again))
    decreases n, |n.children| + 1
  {
    forall r | r in Ends(n, runs, again) ensures exists s :: s in After(states, n, again) && Matches(r, s) {
      var k: nat :| IsCount(k, again) && r in Turns(n.children, runs, k, again);
      WideTurns(n.children, runs, states, k, again);
      AfterLoop(states, n, k, again);
      WideMore(Turns(n.children, runs, k, again), AfterTurns(states, n.children, k, again), After(states, n, again));
    }
  }

  /** To every run of the program there is a wider run that ends with the same locals, or hands out as much. */
  lemma RunsAreWide(body: Node, r: Run, again: bool) returns (c: Choice)
    requires r in RunsOf(body, again)
    ensures IsChoice(body, c, again) && Matches(r, RunOf(body, c))
  {
    var start, first := iset{START}, iset{Running(map[])};
    assert Matches(Running(map[]), START);
    assert Wide(first, start);
    WideNode(body, first, start, again);
    var s :| s in After(start, body, again) && Matches(r, s);
    c :| IsChoice(body, c, again) && s == RunTrace(Trace(body, c), START);
  }

  /** A field, or a parameter that no statement binds, is reported on every run in which no loop takes a
      second turn, and on all runs whenever a second pass over the body would add nothing. */
  lemma ReportIsComplete(flow: Node, body: Node, p: Provenance, again: bool)
    requires BodyBlock(flow.children) == Some(body) && Tidy(body)
    requires !p.Unknown? && Unbound(p, BodyAliases(body))
    requires again ==> Build(body, BodyAliases(body)) == BodyAliases(body)
    ensures IsReported(flow, body, p, again)
  {
    forall r | r in RunsOf(body, again) && r.Ended? && p in r.handed ensures p.name in BodyFieldNames(flow) {
      var c := RunsAreWide(body, r, again);
      if again {
        LoopsAreCaughtWhenStable(flow, body, c, p);
      } else {
        LaunderingIsCaught(flow, body, c, p);
      }
    }
  }
}
