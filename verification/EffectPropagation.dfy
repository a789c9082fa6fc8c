/**
 Effects across call edges (effect-checker.ts): two depth-first searches that share one mutable
 visited set over all their recursive calls, and the diagnostic built on the first.
 */
module EffectPropagation {
  import opened Options
  import opened CallGraph

  datatype FlowMeta = FlowMeta(name: string, declaredEffects: seq<string>)

  /** allFlows.find: the first flow of that name. */
  function Find(flows: seq<FlowMeta>, name: string): Option<FlowMeta> {
    if flows == [] then None
    else if flows[0].name == name then Some(flows[0])
    else Find(flows[1..], name)
  }

  predicate Known(flows: seq<FlowMeta>, name: string) {
    Find(flows, name).Some?
  }

  predicate Declares(flows: seq<FlowMeta>, name: string, effect: string) {
    Known(flows, name) && effect in Find(flows, name).value.declaredEffects
  }

  ghost function Names(flows: seq<FlowMeta>): set<string> {
    set f | f in flows :: f.name
  }

  lemma KnownIffNamed(flows: seq<FlowMeta>, name: string)
    ensures Known(flows, name) <==> name in Names(flows)
    ensures Known(flows, name) ==> Find(flows, name).value in flows && Find(flows, name).value.name == name
  {
    if flows != [] {
      KnownIffNamed(flows[1..], name);
      assert flows == [flows[0]] + flows[1..];
    }
  }

  // ----- the graph restricted to known flows -----

  function KeepKnown(names: seq<string>, flows: seq<FlowMeta>): seq<string> {
    if names == [] then []
    else if Known(flows, names[0]) then [names[0]] + KeepKnown(names[1..], flows)
    else KeepKnown(names[1..], flows)
  }

  lemma InKeepKnown(names: seq<string>, flows: seq<FlowMeta>, c: string)
    ensures c in KeepKnown(names, flows) <==> c in names && Known(flows, c)
  {
  }

  /** Calls to names that are no flow are skipped, and nothing beyond them is looked at. */
  function KnownCalls(g: Graph, flows: seq<FlowMeta>): Graph {
    map n | n in g :: KeepKnown(g[n], flows)
  }

  lemma KnownCallsSucc(g: Graph, flows: seq<FlowMeta>, n: string, c: string)
    ensures c in Succ(KnownCalls(g, flows), n) <==> c in Succ(g, n) && Known(flows, c)
  {
    if n in g {
      InKeepKnown(g[n], flows, c);
    }
  }

  // ----- the shared visited set -----

  class SeenSet {
    var names: set<string>

    constructor (start: set<string>)
      ensures names == start
    {
      names := start;
    }
  }

  // ----- what a search reports -----

  /** Some direct callee of `from`, or of a flow visited on the way, declares the effect. */
  ghost predicate Reported(k: Graph, flows: seq<FlowMeta>, from: string, visited: set<string>, effect: string) {
    exists n, c :: (n == from || n in visited) && c in Succ(k, n) && Declares(flows, c, effect)
  }

  /** Every entry names a reachable flow that declares the effect. */
  ghost predicate Introduced(k: Graph, flows: seq<FlowMeta>, from: string, effects: map<string, string>) {
    forall e :: e in effects ==> Declares(flows, effects[e], e) && Reaches(k, from, effects[e])
  }

  /** The search went from `from`, added `visited` to the set `seen` it shares with its callers,
      and left no call of a flow it visited unfollowed. */
  ghost predicate Searched(k: Graph, flows: seq<FlowMeta>, from: string, before: set<string>, seen: set<string>) {
    && before <= seen && seen - before <= Names(flows)
    && (forall n :: n in seen - before ==> Reaches(k, from, n))
    && (forall n, c :: n in seen - before && c in Succ(k, n) ==> c in seen)
  }

  ghost predicate Followed(callees: seq<string>, i: nat, flows: seq<FlowMeta>, seen: set<string>)
    requires i <= |callees|
  {
    forall j :: 0 <= j < i && Known(flows, callees[j]) ==> callees[j] in seen
  }

  /** All effects so far are accounted for, and all accountable effects are there. */
  ghost predicate Tallied(k: Graph, flows: seq<FlowMeta>, from: string, callees: seq<string>, i: nat,
                          visited: set<string>, effects: map<string, string>)
    requires i <= |callees|
  {
    && Introduced(k, flows, from, effects)
    && (forall e :: e in effects ==> Reported(k, flows, from, visited, e))
    && (forall j, e :: 0 <= j < i && Declares(flows, callees[j], e) ==> e in effects)
    && (forall n, c, e :: n in visited && c in Succ(k, n) && Declares(flows, c, e) ==> e in effects)
  }

  method AddDeclared(effects: map<string, string>, declared: seq<string>, name: string) returns (r: map<string, string>)
    ensures forall e :: e in r <==> e in effects || e in declared
    ensures forall e :: e in r ==> r[e] == if e in effects then effects[e] else name
  {
    r := effects;
    for i := 0 to |declared|
      invariant forall e :: e in r <==> e in effects || e in declared[..i]
      invariant forall e :: e in r ==> r[e] == if e in effects then effects[e] else name
    {
      if declared[i] !in r {
        r := r[declared[i] := name];
      }
    }
  }

  lemma NestedSearch(k: Graph, flows: seq<FlowMeta>, from: string, called: string,
                     before: set<string>, seen: set<string>, after: set<string>)
    requires Searched(k, flows, from, before, seen) && called in Succ(k, from) && called in Names(flows)
    requires Searched(k, flows, called, seen + {called}, after)
    requires forall c :: c in Succ(k, called) ==> c in after
    ensures Searched(k, flows, from, before, after)
  {
    forall n | n in after - before ensures Reaches(k, from, n) {
      if n == called {
        EdgeReaches(k, from, called);
      } else if n !in seen {
        EdgeThenReaches(k, from, called, n);
      }
    }
  }

  lemma TallyCallee(k: Graph, flows: seq<FlowMeta>, from: string, callees: seq<string>, i: nat, visited: set<string>,
                    effects: map<string, string>, added: map<string, string>)
    requires i < |callees| && Known(flows, callees[i]) && callees[i] in Succ(k, from)
    requires Tallied(k, flows, from, callees, i, visited, effects)
    requires forall e :: e in added <==> e in effects || Declares(flows, callees[i], e)
    requires forall e :: e in added ==> added[e] == if e in effects then effects[e] else callees[i]
    ensures Tallied(k, flows, from, callees, i + 1, visited, added)
  {
    EdgeReaches(k, from, callees[i]);
  }

  lemma TallyNested(k: Graph, flows: seq<FlowMeta>, from: string, callees: seq<string>, i: nat, called: string,
                    before: set<string>, seen: set<string>, after: set<string>,
                    effects: map<string, string>, more: map<string, string>)
    requires i <= |callees| && called in Succ(k, from)
    requires before <= seen <= after && called in after && called !in seen
    requires Tallied(k, flows, from, callees, i, seen - before, effects)
    requires Introduced(k, flows, called, more)
    requires forall e :: e in more <==> Reported(k, flows, called, after - (seen + {called}), e)
    ensures Tallied(k, flows, from, callees, i, after - before, more + effects)
  {
    var all := more + effects;
    forall e | e in all ensures Declares(flows, all[e], e) && Reaches(k, from, all[e]) {
      if e !in effects {
        EdgeThenReaches(k, from, called, more[e]);
      }
    }
    forall e | e in all ensures Reported(k, flows, from, after - before, e) {
      if e in effects {
        assert Reported(k, flows, from, seen - before, e);
      } else {
        assert Reported(k, flows, called, after - (seen + {called}), e);
      }
    }
    forall n, c, e | n in after - before && c in Succ(k, n) && Declares(flows, c, e) ensures e in all {
      if n !in seen {
        assert Reported(k, flows, called, after - (seen + {called}), e);
      }
    }
  }

  method CollectTransitiveCalledEffects(flowName: string, flows: seq<FlowMeta>, g: Graph, seen: SeenSet)
    returns (effects: map<string, string>)
    modifies seen
    ensures Searched(KnownCalls(g, flows), flows, flowName, old(seen.names), seen.names)
    ensures forall c :: c in Succ(KnownCalls(g, flows), flowName) ==> c in seen.names
    ensures Introduced(KnownCalls(g, flows), flows, flowName, effects)
    ensures forall e :: e in effects <==>
              Reported(KnownCalls(g, flows), flows, flowName, seen.names - old(seen.names), e)
    decreases Names(flows) - seen.names
  {
    ghost var k, before := KnownCalls(g, flows), seen.names;
    effects := map[];
    var callees := Succ(g, flowName);
    var i := 0;
    while i < |callees|
      invariant 0 <= i <= |callees|
      invariant Searched(k, flows, flowName, before, seen.names)
      invariant Followed(callees, i, flows, seen.names)
      invariant Tallied(k, flows, flowName, callees, i, seen.names - before, effects)
    {
      var called := callees[i];
      var meta := Find(flows, called);
      KnownIffNamed(flows, called);
      KnownCallsSucc(g, flows, flowName, called);
      if meta.Some? {
        ghost var had := effects;
        effects := AddDeclared(effects, meta.value.declaredEffects, called);
        TallyCallee(k, flows, flowName, callees, i, seen.names - before, had, effects);
        if called !in seen.names {
          ghost var now := seen.names;
          seen.names := seen.names + {called};
          var more := CollectTransitiveCalledEffects(called, flows, g, seen);
          NestedSearch(k, flows, flowName, called, before, now, seen.names);
          TallyNested(k, flows, flowName, callees, i + 1, called, before, now, seen.names, effects, more);
          effects := more + effects;
        }
      }
      i := i + 1;
    }
    forall c | c in Succ(k, flowName) ensures c in seen.names {
      KnownCallsSucc(g, flows, flowName, c);
    }
    forall e | Reported(k, flows, flowName, seen.names - before, e) ensures e in effects {
      var n, c :| (n == flowName || n in seen.names - before) && c in Succ(k, n) && Declares(flows, c, e);
      KnownCallsSucc(g, flows, n, c);
    }
  }

  // ----- the diagnostic -----

  /** Some flow reachable from `from` by one or more calls declares the effect. */
  ghost predicate ReachesEffect(k: Graph, flows: seq<FlowMeta>, from: string, effect: string) {
    exists c :: Reaches(k, from, c) && Declares(flows, c, effect)
  }

  /** A search that starts with only `from` in the visited set reports exactly the effects that
      `from` reaches. */
  lemma ReportedIsReached(k: Graph, flows: seq<FlowMeta>, from: string, seen: set<string>, effect: string)
    requires Searched(k, flows, from, {from}, seen) && forall c :: c in Succ(k, from) ==> c in seen
    ensures Reported(k, flows, from, seen - {from}, effect) <==> ReachesEffect(k, flows, from, effect)
  {
    if Reported(k, flows, from, seen - {from}, effect) {
      var n, c :| (n == from || n in seen - {from}) && c in Succ(k, n) && Declares(flows, c, effect);
      if n == from {
        EdgeReaches(k, from, c);
      } else {
        ReachesThenEdge(k, from, n, c);
      }
    }
    if ReachesEffect(k, flows, from, effect) {
      var c :| Reaches(k, from, c) && Declares(flows, c, effect);
      var n := LastEdge(k, from, c);
      assert Closed(k, seen);
      if n != from {
        ReachableStaysInside(k, seen, from, n);
      }
    }
  }

  /** FUNGI-EFFECT-002 for one flow: one entry per effect it reaches and does not declare, with
      the name of a reachable flow that declares it. */
  method ValidateInterFlowPropagation(flow: FlowMeta, flows: seq<FlowMeta>, g: Graph)
    returns (undeclared: map<string, string>)
    ensures forall e :: e in undeclared <==>
              e !in flow.declaredEffects && ReachesEffect(KnownCalls(g, flows), flows, flow.name, e)
    ensures Introduced(KnownCalls(g, flows), flows, flow.name, undeclared)
  {
    ghost var k := KnownCalls(g, flows);
    var seen := new SeenSet({flow.name});
    var required := CollectTransitiveCalledEffects(flow.name, flows, g, seen);
    forall e ensures e in required <==> ReachesEffect(k, flows, flow.name, e) {
      ReportedIsReached(k, flows, flow.name, seen.names, e);
    }
    undeclared := map e | e in required && e !in flow.declaredEffects :: required[e];
  }

  /** No flow misses an effect it reaches. */
  ghost predicate NothingUndeclared(k: Graph, flows: seq<FlowMeta>) {
    forall f, e :: f in flows && ReachesEffect(k, flows, f.name, e) ==> e in f.declaredEffects
  }

  /** Each flow declares what its direct callees declare. */
  ghost predicate EdgesMonotone(k: Graph, flows: seq<FlowMeta>) {
    forall f, c, e :: f in flows && c in Succ(k, f.name) && Declares(flows, c, e) ==> e in f.declaredEffects
  }

  /** The transitive check is a local one: no flow gets the diagnostic if and only if declared
      effects never shrink along a call edge. */
  lemma NothingUndeclaredIffEdgesMonotone(g: Graph, flows: seq<FlowMeta>)
    ensures NothingUndeclared(KnownCalls(g, flows), flows) <==> EdgesMonotone(KnownCalls(g, flows), flows)
  {
    var k := KnownCalls(g, flows);
    if NothingUndeclared(k, flows) {
      forall f, c, e | f in flows && c in Succ(k, f.name) && Declares(flows, c, e) ensures e in f.declaredEffects {
        EdgeReaches(k, f.name, c);
        assert ReachesEffect(k, flows, f.name, e);
      }
    }
    if EdgesMonotone(k, flows) {
      forall f, e | f in flows && ReachesEffect(k, flows, f.name, e) ensures e in f.declaredEffects {
        var c :| Reaches(k, f.name, c) && Declares(flows, c, e);
        var p :| PathBetween(k, p, f.name, c);
        EffectTravelsBack(g, flows, p, |p| - 1, e);
        assert p[0 + 1] in Succ(k, p[0]);
      }
    }
  }

  /** Along a path, an effect declared at position i is declared by the first callee. */
  lemma {:induction false} EffectTravelsBack(g: Graph, flows: seq<FlowMeta>, p: seq<string>, i: nat, e: string)
    requires EdgesMonotone(KnownCalls(g, flows), flows)
    requires IsPath(KnownCalls(g, flows), p) && 1 <= i < |p| && Declares(flows, p[i], e)
    ensures Declares(flows, p[1], e)
  {
    if i > 1 {
      var k := KnownCalls(g, flows);
      assert p[i - 1 + 1] in Succ(k, p[i - 1]) && p[i - 2 + 1] in Succ(k, p[i - 2]);
      KnownCallsSucc(g, flows, p[i - 2], p[i - 1]);
      KnownIffNamed(flows, p[i - 1]);
      EffectTravelsBack(g, flows, p, i - 1, e);
    }
  }

  // ----- the second search -----

  /** Every name the graph mentions, so that the visited set cannot grow for ever. */
  ghost function Universe(g: Graph): set<string> {
    g.Keys + set n, c | n in g && c in g[n] :: c
  }

  /** A search for one effect that stops at the first flow declaring it. Unlike the first search
      it also walks through callees that are no flow. */
  method HasTransitiveEffect(flowName: string, effect: string, flows: seq<FlowMeta>, g: Graph, seen: SeenSet)
    returns (found: bool)
    modifies seen
    ensures old(seen.names) <= seen.names
    ensures found ==> ReachesEffect(g, flows, flowName, effect)
    ensures !found ==> flowName in seen.names && Exhausted(g, flows, effect, old(seen.names), seen.names)
    decreases Universe(g) + {flowName} - seen.names
  {
    if flowName in seen.names {
      return false;
    }
    ghost var before := seen.names;
    seen.names := seen.names + {flowName};
    var callees := Succ(g, flowName);
    var i := 0;
    while i < |callees|
      invariant 0 <= i <= |callees|
      invariant before + {flowName} <= seen.names
      invariant forall j :: 0 <= j < i ==> !Declares(flows, callees[j], effect) && callees[j] in seen.names
      invariant Exhausted(g, flows, effect, before + {flowName}, seen.names)
    {
      var called := callees[i];
      assert called in g[flowName];
      EdgeReaches(g, flowName, called);
      if Declares(flows, called, effect) {
        return true;
      }
      found := HasTransitiveEffect(called, effect, flows, g, seen);
      if found {
        ghost var c :| Reaches(g, called, c) && Declares(flows, c, effect);
        EdgeThenReaches(g, flowName, called, c);
        return true;
      }
      i := i + 1;
    }
    return false;
  }

  /** Everything visited since `before` has only visited callees, none declaring the effect. */
  ghost predicate Exhausted(g: Graph, flows: seq<FlowMeta>, effect: string, before: set<string>, seen: set<string>) {
    forall n, c :: n in seen - before && c in Succ(g, n) ==> c in seen && !Declares(flows, c, effect)
  }

  lemma ExhaustedMeansUnreached(g: Graph, flows: seq<FlowMeta>, from: string, effect: string, seen: set<string>)
    requires from in seen && Exhausted(g, flows, effect, {}, seen)
    ensures !ReachesEffect(g, flows, from, effect)
  {
    if ReachesEffect(g, flows, from, effect) {
      var c :| Reaches(g, from, c) && Declares(flows, c, effect);
      var n := LastEdge(g, from, c);
      assert seen - {} == seen;
      if n != from {
        ReachableStaysInside(g, seen, from, n);
      }
      assert false;
    }
  }

  /** Started with nothing visited, the second search decides reachability of the effect. */
  method DecideTransitiveEffect(flowName: string, effect: string, flows: seq<FlowMeta>, g: Graph) returns (found: bool)
    ensures found <==> ReachesEffect(g, flows, flowName, effect)
  {
    var seen := new SeenSet({});
    found := HasTransitiveEffect(flowName, effect, flows, g, seen);
    if !found {
      ExhaustedMeansUnreached(g, flows, flowName, effect, seen.names);
    }
  }

  /** Where every callee is a flow, as buildFlowCallGraph guarantees, both searches walk the same
      graph and so agree on every effect. */
  lemma SearchesAgree(g: Graph, flows: seq<FlowMeta>, from: string, effect: string)
    requires forall n, c :: n in g && c in g[n] ==> Known(flows, c)
    ensures ReachesEffect(g, flows, from, effect) <==> ReachesEffect(KnownCalls(g, flows), flows, from, effect)
  {
    forall a, b ensures Reaches(g, a, b) <==> Reaches(KnownCalls(g, flows), a, b) {
      SamePaths(g, flows, a, b);
    }
  }

  lemma SamePaths(g: Graph, flows: seq<FlowMeta>, a: string, b: string)
    requires forall n, c :: n in g && c in g[n] ==> Known(flows, c)
    ensures Reaches(g, a, b) <==> Reaches(KnownCalls(g, flows), a, b)
  {
    var k := KnownCalls(g, flows);
    forall n, c ensures c in Succ(g, n) <==> c in Succ(k, n) {
      KnownCallsSucc(g, flows, n, c);
    }
    if Reaches(g, a, b) {
      var p :| PathBetween(g, p, a, b);
      assert PathBetween(k, p, a, b);
    }
    if Reaches(k, a, b) {
      var p :| PathBetween(k, p, a, b);
      assert PathBetween(g, p, a, b);
    }
  }
}
