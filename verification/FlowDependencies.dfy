/**
 Which flows a flow uses, which use it, and how many depend on it however indirectly
 (flow-dependency-analysis.ts).

 A JavaScript Set is modelled by the sequence of its elements in insertion order, without
 repetition; the alphabetical order of the printed lists is left out.
 */
module FlowDependencies {
  import opened CallGraph

  /** A top-level flow declaration and the names its call expressions mention. */
  datatype FlowDecl = FlowDecl(name: string, calls: seq<string>)

  datatype Dependencies = Dependencies(uses: set<string>, usedBy: set<string>, impact: nat)

  /** Flow nodes by name: a later declaration of the same name replaces an earlier one. */
  function FlowNodes(decls: seq<FlowDecl>): Graph {
    if decls == [] then map[]
    else
      var d := decls[|decls| - 1];
      var before := FlowNodes(decls[..|decls| - 1]);
      if d.name != "" then before[d.name := d.calls] else before
  }

  /** A call counts when it names another declared flow. */
  predicate Counts(nodes: Graph, name: string, callee: string) {
    callee != "" && callee != name && callee in nodes
  }

  function KeepFlows(nodes: Graph, name: string, calls: seq<string>): seq<string> {
    if calls == [] then []
    else
      var rest := KeepFlows(nodes, name, calls[1..]);
      if Counts(nodes, name, calls[0]) then [calls[0]] + rest else rest
  }

  lemma InKeepFlows(nodes: Graph, name: string, calls: seq<string>, c: string)
    ensures c in KeepFlows(nodes, name, calls) <==> c in calls && Counts(nodes, name, c)
  {
  }

  /** The flow-to-flow call graph, without self-calls. */
  function FlowGraph(nodes: Graph): Graph {
    map n | n in nodes :: KeepFlows(nodes, n, nodes[n])
  }

  lemma InFlowGraph(nodes: Graph, n: string, c: string)
    ensures c in Succ(FlowGraph(nodes), n) <==> n in nodes && c in nodes[n] && Counts(nodes, n, c)
  {
    if n in nodes {
      InKeepFlows(nodes, n, nodes[n], c);
    }
  }

  ghost function Uses(nodes: Graph, n: string): set<string> {
    set c | c in Succ(FlowGraph(nodes), n)
  }

  ghost function UsedBy(nodes: Graph, n: string): set<string> {
    set a | a in nodes && n in Succ(FlowGraph(nodes), a)
  }

  /** The other flows from which `n` can be reached by calls: its blast radius. */
  ghost function Dependants(nodes: Graph, n: string): set<string> {
    set g | g in nodes && g != n && Reaches(FlowGraph(nodes), g, n)
  }

  // ----- direct edges -----

  /** Adding to a JavaScript Set. */
  function Add(s: seq<string>, x: string): (r: seq<string>)
    ensures forall y :: y in r <==> y in s || y == x
  {
    if x in s then s else s + [x]
  }

  /** `uses` and `usedBy` hold exactly the edges from the flows in `sources`. */
  ghost predicate EdgesFrom(nodes: Graph, sources: set<string>, uses: Graph, usedBy: Graph) {
    && uses.Keys == nodes.Keys && usedBy.Keys == nodes.Keys
    && (forall a, c :: a in nodes ==> (c in uses[a] <==> a in sources && c in Succ(FlowGraph(nodes), a)))
    && (forall a, c :: c in nodes ==> (a in usedBy[c] <==> a in sources && c in Succ(FlowGraph(nodes), a)))
  }

  ghost function Elements(names: seq<string>): set<string> {
    set n | n in names
  }

  lemma OneElementMore(names: seq<string>, i: nat)
    requires i < |names|
    ensures Elements(names[..i + 1]) == Elements(names[..i]) + {names[i]}
  {
    assert names[..i + 1] == names[..i] + [names[i]];
  }

  lemma NoEdgesYet(nodes: Graph, none: Graph)
    requires none.Keys == nodes.Keys && forall n :: n in none ==> none[n] == []
    ensures EdgesFrom(nodes, {}, none, none)
  {
  }

  method DirectEdges(nodes: Graph, names: seq<string>) returns (uses: Graph, usedBy: Graph)
    requires forall n :: n in names <==> n in nodes
    ensures EdgesFrom(nodes, nodes.Keys, uses, usedBy)
  {
    uses := map n | n in nodes :: [];
    usedBy := uses;
    NoEdgesYet(nodes, uses);
    assert Elements(names[..0]) == {};
    var i := 0;
    while i < |names|
      invariant 0 <= i <= |names|
      invariant EdgesFrom(nodes, Elements(names[..i]), uses, usedBy)
    {
      OneElementMore(names, i);
      uses, usedBy := EdgesOf(nodes, names[i], uses, usedBy, Elements(names[..i]));
      i := i + 1;
    }
    assert names[..|names|] == names;
    assert Elements(names) == nodes.Keys;
  }

  method EdgesOf(nodes: Graph, name: string, uses0: Graph, usedBy0: Graph, ghost done: set<string>)
    returns (uses: Graph, usedBy: Graph)
    requires name in nodes && EdgesFrom(nodes, done, uses0, usedBy0)
    ensures EdgesFrom(nodes, done + {name}, uses, usedBy)
  {
    uses, usedBy := uses0, usedBy0;
    var calls := nodes[name];
    var i := 0;
    while i < |calls|
      invariant 0 <= i <= |calls|
      invariant uses.Keys == nodes.Keys && usedBy.Keys == nodes.Keys
      invariant forall a :: a in nodes && a != name ==> uses[a] == uses0[a]
      invariant forall c :: c in uses[name] <==> c in uses0[name] || (c in calls[..i] && Counts(nodes, name, c))
      invariant forall a, c :: c in nodes ==>
                  (a in usedBy[c] <==> a in usedBy0[c] || (a == name && c in calls[..i] && Counts(nodes, name, c)))
    {
      var callee := calls[i];
      assert forall c :: c in calls[..i + 1] <==> c in calls[..i] || c == callee;
      if callee != "" && callee != name && callee in nodes {
        uses := uses[name := Add(uses[name], callee)];
        usedBy := usedBy[callee := Add(usedBy[callee], name)];
      }
      i := i + 1;
    }
    assert calls[..|calls|] == calls;
    EdgesAdded(nodes, name, uses0, usedBy0, done, uses, usedBy);
  }

  lemma EdgesAdded(nodes: Graph, name: string, uses0: Graph, usedBy0: Graph, done: set<string>, uses: Graph, usedBy: Graph)
    requires name in nodes && EdgesFrom(nodes, done, uses0, usedBy0)
    requires uses.Keys == nodes.Keys && usedBy.Keys == nodes.Keys
    requires forall a :: a in nodes && a != name ==> uses[a] == uses0[a]
    requires forall c :: c in uses[name] <==> c in uses0[name] || (c in nodes[name] && Counts(nodes, name, c))
    requires forall a, c :: c in nodes ==>
               (a in usedBy[c] <==> a in usedBy0[c] || (a == name && c in nodes[name] && Counts(nodes, name, c)))
    ensures EdgesFrom(nodes, done + {name}, uses, usedBy)
  {
    forall c ensures c in Succ(FlowGraph(nodes), name) <==> c in nodes[name] && Counts(nodes, name, c) {
      InFlowGraph(nodes, name, c);
    }
  }

  // ----- the closure over usedBy -----

  /** A set closed under callers holds everything that reaches one of its members. */
  lemma CallersStayInside(g: Graph, s: set<string>, a: string, b: string)
    requires (forall x, u :: x in s && x in Succ(g, u) ==> u in s) && b in s && Reaches(g, a, b)
    ensures a in s
  {
    var p :| PathBetween(g, p, a, b);
    PathFromInside(g, s, p, 0);
  }

  lemma {:induction false} PathFromInside(g: Graph, s: set<string>, p: seq<string>, i: nat)
    requires (forall x, u :: x in s && x in Succ(g, u) ==> u in s) && IsPath(g, p) && i < |p| && p[|p| - 1] in s
    ensures p[i] in s
    decreases |p| - i
  {
    if i < |p| - 1 {
      PathFromInside(g, s, p, i + 1);
      assert p[i + 1] in Succ(g, p[i]);
    }
  }

  ghost predicate AllDependants(nodes: Graph, name: string, xs: set<string>) {
    forall x :: x in xs ==> x in nodes && Reaches(FlowGraph(nodes), x, name)
  }

  /** Every caller of `x` is seen, waiting on the stack, or the flow itself. */
  ghost predicate CallersIn(g: Graph, x: string, name: string, seen: set<string>, stack: seq<string>) {
    forall u :: x in Succ(g, u) ==> u == name || u in seen || u in stack
  }

  ghost predicate Frontier(g: Graph, name: string, seen: set<string>, stack: seq<string>) {
    CallersIn(g, name, name, seen, stack) && forall x :: x in seen ==> CallersIn(g, x, name, seen, stack)
  }

  lemma CallersStillIn(g: Graph, x: string, name: string, seen: set<string>, rest: seq<string>, cur: string,
                       seen': set<string>, stack: seq<string>)
    requires CallersIn(g, x, name, seen, rest + [cur])
    requires seen <= seen' && (cur == name || cur in seen') && forall u :: u in rest ==> u in stack
    ensures CallersIn(g, x, name, seen', stack)
  {
    forall u | x in Succ(g, u) ensures u == name || u in seen' || u in stack {
      assert u in rest + [cur] ==> u in rest || u == cur;
    }
  }

  lemma FrontierMoves(g: Graph, name: string, seen: set<string>, rest: seq<string>, cur: string,
                      seen': set<string>, stack: seq<string>)
    requires Frontier(g, name, seen, rest + [cur])
    requires seen <= seen' <= seen + {cur} && (cur == name || cur in seen') && forall u :: u in rest ==> u in stack
    requires cur in seen' - seen ==> CallersIn(g, cur, name, seen', stack)
    ensures Frontier(g, name, seen', stack)
  {
    CallersStillIn(g, name, name, seen, rest, cur, seen', stack);
    forall x | x in seen' ensures CallersIn(g, x, name, seen', stack) {
      if x in seen {
        CallersStillIn(g, x, name, seen, rest, cur, seen', stack);
      }
    }
  }

  lemma FrontierEmpty(nodes: Graph, name: string, seen: set<string>)
    requires name in nodes && Frontier(FlowGraph(nodes), name, seen, [])
    ensures Dependants(nodes, name) <= seen
  {
    var g := FlowGraph(nodes);
    forall x, u | x in seen + {name} && x in Succ(g, u) ensures u in seen + {name} {
      assert x == name || CallersIn(g, x, name, seen, []);
    }
    forall a | a in nodes && a != name && Reaches(g, a, name) ensures a in seen {
      CallersStayInside(g, seen + {name}, a, name);
    }
  }

  method Closure(nodes: Graph, name: string, usedBy: Graph, ghost uses: Graph) returns (seen: set<string>)
    requires name in nodes && EdgesFrom(nodes, nodes.Keys, uses, usedBy)
    ensures seen == Dependants(nodes, name)
  {
    ghost var g := FlowGraph(nodes);
    seen := {};
    var stack := usedBy[name];
    forall u | u in stack ensures u in nodes && Reaches(g, u, name) {
      EdgeReaches(g, u, name);
    }
    forall u | name in Succ(g, u) ensures u in stack {
      InFlowGraph(nodes, u, name);
    }
    while stack != []
      invariant name !in seen && AllDependants(nodes, name, seen)
      invariant forall u :: u in stack ==> u in nodes && Reaches(g, u, name)
      invariant Frontier(g, name, seen, stack)
      decreases nodes.Keys - seen, |stack|
    {
      var cur := stack[|stack| - 1];
      ghost var before := seen;
      var rest := stack[..|stack| - 1];
      assert stack == rest + [cur];
      if cur == name || cur in seen {
        FrontierMoves(g, name, seen, rest, cur, seen, rest);
        stack := rest;
      } else {
        seen := seen + {cur};
        stack := PushCallers(nodes, name, usedBy, uses, cur, seen, rest);
        FrontierMoves(g, name, before, rest, cur, seen, stack);
      }
    }
    FrontierEmpty(nodes, name, seen);
  }

  lemma CallerIsListed(nodes: Graph, uses: Graph, usedBy: Graph, cur: string, u: string)
    requires cur in nodes && EdgesFrom(nodes, nodes.Keys, uses, usedBy) && cur in Succ(FlowGraph(nodes), u)
    ensures u in usedBy[cur]
  {
    InFlowGraph(nodes, u, cur);
  }

  method PushCallers(nodes: Graph, name: string, usedBy: Graph, ghost uses: Graph, cur: string, seen: set<string>,
                     stack0: seq<string>)
    returns (stack: seq<string>)
    requires cur in nodes && EdgesFrom(nodes, nodes.Keys, uses, usedBy) && Reaches(FlowGraph(nodes), cur, name)
    requires forall u :: u in stack0 ==> u in nodes && Reaches(FlowGraph(nodes), u, name)
    ensures forall u :: u in stack0 ==> u in stack
    ensures forall u :: u in stack ==> u in nodes && Reaches(FlowGraph(nodes), u, name)
    ensures CallersIn(FlowGraph(nodes), cur, name, seen, stack)
  {
    ghost var g := FlowGraph(nodes);
    stack := stack0;
    var ups := usedBy[cur];
    var i := 0;
    while i < |ups|
      invariant 0 <= i <= |ups|
      invariant forall u :: u in stack0 ==> u in stack
      invariant forall u :: u in stack ==> u in nodes && Reaches(g, u, name)
      invariant forall j :: 0 <= j < i ==> ups[j] == name || ups[j] in seen || ups[j] in stack
    {
      var up := ups[i];
      EdgeThenReaches(g, up, cur, name);
      if up != name && up !in seen {
        stack := stack + [up];
      }
      i := i + 1;
    }
    forall u | cur in Succ(g, u) ensures u == name || u in seen || u in stack {
      CallerIsListed(nodes, uses, usedBy, cur, u);
    }
  }

  // ----- the whole analysis -----

  method CollectFlowNodes(decls: seq<FlowDecl>) returns (nodes: Graph, names: seq<string>)
    ensures nodes == FlowNodes(decls)
    ensures forall n :: n in names <==> n in nodes
  {
    nodes, names := map[], [];
    var i := 0;
    while i < |decls|
      invariant 0 <= i <= |decls|
      invariant nodes == FlowNodes(decls[..i])
      invariant forall n :: n in names <==> n in nodes
    {
      assert decls[..i + 1][..i] == decls[..i];
      var d := decls[i];
      if d.name != "" {
        names := Add(names, d.name);
        nodes := nodes[d.name := d.calls];
      }
      i := i + 1;
    }
    assert decls[..|decls|] == decls;
  }

  method AnalyzeFlowDependencies(decls: seq<FlowDecl>) returns (out: map<string, Dependencies>)
    ensures var nodes := FlowNodes(decls);
            && out.Keys == nodes.Keys
            && forall n :: n in nodes ==>
                 out[n] == Dependencies(Uses(nodes, n), UsedBy(nodes, n), |Dependants(nodes, n)|)
  {
    var nodes, names := CollectFlowNodes(decls);
    var uses, usedBy := DirectEdges(nodes, names);
    out := map[];
    var i := 0;
    while i < |names|
      invariant 0 <= i <= |names|
      invariant out.Keys == set j | 0 <= j < i :: names[j]
      invariant forall n :: n in out ==>
                  n in nodes && out[n] == Dependencies(Uses(nodes, n), UsedBy(nodes, n), |Dependants(nodes, n)|)
    {
      var name := names[i];
      var seen := Closure(nodes, name, usedBy, uses);
      EdgeSets(nodes, name, uses, usedBy);
      out := out[name := Dependencies(set c | c in uses[name], set a | a in usedBy[name], |seen|)];
      i := i + 1;
    }
  }

  lemma EdgeSets(nodes: Graph, name: string, uses: Graph, usedBy: Graph)
    requires name in nodes && EdgesFrom(nodes, nodes.Keys, uses, usedBy)
    ensures (set c | c in uses[name]) == Uses(nodes, name) && (set a | a in usedBy[name]) == UsedBy(nodes, name)
  {
    forall a | a in usedBy[name] ensures a in nodes {
      InFlowGraph(nodes, a, name);
    }
  }

  // ----- what the numbers mean -----

  /** USES and USEDBY are converse, and no flow uses itself. */
  lemma UsesConverse(nodes: Graph, a: string, c: string)
    ensures c in Uses(nodes, a) <==> a in UsedBy(nodes, c)
    ensures a !in Uses(nodes, a)
  {
    InFlowGraph(nodes, a, c);
    InFlowGraph(nodes, a, a);
  }

  /** IMPACT 0, "safe to delete", is printed exactly when no flow calls this one. */
  lemma ImpactZeroIffUnused(nodes: Graph, n: string)
    ensures |Dependants(nodes, n)| == 0 <==> UsedBy(nodes, n) == {}
  {
    var g := FlowGraph(nodes);
    if UsedBy(nodes, n) != {} {
      var a :| a in UsedBy(nodes, n);
      UsesConverse(nodes, a, n);
      EdgeReaches(g, a, n);
      assert a in Dependants(nodes, n);
    }
    if Dependants(nodes, n) != {} {
      var d :| d in Dependants(nodes, n);
      var a := LastEdge(g, d, n);
      InFlowGraph(nodes, a, n);
      assert a in UsedBy(nodes, n);
    }
  }

  /** A flow's callees have at least its dependants, itself included, unless they call back. */
  lemma ImpactGrowsDownstream(nodes: Graph, a: string, c: string)
    requires c in Uses(nodes, a)
    ensures Dependants(nodes, a) - {c} + {a} <= Dependants(nodes, c)
  {
    var g := FlowGraph(nodes);
    InFlowGraph(nodes, a, c);
    EdgeReaches(g, a, c);
    forall d | d in Dependants(nodes, a) && d != c ensures d in Dependants(nodes, c) {
      ReachesThenEdge(g, d, a, c);
    }
  }

  // ----- names declared twice -----

  /** All the calls of every declaration of `name`, as a union of edges would have them. */
  ghost predicate SomeDeclCalls(decls: seq<FlowDecl>, name: string, callee: string) {
    exists i :: 0 <= i < |decls| && decls[i].name == name && callee in decls[i].calls
  }

  /** Declaration `i` is the last one of `name`. */
  predicate IsLastDecl(decls: seq<FlowDecl>, i: nat, name: string) {
    i < |decls| && decls[i].name == name && forall j :: i < j < |decls| ==> decls[j].name != name
  }

  lemma LastDeclBefore(decls: seq<FlowDecl>, i: nat, name: string)
    requires decls != [] && IsLastDecl(decls[..|decls| - 1], i, name) && decls[|decls| - 1].name != name
    ensures IsLastDecl(decls, i, name)
  {
    var before := decls[..|decls| - 1];
    forall j | i < j < |decls| ensures decls[j].name != name {
      assert j < |decls| - 1 ==> decls[j] == before[j];
    }
  }

  /** The map has the name exactly when it is declared, with the calls of its last declaration. */
  lemma {:induction false} LastDeclWins(decls: seq<FlowDecl>, name: string)
    ensures name in FlowNodes(decls) <==> name != "" && exists i :: 0 <= i < |decls| && decls[i].name == name
    ensures name in FlowNodes(decls) ==>
              exists i: nat :: IsLastDecl(decls, i, name) && decls[i].calls == FlowNodes(decls)[name]
  {
    if decls != [] {
      var k := |decls| - 1;
      LastDeclWins(decls[..k], name);
      if decls[k].name == name {
        assert IsLastDecl(decls, k, name);
      } else {
        assert forall i :: 0 <= i < k ==> decls[..k][i] == decls[i];
        if name in FlowNodes(decls) {
          var i: nat :| IsLastDecl(decls[..k], i, name) && decls[..k][i].calls == FlowNodes(decls[..k])[name];
          LastDeclBefore(decls, i, name);
        }
      }
    }
  }

  /** The edges of a repeated name are the union over its declarations, as the documentation of
      the whole-program analysis says, exactly when the last declaration calls whatever flow any
      of them calls. */
  lemma EdgesAreUnionIff(decls: seq<FlowDecl>, name: string)
    requires name in FlowNodes(decls)
    ensures var nodes := FlowNodes(decls);
            (forall c :: c in Uses(nodes, name) <==> SomeDeclCalls(decls, name, c) && Counts(nodes, name, c))
            <==> (forall i, c :: 0 <= i < |decls| && decls[i].name == name && c in decls[i].calls && Counts(nodes, name, c)
                                 ==> c in nodes[name])
  {
    var nodes := FlowNodes(decls);
    LastDeclWins(decls, name);
    var last: nat :| IsLastDecl(decls, last, name) && decls[last].calls == nodes[name];
    forall c ensures c in Uses(nodes, name) <==> c in nodes[name] && Counts(nodes, name, c) {
      InFlowGraph(nodes, name, c);
    }
    if forall c :: c in Uses(nodes, name) <==> SomeDeclCalls(decls, name, c) && Counts(nodes, name, c) {
      forall i, c | 0 <= i < |decls| && decls[i].name == name && c in decls[i].calls && Counts(nodes, name, c)
        ensures c in nodes[name]
      {
        assert SomeDeclCalls(decls, name, c);
        assert c in Uses(nodes, name);
      }
    }
  }

  /** A declaration under another name than `n`, named or not, calls `n`. */
  ghost predicate OtherDeclCalls(decls: seq<FlowDecl>, n: string) {
    exists i :: 0 <= i < |decls| && decls[i].name != n && n in decls[i].calls
  }

  /** The last declaration of another flow calls `n`. */
  ghost predicate OtherLastDeclCalls(decls: seq<FlowDecl>, n: string) {
    exists i: nat, a :: IsLastDecl(decls, i, a) && a != "" && a != n && n in decls[i].calls
  }

  lemma UsedByLastDecls(decls: seq<FlowDecl>, n: string)
    requires n in FlowNodes(decls)
    ensures UsedBy(FlowNodes(decls), n) != {} <==> OtherLastDeclCalls(decls, n)
  {
    var nodes := FlowNodes(decls);
    LastDeclWins(decls, n);
    if UsedBy(nodes, n) != {} {
      var a :| a in UsedBy(nodes, n);
      InFlowGraph(nodes, a, n);
      LastDeclWins(decls, a);
      var i: nat :| IsLastDecl(decls, i, a) && decls[i].calls == nodes[a];
    }
    if OtherLastDeclCalls(decls, n) {
      var i: nat, a :| IsLastDecl(decls, i, a) && a != "" && a != n && n in decls[i].calls;
      LastDeclWins(decls, a);
      var k: nat :| IsLastDecl(decls, k, a) && decls[k].calls == nodes[a];
      assert i == k;
      InFlowGraph(nodes, a, n);
      assert a in UsedBy(nodes, n);
    }
  }

  /** "Safe to delete" is never said of a flow that some declaration of another flow calls, if and
      only if the last declaration of another flow calls it, or none at all does. */
  lemma SafeToDeleteIsTrueIff(decls: seq<FlowDecl>, n: string)
    requires n in FlowNodes(decls)
    ensures |Dependants(FlowNodes(decls), n)| == 0 <==> !OtherLastDeclCalls(decls, n)
    ensures (|Dependants(FlowNodes(decls), n)| == 0 ==> !OtherDeclCalls(decls, n))
            <==> OtherLastDeclCalls(decls, n) || !OtherDeclCalls(decls, n)
  {
    ImpactZeroIffUnused(FlowNodes(decls), n);
    UsedByLastDecls(decls, n);
  }

  /** A flow whose only caller is declared a second time without the call has impact 0. */
  lemma RedeclarationHidesCaller()
    ensures var decls := [FlowDecl("a", ["b"]), FlowDecl("b", []), FlowDecl("a", [])];
            SomeDeclCalls(decls, "a", "b") && |Dependants(FlowNodes(decls), "b")| == 0
  {
    var decls := [FlowDecl("a", ["b"]), FlowDecl("b", []), FlowDecl("a", [])];
    assert decls[0].name == "a" && "b" in decls[0].calls;
    var nodes := FlowNodes(decls);
    assert decls[..2] == [FlowDecl("a", ["b"]), FlowDecl("b", [])];
    assert decls[..2][..1] == [FlowDecl("a", ["b"])];
    assert decls[..2][..1][..0] == [];
    assert FlowNodes([FlowDecl("a", ["b"])]) == map["a" := ["b"]];
    assert FlowNodes([FlowDecl("a", ["b"]), FlowDecl("b", [])]) == map["a" := ["b"], "b" := []];
    assert nodes == map["a" := ["b"], "b" := []]["a" := []];
    assert nodes["a"] == [] && nodes["b"] == [] && nodes.Keys == {"a", "b"};
    forall x ensures x !in UsedBy(nodes, "b") {
      InFlowGraph(nodes, x, "b");
    }
    ImpactZeroIffUnused(nodes, "b");
  }
}
