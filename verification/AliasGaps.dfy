/**
 Two bodies that hand out a provenance which the alias pass of AliasCarry does not report: a loop that
 needs two turns, and a parameter that a branch binds again.
 */
module AliasGaps {
  import opened AliasCarry
  import opened AliasRuns
  import opened AliasFlow
  import opened Options

  // ----- building blocks -----

  function Name(x: string): Node {
    Node(Identifier, Some(x), [])
  }

  function FieldOf(owner: string, f: string): Node {
    Node(MemberExpr, Some(f), [Name(owner)])
  }

  function Assign(x: string, e: Node): Node {
    Node(AssignStmt, Some(x), [e])
  }

  function ReturnOf(x: string): Node {
    Node(ReturnStmt, None, [Name(x)])
  }

  function BlockOf(statements: seq<Node>): Node {
    Node(Block, None, statements)
  }

  predicate IsContainer(n: Node) {
    n.kind.Block? || n.kind.IfStmt? || n.kind.WhileStmt?
  }

  lemma OneNode(n: Node, aliases: Aliases)
    ensures BuildAll([n], aliases) == Build(n, aliases) && ReturnedAll([n], aliases) == Returned(n, aliases)
    ensures CollectedAll([n], aliases) == Collected(n, aliases)
  {
    assert [n][1..] == [];
  }

  lemma TwoNodes(m: Node, n: Node, aliases: Aliases)
    ensures BuildAll([m, n], aliases) == Build(n, Build(m, aliases))
    ensures ReturnedAll([m, n], aliases) == Returned(m, aliases) + Returned(n, aliases)
  {
    assert [m, n][1..] == [n];
    OneNode(n, aliases);
    OneNode(n, Build(m, aliases));
  }

  lemma PairFacts(n: Node, first: Node, second: Node, aliases: Aliases)
    requires IsContainer(n) && n.children == [first, second]
    ensures Build(n, aliases) == Build(second, Build(first, aliases))
    ensures Returned(n, aliases) == Returned(first, aliases) + Returned(second, aliases)
  {
    TwoNodes(first, second, aliases);
  }

  /** A local name, or a field of one. */
  predicate IsRead(e: Node) {
    e.value.Some? && (e == Name(e.value.value)
                      || (e.children != [] && e.children[0].value.Some?
                          && e == FieldOf(e.children[0].value.value, e.value.value)))
  }

  lemma ReadFacts(e: Node, aliases: Aliases)
    requires IsRead(e)
    ensures Build(e, aliases) == aliases && Returned(e, aliases) == {}
  {
    if e.children != [] {
      OneNode(e.children[0], aliases);
    }
  }

  lemma AssignFacts(x: string, e: Node, aliases: Aliases)
    requires x != "" && IsRead(e)
    ensures Build(Assign(x, e), aliases) == Noted(aliases, x, Carry(SourceOf(e), aliases))
    ensures Returned(Assign(x, e), aliases) == {}
  {
    var noted := Noted(aliases, x, Carry(SourceOf(e), aliases));
    OneNode(e, aliases);
    OneNode(e, noted);
    ReadFacts(e, aliases);
    ReadFacts(e, noted);
  }

  lemma ReturnFacts(x: string, aliases: Aliases)
    ensures Build(ReturnOf(x), aliases) == aliases
    ensures Returned(ReturnOf(x), aliases) == {x} + (if x in aliases then aliases[x] else {})
  {
    OneNode(Name(x), aliases);
    ReadFacts(Name(x), aliases);
  }

  lemma NotedNew(aliases: Aliases, x: string, names: set<string>)
    requires x !in aliases
    ensures Noted(aliases, x, names) == aliases[x := names]
  {
    assert {} + names == names;
  }

  /** A statement with a condition and a block of its own. */
  predicate IsGuarded(n: Node, inner: Node) {
    IsContainer(n) && |n.children| == 2 && IsRead(n.children[0]) && n.children[1] == inner && IsContainer(inner)
  }

  lemma GuardedFacts(n: Node, inner: Node, aliases: Aliases)
    requires IsGuarded(n, inner)
    ensures Build(n, aliases) == Build(inner, aliases) && Returned(n, aliases) == Returned(inner, aliases)
  {
    ReadFacts(n.children[0], aliases);
    PairFacts(n, n.children[0], inner, aliases);
  }

  // ----- the flow of facts through them -----

  lemma FlowOne(n: Node, facts: set<Fact>, p: Provenance, again: bool)
    ensures FlowAll([n], facts, p, again) == Flow(n, facts, p, again)
  {
    assert [n][1..] == [];
  }

  lemma FlowTwo(m: Node, n: Node, facts: set<Fact>, p: Provenance, again: bool)
    ensures FlowAll([m, n], facts, p, again) == Flow(n, Flow(m, facts, p, again), p, again)
  {
    assert [m, n][1..] == [n];
    FlowOne(n, Flow(m, facts, p, again), p, again);
  }

  lemma FlowName(x: string, facts: set<Fact>, p: Provenance, again: bool)
    ensures Flow(Name(x), facts, p, again) == facts
  {
  }

  lemma FlowRead(e: Node, facts: set<Fact>, p: Provenance, again: bool)
    requires IsRead(e)
    ensures Flow(e, facts, p, again) == facts
  {
    if e.children != [] {
      var owner := e.children[0].value.value;
      FlowName(owner, facts, p, again);
      FlowOne(Name(owner), facts, p, again);
    }
  }

  lemma FlowAssign(x: string, e: Node, facts: set<Fact>, p: Provenance, again: bool)
    requires x != "" && IsRead(e)
    ensures Flow(Assign(x, e), facts, p, again) == FlowStep(Bind(x, SourceOf(e)), facts, p)
  {
    FlowRead(e, facts, p, again);
    FlowOne(e, facts, p, again);
  }

  lemma FlowReturn(x: string, facts: set<Fact>, p: Provenance, again: bool)
    requires Held(x) in facts
    ensures Out in Flow(ReturnOf(x), facts, p, again)
  {
    FlowName(x, facts, p, again);
    FlowOne(Name(x), facts, p, again);
    assert Hands(Name(x), facts, p);
  }

  lemma FlowContainer(n: Node, facts: set<Fact>, p: Provenance, again: bool)
    requires n.kind.Block?
    ensures Flow(n, facts, p, again) == FlowAll(n.children, facts, p, again)
  {
  }

  lemma FlowBlock(block: Node, m: Node, n: Node, facts: set<Fact>, p: Provenance, again: bool)
    requires block.kind.Block? && block.children == [m, n]
    ensures Flow(block, facts, p, again) == Flow(n, Flow(m, facts, p, again), p, again)
  {
    FlowContainer(block, facts, p, again);
    FlowTwo(m, n, facts, p, again);
  }

  // ----- a loop that needs two turns -----

  function LoopOf(c: string, inner: Node): Node {
    Node(WhileStmt, None, [Name(c), inner])
  }

  function Turn(a: string, b: string, owner: string, f: string): Node {
    BlockOf([Assign(b, Name(a)), Assign(a, FieldOf(owner, f))])
  }

  /** while (c) { b = a; a = owner.f }, then return b */
  function LoopingBody(c: string, a: string, b: string, owner: string, f: string): Node {
    BlockOf([LoopOf(c, Turn(a, b, owner, f)), ReturnOf(b)])
  }

  lemma LoopingAliases(c: string, a: string, b: string, owner: string, f: string)
    requires a != "" && b != "" && a != b
    ensures BodyAliases(LoopingBody(c, a, b, owner, f)) == map[b := {a}, a := {f}]
  {
    var first, second, turn := Assign(b, Name(a)), Assign(a, FieldOf(owner, f)), Turn(a, b, owner, f);
    var body := LoopingBody(c, a, b, owner, f);
    var one: Aliases := map[b := {a}];
    AssignFacts(b, Name(a), map[]);
    AssignFacts(a, FieldOf(owner, f), one);
    NotedNew(map[], b, {a});
    NotedNew(one, a, {f});
    PairFacts(turn, first, second, map[]);
    GuardedFacts(body.children[0], turn, map[]);
    ReturnFacts(b, one[a := {f}]);
    PairFacts(body, body.children[0], ReturnOf(b), map[]);
  }

  lemma LoopingReport(c: string, a: string, b: string, owner: string, f: string, aliases: Aliases)
    requires a != "" && b != "" && b in aliases && aliases[b] == {a}
    ensures Returned(LoopingBody(c, a, b, owner, f), aliases) == {a, b}
  {
    var first, second, turn := Assign(b, Name(a)), Assign(a, FieldOf(owner, f)), Turn(a, b, owner, f);
    var body := LoopingBody(c, a, b, owner, f);
    AssignFacts(b, Name(a), aliases);
    AssignFacts(a, FieldOf(owner, f), aliases);
    PairFacts(turn, first, second, aliases);
    GuardedFacts(body.children[0], turn, aliases);
    ReturnFacts(b, aliases);
    PairFacts(body, body.children[0], ReturnOf(b), aliases);
  }

  lemma TurnFacts(c: string, a: string, b: string, owner: string, f: string, facts: set<Fact>)
    requires a != "" && b != "" && a != b && Live in facts
    ensures var next := FlowAll([Name(c), Turn(a, b, owner, f)], facts, FromField(f), true);
            Live in next && Held(a) in next && (Held(a) in facts ==> Held(b) in next)
  {
    var p := FromField(f);
    var one := FlowStep(Bind(b, Local(a)), facts, p);
    FlowName(c, facts, p, true);
    FlowTwo(Name(c), Turn(a, b, owner, f), facts, p, true);
    FlowBlock(Turn(a, b, owner, f), Assign(b, Name(a)), Assign(a, FieldOf(owner, f)), facts, p, true);
    FlowAssign(b, Name(a), facts, p, true);
    FlowAssign(a, FieldOf(owner, f), one, p, true);
  }

  /** Carried by `a` at the first turn, by `b` at the second. */
  lemma LoopingFacts(c: string, a: string, b: string, owner: string, f: string)
    requires a != "" && b != "" && a != b
    ensures Out in Flow(LoopingBody(c, a, b, owner, f), Start(FromField(f)), FromField(f), true)
  {
    var loop, p, start := LoopOf(c, Turn(a, b, owner, f)), FromField(f), Start(FromField(f));
    var ns := loop.children;
    var one := FlowTurns(ns, start, p, 1, true);
    assert FlowTurns(ns, start, p, 0, true) == start;
    TurnFacts(c, a, b, owner, f, start);
    assert one == start + FlowAll(ns, start, p, true);
    TurnFacts(c, a, b, owner, f, one);
    assert FlowTurns(ns, start, p, 2, true) == one + FlowAll(ns, one, p, true);
    LoopSettles(ns, start, p, true, 2);
    FlowBlock(LoopingBody(c, a, b, owner, f), loop, ReturnOf(b), start, p, true);
    FlowReturn(b, Flow(loop, start, p, true), p, true);
  }

  /** Two turns of this loop return the field, and the single pass does not notice. */
  lemma LoopLaunders(flow: Node, c: string, a: string, b: string, owner: string, f: string)
    requires a != "" && b != "" && a != b && f != a && f != b
    requires BodyBlock(flow.children) == Some(LoopingBody(c, a, b, owner, f))
    ensures f !in BodyFieldNames(flow)
    ensures !IsReported(flow, LoopingBody(c, a, b, owner, f), FromField(f), true)
  {
    var body := LoopingBody(c, a, b, owner, f);
    LoopingFacts(c, a, b, owner, f);
    LoopingAliases(c, a, b, owner, f);
    LoopingReport(c, a, b, owner, f, BodyAliases(body));
    ReportIsCompleteIff(flow, body, FromField(f), true);
  }

  // ----- a parameter that a branch binds again -----

  function IfOf(c: string, inner: Node): Node {
    Node(IfStmt, None, [Name(c), inner])
  }

  /** if (c) { p = owner.g }, then y = p; return y — in a flow with a parameter `p` */
  function ReboundBody(c: string, p: string, y: string, owner: string, g: string): Node {
    BlockOf([IfOf(c, BlockOf([Assign(p, FieldOf(owner, g))])), BlockOf([Assign(y, Name(p)), ReturnOf(y)])])
  }

  lemma SingleFacts(n: Node, only: Node, aliases: Aliases)
    requires IsContainer(n) && n.children == [only]
    ensures Build(n, aliases) == Build(only, aliases) && Returned(n, aliases) == Returned(only, aliases)
  {
    OneNode(only, aliases);
  }

  lemma ReboundAliases(c: string, p: string, y: string, owner: string, g: string)
    requires p != "" && y != "" && p != y
    ensures BodyAliases(ReboundBody(c, p, y, owner, g)) == map[p := {g}, y := {g}]
  {
    var rebind, rename := Assign(p, FieldOf(owner, g)), Assign(y, Name(p));
    var body := ReboundBody(c, p, y, owner, g);
    var one: Aliases := map[p := {g}];
    AssignFacts(p, FieldOf(owner, g), map[]);
    AssignFacts(y, Name(p), one);
    NotedNew(map[], p, {g});
    NotedNew(one, y, {g});
    SingleFacts(BlockOf([rebind]), rebind, map[]);
    GuardedFacts(body.children[0], BlockOf([rebind]), map[]);
    ReturnFacts(y, one[y := {g}]);
    PairFacts(body.children[1], rename, ReturnOf(y), one);
    PairFacts(body, body.children[0], body.children[1], map[]);
  }

  lemma ReboundReport(c: string, p: string, y: string, owner: string, g: string, aliases: Aliases)
    requires p != "" && y != "" && y in aliases && aliases[y] == {g}
    ensures Returned(ReboundBody(c, p, y, owner, g), aliases) == {y, g}
  {
    var rebind, rename := Assign(p, FieldOf(owner, g)), Assign(y, Name(p));
    var body := ReboundBody(c, p, y, owner, g);
    AssignFacts(p, FieldOf(owner, g), aliases);
    AssignFacts(y, Name(p), aliases);
    SingleFacts(BlockOf([rebind]), rebind, aliases);
    GuardedFacts(body.children[0], BlockOf([rebind]), aliases);
    ReturnFacts(y, aliases);
    PairFacts(body.children[1], rename, ReturnOf(y), aliases);
    PairFacts(body, body.children[0], body.children[1], aliases);
  }

  /** A condition without an else keeps what was the case before it. */
  lemma FlowIf(c: string, inner: Node, facts: set<Fact>, p: Provenance, again: bool)
    requires inner.kind.Block?
    ensures facts <= Flow(IfOf(c, inner), facts, p, again)
  {
    var alternatives := [inner];
    FlowName(c, facts, p, again);
    assert [Name(c), inner][1..] == alternatives && alternatives[1..] == [];
    assert FlowOneOf([], true, true, facts, p, again) == facts;
    assert facts <= FlowOneOf(alternatives, true, false, facts, p, again);
  }

  lemma ReboundFacts(c: string, p: string, y: string, owner: string, g: string)
    requires p != "" && y != ""
    ensures Out in Flow(ReboundBody(c, p, y, owner, g), Start(FromParameter(p)), FromParameter(p), false)
  {
    var body, start := ReboundBody(c, p, y, owner, g), Start(FromParameter(p));
    var branch, tail := body.children[0], body.children[1];
    var before := Flow(branch, start, FromParameter(p), false);
    FlowIf(c, BlockOf([Assign(p, FieldOf(owner, g))]), start, FromParameter(p), false);
    FlowBlock(body, branch, tail, start, FromParameter(p), false);
    FlowBlock(tail, Assign(y, Name(p)), ReturnOf(y), before, FromParameter(p), false);
    FlowAssign(y, Name(p), before, FromParameter(p), false);
    FlowReturn(y, FlowStep(Bind(y, Local(p)), before, FromParameter(p)), FromParameter(p), false);
  }

  /** Skipping the branch returns the parameter under another name; its own name is not reported. */
  lemma ReboundParameterIsMissed(flow: Node, c: string, p: string, y: string, owner: string, g: string)
    requires p != "" && y != "" && p != y && g != p
    requires BodyBlock(flow.children) == Some(ReboundBody(c, p, y, owner, g))
    ensures p !in BodyFieldNames(flow)
    ensures !IsReported(flow, ReboundBody(c, p, y, owner, g), FromParameter(p), false)
  {
    var body := ReboundBody(c, p, y, owner, g);
    ReboundFacts(c, p, y, owner, g);
    ReboundAliases(c, p, y, owner, g);
    ReboundReport(c, p, y, owner, g, BodyAliases(body));
    ReportIsCompleteIff(flow, body, FromParameter(p), false);
  }
}
