/**
 What the alias pass of AliasCarry catches, measured against runs of a flow body that track where
 each value came from.

 These runs are wider than the runs of the program, which are those of AliasFlow: any statement may
 be left out, and nothing ends at a return. What is caught here is caught there.
 */
module AliasRuns {
  import opened AliasCarry
  import opened Options

  predicate IsLoop(n: Node) {
    n.kind.WhileStmt? || n.kind.ForEachStmt?
  }

  // ----- statements and values -----

  /** Where a value came from. */
  datatype Provenance = FromField(name: string) | FromParameter(name: string) | Unknown

  type Env = map<string, Provenance>

  datatype State = State(env: Env, returned: set<Provenance>)

  const START := State(map[], {})

  /** A name that no statement has bound yet stands for itself. */
  function Read(x: string, env: Env): Provenance {
    if x in env then env[x] else FromParameter(x)
  }

  function Value(source: Source, env: Env): Provenance {
    match source
    case Field(f) => FromField(f)
    case Local(x) => Read(x, env)
    case Opaque => Unknown
  }

  /** Everything a returned expression hands out; redact and seal hand out nothing. */
  function Exposed(n: Node, env: Env): set<Provenance> {
    if IsDischarge(n) then {} else {Value(SourceOf(n), env)} + ExposedAll(n.children, env)
  }

  function ExposedAll(ns: seq<Node>, env: Env): set<Provenance> {
    if ns == [] then {} else Exposed(ns[0], env) + ExposedAll(ns[1..], env)
  }

  datatype Event = Bind(name: string, source: Source) | Return(exprs: seq<Node>)

  function OwnEvent(n: Node): seq<Event> {
    if BoundName(n).Some? then [Bind(BoundName(n).value, SourceOf(n.children[0]))]
    else if n.kind.ReturnStmt? then [Return(n.children)]
    else []
  }

  /** The statements of a tree, those inside an expression before the statement it belongs to. */
  function Events(n: Node): seq<Event> {
    EventsAll(n.children) + OwnEvent(n)
  }

  function EventsAll(ns: seq<Node>): seq<Event> {
    if ns == [] then [] else Events(ns[0]) + EventsAll(ns[1..])
  }

  function Perform(e: Event, s: State): State {
    match e
    case Bind(x, source) => s.(env := s.env[x := Value(source, s.env)])
    case Return(exprs) => s.(returned := s.returned + ExposedAll(exprs, s.env))
  }

  function RunTrace(trace: seq<Event>, s: State): State {
    if trace == [] then s else RunTrace(trace[1..], Perform(trace[0], s))
  }

  lemma {:induction false} RunConcat(a: seq<Event>, b: seq<Event>, s: State)
    ensures RunTrace(a + b, s) == RunTrace(b, RunTrace(a, s))
    decreases |a|
  {
    if a == [] {
      assert a + b == b;
    } else {
      RunConcat(a[1..], b, Perform(a[0], s));
      assert (a + b)[1..] == a[1..] + b;
    }
  }

  // ----- runs -----

  /** For a node: how its children go at each turn, and whether its own statement is performed. */
  datatype Choice = Choice(turns: seq<seq<Choice>>, taken: bool)

  /** Everything is gone through once; a loop at most once, or `again` and again. */
  predicate IsChoice(n: Node, c: Choice, again: bool)
    decreases n, 0
  {
    && (IsLoop(n) || |c.turns| == 1)
    && (again || |c.turns| <= 1)
    && AreTurns(n.children, c.turns, again)
  }

  predicate AreTurns(ns: seq<Node>, turns: seq<seq<Choice>>, again: bool)
    decreases ns, |turns| + 1
  {
    turns == [] || (AreChoices(ns, turns[0], again) && AreTurns(ns, turns[1..], again))
  }

  predicate AreChoices(ns: seq<Node>, cs: seq<Choice>, again: bool)
    decreases ns, 0
  {
    |cs| == |ns| && (ns == [] || (IsChoice(ns[0], cs[0], again) && AreChoices(ns[1..], cs[1..], again)))
  }

  /** The statements performed, in order. */
  function Trace(n: Node, c: Choice): seq<Event>
    decreases n, 0
  {
    TraceTurns(n.children, c.turns) + if c.taken then OwnEvent(n) else []
  }

  function TraceTurns(ns: seq<Node>, turns: seq<seq<Choice>>): seq<Event>
    decreases ns, |turns| + 1
  {
    if turns == [] then [] else TraceAll(ns, turns[0]) + TraceTurns(ns, turns[1..])
  }

  function TraceAll(ns: seq<Node>, cs: seq<Choice>): seq<Event>
    decreases ns, 0
  {
    if ns == [] || cs == [] then [] else Trace(ns[0], cs[0]) + TraceAll(ns[1..], cs[1..])
  }

  function RunOf(body: Node, c: Choice): State {
    RunTrace(Trace(body, c), START)
  }

  /** No statement hides inside the expression of a rename, no return inside that of a return. */
  predicate Tidy(n: Node) {
    && (BoundName(n).Some? && SourceOf(n.children[0]) != Opaque ==> EventsAll(n.children) == [])
    && (n.kind.ReturnStmt? ==> OnlyBinds(EventsAll(n.children)))
    && TidyAll(n.children)
  }

  predicate TidyAll(ns: seq<Node>) {
    ns == [] || (Tidy(ns[0]) && TidyAll(ns[1..]))
  }

  predicate OnlyBinds(events: seq<Event>) {
    forall i :: 0 <= i < |events| ==> events[i].Bind?
  }

  /** Where there are no statements, none is performed. */
  lemma {:induction false} NoEvents(ns: seq<Node>, cs: seq<Choice>)
    requires EventsAll(ns) == []
    ensures TraceAll(ns, cs) == []
    decreases ns, 0
  {
    if ns != [] && cs != [] {
      assert Events(ns[0]) == [] && EventsAll(ns[1..]) == [];
      NoEventsTurns(ns[0].children, cs[0].turns);
      NoEvents(ns[1..], cs[1..]);
    }
  }

  lemma {:induction false} NoEventsTurns(ns: seq<Node>, turns: seq<seq<Choice>>)
    requires EventsAll(ns) == []
    ensures TraceTurns(ns, turns) == []
    decreases ns, |turns| + 1
  {
    if turns != [] {
      NoEvents(ns, turns[0]);
      NoEventsTurns(ns, turns[1..]);
    }
  }

  // ----- the map of the first pass only grows -----

  predicate Below(a: Aliases, b: Aliases) {
    forall x :: x in a ==> x in b && a[x] <= b[x]
  }

  lemma NotedAbove(n: Node, aliases: Aliases)
    ensures Below(aliases, NotedAt(n, aliases))
  {
  }

  lemma {:induction false} BuildAbove(n: Node, aliases: Aliases)
    ensures Below(aliases, Build(n, aliases))
    decreases n, 0
  {
    NotedAbove(n, aliases);
    BuildAllAbove(n.children, NotedAt(n, aliases));
  }

  lemma {:induction false} BuildAllAbove(ns: seq<Node>, aliases: Aliases)
    ensures Below(aliases, BuildAll(ns, aliases))
    decreases ns, 0
  {
    if ns != [] {
      BuildAbove(ns[0], aliases);
      BuildAllAbove(ns[1..], Build(ns[0], aliases));
    }
  }

  lemma Squeeze(a: Aliases, b: Aliases)
    requires Below(a, b) && Below(b, a)
    ensures a == b
  {
    assert forall x :: x in a <==> x in b;
    assert forall x :: x in a ==> a[x] == b[x];
  }

  /** A map to which a tree adds nothing gets nothing from its parts. */
  lemma StableParts(n: Node, all: Aliases)
    requires Build(n, all) == all
    ensures NotedAt(n, all) == all && BuildAll(n.children, all) == all
  {
    NotedAbove(n, all);
    BuildAllAbove(n.children, NotedAt(n, all));
    Squeeze(all, NotedAt(n, all));
  }

  lemma StableFirst(ns: seq<Node>, all: Aliases)
    requires ns != [] && BuildAll(ns, all) == all
    ensures Build(ns[0], all) == all && BuildAll(ns[1..], all) == all
  {
    BuildAbove(ns[0], all);
    BuildAllAbove(ns[1..], Build(ns[0], all));
    Squeeze(all, Build(ns[0], all));
  }

  // ----- what the pass accounts for -----

  predicate Listed(aliases: Aliases, x: string, f: string) {
    x in aliases && f in aliases[x]
  }

  /** Every local that holds `p` has its name listed. */
  predicate Tracks(aliases: Aliases, env: Env, p: Provenance)
    requires !p.Unknown?
  {
    forall x :: x in env && env[x] == p ==> Listed(aliases, x, p.name)
  }

  /** No statement gives the parameter `p` another value. */
  predicate Unbound(p: Provenance, all: Aliases) {
    p.FromParameter? ==> p.name !in all
  }

  lemma TracksAbove(a: Aliases, b: Aliases, env: Env, p: Provenance)
    requires !p.Unknown? && Tracks(a, env, p) && Below(a, b)
    ensures Tracks(b, env, p)
  {
  }

  lemma ValueCarried(source: Source, env: Env, aliases: Aliases, all: Aliases, p: Provenance)
    requires !p.Unknown? && Tracks(aliases, env, p) && Unbound(p, all) && Below(aliases, all)
    requires Value(source, env) == p
    ensures source != Opaque && p.name in Carry(source, aliases)
  {
  }

  lemma {:induction false} ExposedReported(n: Node, env: Env, all: Aliases, p: Provenance)
    requires !p.Unknown? && Tracks(all, env, p)
    requires p in Exposed(n, env)
    ensures p.name in Collected(n, all)
    decreases n, 0
  {
    if p == Value(SourceOf(n), env) {
      OwnReported(n, env, all, p);
    } else {
      ExposedAllReported(n.children, env, all, p);
    }
  }

  lemma {:induction false} ExposedAllReported(ns: seq<Node>, env: Env, all: Aliases, p: Provenance)
    requires !p.Unknown? && Tracks(all, env, p)
    requires p in ExposedAll(ns, env)
    ensures p.name in CollectedAll(ns, all)
    decreases ns, 0
  {
    if p in Exposed(ns[0], env) {
      ExposedReported(ns[0], env, all, p);
    } else {
      ExposedAllReported(ns[1..], env, all, p);
    }
  }

  lemma {:induction false} OwnReported(n: Node, env: Env, all: Aliases, p: Provenance)
    requires !p.Unknown? && Tracks(all, env, p)
    requires p == Value(SourceOf(n), env)
    ensures p.name in Collected(n, all)
    decreases n, 0
  {
    if (n.kind.MemberExpr? && n.value.Some?) || (n.kind.Identifier? && n.value.Some? && n.children == []) {
    } else {
      OwnReported(n.children[0], env, all, p);
      assert CollectedAll(n.children, all) == Collected(n.children[0], all) + CollectedAll(n.children[1..], all);
    }
  }

  lemma {:induction false} NoReturns(ns: seq<Node>, all: Aliases)
    requires OnlyBinds(EventsAll(ns))
    ensures ReturnedAll(ns, all) == {}
    decreases ns, 0
  {
    if ns != [] {
      var first, rest := Events(ns[0]), EventsAll(ns[1..]);
      OnlyBindsParts(first, rest);
      OnlyBindsParts(EventsAll(ns[0].children), OwnEvent(ns[0]));
      NoReturns(ns[0].children, all);
      NoReturns(ns[1..], all);
      assert OwnEvent(ns[0]) != [] ==> OwnEvent(ns[0])[0].Bind?;
    }
  }

  lemma OnlyBindsParts(a: seq<Event>, b: seq<Event>)
    requires OnlyBinds(a + b)
    ensures OnlyBinds(a) && OnlyBinds(b)
  {
    forall i | 0 <= i < |a| ensures a[i].Bind? { assert (a + b)[i] == a[i]; }
    forall i | 0 <= i < |b| ensures b[i].Bind? { assert (a + b)[|a| + i] == b[i]; }
  }

  /** The second pass looks below a node for no more than it reports for the node. */
  lemma ReturnedBelow(n: Node, all: Aliases)
    requires Tidy(n)
    ensures ReturnedAll(n.children, all) <= Returned(n, all)
  {
    if n.kind.ReturnStmt? {
      NoReturns(n.children, all);
    }
  }

  /** What the account consists of: locals are tracked, and what was returned is reported. */
  predicate Sound(s: State, aliases: Aliases, fields: set<string>, p: Provenance)
    requires !p.Unknown?
  {
    Tracks(aliases, s.env, p) && (p in s.returned ==> p.name in fields)
  }

  /** The statement itself; `s` is the state before its subtree, `mid` the one before the statement. */
  lemma OwnEventSound(n: Node, aliases: Aliases, all: Aliases, fields: set<string>, s: State, mid: State, p: Provenance)
    requires !p.Unknown? && OwnEvent(n) != [] && Unbound(p, all) && Tracks(aliases, s.env, p)
    requires Below(Build(n, aliases), all) && Returned(n, all) <= fields
    requires Sound(mid, Build(n, aliases), fields, p)
    requires BoundName(n).Some? && SourceOf(n.children[0]) != Opaque ==> mid == s
    ensures Sound(Perform(OwnEvent(n)[0], mid), Build(n, aliases), fields, p)
  {
    BuildAbove(n, aliases);
    BuildAllAbove(n.children, NotedAt(n, aliases));
    if BoundName(n).Some? {
      var source := SourceOf(n.children[0]);
      if Value(source, mid.env) == p {
        ValueCarried(source, s.env, aliases, all, p);
      }
    } else {
      TracksAbove(Build(n, aliases), all, mid.env, p);
      if p in ExposedAll(n.children, mid.env) {
        ExposedAllReported(n.children, mid.env, all, p);
      }
    }
  }

  /** A loop takes further turns only with a map to which its statements add nothing. */
  predicate StableIf(again: bool, n: Node, aliases: Aliases) {
    again ==> Build(n, aliases) == aliases
  }

  lemma {:induction false} SoundNode(n: Node, aliases: Aliases, all: Aliases, fields: set<string>, again: bool,
                                     c: Choice, s: State, p: Provenance)
    requires !p.Unknown? && Tidy(n) && IsChoice(n, c, again) && StableIf(again, n, aliases)
    requires Sound(s, aliases, fields, p) && Unbound(p, all)
    requires Below(Build(n, aliases), all) && Returned(n, all) <= fields
    ensures Sound(RunTrace(Trace(n, c), s), Build(n, aliases), fields, p)
    decreases n, 0
  {
    var nested := TraceTurns(n.children, c.turns);
    var mid := RunTrace(nested, s);
    var noted := NotedAt(n, aliases);
    ReturnedBelow(n, all);
    RunConcat(nested, if c.taken then OwnEvent(n) else [], s);
    NotedAbove(n, aliases);
    TracksAbove(aliases, noted, s.env, p);
    if again {
      StableParts(n, aliases);
    }
    SoundTurns(n.children, noted, all, fields, again, c.turns, s, p);
    if c.taken && OwnEvent(n) != [] {
      if BoundName(n).Some? && SourceOf(n.children[0]) != Opaque {
        NoEventsTurns(n.children, c.turns);
      }
      OwnEventSound(n, aliases, all, fields, s, mid, p);
    }
  }

  lemma {:induction false} SoundTurns(ns: seq<Node>, aliases: Aliases, all: Aliases, fields: set<string>, again: bool,
                                      turns: seq<seq<Choice>>, s: State, p: Provenance)
    requires !p.Unknown? && TidyAll(ns) && AreTurns(ns, turns, again)
    requires (again || |turns| <= 1) && (again ==> BuildAll(ns, aliases) == aliases)
    requires Sound(s, aliases, fields, p) && Unbound(p, all)
    requires Below(BuildAll(ns, aliases), all) && ReturnedAll(ns, all) <= fields
    ensures Sound(RunTrace(TraceTurns(ns, turns), s), BuildAll(ns, aliases), fields, p)
    decreases ns, |turns| + 1
  {
    BuildAllAbove(ns, aliases);
    if turns == [] {
      TracksAbove(aliases, BuildAll(ns, aliases), s.env, p);
    } else {
      var first := TraceAll(ns, turns[0]);
      RunConcat(first, TraceTurns(ns, turns[1..]), s);
      SoundAll(ns, aliases, all, fields, again, turns[0], s, p);
      if again {
        SoundTurns(ns, aliases, all, fields, again, turns[1..], RunTrace(first, s), p);
      }
    }
  }

  lemma {:induction false} SoundAll(ns: seq<Node>, aliases: Aliases, all: Aliases, fields: set<string>, again: bool,
                                    cs: seq<Choice>, s: State, p: Provenance)
    requires !p.Unknown? && TidyAll(ns) && AreChoices(ns, cs, again) && (again ==> BuildAll(ns, aliases) == aliases)
    requires Sound(s, aliases, fields, p) && Unbound(p, all)
    requires Below(BuildAll(ns, aliases), all) && ReturnedAll(ns, all) <= fields
    ensures Sound(RunTrace(TraceAll(ns, cs), s), BuildAll(ns, aliases), fields, p)
    decreases ns, 0
  {
    if ns != [] {
      var next := Build(ns[0], aliases);
      var first := Trace(ns[0], cs[0]);
      RunConcat(first, TraceAll(ns[1..], cs[1..]), s);
      BuildAbove(ns[0], aliases);
      BuildAllAbove(ns[1..], next);
      if again {
        StableFirst(ns, aliases);
      }
      SoundNode(ns[0], aliases, all, fields, again, cs[0], s, p);
      SoundAll(ns[1..], next, all, fields, again, cs[1..], RunTrace(first, s), p);
    }
  }

  /**
   On a run in which no loop takes a second turn, whatever the renames, a returned value read from
   field `f` has `f` reported, and a returned parameter that no statement binds has its name reported.
   */
  lemma LaunderingIsCaught(flow: Node, body: Node, c: Choice, p: Provenance)
    requires BodyBlock(flow.children) == Some(body) && Tidy(body) && IsChoice(body, c, false)
    requires !p.Unknown? && p in RunOf(body, c).returned && (p.FromParameter? ==> p.name !in BodyAliases(body))
    ensures p.name in BodyFieldNames(flow)
  {
    SoundNode(body, map[], BodyAliases(body), BodyFieldNames(flow), false, c, START, p);
  }

  /** With loops it is enough that a second pass over the body would add nothing. */
  lemma LoopsAreCaughtWhenStable(flow: Node, body: Node, c: Choice, p: Provenance)
    requires BodyBlock(flow.children) == Some(body) && Tidy(body) && IsChoice(body, c, true)
    requires Build(body, BodyAliases(body)) == BodyAliases(body)
    requires !p.Unknown? && p in RunOf(body, c).returned && (p.FromParameter? ==> p.name !in BodyAliases(body))
    ensures p.name in BodyFieldNames(flow)
  {
    var all := BodyAliases(body);
    SoundNode(body, all, all, BodyFieldNames(flow), true, c, START, p);
  }
}
