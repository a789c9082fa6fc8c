/**
 Which field names a flow body can return, renames included
 (collectBodyFieldNames of governance-verifier.ts).

 The program makes two passes over the tree: one notes which field names each local name carries,
 the other collects the names in returned expressions. When that is all that a run
 hands out is in AliasFlow; AliasRuns has runs that are always accounted for.
 */
module AliasCarry {
  import opened JsText
  import opened Options

  // ----- the tree -----

  datatype Kind =
    | LetDecl | MutDecl | ReadonlyDecl | AssignStmt | ReturnStmt
    | IfStmt | MatchExpr | MatchArm | WhileStmt | ForEachStmt | FnDecl
    | CallExpr | MemberExpr | Identifier | Block | OtherKind(name: string)

  datatype Node = Node(kind: Kind, value: Option<string>, children: seq<Node>)

  predicate IsDeclaration(n: Node) {
    n.kind.LetDecl? || n.kind.MutDecl? || n.kind.ReadonlyDecl?
  }

  /** The name in "[unsafe|safe] name[: type]". */
  function BindingNameOf(raw: string): string {
    var trimmed := Trim(raw);
    var bare :=
      if AfterWord("unsafe", trimmed).Some? then AfterWord("unsafe", trimmed).value
      else if AfterWord("safe", trimmed).Some? then AfterWord("safe", trimmed).value
      else trimmed;
    Trim(BeforeColon(bare))
  }

  function BeforeColon(s: string): string {
    if s == "" || s[0] == ':' then "" else [s[0]] + BeforeColon(s[1..])
  }

  /** The local name a statement gives a value to. */
  function BoundName(n: Node): Option<string> {
    if IsDeclaration(n) && n.children != [] then
      var name := BindingNameOf(if n.value.Some? then n.value.value else "");
      if name != "" then Some(name) else None
    else if n.kind.AssignStmt? && n.value.Some? && n.value.value != "" && n.children != [] then n.value
    else None
  }

  predicate IsDischarge(n: Node) {
    n.kind.CallExpr? && (n.value == Some("redact") || n.value == Some("seal"))
  }

  /** What an expression passes on: a field it reads, a local it renames, or nothing known. */
  datatype Source = Field(name: string) | Local(name: string) | Opaque

  function SourceOf(e: Node): Source {
    if e.kind.MemberExpr? && e.value.Some? then Field(e.value.value)
    else if e.kind.Identifier? && e.value.Some? && e.children == [] then Local(e.value.value)
    else if e.kind.CallExpr? then Opaque
    else if |e.children| == 1 then SourceOf(e.children[0])
    else Opaque
  }

  // ----- the two passes, as functions -----

  type Aliases = map<string, set<string>>

  function Carry(source: Source, aliases: Aliases): set<string> {
    match source
    case Field(f) => {f}
    case Local(x) => if x in aliases then aliases[x] else {x}
    case Opaque => {}
  }

  function Noted(aliases: Aliases, x: string, names: set<string>): Aliases {
    aliases[x := (if x in aliases then aliases[x] else {}) + names]
  }

  function NotedAt(n: Node, aliases: Aliases): Aliases {
    if BoundName(n).Some? then Noted(aliases, BoundName(n).value, Carry(SourceOf(n.children[0]), aliases))
    else aliases
  }

  function Build(n: Node, aliases: Aliases): Aliases
    decreases n, 1
  {
    BuildAll(n.children, NotedAt(n, aliases))
  }

  function BuildAll(ns: seq<Node>, aliases: Aliases): Aliases
    decreases ns
  {
    if ns == [] then aliases else BuildAll(ns[1..], Build(ns[0], aliases))
  }

  /** The name an argument label adds. */
  function LabelOf(arg: Node): set<string> {
    if arg.kind.Identifier? && arg.value.Some? && arg.children != [] && !IsDischarge(arg.children[0])
    then {arg.value.value} else {}
  }

  function Labels(args: seq<Node>): set<string> {
    if args == [] then {} else LabelOf(args[0]) + Labels(args[1..])
  }

  function OwnNames(n: Node, aliases: Aliases): set<string> {
    (if n.kind.CallExpr? then Labels(n.children) else {})
    + (if n.kind.MemberExpr? && n.value.Some? then {n.value.value} else {})
    + (if n.kind.Identifier? && n.value.Some? && n.children == [] then
         {n.value.value} + (if n.value.value in aliases then aliases[n.value.value] else {})
       else {})
  }

  function Collected(n: Node, aliases: Aliases): set<string> {
    if IsDischarge(n) then {} else OwnNames(n, aliases) + CollectedAll(n.children, aliases)
  }

  function CollectedAll(ns: seq<Node>, aliases: Aliases): set<string> {
    if ns == [] then {} else Collected(ns[0], aliases) + CollectedAll(ns[1..], aliases)
  }

  function Returned(n: Node, aliases: Aliases): set<string> {
    if n.kind.ReturnStmt? then CollectedAll(n.children, aliases) else ReturnedAll(n.children, aliases)
  }

  function ReturnedAll(ns: seq<Node>, aliases: Aliases): set<string> {
    if ns == [] then {} else Returned(ns[0], aliases) + ReturnedAll(ns[1..], aliases)
  }

  /** The body of a flow: its last block. */
  function BodyBlock(children: seq<Node>): Option<Node> {
    if children == [] then None
    else if children[|children| - 1].kind.Block? then Some(children[|children| - 1])
    else BodyBlock(children[..|children| - 1])
  }

  function BodyAliases(body: Node): Aliases {
    Build(body, map[])
  }

  function BodyFieldNames(flow: Node): set<string> {
    match BodyBlock(flow.children)
    case None => {}
    case Some(body) => Returned(body, BodyAliases(body))
  }

  // ----- the two passes, as the program makes them -----

  class FieldCollector {
    var aliasCarries: Aliases
    var fields: set<string>

    constructor ()
      ensures aliasCarries == map[] && fields == {}
    {
      aliasCarries := map[];
      fields := {};
    }

    method CarryOf(n: Node) returns (names: set<string>)
      ensures names == Carry(SourceOf(n), aliasCarries)
      decreases n
    {
      if n.kind.MemberExpr? && n.value.Some? {
        return {n.value.value};
      }
      if n.kind.Identifier? && n.value.Some? && n.children == [] {
        return if n.value.value in aliasCarries then aliasCarries[n.value.value] else {n.value.value};
      }
      if n.kind.CallExpr? {
        return {};
      }
      if |n.children| == 1 {
        names := CarryOf(n.children[0]);
        return;
      }
      return {};
    }

    method Note(name: string, init: Node)
      modifies this`aliasCarries
      ensures aliasCarries == Noted(old(aliasCarries), name, Carry(SourceOf(init), old(aliasCarries)))
    {
      var carried := if name in aliasCarries then aliasCarries[name] else {};
      var names := CarryOf(init);
      aliasCarries := aliasCarries[name := carried + names];
    }

    method BuildAliases(n: Node)
      modifies this`aliasCarries
      ensures aliasCarries == Build(n, old(aliasCarries))
      decreases n
    {
      if IsDeclaration(n) && n.children != [] {
        var name := BindingNameOf(if n.value.Some? then n.value.value else "");
        if name != "" {
          Note(name, n.children[0]);
        }
      } else if n.kind.AssignStmt? && n.value.Some? && n.value.value != "" && n.children != [] {
        Note(n.value.value, n.children[0]);
      }
      assert aliasCarries == NotedAt(n, old(aliasCarries));
      var i := 0;
      while i < |n.children|
        invariant i <= |n.children|
        invariant BuildAll(n.children[i..], aliasCarries) == Build(n, old(aliasCarries))
      {
        BuildAllStep(n.children, i, aliasCarries);
        BuildAliases(n.children[i]);
        i := i + 1;
      }
    }

    method AddLabels(call: Node)
      modifies this`fields
      ensures fields == old(fields) + Labels(call.children)
    {
      var i := 0;
      while i < |call.children|
        invariant i <= |call.children|
        invariant fields + Labels(call.children[i..]) == old(fields) + Labels(call.children)
      {
        var child := call.children[i];
        assert call.children[i..][1..] == call.children[i + 1..];
        if child.kind.Identifier? && child.value.Some? && child.children != [] {
          if !IsDischarge(child.children[0]) {
            fields := fields + {child.value.value};
          }
        }
        i := i + 1;
      }
    }

    method CollectFields(n: Node)
      modifies this`fields
      ensures fields == old(fields) + Collected(n, aliasCarries)
      decreases n
    {
      if IsDischarge(n) {
        return;
      }
      if n.kind.CallExpr? {
        AddLabels(n);
      }
      if n.kind.MemberExpr? && n.value.Some? {
        fields := fields + {n.value.value};
      }
      if n.kind.Identifier? && n.value.Some? && n.children == [] {
        fields := fields + {n.value.value};
        if n.value.value in aliasCarries {
          fields := fields + aliasCarries[n.value.value];
        }
      }
      assert fields == old(fields) + OwnNames(n, aliasCarries);
      CollectEach(n.children);
    }

    /** collectFields on one node after another. */
    method CollectEach(ns: seq<Node>)
      modifies this`fields
      ensures fields == old(fields) + CollectedAll(ns, aliasCarries)
      decreases ns
    {
      var i := 0;
      while i < |ns|
        invariant i <= |ns|
        invariant fields + CollectedAll(ns[i..], aliasCarries) == old(fields) + CollectedAll(ns, aliasCarries)
      {
        assert ns[i..][1..] == ns[i + 1..];
        CollectFields(ns[i]);
        i := i + 1;
      }
    }

    method FindReturnStmts(n: Node)
      modifies this`fields
      ensures fields == old(fields) + Returned(n, aliasCarries)
      decreases n
    {
      if n.kind.ReturnStmt? {
        CollectEach(n.children);
        return;
      }
      var i := 0;
      while i < |n.children|
        invariant i <= |n.children|
        invariant fields + ReturnedAll(n.children[i..], aliasCarries)
               == old(fields) + ReturnedAll(n.children, aliasCarries)
      {
        assert n.children[i..][1..] == n.children[i + 1..];
        FindReturnStmts(n.children[i]);
        i := i + 1;
      }
    }
  }

  lemma BuildAllStep(ns: seq<Node>, i: nat, aliases: Aliases)
    requires i < |ns|
    ensures BuildAll(ns[i..], aliases) == BuildAll(ns[i + 1..], Build(ns[i], aliases))
  {
    assert ns[i..][1..] == ns[i + 1..];
  }

  /** collectBodyFieldNames */
  method CollectBodyFieldNames(flow: Node) returns (fields: set<string>)
    ensures fields == BodyFieldNames(flow)
  {
    var collector := new FieldCollector();
    var body := BodyBlock(flow.children);
    if body.Some? {
      collector.BuildAliases(body.value);
      collector.FindReturnStmts(body.value);
    }
    fields := collector.fields;
  }
}
