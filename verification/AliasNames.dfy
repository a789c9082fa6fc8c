/**
 Exactly which names collectBodyFieldNames reports, told from the places in the tree (governance-verifier.ts).

 A place is the list of child indices that leads to it. A name is reported when some place stands under a return,
 with no call of `redact` or `seal` from there down to it, and the node there gives the name: by itself, as the label
 of an argument, or through a chain of binds in the order of the source.
 */
module AliasNames {
  import opened AliasBinds
  import opened AliasCarry
  import opened Options

  // ----- places -----

  type Path = seq<nat>

  predicate IsPath(n: Node, path: Path) {
    path == [] || (path[0] < |n.children| && IsPath(n.children[path[0]], path[1..]))
  }

  function NodeAt(n: Node, path: Path): Node
    requires IsPath(n, path)
  {
    if path == [] then n else NodeAt(n.children[path[0]], path[1..])
  }

  predicate Discharges(n: Node) {
    n.kind == CallExpr && n.value.Some? && (n.value.value == "redact" || n.value.value == "seal")
  }

  /** No call of `redact` or `seal` on the way, the place itself included. */
  predicate Clear(n: Node, path: Path) {
    && !Discharges(n)
    && (path == [] || (path[0] < |n.children| && Clear(n.children[path[0]], path[1..])))
  }

  /** The way passes a return, and is clear from below the first one on. */
  predicate Exposed(n: Node, path: Path) {
    && path != [] && path[0] < |n.children|
    && if n.kind == ReturnStmt then Clear(n.children[path[0]], path[1..]) else Exposed(n.children[path[0]], path[1..])
  }

  lemma {:induction false} ClearIsPath(n: Node, path: Path)
    requires Clear(n, path)
    ensures IsPath(n, path)
    decreases path
  {
    if path != [] {
      ClearIsPath(n.children[path[0]], path[1..]);
    }
  }

  lemma {:induction false} ExposedIsPath(n: Node, path: Path)
    requires Exposed(n, path)
    ensures IsPath(n, path)
    decreases path
  {
    if n.kind == ReturnStmt {
      ClearIsPath(n.children[path[0]], path[1..]);
    } else {
      ExposedIsPath(n.children[path[0]], path[1..]);
    }
  }

  // ----- the two ways through the tree -----

  /** A clear place below `n` whose own names include `f`. */
  ghost predicate ClearName(n: Node, path: Path, f: string, aliases: Aliases) {
    Clear(n, path) && IsPath(n, path) && f in OwnNames(NodeAt(n, path), aliases)
  }

  ghost predicate ExposedName(n: Node, path: Path, f: string, aliases: Aliases) {
    Exposed(n, path) && IsPath(n, path) && f in OwnNames(NodeAt(n, path), aliases)
  }

  lemma DischargesIs(n: Node)
    ensures Discharges(n) <==> IsDischarge(n)
  {
  }

  lemma {:induction false} InCollectedAll(ns: seq<Node>, aliases: Aliases, f: string)
    ensures f in CollectedAll(ns, aliases) <==> exists i: nat :: i < |ns| && f in Collected(ns[i], aliases)
    decreases |ns|
  {
    if ns != [] {
      InCollectedAll(ns[1..], aliases, f);
      if f in CollectedAll(ns[1..], aliases) {
        var i: nat :| i < |ns[1..]| && f in Collected(ns[1..][i], aliases);
        assert ns[i + 1] == ns[1..][i];
      }
      forall i: nat | i < |ns| && f in Collected(ns[i], aliases) ensures f in CollectedAll(ns, aliases) {
        if i > 0 {
          assert ns[1..][i - 1] == ns[i];
        }
      }
    }
  }

  lemma {:induction false} InReturnedAll(ns: seq<Node>, aliases: Aliases, f: string)
    ensures f in ReturnedAll(ns, aliases) <==> exists i: nat :: i < |ns| && f in Returned(ns[i], aliases)
    decreases |ns|
  {
    if ns != [] {
      InReturnedAll(ns[1..], aliases, f);
      if f in ReturnedAll(ns[1..], aliases) {
        var i: nat :| i < |ns[1..]| && f in Returned(ns[1..][i], aliases);
        assert ns[i + 1] == ns[1..][i];
      }
      forall i: nat | i < |ns| && f in Returned(ns[i], aliases) ensures f in ReturnedAll(ns, aliases) {
        if i > 0 {
          assert ns[1..][i - 1] == ns[i];
        }
      }
    }
  }

  lemma {:induction false} CollectedFrom(n: Node, aliases: Aliases, f: string) returns (path: Path)
    requires f in Collected(n, aliases)
    ensures ClearName(n, path, f, aliases)
    decreases n
  {
    DischargesIs(n);
    path := [];
    if f !in OwnNames(n, aliases) {
      InCollectedAll(n.children, aliases, f);
      var i: nat :| i < |n.children| && f in Collected(n.children[i], aliases);
      var below := CollectedFrom(n.children[i], aliases, f);
      path := [i] + below;
      assert path[1..] == below;
    }
  }

  lemma {:induction false} CollectedAt(n: Node, path: Path, aliases: Aliases, f: string)
    requires ClearName(n, path, f, aliases)
    ensures f in Collected(n, aliases)
    decreases path
  {
    DischargesIs(n);
    if path != [] {
      CollectedAt(n.children[path[0]], path[1..], aliases, f);
      InCollectedAll(n.children, aliases, f);
    }
  }

  lemma {:induction false} ReturnedFrom(n: Node, aliases: Aliases, f: string) returns (path: Path)
    requires f in Returned(n, aliases)
    ensures ExposedName(n, path, f, aliases)
    decreases n
  {
    var i: nat, below: Path;
    if n.kind == ReturnStmt {
      InCollectedAll(n.children, aliases, f);
      i :| i < |n.children| && f in Collected(n.children[i], aliases);
      below := CollectedFrom(n.children[i], aliases, f);
    } else {
      InReturnedAll(n.children, aliases, f);
      i :| i < |n.children| && f in Returned(n.children[i], aliases);
      below := ReturnedFrom(n.children[i], aliases, f);
    }
    path := [i] + below;
    assert path[1..] == below;
  }

  lemma {:induction false} ReturnedAt(n: Node, path: Path, aliases: Aliases, f: string)
    requires ExposedName(n, path, f, aliases)
    ensures f in Returned(n, aliases)
    decreases path
  {
    if n.kind == ReturnStmt {
      CollectedAt(n.children[path[0]], path[1..], aliases, f);
      InCollectedAll(n.children, aliases, f);
    } else {
      ReturnedAt(n.children[path[0]], path[1..], aliases, f);
      InReturnedAll(n.children, aliases, f);
    }
  }

  // ----- the names a node gives -----

  /** The argument has the label `f` and is not a discharged value. */
  predicate IsLabel(arg: Node, f: string) {
    arg.kind == Identifier && arg.value == Some(f) && arg.children != [] && !Discharges(arg.children[0])
  }

  /** A field that is read, a label of an argument, a bare name, or what a chain of binds leads to from it. */
  ghost predicate Gives(n: Node, f: string, nodes: seq<Node>) {
    || (n.kind == MemberExpr && n.value == Some(f))
    || (n.kind == CallExpr && exists i: nat :: i < |n.children| && IsLabel(n.children[i], f))
    || (n.kind == Identifier && n.children == [] && n.value == Some(f))
    || (n.kind == Identifier && n.children == [] && n.value.Some? && Holds(nodes, |nodes|, n.value.value, f))
  }

  lemma {:induction false} InLabels(args: seq<Node>, f: string)
    ensures f in Labels(args) <==> exists i: nat :: i < |args| && IsLabel(args[i], f)
    decreases |args|
  {
    if args != [] {
      InLabels(args[1..], f);
      if args[0].children != [] {
        DischargesIs(args[0].children[0]);
      }
      if f in Labels(args[1..]) {
        var i: nat :| i < |args[1..]| && IsLabel(args[1..][i], f);
        assert args[i + 1] == args[1..][i];
      }
      forall i: nat | i < |args| && IsLabel(args[i], f) ensures f in Labels(args) {
        if i > 0 {
          assert args[1..][i - 1] == args[i];
        }
      }
    }
  }

  lemma OwnNamesIff(n: Node, body: Node, f: string)
    ensures f in OwnNames(n, BodyAliases(body)) <==> Gives(n, f, Preorder(body))
  {
    InLabels(n.children, f);
    if n.value.Some? {
      var nodes := Preorder(body);
      AliasesAreChains(body, n.value.value, f);
      if !Bound(nodes, |nodes|, n.value.value) {
        assert !Holds(nodes, |nodes|, n.value.value, f);
      }
    }
  }

  // ----- the report -----

  /** Child `b` is a block and no later child is one. */
  predicate IsLastBlock(children: seq<Node>, b: nat) {
    && b < |children| && children[b].kind == Block
    && forall c :: b < c < |children| ==> children[c].kind != Block
  }

  lemma {:induction false} BodyBlockIff(children: seq<Node>, b: nat)
    requires IsLastBlock(children, b)
    ensures BodyBlock(children) == Some(children[b])
    decreases |children|
  {
    if b < |children| - 1 {
      BodyBlockIff(children[..|children| - 1], b);
    }
  }

  lemma {:induction false} BodyBlockFound(children: seq<Node>) returns (b: nat)
    requires BodyBlock(children).Some?
    ensures IsLastBlock(children, b)
    decreases |children|
  {
    b := |children| - 1;
    if children[b].kind != Block {
      b := BodyBlockFound(children[..b]);
    }
  }

  /** The last block of the flow exposes a place that gives the name. */
  ghost predicate ReportedAt(flow: Node, b: nat, path: Path, f: string) {
    && IsLastBlock(flow.children, b) && Exposed(flow.children[b], path) && IsPath(flow.children[b], path)
    && Gives(NodeAt(flow.children[b], path), f, Preorder(flow.children[b]))
  }

  /**
   A name is reported if and only if some place of the body gives it that stands under a return with no call of
   `redact` or `seal` from there down to it.
   */
  lemma ReportedIff(flow: Node, f: string)
    ensures f in BodyFieldNames(flow) <==> exists b: nat, path: Path :: ReportedAt(flow, b, path, f)
  {
    if f in BodyFieldNames(flow) {
      var b := BodyBlockFound(flow.children);
      var body := flow.children[b];
      BodyBlockIff(flow.children, b);
      var path := ReturnedFrom(body, BodyAliases(body), f);
      OwnNamesIff(NodeAt(body, path), body, f);
      assert ReportedAt(flow, b, path, f);
    }
    forall b: nat, path: Path | ReportedAt(flow, b, path, f) ensures f in BodyFieldNames(flow) {
      var body := flow.children[b];
      BodyBlockIff(flow.children, b);
      OwnNamesIff(NodeAt(body, path), body, f);
      ReturnedAt(body, path, BodyAliases(body), f);
    }
  }

  // ----- discharged returns -----

  /** Every expression returned anywhere in the tree is a call of `redact` or `seal`. */
  predicate ReturnsDischarged(n: Node) {
    if n.kind == ReturnStmt then forall e :: e in n.children ==> Discharges(e)
    else forall c :: c in n.children ==> ReturnsDischarged(c)
  }

  lemma {:induction false} NothingExposed(n: Node, path: Path)
    requires ReturnsDischarged(n)
    ensures !Exposed(n, path)
    decreases path
  {
    if path != [] && path[0] < |n.children| {
      assert n.children[path[0]] in n.children;
      if n.kind != ReturnStmt {
        NothingExposed(n.children[path[0]], path[1..]);
      }
    }
  }

  lemma NotReportedAt(flow: Node, b: nat, path: Path, f: string)
    requires forall c :: c in flow.children ==> ReturnsDischarged(c)
    ensures !ReportedAt(flow, b, path, f)
  {
    if b < |flow.children| {
      NothingExposed(flow.children[b], path);
    }
  }

  /** A flow that returns nothing but redacted and sealed values reports no name. */
  lemma DischargedReportsNothing(flow: Node)
    requires forall c :: c in flow.children ==> ReturnsDischarged(c)
    ensures BodyFieldNames(flow) == {}
  {
    forall f ensures f !in BodyFieldNames(flow) {
      ReportedIff(flow, f);
      forall b: nat, path: Path ensures !ReportedAt(flow, b, path, f) {
        NotReportedAt(flow, b, path, f);
      }
    }
  }
}
