/**
 What a flow uses and what depends on it, told from the declarations alone (flow-dependency-analysis.ts), and which
 of several flows of one name the effect check looks at (effect-checker.ts).
 */
module DependencyForms {
  import opened CallGraph
  import opened Options
  import Deps = FlowDependencies
  import Effects = EffectPropagation

  // ----- uses -----

  /** Some declaration has the name, which is not empty. */
  predicate Declared(decls: seq<Deps.FlowDecl>, name: string) {
    name != "" && exists i :: 0 <= i < |decls| && decls[i].name == name
  }

  /** The last declaration of `name` mentions `callee` in a call, and that is another declared flow. */
  predicate Calls(decls: seq<Deps.FlowDecl>, name: string, callee: string) {
    && name != "" && callee != name && Declared(decls, callee)
    && exists i :: 0 <= i < |decls| && decls[i].name == name && callee in decls[i].calls
                   && forall j :: i < j < |decls| ==> decls[j].name != name
  }

  lemma OneLastDecl(decls: seq<Deps.FlowDecl>, name: string, i: nat, j: nat)
    requires Deps.IsLastDecl(decls, i, name) && Deps.IsLastDecl(decls, j, name)
    ensures i == j
  {
  }

  /** USES names exactly the other declared flows that the last declaration of a flow calls. */
  lemma UsesIff(decls: seq<Deps.FlowDecl>, name: string, callee: string)
    ensures callee in Deps.Uses(Deps.FlowNodes(decls), name) <==> Calls(decls, name, callee)
    ensures name in Deps.UsedBy(Deps.FlowNodes(decls), callee) <==> Calls(decls, name, callee)
  {
    var nodes := Deps.FlowNodes(decls);
    Deps.InFlowGraph(nodes, name, callee);
    Deps.UsesConverse(nodes, name, callee);
    Deps.LastDeclWins(decls, name);
    Deps.LastDeclWins(decls, callee);
    if name in nodes {
      var i: nat :| Deps.IsLastDecl(decls, i, name) && decls[i].calls == nodes[name];
      if Calls(decls, name, callee) {
        var j :| 0 <= j < |decls| && decls[j].name == name && callee in decls[j].calls
                 && forall k :: j < k < |decls| ==> decls[k].name != name;
        OneLastDecl(decls, name, i, j);
      }
    }
  }

  // ----- dependants -----

  /** Each of the names calls the next. */
  predicate Chain(decls: seq<Deps.FlowDecl>, names: seq<string>) {
    forall i :: 0 <= i < |names| - 1 ==> Calls(decls, names[i], names[i + 1])
  }

  ghost predicate DependsOn(decls: seq<Deps.FlowDecl>, from: string, to: string) {
    exists names :: Chain(decls, names) && |names| >= 2 && names[0] == from && names[|names| - 1] == to
  }

  lemma ChainIsPath(decls: seq<Deps.FlowDecl>, names: seq<string>)
    requires names != []
    ensures Chain(decls, names) <==> IsPath(Deps.FlowGraph(Deps.FlowNodes(decls)), names)
  {
    var g := Deps.FlowGraph(Deps.FlowNodes(decls));
    forall i | 0 <= i < |names| - 1
      ensures Calls(decls, names[i], names[i + 1]) <==> names[i + 1] in Succ(g, names[i])
    {
      UsesIff(decls, names[i], names[i + 1]);
    }
  }

  /** The blast radius of a flow: the other flows with a chain of calls that leads to it. */
  lemma DependantsIff(decls: seq<Deps.FlowDecl>, name: string, other: string)
    ensures other in Deps.Dependants(Deps.FlowNodes(decls), name) <==> other != name && DependsOn(decls, other, name)
  {
    var nodes := Deps.FlowNodes(decls);
    var g := Deps.FlowGraph(nodes);
    if other in Deps.Dependants(nodes, name) {
      var p :| PathBetween(g, p, other, name);
      ChainIsPath(decls, p);
    }
    if DependsOn(decls, other, name) {
      var names :| Chain(decls, names) && |names| >= 2 && names[0] == other && names[|names| - 1] == name;
      ChainIsPath(decls, names);
      assert PathBetween(g, names, other, name);
      assert names[0 + 1] in Succ(g, names[0]);
    }
  }

  // ----- the first flow of a name -----

  /** Flow `i` is the first of its name. */
  predicate IsFirst(flows: seq<Effects.FlowMeta>, i: nat, name: string) {
    i < |flows| && flows[i].name == name && forall j :: 0 <= j < i ==> flows[j].name != name
  }

  /** The effect check knows a flow by the first one of its name. */
  lemma {:induction false} FindIff(flows: seq<Effects.FlowMeta>, name: string, f: Effects.FlowMeta)
    ensures Effects.Find(flows, name) == Some(f) <==> exists i: nat :: IsFirst(flows, i, name) && flows[i] == f
    decreases |flows|
  {
    if flows != [] {
      var rest := flows[1..];
      FindIff(rest, name, f);
      if flows[0].name == name {
        assert IsFirst(flows, 0, name);
      } else {
        if exists i: nat :: IsFirst(rest, i, name) && rest[i] == f {
          var i: nat :| IsFirst(rest, i, name) && rest[i] == f;
          FirstFurther(flows, i, name);
        }
        if exists i: nat :: IsFirst(flows, i, name) && flows[i] == f {
          var i: nat :| IsFirst(flows, i, name) && flows[i] == f;
          FirstFurther(flows, i - 1, name);
        }
      }
    }
  }

  lemma FirstFurther(flows: seq<Effects.FlowMeta>, i: nat, name: string)
    requires flows != [] && flows[0].name != name && i + 1 <= |flows|
    ensures IsFirst(flows[1..], i, name) <==> IsFirst(flows, i + 1, name)
  {
    var rest := flows[1..];
    assert forall j :: 0 <= j < |rest| ==> rest[j] == flows[j + 1];
    if IsFirst(flows, i + 1, name) {
      forall j | 0 <= j < i ensures rest[j].name != name {
        assert flows[j + 1].name != name;
      }
    }
    if IsFirst(rest, i, name) {
      forall j | 0 <= j < i + 1 ensures flows[j].name != name {
        assert j > 0 ==> rest[j - 1].name != name;
      }
    }
  }
}
