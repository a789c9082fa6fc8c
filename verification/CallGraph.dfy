/** Call graphs as adjacency maps, and what it means to be reachable in one. */
module CallGraph {

  type Graph = map<string, seq<string>>

  /** The callees of `n`; a flow without an entry calls nobody. */
  function Succ(g: Graph, n: string): seq<string> {
    if n in g then g[n] else []
  }

  /** A walk along call edges. */
  ghost predicate IsPath(g: Graph, p: seq<string>) {
    p != [] && forall i :: 0 <= i < |p| - 1 ==> p[i + 1] in Succ(g, p[i])
  }

  ghost predicate PathBetween(g: Graph, p: seq<string>, a: string, b: string) {
    IsPath(g, p) && |p| >= 2 && p[0] == a && p[|p| - 1] == b
  }

  /** b can be reached from a by one or more call edges. */
  ghost predicate Reaches(g: Graph, a: string, b: string) {
    exists p :: PathBetween(g, p, a, b)
  }

  lemma EdgeReaches(g: Graph, a: string, b: string)
    requires b in Succ(g, a)
    ensures Reaches(g, a, b)
  {
    assert PathBetween(g, [a, b], a, b);
  }

  lemma EdgeThenReaches(g: Graph, a: string, b: string, c: string)
    requires b in Succ(g, a) && Reaches(g, b, c)
    ensures Reaches(g, a, c)
  {
    var p :| PathBetween(g, p, b, c);
    var q := [a] + p;
    assert forall i :: 0 < i < |q| ==> q[i] == p[i - 1];
    assert PathBetween(g, q, a, c);
  }

  lemma ReachesThenEdge(g: Graph, a: string, b: string, c: string)
    requires Reaches(g, a, b) && c in Succ(g, b)
    ensures Reaches(g, a, c)
  {
    var p :| PathBetween(g, p, a, b);
    var q := p + [c];
    assert forall i :: 0 <= i < |p| ==> q[i] == p[i];
    assert PathBetween(g, q, a, c);
  }

  ghost predicate Closed(g: Graph, s: set<string>) {
    forall n, c :: n in s && c in Succ(g, n) ==> c in s
  }

  /** Nothing reachable escapes a closed set that holds the direct callees. */
  lemma ReachableStaysInside(g: Graph, s: set<string>, a: string, b: string)
    requires Closed(g, s) && (forall c :: c in Succ(g, a) ==> c in s) && Reaches(g, a, b)
    ensures b in s
  {
    var p :| PathBetween(g, p, a, b);
    PathStaysInside(g, s, p, |p| - 1);
  }

  lemma {:induction false} PathStaysInside(g: Graph, s: set<string>, p: seq<string>, i: nat)
    requires Closed(g, s) && IsPath(g, p) && 1 <= i < |p| && forall c :: c in Succ(g, p[0]) ==> c in s
    ensures p[i] in s
  {
    assert p[i - 1 + 1] in Succ(g, p[i - 1]);
    if i > 1 {
      PathStaysInside(g, s, p, i - 1);
    }
  }

  /** The last edge of a walk. */
  lemma LastEdge(g: Graph, a: string, b: string) returns (n: string)
    requires Reaches(g, a, b)
    ensures b in Succ(g, n) && (n == a || Reaches(g, a, n))
  {
    var p :| PathBetween(g, p, a, b);
    n := p[|p| - 2];
    assert p[|p| - 2 + 1] in Succ(g, p[|p| - 2]);
    if |p| > 2 {
      var q := p[..|p| - 1];
      assert PathBetween(g, q, a, n);
    }
  }
}
