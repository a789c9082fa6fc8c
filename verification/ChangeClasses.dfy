/**
 What the change class of a governance diff says, and which deltas it lists in which order, told from the two lists of
 flows (governance-diff.ts).
 */
module ChangeClasses {
  import opened GovernanceDiff

  // ----- the qualifiers -----

  /** From the weakest to the strongest; any other word counts as the weakest. */
  const QUALIFIERS := ["pure", "flow", "guarded", "secure", "privileged"]

  predicate StandsAt(q: string, i: nat) {
    i < |QUALIFIERS| && (QUALIFIERS[i] == q || (i == 0 && q !in QUALIFIERS))
  }

  /** `p` stands behind `q` among the qualifiers. */
  ghost predicate Stronger(p: string, q: string) {
    exists i: nat, j: nat :: StandsAt(p, i) && StandsAt(q, j) && j < i
  }

  lemma RankIff(q: string, i: nat)
    ensures StandsAt(q, i) <==> Rank(q) == i
  {
    assert QUALIFIERS[0] == "pure" && QUALIFIERS[1] == "flow" && QUALIFIERS[2] == "guarded";
    assert QUALIFIERS[3] == "secure" && QUALIFIERS[4] == "privileged";
    assert i < |QUALIFIERS| ==> i == 0 || i == 1 || i == 2 || i == 3 || i == 4;
  }

  lemma StrongerIff(p: string, q: string)
    ensures Stronger(p, q) <==> Escalated(q, p)
  {
    RankIff(p, Rank(p));
    RankIff(q, Rank(q));
    if Stronger(p, q) {
      var i: nat, j: nat :| StandsAt(p, i) && StandsAt(q, j) && j < i;
      RankIff(p, i);
      RankIff(q, j);
    }
  }

  // ----- the flows of a version -----

  /** Flow `i` is the last of its name. */
  predicate IsLast(flows: seq<Flow>, i: nat, name: string) {
    i < |flows| && flows[i].name == name && forall j :: i < j < |flows| ==> flows[j].name != name
  }

  predicate Has(flows: seq<Flow>, name: string) {
    exists i :: 0 <= i < |flows| && flows[i].name == name
  }

  /** A version knows a flow by the last one of its name. */
  lemma {:induction false} ShapesAre(flows: seq<Flow>, name: string)
    ensures name in ShapesOf(flows) <==> Has(flows, name)
    ensures forall i: nat :: IsLast(flows, i, name) ==>
              name in ShapesOf(flows) && ShapesOf(flows)[name] == Shape(flows[i].qualifier, flows[i].effects)
    ensures Has(flows, name) ==> exists i: nat :: IsLast(flows, i, name)
    decreases |flows|
  {
    if flows != [] {
      var k := |flows| - 1;
      var front := flows[..k];
      ShapesAre(front, name);
      assert forall i :: 0 <= i < k ==> front[i] == flows[i];
      if flows[k].name == name {
        assert IsLast(flows, k, name);
      } else {
        forall i: nat ensures IsLast(flows, i, name) <==> IsLast(front, i, name) {
          if IsLast(front, i, name) {
            forall j | i < j < |flows| ensures flows[j].name != name {
              assert j < k ==> front[j].name != name;
            }
          }
        }
        if Has(flows, name) {
          var i :| 0 <= i < |flows| && flows[i].name == name;
          assert front[i].name == name;
        }
      }
    }
  }

  // ----- what a flow gains and loses -----

  /** One of `effects` is not among `others`. */
  predicate More(effects: seq<string>, others: seq<string>) {
    exists e :: e in effects && e !in others
  }

  /** The flow is new with effects or as more than a plain one, or has an effect or a stronger qualifier than before. */
  ghost predicate Gains(before: seq<Flow>, after: seq<Flow>, name: string) {
    exists i: nat :: IsLast(after, i, name) &&
      if Has(before, name) then
        exists j: nat :: IsLast(before, j, name) &&
          (More(after[i].effects, before[j].effects) || Stronger(after[i].qualifier, before[j].qualifier))
      else after[i].effects != [] || Stronger(after[i].qualifier, "flow")
  }

  /** The flow is gone, or lacks an effect it had or has a weaker qualifier. */
  ghost predicate Loses(before: seq<Flow>, after: seq<Flow>, name: string) {
    exists i: nat :: IsLast(before, i, name) &&
      (Has(after, name) ==>
         exists j: nat :: IsLast(after, j, name) &&
           (More(before[i].effects, after[j].effects) || Stronger(before[i].qualifier, after[j].qualifier)))
  }

  predicate LosesAt(n: string, before: Shapes, after: Shapes) {
    n in before && (n in after ==>
                      || !(Elements(before[n].effects) <= Elements(after[n].effects))
                      || Escalated(after[n].qualifier, before[n].qualifier))
  }

  lemma MoreIff(effects: seq<string>, others: seq<string>)
    ensures More(effects, others) <==> !(Elements(effects) <= Elements(others))
  {
    if More(effects, others) {
      var e :| e in effects && e !in others;
      assert e in Elements(effects) && e !in Elements(others);
    }
  }

  lemma GainsIff(before: seq<Flow>, after: seq<Flow>, name: string)
    ensures Gains(before, after, name) <==> WidensAt(name, ShapesOf(before), ShapesOf(after))
  {
    var b, a := ShapesOf(before), ShapesOf(after);
    ShapesAre(before, name);
    ShapesAre(after, name);
    if name in a {
      var i: nat :| IsLast(after, i, name);
      NoElements(after[i].effects);
      StrongerIff(after[i].qualifier, "flow");
      if name in b {
        var j: nat :| IsLast(before, j, name);
        MoreIff(after[i].effects, before[j].effects);
        StrongerIff(after[i].qualifier, before[j].qualifier);
      }
    }
  }

  lemma LosesIff(before: seq<Flow>, after: seq<Flow>, name: string)
    ensures Loses(before, after, name) <==> LosesAt(name, ShapesOf(before), ShapesOf(after))
  {
    var b, a := ShapesOf(before), ShapesOf(after);
    ShapesAre(before, name);
    ShapesAre(after, name);
    if name in a && name in b {
      var i: nat :| IsLast(before, i, name);
      var j: nat :| IsLast(after, j, name);
      MoreIff(before[i].effects, after[j].effects);
      StrongerIff(before[i].qualifier, after[j].qualifier);
    }
  }

  // ----- the change class -----

  /** Expansion if the flow gains anything, tightening if it only loses, neutral if it does neither. */
  lemma DeltaClass(before: seq<Flow>, after: seq<Flow>, d: Delta)
    requires d in Deltas(DiffOf(before, after))
    ensures d.changeClass == if Gains(before, after, d.name) then Expansion
                             else if Loses(before, after, d.name) then Tightening else Neutral
    ensures d.widens <==> Gains(before, after, d.name)
  {
    var b, a := ShapesOf(before), ShapesOf(after);
    InDeltas(before, after, d);
    DeltaWidensIff(before, after, d);
    GainsIff(before, after, d.name);
    LosesIff(before, after, d.name);
    if d.Changed? {
      MissingElements(a[d.name].effects, b[d.name].effects);
      MissingElements(b[d.name].effects, a[d.name].effects);
    }
  }

  lemma LosingHasDelta(before: seq<Flow>, after: seq<Flow>, n: string)
    requires LosesAt(n, ShapesOf(before), ShapesOf(after))
    ensures exists d :: d in Deltas(DiffOf(before, after)) && d.name == n
  {
    var b, a := ShapesOf(before), ShapesOf(after);
    if n in a {
      InDeltas(before, after, ChangedDelta(n, b[n], a[n]));
      MissingElements(b[n].effects, a[n].effects);
      assert Differs(b[n], a[n]);
    } else {
      InDeltas(before, after, RemovedDelta(n, b[n]));
    }
  }

  lemma {:induction false} HighestIs(deltas: seq<Delta>, c: ChangeClass)
    ensures Highest(deltas, c) == Neutral <==> c == Neutral && forall d :: d in deltas ==> d.changeClass == Neutral
    decreases |deltas|
  {
    if deltas != [] {
      HighestIs(deltas[1..], MaxClass(c, deltas[0].changeClass));
      assert deltas[0] in deltas && forall e :: e in deltas <==> e == deltas[0] || e in deltas[1..];
    }
  }

  /** The class of the whole diff: expansion if any flow gains, tightening if none does and any loses, else neutral. */
  lemma DiffClass(before: seq<Flow>, after: seq<Flow>)
    ensures DiffOf(before, after).changeClass
         == if exists n :: Gains(before, after, n) then Expansion
            else if exists n :: Loses(before, after, n) then Tightening else Neutral
  {
    var deltas := Deltas(DiffOf(before, after));
    forall n ensures Gains(before, after, n) <==> WidensAt(n, ShapesOf(before), ShapesOf(after)) {
      GainsIff(before, after, n);
    }
    WidensIffExpansion(before, after);
    HighestIs(deltas, Neutral);
    if (forall n :: !Gains(before, after, n)) {
      forall d | d in deltas
        ensures d.changeClass == if Loses(before, after, d.name) then Tightening else Neutral
      {
        DeltaClass(before, after, d);
      }
      if exists n :: Loses(before, after, n) {
        var n :| Loses(before, after, n);
        LosesIff(before, after, n);
        LosingHasDelta(before, after, n);
      }
    }
  }

  // ----- the order of the lists -----

  /** The name occurs before any flow of the other name. */
  predicate OccursBefore(flows: seq<Flow>, x: string, y: string) {
    exists i :: 0 <= i < |flows| && flows[i].name == x && forall k :: 0 <= k <= i ==> flows[k].name != y
  }

  lemma {:induction false} NamesInOrder(flows: seq<Flow>, i: nat, j: nat)
    requires i < j < |NamesOf(flows)|
    ensures OccursBefore(flows, NamesOf(flows)[i], NamesOf(flows)[j])
    decreases |flows|
  {
    var k := |flows| - 1;
    var front, name := flows[..k], flows[k].name;
    var names := NamesOf(front);
    if j < |names| {
      NamesInOrder(front, i, j);
      var m :| 0 <= m < k && front[m].name == names[i] && forall l :: 0 <= l <= m ==> front[l].name != names[j];
      assert forall l :: 0 <= l <= m ==> flows[l] == front[l];
      assert flows[m].name == names[i];
    } else {
      NamesAreKeys(front);
      ShapesAre(front, names[i]);
      ShapesAre(front, name);
      assert names[i] in names;
      var m :| 0 <= m < |front| && front[m].name == names[i];
      forall l | 0 <= l <= m ensures flows[l].name != name {
        assert front[l] == flows[l];
      }
      assert flows[m] == front[m];
    }
  }

  /** The deltas are of some of the names, in their order. */
  predicate FollowNames(deltas: seq<Delta>, names: seq<string>) {
    deltas == [] || (names != [] && ((deltas[0].name == names[0] && FollowNames(deltas[1..], names[1..]))
                                     || FollowNames(deltas, names[1..])))
  }

  lemma {:induction false} FollowAt(deltas: seq<Delta>, names: seq<string>, j: nat) returns (l: nat)
    requires FollowNames(deltas, names) && j < |deltas|
    ensures l < |names| && deltas[j].name == names[l]
    decreases |names|
  {
    if deltas[0].name == names[0] && FollowNames(deltas[1..], names[1..]) {
      if j == 0 {
        l := 0;
      } else {
        l := FollowAt(deltas[1..], names[1..], j - 1);
        l := l + 1;
      }
    } else {
      l := FollowAt(deltas, names[1..], j);
      l := l + 1;
    }
  }

  lemma {:induction false} FollowBoth(deltas: seq<Delta>, names: seq<string>, i: nat, j: nat) returns (k: nat, l: nat)
    requires FollowNames(deltas, names) && i < j < |deltas|
    ensures k < l < |names| && deltas[i].name == names[k] && deltas[j].name == names[l]
    decreases |names|
  {
    if deltas[0].name == names[0] && FollowNames(deltas[1..], names[1..]) {
      if i == 0 {
        k := 0;
        l := FollowAt(deltas[1..], names[1..], j - 1);
      } else {
        k, l := FollowBoth(deltas[1..], names[1..], i - 1, j - 1);
        k := k + 1;
      }
      l := l + 1;
    } else {
      k, l := FollowBoth(deltas, names[1..], i, j);
      k, l := k + 1, l + 1;
    }
  }

  lemma {:induction false} ListsFollow(names: seq<string>, before: Shapes, after: Shapes)
    ensures (forall n :: n in names ==> n in after) ==>
              && FollowNames(AddedDeltas(names, before, after), names)
              && FollowNames(ChangedDeltas(names, before, after), names)
    ensures (forall n :: n in names ==> n in before) ==> FollowNames(RemovedDeltas(names, before, after), names)
    decreases |names|
  {
    if names != [] {
      ListsFollow(names[1..], before, after);
      assert forall n :: n in names <==> n == names[0] || n in names[1..];
      if forall n :: n in names ==> n in after {
        HeadFollows(AddedDeltas(names, before, after), AddedDeltas(names[1..], before, after), names);
        HeadFollows(ChangedDeltas(names, before, after), ChangedDeltas(names[1..], before, after), names);
      }
      if forall n :: n in names ==> n in before {
        HeadFollows(RemovedDeltas(names, before, after), RemovedDeltas(names[1..], before, after), names);
      }
    }
  }

  lemma HeadFollows(deltas: seq<Delta>, rest: seq<Delta>, names: seq<string>)
    requires names != [] && FollowNames(rest, names[1..])
    requires deltas == rest || (deltas != [] && deltas == [deltas[0]] + rest && deltas[0].name == names[0])
    ensures FollowNames(deltas, names)
  {
    if deltas != rest {
      assert deltas[1..] == rest;
    }
  }

  /** Each of the three lists is in the order in which its version first names the flows, so no flow comes twice. */
  lemma ListsInOrder(before: seq<Flow>, after: seq<Flow>, i: nat, j: nat)
    requires i < j
    ensures var diff := DiffOf(before, after);
            && (j < |diff.added| ==> OccursBefore(after, diff.added[i].name, diff.added[j].name))
            && (j < |diff.changed| ==> OccursBefore(after, diff.changed[i].name, diff.changed[j].name))
            && (j < |diff.removed| ==> OccursBefore(before, diff.removed[i].name, diff.removed[j].name))
  {
    var diff := DiffOf(before, after);
    NamesAreKeys(before);
    NamesAreKeys(after);
    ListsFollow(NamesOf(after), ShapesOf(before), ShapesOf(after));
    ListsFollow(NamesOf(before), ShapesOf(before), ShapesOf(after));
    if j < |diff.added| {
      ListInOrder(diff.added, after, i, j);
    }
    if j < |diff.changed| {
      ListInOrder(diff.changed, after, i, j);
    }
    if j < |diff.removed| {
      ListInOrder(diff.removed, before, i, j);
    }
  }

  lemma ListInOrder(deltas: seq<Delta>, flows: seq<Flow>, i: nat, j: nat)
    requires FollowNames(deltas, NamesOf(flows)) && i < j < |deltas|
    ensures OccursBefore(flows, deltas[i].name, deltas[j].name)
  {
    var k, l := FollowBoth(deltas, NamesOf(flows), i, j);
    NamesInOrder(flows, k, l);
  }
}
