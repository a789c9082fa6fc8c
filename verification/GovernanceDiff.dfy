/**
 The governance delta between two versions of a program (governance-diff.ts).

 A version is a list of flows; as in a JavaScript Map, of two flows with one name the last one counts,
 at the place of the first. The order inside effect lists is left out: effects are compared as sets.
 */
module GovernanceDiff {
  datatype Flow = Flow(name: string, qualifier: string, effects: seq<string>)

  datatype Shape = Shape(qualifier: string, effects: seq<string>)

  type Shapes = map<string, Shape>

  datatype ChangeClass = Neutral | Tightening | Expansion

  /** A flow that is added has no shape before, one that is removed none after. */
  datatype Delta =
    | Added(name: string, qualifierAfter: string, effectsAdded: seq<string>, widens: bool, changeClass: ChangeClass)
    | Removed(name: string, qualifierBefore: string, effectsRemoved: seq<string>, widens: bool, changeClass: ChangeClass)
    | Changed(name: string, qualifierBefore: string, qualifierAfter: string, effectsAdded: seq<string>,
              effectsRemoved: seq<string>, widens: bool, changeClass: ChangeClass)

  datatype Diff = Diff(added: seq<Delta>, removed: seq<Delta>, changed: seq<Delta>, widens: bool, changeClass: ChangeClass)

  // ----- maps of flows -----

  function ShapesOf(flows: seq<Flow>): Shapes {
    if flows == [] then map[]
    else
      var f := flows[|flows| - 1];
      ShapesOf(flows[..|flows| - 1])[f.name := Shape(f.qualifier, f.effects)]
  }

  /** The keys in the order of their first insertion. */
  function NamesOf(flows: seq<Flow>): seq<string> {
    if flows == [] then []
    else
      var names := NamesOf(flows[..|flows| - 1]);
      var name := flows[|flows| - 1].name;
      if name in names then names else names + [name]
  }

  lemma {:induction false} NamesAreKeys(flows: seq<Flow>)
    ensures forall n :: n in NamesOf(flows) <==> n in ShapesOf(flows)
    decreases |flows|
  {
    if flows != [] {
      NamesAreKeys(flows[..|flows| - 1]);
    }
  }

  // ----- ranks and classes -----

  function Rank(qualifier: string): nat {
    if qualifier == "flow" then 1
    else if qualifier == "guarded" then 2
    else if qualifier == "secure" then 3
    else if qualifier == "privileged" then 4
    else 0
  }

  const GUARDED: nat := 2

  predicate Escalated(before: string, after: string) {
    Rank(after) > Rank(before)
  }

  /** Those of `effects` that `others` lacks, in order. */
  function Missing(effects: seq<string>, others: seq<string>): seq<string> {
    if effects == [] then []
    else
      var rest := Missing(effects[1..], others);
      if effects[0] in others then rest else [effects[0]] + rest
  }

  lemma {:induction false} InMissing(effects: seq<string>, others: seq<string>)
    ensures forall e :: e in Missing(effects, others) <==> e in effects && e !in others
    decreases |effects|
  {
    if effects != [] {
      InMissing(effects[1..], others);
      assert forall e :: e in effects <==> e == effects[0] || e in effects[1..];
    }
  }

  function ClassRank(c: ChangeClass): nat {
    match c
    case Neutral => 0
    case Tightening => 1
    case Expansion => 2
  }

  function MaxClass(a: ChangeClass, b: ChangeClass): ChangeClass {
    if ClassRank(a) >= ClassRank(b) then a else b
  }

  function ClassOfAdded(effectsAdded: seq<string>, qualifier: string): ChangeClass {
    if effectsAdded != [] || Rank(qualifier) >= GUARDED then Expansion else Neutral
  }

  function ClassOfChanged(effectsAdded: seq<string>, effectsRemoved: seq<string>, before: string, after: string): ChangeClass {
    if effectsAdded != [] || Escalated(before, after) then Expansion
    else if effectsRemoved != [] || Escalated(after, before) then Tightening
    else Neutral
  }

  // ----- the deltas -----

  function AddedDelta(name: string, after: Shape): Delta {
    Added(name, after.qualifier, after.effects, after.effects != [] || Rank(after.qualifier) >= GUARDED,
          ClassOfAdded(after.effects, after.qualifier))
  }

  function RemovedDelta(name: string, before: Shape): Delta {
    Removed(name, before.qualifier, before.effects, false, Tightening)
  }

  function ChangedDelta(name: string, before: Shape, after: Shape): Delta {
    var effectsAdded := Missing(after.effects, before.effects);
    var effectsRemoved := Missing(before.effects, after.effects);
    Changed(name, before.qualifier, after.qualifier, effectsAdded, effectsRemoved,
            effectsAdded != [] || Escalated(before.qualifier, after.qualifier),
            ClassOfChanged(effectsAdded, effectsRemoved, before.qualifier, after.qualifier))
  }

  predicate Differs(before: Shape, after: Shape) {
    || Missing(after.effects, before.effects) != []
    || Missing(before.effects, after.effects) != []
    || before.qualifier != after.qualifier
  }

  function AddedDeltas(names: seq<string>, before: Shapes, after: Shapes): seq<Delta>
    requires forall n :: n in names ==> n in after
  {
    if names == [] then []
    else
      var rest := AddedDeltas(names[1..], before, after);
      assert names[0] in names;
      if names[0] in before then rest else [AddedDelta(names[0], after[names[0]])] + rest
  }

  function RemovedDeltas(names: seq<string>, before: Shapes, after: Shapes): seq<Delta>
    requires forall n :: n in names ==> n in before
  {
    if names == [] then []
    else
      var rest := RemovedDeltas(names[1..], before, after);
      assert names[0] in names;
      if names[0] in after then rest else [RemovedDelta(names[0], before[names[0]])] + rest
  }

  function ChangedDeltas(names: seq<string>, before: Shapes, after: Shapes): seq<Delta>
    requires forall n :: n in names ==> n in after
  {
    if names == [] then []
    else
      var rest := ChangedDeltas(names[1..], before, after);
      assert names[0] in names;
      if names[0] in before && Differs(before[names[0]], after[names[0]])
      then [ChangedDelta(names[0], before[names[0]], after[names[0]])] + rest
      else rest
  }

  predicate SomeWidens(deltas: seq<Delta>) {
    exists d :: d in deltas && d.widens
  }

  function Highest(deltas: seq<Delta>, c: ChangeClass): ChangeClass {
    if deltas == [] then c else Highest(deltas[1..], MaxClass(c, deltas[0].changeClass))
  }

  function DiffOf(before: seq<Flow>, after: seq<Flow>): Diff {
    NamesAreKeys(before);
    NamesAreKeys(after);
    var b, a := ShapesOf(before), ShapesOf(after);
    var added := AddedDeltas(NamesOf(after), b, a);
    var removed := RemovedDeltas(NamesOf(before), b, a);
    var changed := ChangedDeltas(NamesOf(after), b, a);
    Diff(added, removed, changed, SomeWidens(added) || SomeWidens(changed), Highest(added + removed + changed, Neutral))
  }

  // ----- the loops -----

  /** new Map(flows.map(...)), with its keys in insertion order. */
  method Index(flows: seq<Flow>) returns (names: seq<string>, shapes: Shapes)
    ensures names == NamesOf(flows) && shapes == ShapesOf(flows)
  {
    names, shapes := [], map[];
    for i := 0 to |flows|
      invariant names == NamesOf(flows[..i]) && shapes == ShapesOf(flows[..i])
    {
      assert flows[..i + 1][..i] == flows[..i];
      var f := flows[i];
      if f.name !in names {
        names := names + [f.name];
      }
      shapes := shapes[f.name := Shape(f.qualifier, f.effects)];
    }
    assert flows[..|flows|] == flows;
  }

  method FilterMissing(effects: seq<string>, others: seq<string>) returns (r: seq<string>)
    ensures r == Missing(effects, others)
  {
    r := [];
    for i := 0 to |effects|
      invariant r + Missing(effects[i..], others) == Missing(effects, others)
    {
      assert effects[i..][1..] == effects[i + 1..];
      if effects[i] !in others {
        r := r + [effects[i]];
      }
    }
  }

  method HighestClass(deltas: seq<Delta>) returns (c: ChangeClass)
    ensures c == Highest(deltas, Neutral)
  {
    c := Neutral;
    for i := 0 to |deltas|
      invariant Highest(deltas[i..], c) == Highest(deltas, Neutral)
    {
      assert deltas[i..][1..] == deltas[i + 1..];
      c := MaxClass(c, deltas[i].changeClass);
    }
  }

  method CollectAdded(names: seq<string>, before: Shapes, after: Shapes) returns (deltas: seq<Delta>)
    requires forall n :: n in names ==> n in after
    ensures deltas == AddedDeltas(names, before, after)
  {
    deltas := [];
    for i := 0 to |names|
      invariant deltas + AddedDeltas(names[i..], before, after) == AddedDeltas(names, before, after)
    {
      assert names[i..][1..] == names[i + 1..];
      if names[i] !in before {
        deltas := deltas + [AddedDelta(names[i], after[names[i]])];
      }
    }
  }

  method CollectRemoved(names: seq<string>, before: Shapes, after: Shapes) returns (deltas: seq<Delta>)
    requires forall n :: n in names ==> n in before
    ensures deltas == RemovedDeltas(names, before, after)
  {
    deltas := [];
    for i := 0 to |names|
      invariant deltas + RemovedDeltas(names[i..], before, after) == RemovedDeltas(names, before, after)
    {
      assert names[i..][1..] == names[i + 1..];
      if names[i] !in after {
        deltas := deltas + [RemovedDelta(names[i], before[names[i]])];
      }
    }
  }

  /** The delta of one flow that both versions have, if there is one. */
  method CompareFlow(name: string, before: Shape, after: Shape) returns (deltas: seq<Delta>)
    ensures deltas == if Differs(before, after) then [ChangedDelta(name, before, after)] else []
  {
    var effectsAdded := FilterMissing(after.effects, before.effects);
    var effectsRemoved := FilterMissing(before.effects, after.effects);
    if effectsAdded == [] && effectsRemoved == [] && before.qualifier == after.qualifier {
      return [];
    }
    var widens := effectsAdded != [] || Escalated(before.qualifier, after.qualifier);
    var c := ClassOfChanged(effectsAdded, effectsRemoved, before.qualifier, after.qualifier);
    return [Changed(name, before.qualifier, after.qualifier, effectsAdded, effectsRemoved, widens, c)];
  }

  /** What one name adds. */
  function ChangedOf(name: string, before: Shapes, after: Shapes): seq<Delta>
    requires name in after
  {
    if name in before && Differs(before[name], after[name])
    then [ChangedDelta(name, before[name], after[name])] else []
  }

  lemma ChangedStep(names: seq<string>, i: nat, before: Shapes, after: Shapes, deltas: seq<Delta>)
    requires i < |names| && forall n :: n in names ==> n in after
    ensures names[i] in names && forall n :: n in names[i..] || n in names[i + 1..] ==> n in after
    ensures deltas + ChangedDeltas(names[i..], before, after)
         == deltas + ChangedOf(names[i], before, after) + ChangedDeltas(names[i + 1..], before, after)
    ensures ChangedOf(names[i], before, after) == [] ==> deltas + ChangedOf(names[i], before, after) == deltas
  {
    assert names[i..][1..] == names[i + 1..];
    var rest := ChangedDeltas(names[i + 1..], before, after);
    assert ChangedDeltas(names[i..], before, after) == ChangedOf(names[i], before, after) + rest;
  }

  method CollectChanged(names: seq<string>, before: Shapes, after: Shapes) returns (deltas: seq<Delta>)
    requires forall n :: n in names ==> n in after
    ensures deltas == ChangedDeltas(names, before, after)
  {
    deltas := [];
    for i := 0 to |names|
      invariant deltas + ChangedDeltas(names[i..], before, after) == ChangedDeltas(names, before, after)
    {
      ChangedStep(names, i, before, after, deltas);
      if names[i] in before {
        var delta := CompareFlow(names[i], before[names[i]], after[names[i]]);
        deltas := deltas + delta;
      }
    }
  }

  method SomeDeltaWidens(deltas: seq<Delta>) returns (widens: bool)
    ensures widens == SomeWidens(deltas)
  {
    for i := 0 to |deltas|
      invariant forall k :: 0 <= k < i ==> !deltas[k].widens
    {
      if deltas[i].widens {
        return true;
      }
    }
    return false;
  }

  /** diffGovernance */
  method DiffGovernance(before: seq<Flow>, after: seq<Flow>) returns (diff: Diff)
    ensures diff == DiffOf(before, after)
  {
    NamesAreKeys(before);
    NamesAreKeys(after);
    var beforeNames, b := Index(before);
    var afterNames, a := Index(after);
    var added := CollectAdded(afterNames, b, a);
    var removed := CollectRemoved(beforeNames, b, a);
    var changed := CollectChanged(afterNames, b, a);
    var addedWidens := SomeDeltaWidens(added);
    var changedWidens := SomeDeltaWidens(changed);
    var c := HighestClass(added + removed + changed);
    diff := Diff(added, removed, changed, addedWidens || changedWidens, c);
  }

  // ----- which deltas there are -----

  lemma {:induction false} InAddedDeltas(names: seq<string>, before: Shapes, after: Shapes, d: Delta)
    requires forall n :: n in names ==> n in after
    ensures d in AddedDeltas(names, before, after)
       <==> d.name in names && d.name !in before && d == AddedDelta(d.name, after[d.name])
    decreases |names|
  {
    if names != [] {
      InAddedDeltas(names[1..], before, after, d);
      assert names[0] in names && (d.name in names <==> d.name == names[0] || d.name in names[1..]);
    }
  }

  lemma {:induction false} InRemovedDeltas(names: seq<string>, before: Shapes, after: Shapes, d: Delta)
    requires forall n :: n in names ==> n in before
    ensures d in RemovedDeltas(names, before, after)
       <==> d.name in names && d.name !in after && d == RemovedDelta(d.name, before[d.name])
    decreases |names|
  {
    if names != [] {
      InRemovedDeltas(names[1..], before, after, d);
      assert names[0] in names && (d.name in names <==> d.name == names[0] || d.name in names[1..]);
    }
  }

  lemma {:induction false} InChangedDeltas(names: seq<string>, before: Shapes, after: Shapes, d: Delta)
    requires forall n :: n in names ==> n in after
    ensures d in ChangedDeltas(names, before, after)
       <==> d.name in names && d.name in before && Differs(before[d.name], after[d.name])
            && d == ChangedDelta(d.name, before[d.name], after[d.name])
    decreases |names|
  {
    if names != [] {
      InChangedDeltas(names[1..], before, after, d);
      assert names[0] in names && (d.name in names <==> d.name == names[0] || d.name in names[1..]);
    }
  }

  // ----- the diff is a patch -----

  /** What of a shape the diff reports on. */
  datatype Grant = Grant(qualifier: string, effects: set<string>)

  function Elements(effects: seq<string>): set<string> {
    set e | e in effects
  }

  function GrantOf(s: Shape): Grant {
    Grant(s.qualifier, Elements(s.effects))
  }

  function Grants(shapes: Shapes): map<string, Grant> {
    map n | n in shapes :: GrantOf(shapes[n])
  }

  /** A delta carried out, and undone, on a version's grants. */
  function Applied(d: Delta, grants: map<string, Grant>): map<string, Grant> {
    match d
    case Added(n, q, effects, _, _) => grants[n := Grant(q, Elements(effects))]
    case Removed(n, _, _, _, _) => grants - {n}
    case Changed(n, _, q, plus, minus, _, _) =>
      if n in grants then grants[n := Grant(q, grants[n].effects - Elements(minus) + Elements(plus))] else grants
  }

  function Inverse(d: Delta): Delta {
    match d
    case Added(n, q, effects, w, c) => Removed(n, q, effects, w, c)
    case Removed(n, q, effects, w, c) => Added(n, q, effects, w, c)
    case Changed(n, q, r, plus, minus, w, c) => Changed(n, r, q, minus, plus, w, c)
  }

  function AppliedAll(deltas: seq<Delta>, grants: map<string, Grant>): map<string, Grant> {
    if deltas == [] then grants else AppliedAll(deltas[1..], Applied(deltas[0], grants))
  }

  function InverseAll(deltas: seq<Delta>): seq<Delta> {
    if deltas == [] then [] else [Inverse(deltas[0])] + InverseAll(deltas[1..])
  }

  function Deltas(diff: Diff): seq<Delta> {
    diff.added + diff.removed + diff.changed
  }

  /** The grants of `n` in a version, if it has the flow. */
  predicate SameAt(n: string, a: map<string, Grant>, b: map<string, Grant>) {
    (n in a <==> n in b) && (n in a ==> a[n] == b[n])
  }

  /** The delta says how the flow it names goes from one version to the other. */
  predicate Tells(d: Delta, before: map<string, Grant>, after: map<string, Grant>) {
    match d
    case Added(n, q, effects, _, _) => n !in before && n in after && after[n] == Grant(q, Elements(effects))
    case Removed(n, q, effects, _, _) => n in before && n !in after && before[n] == Grant(q, Elements(effects))
    case Changed(n, q, r, plus, minus, _, _) =>
      && n in before && n in after && before[n].qualifier == q && after[n].qualifier == r
      && Elements(plus) == after[n].effects - before[n].effects
      && Elements(minus) == before[n].effects - after[n].effects
  }

  /** Carrying a delta out arrives at the later version, from the earlier one or once arrived. */
  lemma AppliedArrives(d: Delta, before: map<string, Grant>, after: map<string, Grant>, grants: map<string, Grant>)
    requires Tells(d, before, after)
    requires SameAt(d.name, grants, before) || SameAt(d.name, grants, after)
    ensures SameAt(d.name, Applied(d, grants), after)
  {
    if d.Changed? {
      assert grants[d.name].effects - Elements(d.effectsRemoved) + Elements(d.effectsAdded) == after[d.name].effects;
    }
  }

  lemma AppliedElsewhere(d: Delta, grants: map<string, Grant>, n: string)
    requires n != d.name
    ensures SameAt(n, Applied(d, grants), grants)
  {
  }

  predicate AllTell(deltas: seq<Delta>, before: map<string, Grant>, after: map<string, Grant>) {
    forall d :: d in deltas ==> Tells(d, before, after)
  }

  predicate Named(deltas: seq<Delta>, n: string) {
    exists d :: d in deltas && d.name == n
  }

  lemma {:induction false} AppliedAllAt(deltas: seq<Delta>, before: map<string, Grant>, after: map<string, Grant>,
                                        grants: map<string, Grant>, n: string)
    requires AllTell(deltas, before, after)
    requires SameAt(n, grants, before) || SameAt(n, grants, after)
    ensures if Named(deltas, n) then SameAt(n, AppliedAll(deltas, grants), after)
            else SameAt(n, AppliedAll(deltas, grants), grants)
    decreases |deltas|
  {
    if deltas != [] {
      var d, rest := deltas[0], deltas[1..];
      assert d in deltas && forall e :: e in deltas <==> e == d || e in rest;
      if d.name == n {
        AppliedArrives(d, before, after, grants);
      } else {
        AppliedElsewhere(d, grants, n);
      }
      AppliedAllAt(rest, before, after, Applied(d, grants), n);
      assert Named(deltas, n) <==> d.name == n || Named(rest, n);
    }
  }

  /** Deltas that name every flow whose grant differs turn the one version into the other. */
  lemma PatchArrives(deltas: seq<Delta>, before: map<string, Grant>, after: map<string, Grant>)
    requires AllTell(deltas, before, after)
    requires forall n :: SameAt(n, before, after) || Named(deltas, n)
    ensures AppliedAll(deltas, before) == after
  {
    var result := AppliedAll(deltas, before);
    forall n ensures SameAt(n, result, after) {
      AppliedAllAt(deltas, before, after, before, n);
    }
    assert result.Keys == after.Keys by {
      forall n ensures n in result.Keys <==> n in after.Keys { assert SameAt(n, result, after); }
    }
    forall n | n in result ensures result[n] == after[n] { assert SameAt(n, result, after); }
  }

  lemma MissingElements(xs: seq<string>, ys: seq<string>)
    ensures Elements(Missing(xs, ys)) == Elements(xs) - Elements(ys)
    ensures Missing(xs, ys) == [] <==> Elements(xs) <= Elements(ys)
  {
    InMissing(xs, ys);
    var missing := Missing(xs, ys);
    if missing != [] {
      assert missing[0] in missing && missing[0] in Elements(xs) && missing[0] !in Elements(ys);
    }
  }

  /** Every delta of the diff is one of these three, and each of the three is in the diff. */
  lemma InDeltas(before: seq<Flow>, after: seq<Flow>, d: Delta)
    ensures var b, a := ShapesOf(before), ShapesOf(after);
            d in Deltas(DiffOf(before, after))
            <==> || (d.name in a && d.name !in b && d == AddedDelta(d.name, a[d.name]))
                 || (d.name in b && d.name !in a && d == RemovedDelta(d.name, b[d.name]))
                 || (d.name in b && d.name in a && Differs(b[d.name], a[d.name])
                     && d == ChangedDelta(d.name, b[d.name], a[d.name]))
  {
    var b, a := ShapesOf(before), ShapesOf(after);
    NamesAreKeys(before);
    NamesAreKeys(after);
    InAddedDeltas(NamesOf(after), b, a, d);
    InRemovedDeltas(NamesOf(before), b, a, d);
    InChangedDeltas(NamesOf(after), b, a, d);
  }

  lemma DeltaTells(before: seq<Flow>, after: seq<Flow>, d: Delta)
    requires d in Deltas(DiffOf(before, after))
    ensures Tells(d, Grants(ShapesOf(before)), Grants(ShapesOf(after)))
  {
    var b, a := ShapesOf(before), ShapesOf(after);
    InDeltas(before, after, d);
    if d.Changed? {
      MissingElements(a[d.name].effects, b[d.name].effects);
      MissingElements(b[d.name].effects, a[d.name].effects);
    }
  }

  lemma DeltaForEveryDifference(before: seq<Flow>, after: seq<Flow>, n: string)
    ensures SameAt(n, Grants(ShapesOf(before)), Grants(ShapesOf(after))) || Named(Deltas(DiffOf(before, after)), n)
  {
    var b, a := ShapesOf(before), ShapesOf(after);
    if n in a && n !in b {
      InDeltas(before, after, AddedDelta(n, a[n]));
    } else if n in b && n !in a {
      InDeltas(before, after, RemovedDelta(n, b[n]));
    } else if n in b && n in a {
      InDeltas(before, after, ChangedDelta(n, b[n], a[n]));
      MissingElements(a[n].effects, b[n].effects);
      MissingElements(b[n].effects, a[n].effects);
      assert !Differs(b[n], a[n]) ==> Elements(a[n].effects) == Elements(b[n].effects);
    }
  }

  lemma InverseTells(d: Delta, before: map<string, Grant>, after: map<string, Grant>)
    requires Tells(d, before, after)
    ensures Tells(Inverse(d), after, before) && Inverse(d).name == d.name
  {
  }

  lemma {:induction false} InverseAllTell(deltas: seq<Delta>, before: map<string, Grant>, after: map<string, Grant>, n: string)
    requires AllTell(deltas, before, after)
    ensures AllTell(InverseAll(deltas), after, before)
    ensures Named(deltas, n) ==> Named(InverseAll(deltas), n)
    decreases |deltas|
  {
    if deltas != [] {
      var d, rest := deltas[0], deltas[1..];
      assert d in deltas && forall e :: e in deltas <==> e == d || e in rest;
      InverseTells(d, before, after);
      InverseAllTell(rest, before, after, n);
      assert Inverse(d) in InverseAll(deltas) && forall e :: e in InverseAll(rest) ==> e in InverseAll(deltas);
    }
  }

  /** The diff is a patch from the grants of the one version to those of the other, and can be undone. */
  lemma DiffIsInvertiblePatch(before: seq<Flow>, after: seq<Flow>)
    ensures var b, a := Grants(ShapesOf(before)), Grants(ShapesOf(after));
            var deltas := Deltas(DiffOf(before, after));
            AppliedAll(deltas, b) == a && AppliedAll(InverseAll(deltas), a) == b
  {
    var b, a := Grants(ShapesOf(before)), Grants(ShapesOf(after));
    var deltas := Deltas(DiffOf(before, after));
    forall d | d in deltas ensures Tells(d, b, a) {
      DeltaTells(before, after, d);
    }
    forall n ensures SameAt(n, b, a) || Named(deltas, n) {
      DeltaForEveryDifference(before, after, n);
    }
    PatchArrives(deltas, b, a);
    forall n ensures SameAt(n, a, b) || Named(InverseAll(deltas), n) {
      assert SameAt(n, b, a) || Named(deltas, n);
      InverseAllTell(deltas, b, a, n);
    }
    InverseAllTell(deltas, b, a, "");
    PatchArrives(InverseAll(deltas), a, b);
  }

  // ----- widening -----

  /** The later version grants the flow something the earlier one did not. */
  predicate WidensAt(n: string, before: Shapes, after: Shapes) {
    n in after
    && if n in before then
         !(Elements(after[n].effects) <= Elements(before[n].effects)) || Escalated(before[n].qualifier, after[n].qualifier)
       else Elements(after[n].effects) != {} || Rank(after[n].qualifier) >= GUARDED
  }

  ghost predicate Widens(before: seq<Flow>, after: seq<Flow>) {
    exists n :: WidensAt(n, ShapesOf(before), ShapesOf(after))
  }

  lemma NoElements(effects: seq<string>)
    ensures Elements(effects) == {} <==> effects == []
  {
    if effects != [] {
      assert effects[0] in Elements(effects);
    }
  }

  lemma DeltaWidensIff(before: seq<Flow>, after: seq<Flow>, d: Delta)
    requires d in Deltas(DiffOf(before, after))
    ensures d.widens <==> WidensAt(d.name, ShapesOf(before), ShapesOf(after))
    ensures d.widens <==> d.changeClass == Expansion
  {
    var b, a := ShapesOf(before), ShapesOf(after);
    InDeltas(before, after, d);
    if d.Added? {
      NoElements(a[d.name].effects);
    } else if d.Changed? {
      MissingElements(a[d.name].effects, b[d.name].effects);
    }
  }

  lemma WideningHasDelta(before: seq<Flow>, after: seq<Flow>, n: string)
    requires WidensAt(n, ShapesOf(before), ShapesOf(after))
    ensures exists d :: d in Deltas(DiffOf(before, after)) && d.name == n
  {
    var b, a := ShapesOf(before), ShapesOf(after);
    if n in b {
      InDeltas(before, after, ChangedDelta(n, b[n], a[n]));
      MissingElements(a[n].effects, b[n].effects);
      assert Differs(b[n], a[n]);
    } else {
      InDeltas(before, after, AddedDelta(n, a[n]));
    }
  }

  lemma {:induction false} HighestIsExpansion(deltas: seq<Delta>, c: ChangeClass)
    ensures Highest(deltas, c) == Expansion <==> c == Expansion || exists d :: d in deltas && d.changeClass == Expansion
    decreases |deltas|
  {
    if deltas != [] {
      HighestIsExpansion(deltas[1..], MaxClass(c, deltas[0].changeClass));
      assert deltas[0] in deltas && forall e :: e in deltas <==> e == deltas[0] || e in deltas[1..];
    }
  }

  lemma RemovedDoesNotWiden(before: seq<Flow>, after: seq<Flow>, d: Delta)
    requires d in DiffOf(before, after).removed
    ensures !d.widens
  {
    NamesAreKeys(before);
    InRemovedDeltas(NamesOf(before), ShapesOf(before), ShapesOf(after), d);
  }

  /** The review signal and the change class agree, and both say whether any flow gains authority. */
  lemma WidensIffExpansion(before: seq<Flow>, after: seq<Flow>)
    ensures DiffOf(before, after).widens <==> Widens(before, after)
    ensures DiffOf(before, after).changeClass == Expansion <==> Widens(before, after)
  {
    var diff := DiffOf(before, after);
    var deltas := Deltas(diff);
    HighestIsExpansion(deltas, Neutral);
    forall d | d in deltas
      ensures d.widens <==> WidensAt(d.name, ShapesOf(before), ShapesOf(after))
      ensures d.widens <==> d.changeClass == Expansion
    {
      DeltaWidensIff(before, after, d);
    }
    if Widens(before, after) {
      var n :| WidensAt(n, ShapesOf(before), ShapesOf(after));
      WideningHasDelta(before, after, n);
      var d :| d in deltas && d.name == n;
      if d in diff.removed {
        RemovedDoesNotWiden(before, after, d);
      }
    }
  }

  /** A flow that an intermediate version drops and a later one brings back with a higher qualifier. */
  predicate ReturnsEscalated(n: string, first: Shapes, second: Shapes, third: Shapes) {
    n in first && n !in second && n in third && Escalated(first[n].qualifier, third[n].qualifier)
  }

  ghost predicate SomeReturnsEscalated(first: Shapes, second: Shapes, third: Shapes) {
    exists n :: ReturnsEscalated(n, first, second, third)
  }

  lemma ComposesAt(n: string, first: Shapes, second: Shapes, third: Shapes)
    requires !WidensAt(n, first, second) && !WidensAt(n, second, third)
    ensures WidensAt(n, first, third) <==> ReturnsEscalated(n, first, second, third)
  {
  }

  /**
   Two steps that do not widen make a whole that does not, if and only if no flow is dropped by the
   first and brought back by the second under a qualifier above the one it first had.
   */
  lemma NonWideningComposes(first: seq<Flow>, second: seq<Flow>, third: seq<Flow>)
    requires !DiffOf(first, second).widens && !DiffOf(second, third).widens
    ensures DiffOf(first, third).widens
       <==> SomeReturnsEscalated(ShapesOf(first), ShapesOf(second), ShapesOf(third))
  {
    var a, b, c := ShapesOf(first), ShapesOf(second), ShapesOf(third);
    WidensIffExpansion(first, second);
    WidensIffExpansion(second, third);
    WidensIffExpansion(first, third);
    forall n ensures WidensAt(n, a, c) <==> ReturnsEscalated(n, a, b, c) {
      assert !WidensAt(n, a, b) && !WidensAt(n, b, c);
      ComposesAt(n, a, b, c);
    }
    if Widens(first, third) {
      var n :| WidensAt(n, a, c);
      assert ReturnsEscalated(n, a, b, c);
    }
    if SomeReturnsEscalated(a, b, c) {
      var n :| ReturnsEscalated(n, a, b, c);
      assert WidensAt(n, a, c);
    }
  }
}
