/**
 * How filtering by allowed paths behaves: what a filtered unit and a
 * filtered component keep, that filtering depends only on the paths and
 * owners of the units, and that filtering twice is filtering once.
 */
module FilterProperties {
  import opened Wrappers
  import opened Collections
  import opened Paths
  import opened Graph

  /** Two unit lists of one length whose units have the same paths and owners. */
  predicate SameShape(us1: seq<Unit>, us2: seq<Unit>)
  {
    |us1| == |us2|
    && forall v :: 0 <= v < |us1| ==> us1[v].path == us2[v].path && us1[v].component == us2[v].component
  }

  /** The tests on dependencies read only the paths and owners of units. */
  lemma KeptCongruent(cs: seq<Component>, us1: seq<Unit>, us2: seq<Unit>, policy: Policy, allowed: seq<Path>, flag: bool, u: nat)
    requires SameShape(us1, us2)
    ensures forall d :: KeptInput(cs, us1, policy, allowed, flag, u)(d) == KeptInput(cs, us2, policy, allowed, flag, u)(d)
    ensures forall x :: KeptOutput(cs, us1, policy, flag, u)(x) == KeptOutput(cs, us2, policy, flag, u)(x)
  {
  }

  /** A unit filtered within either of two lists of the same shape comes out the same. */
  lemma FilteredUnitCongruent(cs: seq<Component>, us1: seq<Unit>, us2: seq<Unit>, policy: Policy, allowed: seq<Path>, flag: bool, u: nat)
    requires SameShape(us1, us2) && u < |us1| && us1[u] == us2[u]
    ensures FilteredUnit(cs, us1, policy, allowed, flag, u) == FilteredUnit(cs, us2, policy, allowed, flag, u)
  {
    KeptCongruent(cs, us1, us2, policy, allowed, flag, u);
    FilterCongruent(us1[u].inputs, KeptInput(cs, us1, policy, allowed, flag, u), KeptInput(cs, us2, policy, allowed, flag, u));
    FilterCongruent(us1[u].outputs, KeptOutput(cs, us1, policy, flag, u), KeptOutput(cs, us2, policy, flag, u));
  }

  /** `filterDependenciesByPaths` a second time, with the same arguments, changes nothing. */
  lemma FilteredUnitIdempotent(cs: seq<Component>, us: seq<Unit>, policy: Policy, allowed: seq<Path>, flag: bool, u: nat)
    requires u < |us|
    ensures var us1 := us[u := FilteredUnit(cs, us, policy, allowed, flag, u)];
      FilteredUnit(cs, us1, policy, allowed, flag, u) == us1[u]
  {
    var f := FilteredUnit(cs, us, policy, allowed, flag, u);
    var us1 := us[u := f];
    if allowed != [] {
      assert SameShape(us1, us);
      KeptCongruent(cs, us1, us, policy, allowed, flag, u);
      FilterCongruent(f.inputs, KeptInput(cs, us1, policy, allowed, flag, u), KeptInput(cs, us, policy, allowed, flag, u));
      FilterCongruent(f.outputs, KeptOutput(cs, us1, policy, flag, u), KeptOutput(cs, us, policy, flag, u));
      FilterIdempotent(us[u].inputs, KeptInput(cs, us, policy, allowed, flag, u));
      FilterIdempotent(us[u].outputs, KeptOutput(cs, us, policy, flag, u));
    }
  }

  /** One more listed unit filtered: the unit at `xs[i]` is replaced by its filtered form when its path is allowed. */
  lemma FilteredUnitsStep(cs: seq<Component>, us: seq<Unit>, policy: Policy, allowed: seq<Path>, flag: bool, xs: seq<nat>, i: nat)
    requires i < |xs| && xs[i] < |us| && xs[i] !in xs[..i]
    ensures var before := FilteredUnits(cs, us, policy, allowed, flag, xs[..i]);
      FilteredUnits(cs, us, policy, allowed, flag, xs[..i + 1])
      == if UnderAllowedPath(allowed, us[xs[i]].path)
         then before[xs[i] := FilteredUnit(cs, us, policy, allowed, flag, xs[i])]
         else before
  {
    assert xs[..i + 1] == xs[..i] + [xs[i]];
  }

  /**
   * `filterByPaths` a second time, with the same arguments, changes no unit:
   * every unit it filters again was filtered already.
   */
  lemma FilteredUnitsIdempotent(cs: seq<Component>, us: seq<Unit>, policy: Policy, allowed: seq<Path>, flag: bool, xs: seq<nat>)
    ensures var us1 := FilteredUnits(cs, us, policy, allowed, flag, xs);
      FilteredUnits(cs, us1, policy, allowed, flag, xs) == us1
  {
    var us1 := FilteredUnits(cs, us, policy, allowed, flag, xs);
    var us2 := FilteredUnits(cs, us1, policy, allowed, flag, xs);
    assert SameShape(us1, us);
    forall v | 0 <= v < |us| && v in xs && UnderAllowedPath(allowed, us[v].path) ensures us2[v] == us1[v] {
      FilteredUnitIdempotent(cs, us, policy, allowed, flag, v);
      var w := us[v := us1[v]];
      assert SameShape(us1, w);
      FilteredUnitCongruent(cs, us1, w, policy, allowed, flag, v);
    }
  }

  /**
   * A unit stays listed by `filterByPaths` exactly when it was listed, lies
   * under an allowed path and still has a dependency after filtering (or
   * when no path is allowed at all).
   */
  lemma KeptUnitsSpec(cs: seq<Component>, us: seq<Unit>, policy: Policy, allowed: seq<Path>, flag: bool, xs: seq<nat>)
    requires Below(xs, |us|)
    ensures var us1 := FilteredUnits(cs, us, policy, allowed, flag, xs);
      forall v :: v in KeptUnits(cs, us, policy, allowed, flag, xs) <==>
        v in xs && (allowed == [] || (UnderAllowedPath(allowed, us[v].path) && (us1[v].inputs != [] || us1[v].outputs != [])))
  {
  }

  /** After filtering, every input of a filtered unit lies under an allowed path and is not in allowed state. */
  lemma FilteredInputsAllowed(cs: seq<Component>, us: seq<Unit>, policy: Policy, allowed: seq<Path>, flag: bool, xs: seq<nat>, v: nat, d: nat)
    requires v < |us| && v in xs && allowed != [] && UnderAllowedPath(allowed, us[v].path)
    requires d in FilteredUnits(cs, us, policy, allowed, flag, xs)[v].inputs
    ensures d in us[v].inputs && d < |us| && UnderAllowedPath(allowed, us[d].path)
    ensures us[d].component < |cs| && !(flag && policy.unitDependencyInAllowedState(cs[us[d].component].restrictions, v, d))
  {
    assert KeptInput(cs, us, policy, allowed, flag, v)(d);
  }

  /** With no allowed path, filtering changes nothing. */
  lemma NothingAllowed(cs: seq<Component>, us: seq<Unit>, policy: Policy, flag: bool, xs: seq<nat>)
    ensures FilteredUnits(cs, us, policy, [], flag, xs) == us
    ensures KeptUnits(cs, us, policy, [], flag, xs) == xs
  {
    var r := FilteredUnits(cs, us, policy, [], flag, xs);
    forall v | 0 <= v < |us| ensures r[v] == us[v] {
      assert !UnderAllowedPath([], us[v].path);
    }
  }
}
