/**
 * The two static `$instances` registries of `Component` and `UnitOfCode`,
 * held together as one object, with the create-or-get operations, the
 * ownership and dependency updates, and the queries of both classes. Each
 * state change is stated by a function of the old state, each query by the
 * function of module Graph it computes.
 */
module Registries {
  import opened Wrappers
  import opened Text
  import opened Collections
  import opened Types
  import opened Paths
  import opened Environment
  import opened Graph
  import opened GraphProperties
  import opened FilterProperties

  // ------------------------------------------------------- state changes

  /** A component as the private constructor builds it: enabled, no units, empty cache. */
  function NewComponent(name: string, roots: seq<Path>, excluded: seq<Path>, restrictions: Option<Restrictions>): (x: Component)
    ensures x.name == name && x.enabled && x.roots == roots && x.excluded == excluded
    ensures x.units == [] && x.cache == NoCaches
    ensures restrictions.Some? ==> x.restrictions == restrictions.value
    ensures restrictions.None? ==> x.restrictions == NoRestrictions
  {
    Component(name, true, roots, excluded, if restrictions.Some? then restrictions.value else NoRestrictions, [], NoCaches)
  }

  /** The component registry after a create-or-get, and the position it answers. */
  datatype Registered = Registered(ids: map<string, nat>, cs: seq<Component>, id: nat)

  /**
   * `Component::create`: a new name gets a new component at the end; an
   * existing one gains the root and excluded paths it lacks, and its
   * restrictions are replaced when some are given.
   */
  function Created(ids: map<string, nat>, cs: seq<Component>, name: string, roots: seq<Path>, excluded: seq<Path>,
                   restrictions: Option<Restrictions>): Registered
    requires ComponentIndex(ids, cs)
  {
    if name in ids then
      var c := ids[name];
      var x := cs[c];
      Registered(ids, cs[c := x.(roots := AddAll(x.roots, roots), excluded := AddAll(x.excluded, excluded),
                                 restrictions := if restrictions.Some? then restrictions.value else x.restrictions)], c)
    else
      Registered(ids[name := |cs|], cs + [NewComponent(name, roots, excluded, restrictions)], |cs|)
  }

  /** `createByUnitOfCode`: the component a new unit is placed in. */
  function Resolved(ids: map<string, nat>, cs: seq<Component>, name: string, path: Option<string>, kind: Type): Registered
    requires ComponentIndex(ids, cs)
  {
    match Place(cs, name, path, kind)
    case Existing(c) => Registered(ids, cs, c)
    case Reserved(n) => Created(ids, cs, n, [], [], None)
  }

  /** `addUnitOfCode`: component `c` lists `u`, once. */
  function WithUnit(cs: seq<Component>, c: nat, u: nat): seq<Component>
    requires c < |cs|
  {
    cs[c := cs[c].(units := AddUnique(cs[c].units, u))]
  }

  /** The test `removeUnitOfCode` deletes by: every unit but `u`. */
  function Other(u: nat): nat -> bool
  {
    (v: nat) => v != u
  }

  /** `removeUnitOfCode`: component `c` no longer lists `u`. */
  function WithoutUnit(cs: seq<Component>, c: nat, u: nat): seq<Component>
    requires c < |cs|
  {
    cs[c := cs[c].(units := Filter(cs[c].units, Other(u)))]
  }

  /** The component lists after `setComponent` moves `u` from `from` to `to`; nothing when they are the same. */
  function Moved(cs: seq<Component>, from: nat, to: nat, u: nat): seq<Component>
    requires from < |cs| && to < |cs|
  {
    if from == to then cs else WithUnit(WithoutUnit(cs, from, u), to, u)
  }

  /**
   * `$u->addOutputDependency($d)`: `u` lists `d` as an output once more, and
   * `d` lists `u` as an input unless it already does (the call back to
   * `addOutputDependency` that follows then finds `d` listed and stops).
   * A unit never depends on itself.
   */
  function AddedOutput(us: seq<Unit>, u: nat, d: nat): (r: seq<Unit>)
    requires u < |us| && d < |us|
    ensures |r| == |us|
  {
    if u == d then us
    else us[u := us[u].(outputs := us[u].outputs + [d])][d := us[d].(inputs := AddUnique(us[d].inputs, u))]
  }

  /** `$u->addInputDependency($d)`, the mirror image. */
  function AddedInput(us: seq<Unit>, u: nat, d: nat): (r: seq<Unit>)
    requires u < |us| && d < |us|
    ensures |r| == |us|
  {
    if u == d then us
    else us[u := us[u].(inputs := us[u].inputs + [d])][d := us[d].(outputs := AddUnique(us[d].outputs, u))]
  }

  /** The path a new unit gets: a declared element without a path is looked up by reflection. */
  function NewUnitPath(h: Host, name: string, kind: Type, path: Option<string>): Option<string>
  {
    if (kind.Interface? || kind.Class? || kind.Trait?) && path.None? then DetectPath(h, name) else path
  }

  // -------------------------------------------- what the updates keep

  /** Changing a unit's path or dependency lists, within bounds, keeps the registry consistent. */
  lemma UnitsRelabelled(ids: map<string, nat>, cs: seq<Component>, uids: map<string, nat>, us: seq<Unit>, us2: seq<Unit>)
    requires Consistent(ids, cs, uids, us) && |us2| == |us|
    requires forall u :: 0 <= u < |us| ==> us2[u].name == us[u].name && us2[u].component == us[u].component
    requires forall u :: 0 <= u < |us| ==> Below(us2[u].inputs, |us|) && Below(us2[u].outputs, |us|)
    ensures Consistent(ids, cs, uids, us2)
  {
  }

  /** Changing anything of a component but its name, units and cache keeps the registry consistent. */
  lemma ComponentsRelabelled(ids: map<string, nat>, cs: seq<Component>, uids: map<string, nat>, us: seq<Unit>, cs2: seq<Component>)
    requires Consistent(ids, cs, uids, us) && |cs2| == |cs|
    requires forall c :: 0 <= c < |cs| ==> cs2[c].name == cs[c].name && cs2[c].units == cs[c].units && cs2[c].cache == cs[c].cache
    ensures Consistent(ids, cs2, uids, us)
  {
  }

  lemma AddedOutputConsistent(ids: map<string, nat>, cs: seq<Component>, uids: map<string, nat>, us: seq<Unit>, u: nat, d: nat)
    requires Consistent(ids, cs, uids, us) && u < |us| && d < |us|
    ensures Consistent(ids, cs, uids, AddedOutput(us, u, d))
  {
    var us2 := AddedOutput(us, u, d);
    forall v | 0 <= v < |us|
      ensures us2[v].name == us[v].name && us2[v].component == us[v].component
      ensures Below(us2[v].inputs, |us|) && Below(us2[v].outputs, |us|)
    {
      if u != d && v == d {
        assert us2[v].inputs == AddUnique(us[d].inputs, u);
      } else if u != d && v == u {
        assert us2[v].outputs == us[u].outputs + [d];
      }
    }
    UnitsRelabelled(ids, cs, uids, us, us2);
  }

  lemma AddedInputConsistent(ids: map<string, nat>, cs: seq<Component>, uids: map<string, nat>, us: seq<Unit>, u: nat, d: nat)
    requires Consistent(ids, cs, uids, us) && u < |us| && d < |us|
    ensures Consistent(ids, cs, uids, AddedInput(us, u, d))
  {
    var us2 := AddedInput(us, u, d);
    forall v | 0 <= v < |us|
      ensures us2[v].name == us[v].name && us2[v].component == us[v].component
      ensures Below(us2[v].inputs, |us|) && Below(us2[v].outputs, |us|)
    {
      if u != d && v == d {
        assert us2[v].outputs == AddUnique(us[d].outputs, u);
      } else if u != d && v == u {
        assert us2[v].inputs == us[u].inputs + [d];
      }
    }
    UnitsRelabelled(ids, cs, uids, us, us2);
  }

  /** Filling caches with values a cache may hold keeps the registry consistent. */
  lemma CachesRelabelled(ids: map<string, nat>, cs: seq<Component>, uids: map<string, nat>, us: seq<Unit>, cs2: seq<Component>)
    requires Consistent(ids, cs, uids, us) && |cs2| == |cs|
    requires forall c :: 0 <= c < |cs| ==> Core(cs2[c]) == Core(cs[c])
    requires forall c :: 0 <= c < |cs| ==> CacheBelow(cs2[c].cache, |cs|, |us|)
    requires CachesSound(cs2)
    ensures Consistent(ids, cs2, uids, us)
  {
    forall c | 0 <= c < |cs| ensures cs2[c].name == cs[c].name && cs2[c].units == cs[c].units {
      assert Core(cs2[c]).name == Core(cs[c]).name && Core(cs2[c]).units == Core(cs[c]).units;
    }
  }

  /** Caching a list of other components as `c`'s dependency components keeps the registry consistent. */
  lemma DependencyComponentsCached(ids: map<string, nat>, cs: seq<Component>, uids: map<string, nat>, us: seq<Unit>,
                                   c: nat, v: seq<nat>)
    requires Consistent(ids, cs, uids, us) && c < |cs| && Below(v, |cs|) && c !in v
    ensures Consistent(ids, WithCache(cs, c, cs[c].cache.(dependencyComponents := Some(v))), uids, us)
  {
    var cs2 := WithCache(cs, c, cs[c].cache.(dependencyComponents := Some(v)));
    assert CacheBelow(cs2[c].cache, |cs|, |us|) by {
      assert CacheBelow(cs[c].cache, |cs|, |us|);
    }
    CachesRelabelled(ids, cs, uids, us, cs2);
  }

  /** Caching a rate as `c`'s instability keeps the registry consistent. */
  lemma InstabilityCached(ids: map<string, nat>, cs: seq<Component>, uids: map<string, nat>, us: seq<Unit>,
                          c: nat, v: real)
    requires Consistent(ids, cs, uids, us) && c < |cs| && 0.0 <= v <= 1.0
    ensures Consistent(ids, WithCache(cs, c, cs[c].cache.(instability := Some(v))), uids, us)
  {
    var cs2 := WithCache(cs, c, cs[c].cache.(instability := Some(v)));
    assert CacheBelow(cs2[c].cache, |cs|, |us|) by {
      assert CacheBelow(cs[c].cache, |cs|, |us|);
    }
    CachesRelabelled(ids, cs, uids, us, cs2);
  }

  /** Caching a list of units under any key of `getDependentUnitsOfCode` keeps the registry consistent. */
  lemma DependentUnitsCached(ids: map<string, nat>, cs: seq<Component>, uids: map<string, nat>, us: seq<Unit>,
                             c: nat, key: string, v: seq<nat>)
    requires Consistent(ids, cs, uids, us) && c < |cs| && Below(v, |us|)
    ensures Consistent(ids, WithCache(cs, c, cs[c].cache.(dependentUnits := cs[c].cache.dependentUnits[key := v])), uids, us)
  {
    var cs2 := WithCache(cs, c, cs[c].cache.(dependentUnits := cs[c].cache.dependentUnits[key := v]));
    assert CacheBelow(cs2[c].cache, |cs|, |us|) by {
      assert CacheBelow(cs[c].cache, |cs|, |us|);
    }
    CachesRelabelled(ids, cs, uids, us, cs2);
  }

  /** Caching a list of units under any key of `getDependencyUnitsOfCode` keeps the registry consistent. */
  lemma DependencyUnitsCached(ids: map<string, nat>, cs: seq<Component>, uids: map<string, nat>, us: seq<Unit>,
                              c: nat, key: string, v: seq<nat>)
    requires Consistent(ids, cs, uids, us) && c < |cs| && Below(v, |us|)
    ensures Consistent(ids, WithCache(cs, c, cs[c].cache.(dependencyUnits := cs[c].cache.dependencyUnits[key := v])), uids, us)
  {
    var cs2 := WithCache(cs, c, cs[c].cache.(dependencyUnits := cs[c].cache.dependencyUnits[key := v]));
    assert CacheBelow(cs2[c].cache, |cs|, |us|) by {
      assert CacheBelow(cs[c].cache, |cs|, |us|);
    }
    CachesRelabelled(ids, cs, uids, us, cs2);
  }

  /** The registry's names are distinct. */
  lemma IndexedNamesDistinct(ids: map<string, nat>, cs: seq<Component>)
    requires ComponentIndex(ids, cs)
    ensures DistinctNames(cs)
  {
  }

  // ------------------------------------------------------------ closures

  /** `$isLocatedInOneOfPaths`. */
  method LocatedInOneOf(name: string, path: Option<string>, paths: seq<Path>) returns (b: bool)
    ensures b == LocatedIn(name, path, paths)
  {
    var trimmedName := Trim(name, {'\\'});
    for i := 0 to |paths|
      invariant forall k :: 0 <= k < i ==> !LocatedAt(name, path, paths[k])
    {
      var p := paths[i];
      if !Falsy(p.namespace) {
        var trimmedNamespace := Trim(p.namespace, {'\\'});
        if StartsWithCI(trimmedName, trimmedNamespace) {
          return true;
        }
      }
      if path.Some? && !Falsy(p.path) && StartsWithCI(path.value, p.path) {
        return true;
      }
    }
    return false;
  }

  /** The loop of `createByUnitOfCode` over the registered components, in insertion order. */
  method FindClaiming(cs: seq<Component>, name: string, path: Option<string>) returns (r: Option<nat>)
    ensures r == FirstClaiming(cs, name, path, 0)
  {
    for i := 0 to |cs|
      invariant FirstClaiming(cs, name, path, 0) == FirstClaiming(cs, name, path, i)
    {
      var inRoots := LocatedInOneOf(name, path, cs[i].roots);
      if inRoots {
        var inExcluded := LocatedInOneOf(name, path, cs[i].excluded);
        if !inExcluded {
          return Some(i);
        }
      }
    }
    return None;
  }

  /** The decisions of `createByUnitOfCode`: primitives, then the global namespace, then the first claiming component. */
  method Placing(cs: seq<Component>, name: string, path: Option<string>, kind: Type) returns (r: Placement)
    ensures r == Place(cs, name, path, kind)
  {
    if kind.Primitive? {
      return Reserved(PrimitivesName);
    }
    if InGlobalNamespace(name) {
      return Reserved(GlobalName);
    }
    var claiming := FindClaiming(cs, name, path);
    if claiming.Some? {
      return Existing(claiming.value);
    }
    return Reserved(UndefinedName);
  }

  /** The loop over allowed paths in both `filterByPaths` methods, with a null path under none. */
  method UnderAllowed(allowed: seq<Path>, path: Option<string>) returns (b: bool)
    ensures b == UnderAllowedPath(allowed, path)
  {
    if path.None? {
      return false;
    }
    b := false;
    for i := 0 to |allowed|
      invariant forall k :: 0 <= k < i ==> !allowed[k].IsPartOfPath(path.value)
    {
      if allowed[i].IsPartOfPath(path.value) {
        return true;
      }
    }
  }

  /** The loop of `filterDependenciesByPaths` over the inputs of `u`. */
  method KeepInputs(cs: seq<Component>, us: seq<Unit>, policy: Policy, allowed: seq<Path>, flag: bool, u: nat)
    returns (r: seq<nat>)
    requires WellFormed(cs, us) && u < |us|
    ensures r == Filter(us[u].inputs, KeptInput(cs, us, policy, allowed, flag, u))
  {
    var inputs := us[u].inputs;
    r := [];
    for i := 0 to |inputs|
      invariant r == Filter(inputs[..i], KeptInput(cs, us, policy, allowed, flag, u))
    {
      FilterStep(inputs, KeptInput(cs, us, policy, allowed, flag, u), i);
      var d := inputs[i];
      assert d in inputs;
      if flag && policy.unitDependencyInAllowedState(cs[us[d].component].restrictions, u, d) {
        continue;
      }
      var isAllowed := UnderAllowed(allowed, us[d].path);
      if isAllowed {
        r := r + [d];
      }
    }
    assert inputs[..|inputs|] == inputs;
  }

  /** The loop of `filterDependenciesByPaths` over the outputs of `u`. */
  method KeepOutputs(cs: seq<Component>, us: seq<Unit>, policy: Policy, flag: bool, u: nat) returns (r: seq<nat>)
    requires WellFormed(cs, us) && u < |us|
    ensures r == Filter(us[u].outputs, KeptOutput(cs, us, policy, flag, u))
  {
    var outputs := us[u].outputs;
    r := [];
    for i := 0 to |outputs|
      invariant r == Filter(outputs[..i], KeptOutput(cs, us, policy, flag, u))
    {
      FilterStep(outputs, KeptOutput(cs, us, policy, flag, u), i);
      var x := outputs[i];
      if !(flag && policy.unitDependencyInAllowedState(cs[us[u].component].restrictions, x, u)) {
        r := r + [x];
      }
    }
    assert outputs[..|outputs|] == outputs;
  }

  /** A component that lists fewer of its units, each once, keeps the registry consistent. */
  lemma ComponentUnitsShrunk(ids: map<string, nat>, cs: seq<Component>, uids: map<string, nat>, us: seq<Unit>, c: nat, xs: seq<nat>)
    requires Consistent(ids, cs, uids, us) && c < |cs|
    requires NoDup(xs) && forall x :: x in xs ==> x in cs[c].units
    ensures Consistent(ids, cs[c := cs[c].(units := xs)], uids, us)
  {
  }

  lemma AbstractCountStep(us: seq<Unit>, xs: seq<nat>, i: nat, flag: bool)
    requires i < |xs| && xs[i] < |us|
    ensures |Filter(xs[..i + 1], AbstractUnit(us, flag))|
      == |Filter(xs[..i], AbstractUnit(us, flag))| + (if IsAbstract(us[xs[i]].kind) == Some(flag) then 1 else 0)
  {
    FilterStep(xs, AbstractUnit(us, flag), i);
  }

  /** The loop of `calculateAbstractnessRate`: how many of the units `xs` are abstract, and how many concrete. */
  method CountAbstractness(us: seq<Unit>, xs: seq<nat>) returns (numOfAbstract: nat, numOfConcrete: nat)
    requires Below(xs, |us|)
    ensures numOfAbstract == |Filter(xs, AbstractUnit(us, true))|
    ensures numOfConcrete == |Filter(xs, AbstractUnit(us, false))|
  {
    numOfAbstract, numOfConcrete := 0, 0;
    for i := 0 to |xs|
      invariant numOfAbstract == |Filter(xs[..i], AbstractUnit(us, true))|
      invariant numOfConcrete == |Filter(xs[..i], AbstractUnit(us, false))|
    {
      assert xs[i] in xs;
      AbstractCountStep(us, xs, i, true);
      AbstractCountStep(us, xs, i, false);
      var isAbstract := IsAbstract(us[xs[i]].kind);
      if isAbstract == Some(true) {
        numOfAbstract := numOfAbstract + 1;
      } else if isAbstract == Some(false) {
        numOfConcrete := numOfConcrete + 1;
      }
    }
    assert xs[..|xs|] == xs;
  }

  /** The loop of `calculateInstabilityRate`: the distinct names of the external inputs and outputs of the units `xs`. */
  method CollectExternalNames(us: seq<Unit>, c: nat, xs: seq<nat>) returns (ins: seq<string>, outs: seq<string>)
    requires Below(xs, |us|)
    ensures ins == Dedupe(ConcatMap(xs, UnitExternalInputNames(us, c)))
    ensures outs == Dedupe(ConcatMap(xs, UnitExternalOutputNames(us, c)))
  {
    var fin := UnitExternalInputNames(us, c);
    var fout := UnitExternalOutputNames(us, c);
    ins, outs := [], [];
    for i := 0 to |xs|
      invariant ins == AddAll([], ConcatMap(xs[..i], fin))
      invariant outs == AddAll([], ConcatMap(xs[..i], fout))
    {
      var u := xs[i];
      assert u in xs;
      ConcatMapStep(xs, fin, i);
      ConcatMapStep(xs, fout, i);
      AddAllAppend([], ConcatMap(xs[..i], fin), fin(u));
      AddAllAppend([], ConcatMap(xs[..i], fout), fout(u));
      ins := CollectInto(ins, us[u].inputs, ExternalInputName(us, c));
      outs := CollectInto(outs, us[u].outputs, ExternalOutputName(us, c));
    }
    assert xs[..|xs|] == xs;
  }

  /** `UnitOfCode::calculatePrimitivenessRate`. */
  method UnitPrimitivenessRate(us: seq<Unit>, u: nat) returns (r: real)
    requires u < |us|
    ensures r == UnitPrimitiveness(us, u)
  {
    if us[u].kind.Primitive? {
      return 1.0;
    }
    var outputs := us[u].outputs;
    var numOfPrimitive := 0;
    for i := 0 to |outputs|
      invariant numOfPrimitive == |Filter(outputs[..i], PrimitiveUnit(us))|
    {
      FilterStep(outputs, PrimitiveUnit(us), i);
      var d := outputs[i];
      if d < |us| && us[d].kind.Primitive? {
        numOfPrimitive := numOfPrimitive + 1;
      }
    }
    assert outputs[..|outputs|] == outputs;
    r := if |outputs| == 0 then 0.0 else numOfPrimitive as real / |outputs| as real;
  }

  /** The loop of `Component::calculatePrimitivenessRate`: the rates of the units `xs`, added up. */
  method SumPrimitiveness(us: seq<Unit>, xs: seq<nat>) returns (sum: real)
    requires Below(xs, |us|)
    ensures sum == PrimitivenessSum(us, xs)
  {
    sum := 0.0;
    for i := 0 to |xs|
      invariant sum == PrimitivenessSum(us, xs[..i])
    {
      assert xs[..i + 1][..i] == xs[..i];
      assert xs[i] in xs;
      var p := UnitPrimitivenessRate(us, xs[i]);
      sum := sum + p;
    }
    assert xs[..|xs|] == xs;
  }

  // ------------------------------------------------------------ registry

  /** One step of the loop of `Component::filterByPaths`: the next listed unit filtered, and kept or not. */
  lemma ListedStep(cs: seq<Component>, us0: seq<Unit>, us1: seq<Unit>, us2: seq<Unit>, policy: Policy,
                   allowed: seq<Path>, flag: bool, owned: seq<nat>, i: nat, kept: seq<nat>, keep: bool)
    requires i < |owned| && NoDup(owned) && owned[i] < |us0|
    requires us1 == FilteredUnits(cs, us0, policy, allowed, flag, owned[..i])
    requires kept == Filter(owned[..i], KeptUnit(cs, us0, policy, allowed, flag))
    requires var u := owned[i];
      var f := FilteredUnit(cs, us1, policy, allowed, flag, u);
      var under := UnderAllowedPath(allowed, us1[u].path);
      keep == (under && (f.inputs != [] || f.outputs != [])) && us2 == if under then us1[u := f] else us1
    ensures us2 == FilteredUnits(cs, us0, policy, allowed, flag, owned[..i + 1])
    ensures kept + (if keep then [owned[i]] else []) == Filter(owned[..i + 1], KeptUnit(cs, us0, policy, allowed, flag))
  {
    var u := owned[i];
    NotInPrefix(owned, i, i);
    FilteredUnitsStep(cs, us0, policy, allowed, flag, owned, i);
    FilterStep(owned, KeptUnit(cs, us0, policy, allowed, flag), i);
    assert SameShape(us1, us0);
    assert us1[u] == us0[u];
    FilteredUnitCongruent(cs, us1, us0, policy, allowed, flag, u);
  }

  class Registry {
    /** `Component::$instances`: name to position in `components`. */
    var componentIds: map<string, nat>
    var components: seq<Component>
    /** `UnitOfCode::$instances`: name to position in `units`. */
    var unitIds: map<string, nat>
    var units: seq<Unit>

    ghost predicate Valid()
      reads this
    {
      Consistent(componentIds, components, unitIds, units)
    }

    /** Both registries empty. */
    constructor()
      ensures Valid()
      ensures componentIds == map[] && components == [] && unitIds == map[] && units == []
    {
      componentIds := map[];
      components := [];
      unitIds := map[];
      units := [];
    }

    /** `addRootPath`: the path is added once, by identity. */
    method AddRootPath(c: nat, p: Path)
      requires Valid() && c < |components|
      modifies this
      ensures Valid()
      ensures components == old(components)[c := old(components)[c].(roots := AddUnique(old(components)[c].roots, p))]
      ensures componentIds == old(componentIds) && unitIds == old(unitIds) && units == old(units)
    {
      if p !in components[c].roots {
        var next := components[c := components[c].(roots := components[c].roots + [p])];
        ComponentsRelabelled(componentIds, components, unitIds, units, next);
        components := next;
      }
    }

    /** `addExcludedPath`. */
    method AddExcludedPath(c: nat, p: Path)
      requires Valid() && c < |components|
      modifies this
      ensures Valid()
      ensures components == old(components)[c := old(components)[c].(excluded := AddUnique(old(components)[c].excluded, p))]
      ensures componentIds == old(componentIds) && unitIds == old(unitIds) && units == old(units)
    {
      if p !in components[c].excluded {
        var next := components[c := components[c].(excluded := components[c].excluded + [p])];
        ComponentsRelabelled(componentIds, components, unitIds, units, next);
        components := next;
      }
    }

    /** `excludeFromAnalyze`. */
    method ExcludeFromAnalyze(c: nat)
      requires Valid() && c < |components|
      modifies this
      ensures Valid()
      ensures components == old(components)[c := old(components)[c].(enabled := false)]
      ensures componentIds == old(componentIds) && unitIds == old(unitIds) && units == old(units)
    {
      var next := components[c := components[c].(enabled := false)];
      ComponentsRelabelled(componentIds, components, unitIds, units, next);
      components := next;
    }

    /** `isExcluded`: some excluded path of `c` is part of `path`. */
    method IsExcluded(c: nat, path: string) returns (b: bool)
      requires Valid() && c < |components|
      ensures b <==> exists k :: 0 <= k < |components[c].excluded| && components[c].excluded[k].IsPartOfPath(path)
    {
      var excluded := components[c].excluded;
      for i := 0 to |excluded|
        invariant forall k :: 0 <= k < i ==> !excluded[k].IsPartOfPath(path)
      {
        if excluded[i].IsPartOfPath(path) {
          return true;
        }
      }
      return false;
    }

    /** The loop of `Component::create` over the root paths. */
    method AddRootPaths(c: nat, roots: seq<Path>)
      requires Valid() && c < |components|
      modifies this
      ensures Valid()
      ensures components == old(components)[c := old(components)[c].(roots := AddAll(old(components)[c].roots, roots))]
      ensures componentIds == old(componentIds) && unitIds == old(unitIds) && units == old(units)
    {
      for i := 0 to |roots|
        invariant Valid() && c < |components|
        invariant components == old(components)[c := old(components)[c].(roots := AddAll(old(components)[c].roots, roots[..i]))]
        invariant componentIds == old(componentIds) && unitIds == old(unitIds) && units == old(units)
      {
        AddAllSnoc(old(components)[c].roots, roots, i);
        ghost var before := components[c];
        AddRootPath(c, roots[i]);
        UpdateTwice(old(components), c, before, components[c]);
      }
      assert roots[..|roots|] == roots;
    }

    /** The loop of `Component::create` over the excluded paths. */
    method AddExcludedPaths(c: nat, excluded: seq<Path>)
      requires Valid() && c < |components|
      modifies this
      ensures Valid()
      ensures components == old(components)[c := old(components)[c].(excluded := AddAll(old(components)[c].excluded, excluded))]
      ensures componentIds == old(componentIds) && unitIds == old(unitIds) && units == old(units)
    {
      for i := 0 to |excluded|
        invariant Valid() && c < |components|
        invariant components == old(components)[c := old(components)[c].(excluded := AddAll(old(components)[c].excluded, excluded[..i]))]
        invariant componentIds == old(componentIds) && unitIds == old(unitIds) && units == old(units)
      {
        AddAllSnoc(old(components)[c].excluded, excluded, i);
        ghost var before := components[c];
        AddExcludedPath(c, excluded[i]);
        UpdateTwice(old(components), c, before, components[c]);
      }
      assert excluded[..|excluded|] == excluded;
    }

    /** `$component->restrictions = $restrictions`. */
    method SetRestrictions(c: nat, restrictions: Restrictions)
      requires Valid() && c < |components|
      modifies this
      ensures Valid()
      ensures components == old(components)[c := old(components)[c].(restrictions := restrictions)]
      ensures componentIds == old(componentIds) && unitIds == old(unitIds) && units == old(units)
    {
      var next := components[c := components[c].(restrictions := restrictions)];
      ComponentsRelabelled(componentIds, components, unitIds, units, next);
      components := next;
    }

    /** The private constructor, registered under its name. */
    method AppendComponent(name: string, roots: seq<Path>, excluded: seq<Path>, restrictions: Option<Restrictions>)
      returns (c: nat)
      requires Valid() && name !in componentIds
      modifies this
      ensures Valid()
      ensures c == |old(components)| && components == old(components) + [NewComponent(name, roots, excluded, restrictions)]
      ensures componentIds == old(componentIds)[name := c] && unitIds == old(unitIds) && units == old(units)
    {
      c := |components|;
      components := components + [NewComponent(name, roots, excluded, restrictions)];
      componentIds := componentIds[name := c];
    }

    /** `Component::create($name, $roots, $excluded, $restrictions)`. */
    method CreateComponent(name: string, roots: seq<Path>, excluded: seq<Path>, restrictions: Option<Restrictions>)
      returns (c: nat)
      requires Valid()
      modifies this
      ensures Valid()
      ensures var r := Created(old(componentIds), old(components), name, roots, excluded, restrictions);
        componentIds == r.ids && components == r.cs && c == r.id
      ensures unitIds == old(unitIds) && units == old(units)
    {
      if name !in componentIds {
        c := AppendComponent(name, roots, excluded, restrictions);
        AddAllPresent(roots, roots);
        AddAllPresent(excluded, excluded);
      } else {
        c := componentIds[name];
      }
      ghost var s0 := components;
      AddRootPaths(c, roots);
      ghost var s1 := components;
      AddExcludedPaths(c, excluded);
      UpdateTwice(s0, c, s1[c], components[c]);
      if restrictions.Some? {
        ghost var s2 := components;
        SetRestrictions(c, restrictions.value);
        UpdateTwice(s0, c, s2[c], components[c]);
      }
    }

    /** `addUnitOfCode`: the owner lists the unit, once (the source keys its list by object identity). */
    method AddUnitOfCode(c: nat, u: nat)
      requires Valid() && c < |components| && u < |units| && units[u].component == c
      modifies this
      ensures Valid()
      ensures components == WithUnit(old(components), c, u)
      ensures componentIds == old(componentIds) && unitIds == old(unitIds) && units == old(units)
    {
      if u !in components[c].units {
        components := components[c := components[c].(units := components[c].units + [u])];
      }
    }

    /** `removeUnitOfCode`. */
    method RemoveUnitOfCode(c: nat, u: nat)
      requires Valid() && c < |components|
      modifies this
      ensures Valid()
      ensures components == WithoutUnit(old(components), c, u)
      ensures componentIds == old(componentIds) && unitIds == old(unitIds) && units == old(units)
    {
      FilterNoDup(components[c].units, Other(u));
      components := components[c := components[c].(units := Filter(components[c].units, Other(u)))];
    }

    /** `setComponent`: a unit changing owner leaves its old owner's list and joins the new one's. */
    method SetComponent(u: nat, c: nat)
      requires Valid() && u < |units| && c < |components|
      modifies this
      ensures Valid()
      ensures components == Moved(old(components), old(units)[u].component, c, u)
      ensures units == old(units)[u := old(units)[u].(component := c)]
      ensures componentIds == old(componentIds) && unitIds == old(unitIds)
    {
      var from := units[u].component;
      if from != c {
        RemoveUnitOfCode(from, u);
        Reassign(u, c);
        AddUnitOfCode(c, u);
      }
    }

    /** `$this->component = ...` for a unit no component lists. */
    method Reassign(u: nat, c: nat)
      requires Valid() && u < |units| && c < |components|
      requires u !in components[units[u].component].units
      modifies this
      ensures Valid()
      ensures units == old(units)[u := old(units)[u].(component := c)]
      ensures componentIds == old(componentIds) && components == old(components) && unitIds == old(unitIds)
    {
      units := units[u := units[u].(component := c)];
    }

    /** `createByUnitOfCode` for a unit of that name, path and kind. */
    method ResolveComponent(name: string, path: Option<string>, kind: Type) returns (c: nat)
      requires Valid()
      modifies this
      ensures Valid()
      ensures var r := Resolved(old(componentIds), old(components), name, path, kind);
        componentIds == r.ids && components == r.cs && c == r.id
      ensures unitIds == old(unitIds) && units == old(units)
    {
      var placement := Placing(components, name, path, kind);
      match placement
      case Existing(id) =>
        c := id;
      case Reserved(reserved) =>
        c := CreateComponent(reserved, [], [], None);
    }

    /** `new UnitOfCode(...)` registered under its name, before its owner lists it. */
    method AppendUnit(x: Unit) returns (u: nat)
      requires Valid() && x.name !in unitIds && x.component < |components| && x.inputs == [] && x.outputs == []
      modifies this
      ensures Valid()
      ensures u == |old(units)| && units == old(units) + [x] && unitIds == old(unitIds)[x.name := u]
      ensures componentIds == old(componentIds) && components == old(components)
    {
      u := |units|;
      units := units + [x];
      unitIds := unitIds[x.name := u];
    }

    /** `$unitOfCode->path = $path`. */
    method SetPath(u: nat, path: Option<string>)
      requires Valid() && u < |units|
      modifies this
      ensures Valid()
      ensures units == old(units)[u := old(units)[u].(path := path)]
      ensures componentIds == old(componentIds) && components == old(components) && unitIds == old(unitIds)
    {
      var next := units[u := units[u].(path := path)];
      UnitsRelabelled(componentIds, components, unitIds, units, next);
      units := next;
    }

    /** The steps of `UnitOfCode::create` that follow the lookup: `setComponent` if a component is given, then a non-falsy path. */
    method Rehome(u: nat, component: Option<nat>, path: Option<string>)
      requires Valid() && u < |units| && (component.Some? ==> component.value < |components|)
      modifies this
      ensures Valid()
      ensures components == (if component.Some? then Moved(old(components), old(units)[u].component, component.value, u)
                             else old(components))
      ensures units == old(units)[u := old(units)[u].(
                component := if component.Some? then component.value else old(units)[u].component,
                path := if path.Some? && !Falsy(path.value) then path else old(units)[u].path)]
      ensures componentIds == old(componentIds) && unitIds == old(unitIds)
    {
      if component.Some? {
        SetComponent(u, component.value);
      }
      if path.Some? && !Falsy(path.value) {
        ghost var s1 := units;
        SetPath(u, path);
        UpdateTwice(old(units), u, s1[u], units[u]);
      }
    }

    /** The constructor of `UnitOfCode` on a new name: its owner is `component`, or where `createByUnitOfCode` places it. */
    method Construct(name: string, component: Option<nat>, path: Option<string>, h: Host) returns (u: nat)
      requires Valid() && name !in unitIds && (component.Some? ==> component.value < |components|)
      modifies this
      ensures Valid()
      ensures var kind := Classify(h, name);
        var p := NewUnitPath(h, name, kind, path);
        var r := if component.Some? then Registered(old(componentIds), old(components), component.value)
                 else Resolved(old(componentIds), old(components), name, p, kind);
        u == |old(units)| && units == old(units) + [Unit(name, p, kind, [], [], r.id)]
        && componentIds == r.ids && r.id < |r.cs| && components == WithUnit(r.cs, r.id, u)
      ensures unitIds == old(unitIds)[name := u]
    {
      var kind := Classify(h, name);
      var p := NewUnitPath(h, name, kind, path);
      var owner: nat;
      if component.Some? {
        owner := component.value;
      } else {
        owner := ResolveComponent(name, p, kind);
      }
      u := AppendUnit(Unit(name, p, kind, [], [], owner));
      AddUnitOfCode(owner, u);
    }

    /** On a unit just constructed, the steps after the lookup change nothing. */
    method RehomeNew(u: nat, component: Option<nat>, path: Option<string>)
      requires Valid() && u < |units| && (component.Some? ==> component.value < |components|)
      requires component.Some? ==> units[u].component == component.value
      requires path.Some? ==> units[u].path == path
      modifies this
      ensures Valid()
      ensures components == old(components) && units == old(units)
      ensures componentIds == old(componentIds) && unitIds == old(unitIds)
    {
      Rehome(u, component, path);
      assert units[u] == old(units)[u];
    }

    /**
     * `UnitOfCode::create($fullName, $component, $path)`: the name loses its
     * surrounding backslashes; a new name becomes a unit of the kind the
     * host declares, owned by `component` or by the component it is placed
     * in; an existing unit moves to `component` when one is given and takes
     * a non-falsy `path`.
     */
    method CreateUnit(fullName: string, component: Option<nat>, path: Option<string>, h: Host) returns (u: nat)
      requires Valid() && (component.Some? ==> component.value < |components|)
      modifies this
      ensures Valid()
      ensures var name := Trim(fullName, {'\\'});
        u < |units| && units[u].name == name && unitIds == old(unitIds)[name := u]
      ensures var name := Trim(fullName, {'\\'});
        var kind := Classify(h, name);
        var p := NewUnitPath(h, name, kind, path);
        var r := if component.Some? then Registered(old(componentIds), old(components), component.value)
                 else Resolved(old(componentIds), old(components), name, p, kind);
        name !in old(unitIds) ==>
          u == |old(units)| && units == old(units) + [Unit(name, p, kind, [], [], r.id)]
          && componentIds == r.ids && r.id < |r.cs| && components == WithUnit(r.cs, r.id, u)
      ensures var name := Trim(fullName, {'\\'});
        name in old(unitIds) ==>
          u == old(unitIds)[name] && u < |old(units)| && componentIds == old(componentIds)
          && components == (if component.Some? then Moved(old(components), old(units)[u].component, component.value, u)
                            else old(components))
          && units == old(units)[u := old(units)[u].(
               component := if component.Some? then component.value else old(units)[u].component,
               path := if path.Some? && !Falsy(path.value) then path else old(units)[u].path)]
    {
      var name := Trim(fullName, {'\\'});
      if name !in unitIds {
        u := Construct(name, component, path, h);
        RehomeNew(u, component, path);
      } else {
        u := unitIds[name];
        Rehome(u, component, path);
      }
    }

    /** `addOutputDependency`. */
    method AddOutputDependency(u: nat, d: nat)
      requires Valid() && u < |units| && d < |units|
      modifies this
      ensures Valid()
      ensures units == AddedOutput(old(units), u, d)
      ensures componentIds == old(componentIds) && components == old(components) && unitIds == old(unitIds)
    {
      if u == d {
        return;
      }
      AddedOutputConsistent(componentIds, components, unitIds, units, u, d);
      var us := units;
      us := us[u := us[u].(outputs := us[u].outputs + [d])];
      if u !in us[d].inputs {
        us := us[d := us[d].(inputs := us[d].inputs + [u])];
      }
      assert us == AddedOutput(units, u, d);
      units := us;
    }

    /** `addInputDependency`. */
    method AddInputDependency(u: nat, d: nat)
      requires Valid() && u < |units| && d < |units|
      modifies this
      ensures Valid()
      ensures units == AddedInput(old(units), u, d)
      ensures componentIds == old(componentIds) && components == old(components) && unitIds == old(unitIds)
    {
      if u == d {
        return;
      }
      AddedInputConsistent(componentIds, components, unitIds, units, u, d);
      var us := units;
      us := us[u := us[u].(inputs := us[u].inputs + [d])];
      if u !in us[d].outputs {
        us := us[d := us[d].(outputs := us[d].outputs + [u])];
      }
      assert us == AddedInput(units, u, d);
      units := us;
    }

    // ------------------------------------------------------------ queries

    /** `inputDependencies($component)`. */
    method InputDependencies(u: nat, component: Option<nat>) returns (r: seq<nat>)
      requires WellFormed(components, units) && u < |units|
      ensures r == Graph.InputDependencies(units, u, component)
    {
      if component.None? {
        return units[u].inputs;
      }
      var inputs := units[u].inputs;
      r := [];
      for i := 0 to |inputs|
        invariant r == Filter(inputs[..i], OwnedBy(units, component.value))
      {
        FilterStep(inputs, OwnedBy(units, component.value), i);
        var d := inputs[i];
        if d < |units| && units[d].component == component.value {
          r := r + [d];
        }
      }
      assert inputs[..|inputs|] == inputs;
    }

    /** `outputDependencies($component)`. */
    method OutputDependencies(u: nat, component: Option<nat>) returns (r: seq<nat>)
      requires WellFormed(components, units) && u < |units|
      ensures r == Graph.OutputDependencies(units, u, component)
    {
      if component.None? {
        return units[u].outputs;
      }
      var outputs := units[u].outputs;
      r := [];
      for i := 0 to |outputs|
        invariant r == Filter(outputs[..i], OwnedBy(units, component.value))
      {
        FilterStep(outputs, OwnedBy(units, component.value), i);
        var d := outputs[i];
        if d < |units| && units[d].component == component.value {
          r := r + [d];
        }
      }
      assert outputs[..|outputs|] == outputs;
    }

    /** `getDependentComponents`, which the source does not cache. */
    method GetDependentComponents(c: nat) returns (r: seq<nat>)
      requires WellFormed(components, units) && c < |components|
      ensures r == DependentComponents(components, units, c)
    {
      var owned := components[c].units;
      var f := UnitDependentOwners(units, c);
      r := [];
      for i := 0 to |owned|
        invariant r == AddAll([], ConcatMap(owned[..i], f))
      {
        var u := owned[i];
        assert u in owned;
        ConcatMapStep(owned, f, i);
        AddAllAppend([], ConcatMap(owned[..i], f), f(u));
        r := CollectInto(r, units[u].inputs, DependentOwner(units, c));
      }
      assert owned[..|owned|] == owned;
    }

    /** The callable `getDependencyComponents` hands to the cache. */
    method CollectDependencyComponents(c: nat) returns (r: seq<nat>)
      requires WellFormed(components, units) && c < |components|
      ensures r == DependencyComponents(components, units, c)
    {
      var owned := components[c].units;
      var f := UnitDependencyOwners(units, c);
      r := [];
      for i := 0 to |owned|
        invariant r == AddAll([], ConcatMap(owned[..i], f))
      {
        var u := owned[i];
        assert u in owned;
        ConcatMapStep(owned, f, i);
        AddAllAppend([], ConcatMap(owned[..i], f), f(u));
        r := CollectInto(r, units[u].outputs, DependencyOwner(units, c));
      }
      assert owned[..|owned|] == owned;
    }

    /** The callable of `getDependentUnitsOfCode($dc)`. */
    method CollectDependentUnits(c: nat, dc: nat) returns (r: seq<nat>)
      requires WellFormed(components, units) && c < |components|
      ensures r == DependentUnits(components, units, c, dc)
    {
      var owned := components[c].units;
      var f := UnitsDependingOn(units, dc);
      r := [];
      for i := 0 to |owned|
        invariant r == AddAll([], ConcatMap(owned[..i], f))
      {
        var u := owned[i];
        assert u in owned;
        ConcatMapStep(owned, f, i);
        AddAllAppend([], ConcatMap(owned[..i], f), f(u));
        r := CollectInto(r, units[u].outputs, DependingUnit(units, dc, u));
      }
      assert owned[..|owned|] == owned;
    }

    /** The callable of `getDependencyUnitsOfCode($dc)`. */
    method CollectDependencyUnits(c: nat, dc: nat) returns (r: seq<nat>)
      requires WellFormed(components, units) && c < |components|
      ensures r == DependencyUnits(components, units, c, dc)
    {
      var owned := components[c].units;
      var f := OutputsOwnedBy(units, dc);
      r := [];
      for i := 0 to |owned|
        invariant r == AddAll([], ConcatMap(owned[..i], f))
      {
        var u := owned[i];
        assert u in owned;
        ConcatMapStep(owned, f, i);
        AddAllAppend([], ConcatMap(owned[..i], f), f(u));
        r := CollectInto(r, units[u].outputs, OwnedOutput(units, dc));
      }
      assert owned[..|owned|] == owned;
    }

    /** The callable of `calculateInstabilityRate`. */
    method ComputeInstability(c: nat) returns (r: real)
      requires WellFormed(components, units) && c < |components|
      ensures r == Instability(components, units, c)
    {
      var ins, outs := CollectExternalNames(units, c, components[c].units);
      var total := |ins| + |outs|;
      r := if total == 0 then 0.0 else |outs| as real / total as real;
    }

    /** `getDependencyComponents` through the cache. */
    method GetDependencyComponents(c: nat) returns (r: seq<nat>)
      requires Valid() && c < |components|
      modifies this
      ensures Valid()
      ensures r == EffDependencyComponents(old(components), units, c)
      ensures components == WithCache(old(components), c, old(components)[c].cache.(dependencyComponents := Some(r)))
      ensures SameAnswers(old(components), components, units)
      ensures componentIds == old(componentIds) && unitIds == old(unitIds) && units == old(units)
    {
      var k := components[c].cache;
      if k.dependencyComponents.Some? {
        r := k.dependencyComponents.value;
        assert components == WithCache(components, c, k.(dependencyComponents := Some(r)));
        return;
      }
      r := CollectDependencyComponents(c);
      DependencyComponentsBounds(components, units, c);
      CacheDependencyComponents(components, units, c);
      DependencyComponentsCached(componentIds, components, unitIds, units, c, r);
      var next := WithCache(components, c, k.(dependencyComponents := Some(r)));
      components := next;
    }

    /** `getDependentUnitsOfCode($dc)` through the cache, under a key ending in `dc`'s name. */
    method GetDependentUnitsOfCode(c: nat, dc: nat) returns (r: seq<nat>)
      requires Valid() && c < |components| && dc < |components|
      modifies this
      ensures Valid()
      ensures r == EffDependentUnits(old(components), units, c, dc)
      ensures var k := old(components)[c].cache;
        components == WithCache(old(components), c, k.(dependentUnits := k.dependentUnits[old(components)[dc].name := r]))
      ensures SameAnswers(old(components), components, units)
      ensures componentIds == old(componentIds) && unitIds == old(unitIds) && units == old(units)
    {
      var k := components[c].cache;
      var key := components[dc].name;
      if key in k.dependentUnits {
        r := k.dependentUnits[key];
        assert k.dependentUnits[key := r] == k.dependentUnits;
        assert components == WithCache(components, c, k.(dependentUnits := k.dependentUnits[key := r]));
        return;
      }
      r := CollectDependentUnits(c, dc);
      DependentUnitsBounds(components, units, c, dc);
      IndexedNamesDistinct(componentIds, components);
      CacheDependentUnits(components, units, c, dc);
      DependentUnitsCached(componentIds, components, unitIds, units, c, key, r);
      var next := WithCache(components, c, k.(dependentUnits := k.dependentUnits[key := r]));
      components := next;
    }

    /** `getDependencyUnitsOfCode($dc)` through the cache. */
    method GetDependencyUnitsOfCode(c: nat, dc: nat) returns (r: seq<nat>)
      requires Valid() && c < |components| && dc < |components|
      modifies this
      ensures Valid()
      ensures r == EffDependencyUnits(old(components), units, c, dc)
      ensures var k := old(components)[c].cache;
        components == WithCache(old(components), c, k.(dependencyUnits := k.dependencyUnits[old(components)[dc].name := r]))
      ensures SameAnswers(old(components), components, units)
      ensures componentIds == old(componentIds) && unitIds == old(unitIds) && units == old(units)
    {
      var k := components[c].cache;
      var key := components[dc].name;
      if key in k.dependencyUnits {
        r := k.dependencyUnits[key];
        assert k.dependencyUnits[key := r] == k.dependencyUnits;
        assert components == WithCache(components, c, k.(dependencyUnits := k.dependencyUnits[key := r]));
        return;
      }
      r := CollectDependencyUnits(c, dc);
      DependencyUnitsBounds(components, units, c, dc);
      IndexedNamesDistinct(componentIds, components);
      CacheDependencyUnits(components, units, c, dc);
      DependencyUnitsCached(componentIds, components, unitIds, units, c, key, r);
      var next := WithCache(components, c, k.(dependencyUnits := k.dependencyUnits[key := r]));
      components := next;
    }

    /** `calculateInstabilityRate` through the cache. */
    method CalculateInstabilityRate(c: nat) returns (r: real)
      requires Valid() && c < |components|
      modifies this
      ensures Valid()
      ensures r == EffInstability(old(components), units, c) && 0.0 <= r <= 1.0
      ensures components == WithCache(old(components), c, old(components)[c].cache.(instability := Some(r)))
      ensures SameAnswers(old(components), components, units)
      ensures componentIds == old(componentIds) && unitIds == old(unitIds) && units == old(units)
    {
      var k := components[c].cache;
      if k.instability.Some? {
        r := k.instability.value;
        assert components == WithCache(components, c, k.(instability := Some(r)));
        return;
      }
      r := ComputeInstability(c);
      CacheInstability(components, units, c);
      InstabilityCached(componentIds, components, unitIds, units, c, r);
      var next := WithCache(components, c, k.(instability := Some(r)));
      components := next;
    }

    /**
     * `getCyclicDependencies($path, $result)` on component `node`: the
     * dependency components come through the cache, and the search follows
     * every one not yet on the path.
     */
    method CyclicDependencies(node: nat, path: seq<nat>, result: seq<seq<nat>>) returns (r: seq<seq<nat>>)
      requires Valid() && node < |components| && node !in path
      modifies this
      ensures Valid()
      ensures AdjacencyOk(Adjacency(old(components), units))
      ensures r == Cycles(Adjacency(old(components), units), node, path, result)
      ensures SameAnswers(old(components), components, units)
      ensures componentIds == old(componentIds) && unitIds == old(unitIds) && units == old(units)
      decreases Unvisited(|components|, path), 1
    {
      ghost var adj := Adjacency(components, units);
      AdjacencySound(components, units);
      SameAnswersReflexive(components, units);
      var p := path + [node];
      var deps := GetDependencyComponents(node);
      SameAnswersAdjacency(old(components), components, units);
      assert deps == adj[node];
      r := result;
      var i := 0;
      while i < |deps|
        invariant Valid() && i <= |deps|
        invariant SameAnswers(old(components), components, units)
        invariant componentIds == old(componentIds) && unitIds == old(unitIds) && units == old(units)
        invariant CyclesScan(adj, node, path, 0, result) == CyclesScan(adj, node, path, i, r)
        decreases |deps| - i
      {
        ScanStep(adj, node, path, i, r);
        ghost var next := ScanNext(adj, node, path, i, r);
        var d := deps[i];
        assert d in adj[node];
        if d in p {
          if p[0] == d {
            r := r + [p + [d]];
          }
        } else {
          assert node in Unvisited(|components|, path) && node !in Unvisited(|components|, p);
          ghost var before := components;
          SameAnswersAdjacency(old(components), before, units);
          r := CyclicDependencies(d, p, r);
          SameAnswersTransitive(old(components), before, components, units);
        }
        assert r == next;
        i := i + 1;
      }
    }

    /**
     * `getCyclicDependencies()` with an empty path: exactly the simple cycles
     * that start and end at component `c`, by the dependency components each
     * component answers.
     */
    method GetCyclicDependencies(c: nat) returns (r: seq<seq<nat>>)
      requires Valid() && c < |components|
      modifies this
      ensures Valid()
      ensures AdjacencyOk(Adjacency(old(components), units))
      ensures r == Cycles(Adjacency(old(components), units), c, [], [])
      ensures forall w :: w in r <==> CycleThrough(Adjacency(old(components), units), c, w)
      ensures SameAnswers(old(components), components, units)
      ensures componentIds == old(componentIds) && unitIds == old(unitIds) && units == old(units)
    {
      r := CyclicDependencies(c, [], []);
      CyclicDependenciesExact(Adjacency(old(components), units), c);
    }

    /** `UnitOfCode::filterDependenciesByPaths($allowed, $flag)` on unit `u`; nothing when no path is allowed. */
    method FilterDependenciesByPaths(u: nat, allowed: seq<Path>, flag: bool, policy: Policy)
      requires Valid() && u < |units|
      modifies this
      ensures Valid()
      ensures units == old(units)[u := FilteredUnit(old(components), old(units), policy, allowed, flag, u)]
      ensures componentIds == old(componentIds) && components == old(components) && unitIds == old(unitIds)
    {
      if allowed == [] {
        assert units == units[u := units[u]];
        return;
      }
      var ins := KeepInputs(components, units, policy, allowed, flag, u);
      var outs := KeepOutputs(components, units, policy, flag, u);
      var next := units[u := units[u].(inputs := ins, outputs := outs)];
      UnitsRelabelled(componentIds, components, unitIds, units, next);
      units := next;
    }

    /**
     * One turn of the loop of `Component::filterByPaths`: a unit under an
     * allowed path has its dependencies filtered and is kept if one is left.
     */
    method FilterListedUnit(u: nat, allowed: seq<Path>, flag: bool, policy: Policy) returns (keep: bool)
      requires Valid() && u < |units| && allowed != []
      modifies this
      ensures Valid()
      ensures var f := FilteredUnit(old(components), old(units), policy, allowed, flag, u);
        var under := UnderAllowedPath(allowed, old(units)[u].path);
        keep == (under && (f.inputs != [] || f.outputs != []))
        && units == if under then old(units)[u := f] else old(units)
      ensures componentIds == old(componentIds) && components == old(components) && unitIds == old(unitIds)
    {
      var isAllowed := UnderAllowed(allowed, units[u].path);
      if !isAllowed {
        return false;
      }
      FilterDependenciesByPaths(u, allowed, flag, policy);
      keep := units[u].inputs != [] || units[u].outputs != [];
    }

    /**
     * `Component::filterByPaths($allowed)` on component `c`: each listed unit
     * under an allowed path has its dependencies filtered, with allowed state
     * taken into account when `c`'s restrictions enable it, and stays listed
     * only if a dependency is left; a unit under no allowed path is no longer
     * listed.
     */
    method FilterByPaths(c: nat, allowed: seq<Path>, policy: Policy)
      requires Valid() && c < |components|
      modifies this
      ensures Valid()
      ensures var flag := policy.allowedStateEnabled(old(components)[c].restrictions);
        units == FilteredUnits(old(components), old(units), policy, allowed, flag, old(components)[c].units)
        && components == old(components)[c := old(components)[c].(units :=
             KeptUnits(old(components), old(units), policy, allowed, flag, old(components)[c].units))]
      ensures componentIds == old(componentIds) && unitIds == old(unitIds)
    {
      var flag := policy.allowedStateEnabled(components[c].restrictions);
      var owned := components[c].units;
      if allowed == [] {
        NothingAllowed(components, units, policy, flag, owned);
        assert components == components[c := components[c].(units := owned)];
        return;
      }
      var kept := FilterListedUnits(c, allowed, flag, policy);
      FilterNoDup(owned, KeptUnit(components, old(units), policy, allowed, flag));
      ComponentUnitsShrunk(componentIds, components, unitIds, units, c, kept);
      components := components[c := components[c].(units := kept)];
    }

    /** One turn of the loop of `Component::filterByPaths`: the `i`-th listed unit. */
    method FilterListedNext(c: nat, allowed: seq<Path>, flag: bool, policy: Policy, i: nat, kept: seq<nat>,
                            ghost us0: seq<Unit>) returns (kept1: seq<nat>)
      requires Valid() && c < |components| && allowed != [] && i < |components[c].units|
      requires units == FilteredUnits(components, us0, policy, allowed, flag, components[c].units[..i])
      requires kept == Filter(components[c].units[..i], KeptUnit(components, us0, policy, allowed, flag))
      requires |us0| == |units|
      modifies this
      ensures Valid()
      ensures componentIds == old(componentIds) && components == old(components) && unitIds == old(unitIds)
      ensures units == FilteredUnits(components, us0, policy, allowed, flag, components[c].units[..i + 1])
      ensures kept1 == Filter(components[c].units[..i + 1], KeptUnit(components, us0, policy, allowed, flag))
    {
      var owned := components[c].units;
      var u := owned[i];
      assert u in components[c].units;
      ghost var us1 := units;
      var keep := FilterListedUnit(u, allowed, flag, policy);
      ListedStep(components, us0, us1, units, policy, allowed, flag, owned, i, kept, keep);
      kept1 := if keep then kept + [u] else kept;
    }

    /** The loop of `Component::filterByPaths` over the units `c` lists, with the units kept. */
    method FilterListedUnits(c: nat, allowed: seq<Path>, flag: bool, policy: Policy) returns (kept: seq<nat>)
      requires Valid() && c < |components| && allowed != []
      modifies this
      ensures Valid()
      ensures componentIds == old(componentIds) && components == old(components) && unitIds == old(unitIds)
      ensures units == FilteredUnits(components, old(units), policy, allowed, flag, components[c].units)
      ensures kept == Filter(components[c].units, KeptUnit(components, old(units), policy, allowed, flag))
    {
      var owned := components[c].units;
      ghost var us0 := units;
      ghost var keeps := KeptUnit(components, us0, policy, allowed, flag);
      kept := [];
      for i := 0 to |owned|
        invariant Valid() && components == old(components)
        invariant componentIds == old(componentIds) && unitIds == old(unitIds)
        invariant units == FilteredUnits(components, us0, policy, allowed, flag, owned[..i])
        invariant kept == Filter(owned[..i], keeps)
      {
        kept := FilterListedNext(c, allowed, flag, policy, i, kept, us0);
      }
      assert owned[..|owned|] == owned;
    }

    // ------------------------------------------------------------ metrics

    /** `calculateAbstractnessRate`: units whose abstractness is null count on neither side. */
    method CalculateAbstractnessRate(c: nat) returns (r: real)
      requires WellFormed(components, units) && c < |components|
      ensures r == Abstractness(components, units, c)
    {
      var numOfAbstract, numOfConcrete := CountAbstractness(units, components[c].units);
      var total := numOfAbstract + numOfConcrete;
      r := if total == 0 then 0.0 else numOfAbstract as real / total as real;
    }

    /** `calculateDistanceRate`: `|A + I - 1|`, the instability taken through the cache. */
    method CalculateDistanceRate(c: nat) returns (r: real)
      requires Valid() && c < |components|
      modifies this
      ensures Valid()
      ensures r == Distance(old(components), units, c) && 0.0 <= r <= 1.0
      ensures components == WithCache(old(components), c,
        old(components)[c].cache.(instability := Some(EffInstability(old(components), units, c))))
      ensures SameAnswers(old(components), components, units)
      ensures componentIds == old(componentIds) && unitIds == old(unitIds) && units == old(units)
    {
      DistanceBounds(components, units, c);
      var a := CalculateAbstractnessRate(c);
      SameCores(old(components), components, units, c);
      var i := CalculateInstabilityRate(c);
      var d := a + i - 1.0;
      r := if d < 0.0 then -d else d;
    }

    /** `Component::calculatePrimitivenessRate`: the mean over the component's units. */
    method CalculatePrimitivenessRate(c: nat) returns (r: real)
      requires WellFormed(components, units) && c < |components|
      ensures r == Primitiveness(components, units, c) && 0.0 <= r <= 1.0
    {
      PrimitivenessBounds(components, units, c);
      var owned := components[c].units;
      var sum := SumPrimitiveness(units, owned);
      r := if |owned| == 0 then 0.0 else sum / |owned| as real;
    }
  }
}
