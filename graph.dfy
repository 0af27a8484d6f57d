/**
 * The dependency graph: components (`Component`) and units of code
 * (`UnitOfCode`) as values, and what each query of the two classes computes
 * from them. Both static `$instances` registries are the `Registry` class of
 * module Registries; here a component or a unit is named by its position in
 * that registry. A unit lists the units it depends on (`outputs`) and the
 * units depending on it (`inputs`), both by position.
 */
module Graph {
  import opened Wrappers
  import opened Text
  import opened Collections
  import opened Types
  import opened Paths

  /** The three component names `Component` reserves. */
  const UndefinedName: string := "*undefined*"
  const PrimitivesName: string := "*primitives*"
  const GlobalName: string := "*global*"

  /**
   * What a component's `Restrictions` object is built from: public and
   * private elements, allowed and forbidden dependency components (by
   * position), this component's allowed-state entries (dependency component,
   * dependent unit, dependency unit) and the maximum allowable distance.
   */
  datatype Restrictions = Restrictions(
    publicElements: seq<Path>,
    privateElements: seq<Path>,
    allowedDependencies: seq<nat>,
    forbiddenDependencies: seq<nat>,
    allowedState: set<(string, string, string)>,
    maxAllowableDistance: Option<real>)

  /** `new Restrictions()`. */
  const NoRestrictions: Restrictions := Restrictions([], [], [], [], {}, None)

  /**
   * The answers of `Restrictions`, whose rules are not part of this model:
   * whether allowed state is enabled; whether the unit dependency
   * (dependency, dependent) is in allowed state; the illegal dependency
   * components of a component; its illegal dependency units, only those of
   * allowed components when the flag is set; the distance overage of a
   * component.
   */
  datatype Policy = Policy(
    allowedStateEnabled: Restrictions -> bool,
    unitDependencyInAllowedState: (Restrictions, nat, nat) -> bool,
    illegalDependencyComponents: (Restrictions, nat) -> seq<nat>,
    illegalDependencyUnits: (Restrictions, nat, bool) -> seq<nat>,
    distanceRateOverage: (Restrictions, nat) -> real)

  /** A `UnitOfCode`: name, path (`None` for null), type, both dependency lists, and owner. */
  datatype Unit = Unit(
    name: string,
    path: Option<string>,
    kind: Type,
    inputs: seq<nat>,
    outputs: seq<nat>,
    component: nat)

  /**
   * The query results a component keeps in its `$cache`, one field per key
   * family: `getDependencyComponents`, `calculateInstabilityRate`, and
   * `getDependentUnitsOfCode` / `getDependencyUnitsOfCode` followed by the
   * name of the dependency component. No key of one family is a key of
   * another, so one map split four ways behaves as the source's single map.
   */
  datatype Caches = Caches(
    dependencyComponents: Option<seq<nat>>,
    instability: Option<real>,
    dependentUnits: map<string, seq<nat>>,
    dependencyUnits: map<string, seq<nat>>)

  const NoCaches: Caches := Caches(None, None, map[], map[])

  /** A `Component`: name, analysis flag, root and excluded paths, restrictions, owned units, cache. */
  datatype Component = Component(
    name: string,
    enabled: bool,
    roots: seq<Path>,
    excluded: seq<Path>,
    restrictions: Restrictions,
    units: seq<nat>,
    cache: Caches)

  /** Every position in `xs` is below `n`. */
  predicate Below(xs: seq<nat>, n: nat)
  {
    forall x :: x in xs ==> x < n
  }

  /** Every position a unit or a component holds refers to an existing entity. */
  predicate WellFormed(cs: seq<Component>, us: seq<Unit>)
  {
    (forall u :: 0 <= u < |us| ==> us[u].component < |cs|)
    && EdgesBelow(us)
    && (forall c :: 0 <= c < |cs| ==> Below(cs[c].units, |us|))
    && (forall c :: 0 <= c < |cs| ==> CacheBelow(cs[c].cache, |cs|, |us|))
  }

  /** Every dependency of a unit is a unit. */
  predicate EdgesBelow(us: seq<Unit>)
  {
    forall u :: 0 <= u < |us| ==> Below(us[u].inputs, |us|) && Below(us[u].outputs, |us|)
  }

  predicate CacheBelow(k: Caches, nc: nat, nu: nat)
  {
    (k.dependencyComponents.Some? ==> Below(k.dependencyComponents.value, nc))
    && (forall key :: key in k.dependentUnits ==> Below(k.dependentUnits[key], nu))
    && (forall key :: key in k.dependencyUnits ==> Below(k.dependencyUnits[key], nu))
  }

  /** What a cache can hold: no component is its own dependency component; an instability is a rate. */
  predicate CachesSound(cs: seq<Component>)
  {
    forall c :: 0 <= c < |cs| ==>
      (cs[c].cache.dependencyComponents.Some? ==> c !in cs[c].cache.dependencyComponents.value)
      && (cs[c].cache.instability.Some? ==> 0.0 <= cs[c].cache.instability.value <= 1.0)
  }

  /** A component lists each unit once, and only units it owns. */
  predicate Owners(cs: seq<Component>, us: seq<Unit>)
  {
    forall c :: 0 <= c < |cs| ==>
      NoDup(cs[c].units) && forall u :: u in cs[c].units ==> u < |us| && us[u].component == c
  }

  /** Every unit is listed by its owner. Filtering by paths gives this up. */
  predicate Owned(cs: seq<Component>, us: seq<Unit>)
  {
    forall u :: 0 <= u < |us| ==> us[u].component < |cs| && u in cs[us[u].component].units
  }

  /** `d` is an output of `u` exactly when `u` is an input of `d`. Filtering by paths gives this up. */
  predicate Symmetric(us: seq<Unit>)
  {
    forall u, d :: 0 <= u < |us| && 0 <= d < |us| ==> (d in us[u].outputs <==> u in us[d].inputs)
  }

  /** No two components share a name. */
  predicate DistinctNames(cs: seq<Component>)
  {
    forall a, b :: 0 <= a < |cs| && 0 <= b < |cs| && cs[a].name == cs[b].name ==> a == b
  }

  /** The component registry: each name maps to the position of the component of that name. */
  predicate ComponentIndex(ids: map<string, nat>, cs: seq<Component>)
  {
    (forall n :: n in ids ==> ids[n] < |cs| && cs[ids[n]].name == n)
    && (forall c :: 0 <= c < |cs| ==> cs[c].name in ids && ids[cs[c].name] == c)
  }

  /** The unit registry: each name maps to the position of the unit of that name. */
  predicate UnitIndex(ids: map<string, nat>, us: seq<Unit>)
  {
    (forall n :: n in ids ==> ids[n] < |us| && us[ids[n]].name == n)
    && (forall u :: 0 <= u < |us| ==> us[u].name in ids && ids[us[u].name] == u)
  }

  /** Everything the registry keeps true between calls. */
  predicate Consistent(componentIds: map<string, nat>, cs: seq<Component>, unitIds: map<string, nat>, us: seq<Unit>)
  {
    WellFormed(cs, us) && CachesSound(cs) && Owners(cs, us)
    && ComponentIndex(componentIds, cs) && UnitIndex(unitIds, us)
  }

  // ---------------------------------------------------------------- units

  /** `belongToGlobalNamespace`: exactly one non-falsy segment between backslashes. */
  predicate InGlobalNamespace(name: string)
  {
    |FilterTruthy(Explode(name, "\\"))| == 1
  }

  /** `belongToComponent`: unit `d` is owned by component `c`. */
  function OwnedBy(us: seq<Unit>, c: nat): nat -> bool
  {
    (d: nat) => d < |us| && us[d].component == c
  }

  /** `inputDependencies($component)`: every input, or only those `component` owns. */
  function InputDependencies(us: seq<Unit>, u: nat, component: Option<nat>): seq<nat>
    requires u < |us|
  {
    if component.None? then us[u].inputs else Filter(us[u].inputs, OwnedBy(us, component.value))
  }

  /** `outputDependencies($component)`: every output, or only those `component` owns. */
  function OutputDependencies(us: seq<Unit>, u: nat, component: Option<nat>): seq<nat>
    requires u < |us|
  {
    if component.None? then us[u].outputs else Filter(us[u].outputs, OwnedBy(us, component.value))
  }

  /** `part / whole`, or 0 when `whole` is 0. */
  function Ratio(part: nat, whole: nat): (r: real)
    ensures whole == 0 ==> r == 0.0
    ensures part <= whole ==> 0.0 <= r <= 1.0
  {
    if whole == 0 then 0.0 else part as real / whole as real
  }

  /** `UnitOfCode::calculateInstabilityRate`: outputs over inputs plus outputs, raw list lengths. */
  function UnitInstability(x: Unit): (r: real)
    ensures 0.0 <= r <= 1.0
    ensures x.inputs == [] && x.outputs == [] ==> r == 0.0
  {
    Ratio(|x.outputs|, |x.inputs| + |x.outputs|)
  }

  /** `isPrimitive` of unit `d`. */
  function PrimitiveUnit(us: seq<Unit>): nat -> bool
  {
    (d: nat) => d < |us| && us[d].kind.Primitive?
  }

  /** `UnitOfCode::calculatePrimitivenessRate`. */
  function UnitPrimitiveness(us: seq<Unit>, u: nat): (r: real)
    requires u < |us|
    ensures 0.0 <= r <= 1.0
    ensures us[u].kind.Primitive? ==> r == 1.0
  {
    if us[u].kind.Primitive? then 1.0
    else Ratio(|Filter(us[u].outputs, PrimitiveUnit(us))|, |us[u].outputs|)
  }

  // ----------------------------------------------------- component queries

  /** For `getDependentComponents`: the owner of a dependent unit outside `c`. */
  function DependentOwner(us: seq<Unit>, c: nat): nat -> seq<nat>
  {
    (d: nat) => if d < |us| && us[d].component != c then [us[d].component] else []
  }

  function UnitDependentOwners(us: seq<Unit>, c: nat): nat -> seq<nat>
  {
    (u: nat) => if u < |us| then ConcatMap(us[u].inputs, DependentOwner(us, c)) else []
  }

  /** `getDependentComponents`: owners of the inputs of `c`'s units that `c` does not own, each once, in order. */
  function DependentComponents(cs: seq<Component>, us: seq<Unit>, c: nat): seq<nat>
    requires c < |cs|
  {
    Dedupe(ConcatMap(cs[c].units, UnitDependentOwners(us, c)))
  }

  /** The outputs `getDependencyComponents` and `calculateInstabilityRate` count: another owner, not global, not primitive. */
  predicate ExternalDependency(us: seq<Unit>, c: nat, d: nat)
  {
    d < |us| && us[d].component != c && !InGlobalNamespace(us[d].name) && !us[d].kind.Primitive?
  }

  /** For `getDependencyComponents`: the owner of an external output. */
  function DependencyOwner(us: seq<Unit>, c: nat): nat -> seq<nat>
  {
    (d: nat) => if ExternalDependency(us, c, d) then [us[d].component] else []
  }

  function UnitDependencyOwners(us: seq<Unit>, c: nat): nat -> seq<nat>
  {
    (u: nat) => if u < |us| then ConcatMap(us[u].outputs, DependencyOwner(us, c)) else []
  }

  /** `getDependencyComponents`, computed: owners of the external outputs of `c`'s units, each once, in order. */
  function DependencyComponents(cs: seq<Component>, us: seq<Unit>, c: nat): seq<nat>
    requires c < |cs|
  {
    Dedupe(ConcatMap(cs[c].units, UnitDependencyOwners(us, c)))
  }

  /** For `getDependentUnitsOfCode`: `u` itself, once per output of `u` that `dc` owns. */
  function DependingUnit(us: seq<Unit>, dc: nat, u: nat): nat -> seq<nat>
  {
    (d: nat) => if d < |us| && us[d].component == dc then [u] else []
  }

  function UnitsDependingOn(us: seq<Unit>, dc: nat): nat -> seq<nat>
  {
    (u: nat) => if u < |us| then ConcatMap(us[u].outputs, DependingUnit(us, dc, u)) else []
  }

  /** `getDependentUnitsOfCode($dc)`, computed: `c`'s units with an output owned by `dc`. */
  function DependentUnits(cs: seq<Component>, us: seq<Unit>, c: nat, dc: nat): seq<nat>
    requires c < |cs|
  {
    Dedupe(ConcatMap(cs[c].units, UnitsDependingOn(us, dc)))
  }

  /** For `getDependencyUnitsOfCode`: an output owned by `dc`. */
  function OwnedOutput(us: seq<Unit>, dc: nat): nat -> seq<nat>
  {
    (d: nat) => if d < |us| && us[d].component == dc then [d] else []
  }

  function OutputsOwnedBy(us: seq<Unit>, dc: nat): nat -> seq<nat>
  {
    (u: nat) => if u < |us| then ConcatMap(us[u].outputs, OwnedOutput(us, dc)) else []
  }

  /** `getDependencyUnitsOfCode($dc)`, computed: the outputs of `c`'s units that `dc` owns, each once. */
  function DependencyUnits(cs: seq<Component>, us: seq<Unit>, c: nat, dc: nat): seq<nat>
    requires c < |cs|
  {
    Dedupe(ConcatMap(cs[c].units, OutputsOwnedBy(us, dc)))
  }

  /** For `calculateInstabilityRate`: the name of an input `c` does not own. */
  function ExternalInputName(us: seq<Unit>, c: nat): nat -> seq<string>
  {
    (d: nat) => if d < |us| && us[d].component != c then [us[d].name] else []
  }

  function UnitExternalInputNames(us: seq<Unit>, c: nat): nat -> seq<string>
  {
    (u: nat) => if u < |us| then ConcatMap(us[u].inputs, ExternalInputName(us, c)) else []
  }

  /** For `calculateInstabilityRate`: the name of an external output. */
  function ExternalOutputName(us: seq<Unit>, c: nat): nat -> seq<string>
  {
    (d: nat) => if ExternalDependency(us, c, d) then [us[d].name] else []
  }

  function UnitExternalOutputNames(us: seq<Unit>, c: nat): nat -> seq<string>
  {
    (u: nat) => if u < |us| then ConcatMap(us[u].outputs, ExternalOutputName(us, c)) else []
  }

  /** The distinct names of the external inputs of `c`'s units (fan-in). */
  function FanIn(cs: seq<Component>, us: seq<Unit>, c: nat): seq<string>
    requires c < |cs|
  {
    Dedupe(ConcatMap(cs[c].units, UnitExternalInputNames(us, c)))
  }

  /** The distinct names of the external outputs of `c`'s units (fan-out). */
  function FanOut(cs: seq<Component>, us: seq<Unit>, c: nat): seq<string>
    requires c < |cs|
  {
    Dedupe(ConcatMap(cs[c].units, UnitExternalOutputNames(us, c)))
  }

  /** `calculateInstabilityRate`, computed: fan-out over fan-in plus fan-out, 0 when both are empty. */
  function Instability(cs: seq<Component>, us: seq<Unit>, c: nat): (r: real)
    requires c < |cs|
    ensures 0.0 <= r <= 1.0
  {
    Ratio(|FanOut(cs, us, c)|, |FanIn(cs, us, c)| + |FanOut(cs, us, c)|)
  }

  /** A unit whose `isAbstract` is exactly `flag`. */
  function AbstractUnit(us: seq<Unit>, flag: bool): nat -> bool
  {
    (u: nat) => u < |us| && IsAbstract(us[u].kind) == Some(flag)
  }

  /** `calculateAbstractnessRate`: abstract units over units with a definite abstractness. */
  function Abstractness(cs: seq<Component>, us: seq<Unit>, c: nat): (r: real)
    requires c < |cs|
    ensures 0.0 <= r <= 1.0
  {
    var abstracts := |Filter(cs[c].units, AbstractUnit(us, true))|;
    var concretes := |Filter(cs[c].units, AbstractUnit(us, false))|;
    Ratio(abstracts, abstracts + concretes)
  }

  /** The primitiveness rates of the units `xs`, added up. */
  function PrimitivenessSum(us: seq<Unit>, xs: seq<nat>): real
    decreases |xs|
  {
    if xs == [] then 0.0
    else
      var last := xs[|xs| - 1];
      PrimitivenessSum(us, xs[..|xs| - 1]) + (if last < |us| then UnitPrimitiveness(us, last) else 0.0)
  }

  /** `calculatePrimitivenessRate`: the mean primitiveness of the component's units, 0 without units. */
  function Primitiveness(cs: seq<Component>, us: seq<Unit>, c: nat): real
    requires c < |cs|
  {
    if |cs[c].units| == 0 then 0.0 else PrimitivenessSum(us, cs[c].units) / |cs[c].units| as real
  }

  // ----------------------------------------------- answers through the cache

  /** What `getDependencyComponents` answers: the cached list, or the computed one. */
  function EffDependencyComponents(cs: seq<Component>, us: seq<Unit>, c: nat): seq<nat>
    requires c < |cs|
  {
    match cs[c].cache.dependencyComponents
    case Some(v) => v
    case None => DependencyComponents(cs, us, c)
  }

  /** What `calculateInstabilityRate` answers. */
  function EffInstability(cs: seq<Component>, us: seq<Unit>, c: nat): real
    requires c < |cs|
  {
    match cs[c].cache.instability
    case Some(v) => v
    case None => Instability(cs, us, c)
  }

  /** What `getDependentUnitsOfCode($dc)` answers; the key ends in `dc`'s name. */
  function EffDependentUnits(cs: seq<Component>, us: seq<Unit>, c: nat, dc: nat): seq<nat>
    requires c < |cs| && dc < |cs|
  {
    var key := cs[dc].name;
    if key in cs[c].cache.dependentUnits then cs[c].cache.dependentUnits[key] else DependentUnits(cs, us, c, dc)
  }

  /** What `getDependencyUnitsOfCode($dc)` answers. */
  function EffDependencyUnits(cs: seq<Component>, us: seq<Unit>, c: nat, dc: nat): seq<nat>
    requires c < |cs| && dc < |cs|
  {
    var key := cs[dc].name;
    if key in cs[c].cache.dependencyUnits then cs[c].cache.dependencyUnits[key] else DependencyUnits(cs, us, c, dc)
  }

  /** `calculateDistanceRate`: `|A + I - 1|`. */
  function Distance(cs: seq<Component>, us: seq<Unit>, c: nat): real
    requires c < |cs|
  {
    var d := Abstractness(cs, us, c) + EffInstability(cs, us, c) - 1.0;
    if d < 0.0 then -d else d
  }

  /** The components after component `c`'s cache becomes `k`. */
  function WithCache(cs: seq<Component>, c: nat, k: Caches): (r: seq<Component>)
    requires c < |cs|
    ensures |r| == |cs| && r[c].cache == k
    ensures forall x :: 0 <= x < |cs| ==> Core(r[x]) == Core(cs[x])
    ensures forall x :: 0 <= x < |cs| && x != c ==> r[x] == cs[x]
  {
    cs[c := cs[c].(cache := k)]
  }

  /** A component without its cache. */
  function Core(x: Component): Component
  {
    x.(cache := NoCaches)
  }

  /**
   * Two registry states in which every query answers alike: the same units,
   * the same components apart from their caches, and the same answers
   * through the caches.
   */
  predicate SameAnswers(cs1: seq<Component>, cs2: seq<Component>, us: seq<Unit>)
  {
    |cs1| == |cs2|
    && (forall c :: 0 <= c < |cs1| ==> Core(cs1[c]) == Core(cs2[c]))
    && (forall c :: 0 <= c < |cs1| ==> EffDependencyComponents(cs1, us, c) == EffDependencyComponents(cs2, us, c))
    && (forall c :: 0 <= c < |cs1| ==> EffInstability(cs1, us, c) == EffInstability(cs2, us, c))
    && (forall c, dc :: 0 <= c < |cs1| && 0 <= dc < |cs1| ==>
          EffDependentUnits(cs1, us, c, dc) == EffDependentUnits(cs2, us, c, dc)
          && EffDependencyUnits(cs1, us, c, dc) == EffDependencyUnits(cs2, us, c, dc))
  }

  // ------------------------------------------------------------- placement

  /** The test `createByUnitOfCode` applies to one path: by namespace, or by file path. */
  predicate LocatedAt(name: string, path: Option<string>, p: Path)
  {
    (!Falsy(p.namespace) && StartsWithCI(Trim(name, {'\\'}), Trim(p.namespace, {'\\'})))
    || (path.Some? && !Falsy(p.path) && StartsWithCI(path.value, p.path))
  }

  /** `$isLocatedInOneOfPaths`. */
  predicate LocatedIn(name: string, path: Option<string>, paths: seq<Path>)
  {
    exists k :: 0 <= k < |paths| && LocatedAt(name, path, paths[k])
  }

  /** A component claims a unit located in one of its roots and in none of its excluded paths. */
  predicate Claims(x: Component, name: string, path: Option<string>)
  {
    LocatedIn(name, path, x.roots) && !LocatedIn(name, path, x.excluded)
  }

  /** The first component, from position `from` on, that claims the unit. */
  function FirstClaiming(cs: seq<Component>, name: string, path: Option<string>, from: nat): (r: Option<nat>)
    ensures r.Some? ==> from <= r.value < |cs| && Claims(cs[r.value], name, path)
    ensures r.Some? ==> forall k :: from <= k < r.value ==> !Claims(cs[k], name, path)
    ensures r.None? ==> forall k :: from <= k < |cs| ==> !Claims(cs[k], name, path)
    decreases |cs| - from
  {
    if from >= |cs| then None
    else if Claims(cs[from], name, path) then Some(from)
    else FirstClaiming(cs, name, path, from + 1)
  }

  /** Where `createByUnitOfCode` puts a unit: an existing component, or a reserved one by name. */
  datatype Placement = Existing(id: nat) | Reserved(name: string)

  function Place(cs: seq<Component>, name: string, path: Option<string>, kind: Type): Placement
  {
    if kind.Primitive? then Reserved(PrimitivesName)
    else if InGlobalNamespace(name) then Reserved(GlobalName)
    else match FirstClaiming(cs, name, path, 0)
      case Some(c) => Existing(c)
      case None => Reserved(UndefinedName)
  }

  // ---------------------------------------------------------------- cycles

  /** What `getDependencyComponents` answers for every component. */
  function Adjacency(cs: seq<Component>, us: seq<Unit>): (adj: seq<seq<nat>>)
    ensures |adj| == |cs|
    ensures forall c :: 0 <= c < |cs| ==> adj[c] == EffDependencyComponents(cs, us, c)
  {
    seq(|cs|, c requires 0 <= c < |cs| => EffDependencyComponents(cs, us, c))
  }

  /** Every edge leads to a component, and no component is its own dependency. */
  predicate AdjacencyOk(adj: seq<seq<nat>>)
  {
    forall c :: 0 <= c < |adj| ==> Below(adj[c], |adj|) && c !in adj[c]
  }

  function Unvisited(n: nat, path: seq<nat>): set<nat>
  {
    set x | 0 <= x < n && x !in path
  }

  /** `$node->getCyclicDependencies($path, $result)`. */
  function Cycles(adj: seq<seq<nat>>, node: nat, path: seq<nat>, result: seq<seq<nat>>): seq<seq<nat>>
    requires AdjacencyOk(adj) && node < |adj| && node !in path
    decreases Unvisited(|adj|, path), 1, 0
  {
    CyclesScan(adj, node, path, 0, result)
  }

  /** The loop of `getCyclicDependencies` over `node`'s dependency components from the `i`-th on. */
  function CyclesScan(adj: seq<seq<nat>>, node: nat, path: seq<nat>, i: nat, result: seq<seq<nat>>): seq<seq<nat>>
    requires AdjacencyOk(adj) && node < |adj| && node !in path && i <= |adj[node]|
    decreases Unvisited(|adj|, path), 0, |adj[node]| - i
  {
    if i == |adj[node]| then result
    else
      var p := path + [node];
      var d := adj[node][i];
      if d in p then
        CyclesScan(adj, node, path, i + 1, if p[0] == d then result + [p + [d]] else result)
      else
        assert d in adj[node];
        assert node in Unvisited(|adj|, path) && node !in Unvisited(|adj|, p);
        CyclesScan(adj, node, path, i + 1, Cycles(adj, d, p, result))
  }

  // ------------------------------------------------------------- filtering

  /**
   * Whether a unit's path lies under one of the allowed paths. The source
   * passes a null path to `isPartOfPath(string)`, which throws; here a unit
   * without a path lies under no allowed path (see `AllowedAsWritten`).
   */
  predicate UnderAllowedPath(allowed: seq<Path>, path: Option<string>)
  {
    path.Some? && exists k :: 0 <= k < |allowed| && allowed[k].IsPartOfPath(path.value)
  }

  /** The allowed-path loop as written: a null path fails with a `TypeError` at the first allowed path. */
  function AllowedAsWritten(allowed: seq<Path>, path: Option<string>): Result<bool>
  {
    if |allowed| > 0 && path.None? then Failure("TypeError")
    else Success(UnderAllowedPath(allowed, path))
  }

  /**
   * `filterDependenciesByPaths` on the inputs of unit `u`: a dependent is
   * dropped when the flag is on and its owner's restrictions put
   * (`u`, dependent) in allowed state, or when its path is under no allowed path.
   */
  function KeptInput(cs: seq<Component>, us: seq<Unit>, policy: Policy, allowed: seq<Path>, flag: bool, u: nat): nat -> bool
  {
    (d: nat) => d < |us| && us[d].component < |cs|
      && !(flag && policy.unitDependencyInAllowedState(cs[us[d].component].restrictions, u, d))
      && UnderAllowedPath(allowed, us[d].path)
  }

  /** ... on the outputs: a dependency is dropped only when the flag is on and it is in allowed state. */
  function KeptOutput(cs: seq<Component>, us: seq<Unit>, policy: Policy, flag: bool, u: nat): nat -> bool
  {
    (x: nat) => !(flag && u < |us| && us[u].component < |cs|
      && policy.unitDependencyInAllowedState(cs[us[u].component].restrictions, x, u))
  }

  /** Unit `u` after `filterDependenciesByPaths($allowed, $flag)`. */
  function FilteredUnit(cs: seq<Component>, us: seq<Unit>, policy: Policy, allowed: seq<Path>, flag: bool, u: nat): (r: Unit)
    requires u < |us|
    ensures r.name == us[u].name && r.path == us[u].path && r.kind == us[u].kind && r.component == us[u].component
    ensures forall d :: d in r.inputs <==> d in us[u].inputs && (allowed == [] || KeptInput(cs, us, policy, allowed, flag, u)(d))
    ensures forall x :: x in r.outputs <==> x in us[u].outputs && (allowed == [] || KeptOutput(cs, us, policy, flag, u)(x))
  {
    if allowed == [] then us[u]
    else us[u].(inputs := Filter(us[u].inputs, KeptInput(cs, us, policy, allowed, flag, u)),
                outputs := Filter(us[u].outputs, KeptOutput(cs, us, policy, flag, u)))
  }

  /** A unit `Component::filterByPaths` keeps: under an allowed path, with a dependency left after filtering. */
  function KeptUnit(cs: seq<Component>, us: seq<Unit>, policy: Policy, allowed: seq<Path>, flag: bool): nat -> bool
  {
    (u: nat) => u < |us| && UnderAllowedPath(allowed, us[u].path)
      && var f := FilteredUnit(cs, us, policy, allowed, flag, u); (f.inputs != [] || f.outputs != [])
  }

  /**
   * The units after `Component::filterByPaths` on a component listing `xs`:
   * each listed unit under an allowed path has its dependencies filtered,
   * every other unit is left as it is.
   */
  function FilteredUnits(cs: seq<Component>, us: seq<Unit>, policy: Policy, allowed: seq<Path>, flag: bool, xs: seq<nat>): (r: seq<Unit>)
    ensures |r| == |us|
    ensures forall v :: 0 <= v < |us| ==> r[v].name == us[v].name && r[v].path == us[v].path && r[v].component == us[v].component
    ensures forall v :: 0 <= v < |us| && v !in xs ==> r[v] == us[v]
  {
    seq(|us|, v requires 0 <= v < |us| =>
      if v in xs && UnderAllowedPath(allowed, us[v].path) then FilteredUnit(cs, us, policy, allowed, flag, v) else us[v])
  }

  /** The units a component listing `xs` still lists after `filterByPaths`: all of them when no path is allowed. */
  function KeptUnits(cs: seq<Component>, us: seq<Unit>, policy: Policy, allowed: seq<Path>, flag: bool, xs: seq<nat>): (r: seq<nat>)
    ensures forall v :: v in r ==> v in xs
  {
    if allowed == [] then xs else Filter(xs, KeptUnit(cs, us, policy, allowed, flag))
  }
}
