/**
 * The configuration `ArchAnalyzerFacade` is built from, already parsed, and
 * what its constructor makes of one component entry: the root and excluded
 * paths, the restrictions (public and private elements, allowed and
 * forbidden dependency components, the entry's allowed state and maximum
 * distance) and the component registered under the entry's name.
 */
module FacadeConfig {
  import opened Wrappers
  import opened Text
  import opened Collections
  import opened Environment
  import opened Paths
  import opened Graph
  import opened Registries
  import opened RegistryProperties

  /** One entry of a component's `roots`. */
  datatype RootConfig = RootConfig(path: string, namespace: string)

  /** One entry of `components`: a missing list is empty, a missing flag or distance is `None`. */
  datatype ComponentConfig = ComponentConfig(
    name: string,
    roots: seq<RootConfig>,
    excluded: seq<string>,
    publicElements: seq<string>,
    privateElements: seq<string>,
    allowedDependencies: seq<string>,
    forbiddenDependencies: seq<string>,
    maxAllowableDistance: Option<real>,
    isAnalyzeEnabled: Option<bool>)

  /** The components and the common `restrictions` entries. */
  datatype Config = Config(
    components: seq<ComponentConfig>,
    checkAcyclicDependenciesPrinciple: Option<bool>,
    checkStableDependenciesPrinciple: Option<bool>,
    maxAllowableDistance: Option<real>)

  /**
   * The allowed state as the storage file holds it: for a component name,
   * the (dependency component, dependent unit, dependency unit) name triples.
   */
  type AllowedState = map<string, set<(string, string, string)>>

  /** `?? true`: a switch the configuration leaves out is on. */
  function Switch(x: Option<bool>): bool
  {
    if x.Some? then x.value else true
  }

  lemma SwitchDefault(x: Option<bool>)
    ensures x.None? ==> Switch(x)
    ensures x.Some? ==> Switch(x) == x.value
  {
  }

  /** The entry's own maximum distance, or the common one when the entry has none. */
  function MaxDistance(cfg: ComponentConfig, common: Option<real>): Option<real>
  {
    if cfg.maxAllowableDistance.Some? then cfg.maxAllowableDistance else common
  }

  /** `setAllowedState` happens only when the state has the name; otherwise the restrictions keep none. */
  function EntryState(state: AllowedState, name: string): set<(string, string, string)>
  {
    if name in state then state[name] else {}
  }

  /** `p` is what `new Path($path, $namespace)` makes. */
  predicate MadeFrom(p: Path, rawPath: string, namespace: string, h: Host)
  {
    p.namespace == namespace && p.path == (if Falsy(rawPath) then rawPath else CanonicalPath(rawPath, h))
  }

  /** `p` is what `Path::fromString($value)` makes. */
  predicate MadeFromString(p: Path, value: string, h: Host)
  {
    var a := FromStringArgs(value, h);
    MadeFrom(p, a.rawPath, a.namespace, h)
  }

  predicate ElementsFrom(ps: seq<Path>, values: seq<string>, h: Host)
  {
    |ps| == |values| && forall j :: 0 <= j < |ps| ==> MadeFromString(ps[j], values[j], h)
  }

  predicate AllRegistered(ids: map<string, nat>, names: seq<string>)
  {
    forall j :: 0 <= j < |names| ==> names[j] in ids
  }

  /** The positions the names are registered at, in order. */
  function IdsOf(ids: map<string, nat>, names: seq<string>): (r: seq<nat>)
    ensures |r| == |names|
    ensures forall j :: 0 <= j < |names| && names[j] in ids ==> r[j] == ids[names[j]]
  {
    seq(|names|, j requires 0 <= j < |names| => if names[j] in ids then ids[names[j]] else 0)
  }

  /** The positions of registered names stay theirs while the registry grows. */
  lemma IdsOfKept(ids0: map<string, nat>, ids1: map<string, nat>, names: seq<string>)
    requires AllRegistered(ids0, names) && KeptIds(ids0, ids1)
    ensures AllRegistered(ids1, names) && IdsOf(ids1, names) == IdsOf(ids0, names)
  {
  }

  lemma IdsOfAppend(ids: map<string, nat>, a: seq<string>, b: seq<string>)
    ensures IdsOf(ids, a + b) == IdsOf(ids, a) + IdsOf(ids, b)
  {
    var l, r := IdsOf(ids, a + b), IdsOf(ids, a) + IdsOf(ids, b);
    assert |l| == |r|;
    forall j | 0 <= j < |l| ensures l[j] == r[j] {
      if j < |a| {
        assert (a + b)[j] == a[j];
      } else {
        assert (a + b)[j] == b[j - |a|];
      }
    }
  }

  /** The restrictions the constructor builds for entry `cfg`. */
  predicate Configured(r: Restrictions, cfg: ComponentConfig, common: Option<real>, state: AllowedState,
                       ids: map<string, nat>, h: Host)
  {
    ElementsFrom(r.publicElements, cfg.publicElements, h)
    && ElementsFrom(r.privateElements, cfg.privateElements, h)
    && AllRegistered(ids, cfg.allowedDependencies) && r.allowedDependencies == IdsOf(ids, cfg.allowedDependencies)
    && AllRegistered(ids, cfg.forbiddenDependencies) && r.forbiddenDependencies == IdsOf(ids, cfg.forbiddenDependencies)
    && r.allowedState == EntryState(state, cfg.name)
    && r.maxAllowableDistance == MaxDistance(cfg, common)
  }

  /** Some path of `ps` is what `new Path($rawPath, $namespace)` makes. */
  predicate HasPath(ps: seq<Path>, rawPath: string, namespace: string, h: Host)
  {
    exists k :: 0 <= k < |ps| && MadeFrom(ps[k], rawPath, namespace, h)
  }

  /** Each root of the entry is a root path of `x`. */
  predicate RootsIn(x: Component, cfg: ComponentConfig, h: Host)
  {
    forall j :: 0 <= j < |cfg.roots| ==> HasPath(x.roots, cfg.roots[j].path, cfg.roots[j].namespace, h)
  }

  /** Each excluded path of the entry, with an empty namespace, is an excluded path of `x`. */
  predicate ExcludedIn(x: Component, cfg: ComponentConfig, h: Host)
  {
    forall j :: 0 <= j < |cfg.excluded| ==> HasPath(x.excluded, cfg.excluded[j], "", h)
  }

  /** A path found among `ps0` is found among any `ps1` holding all of `ps0`. */
  lemma HasPathKept(ps0: seq<Path>, ps1: seq<Path>, rawPath: string, namespace: string, h: Host)
    requires HasPath(ps0, rawPath, namespace, h) && forall p :: p in ps0 ==> p in ps1
    ensures HasPath(ps1, rawPath, namespace, h)
  {
    var k :| 0 <= k < |ps0| && MadeFrom(ps0[k], rawPath, namespace, h);
    assert ps0[k] in ps1;
    var k1 :| 0 <= k1 < |ps1| && ps1[k1] == ps0[k];
  }

  // ------------------------------------------------------ what registering keeps

  /** Every registered name keeps its position. */
  predicate KeptIds(ids0: map<string, nat>, ids1: map<string, nat>)
  {
    forall n :: n in ids0 ==> n in ids1 && ids1[n] == ids0[n]
  }

  /**
   * The component registry only grows: names keep their positions, paths
   * stay, a component disabled for analysis stays disabled, and only the
   * components in `changed` get other restrictions.
   */
  ghost predicate Grown(ids0: map<string, nat>, cs0: seq<Component>, ids1: map<string, nat>, cs1: seq<Component>,
                        changed: set<nat>)
  {
    KeptIds(ids0, ids1) && |cs0| <= |cs1|
    && forall c :: 0 <= c < |cs0| ==>
      cs1[c].name == cs0[c].name
      && (forall p :: p in cs0[c].roots ==> p in cs1[c].roots)
      && (forall p :: p in cs0[c].excluded ==> p in cs1[c].excluded)
      && (!cs0[c].enabled ==> !cs1[c].enabled)
      && (c !in changed ==> cs1[c].restrictions == cs0[c].restrictions)
  }

  lemma GrownTransitive(ids0: map<string, nat>, cs0: seq<Component>, ids1: map<string, nat>, cs1: seq<Component>,
                        ids2: map<string, nat>, cs2: seq<Component>, changed: set<nat>)
    requires Grown(ids0, cs0, ids1, cs1, changed) && Grown(ids1, cs1, ids2, cs2, changed)
    ensures Grown(ids0, cs0, ids2, cs2, changed)
  {
  }

  /** `Component::create` grows the registry and changes no restrictions but those of the answered component. */
  lemma CreatedGrown(ids: map<string, nat>, cs: seq<Component>, name: string, roots: seq<Path>, excluded: seq<Path>,
                     restrictions: Option<Restrictions>)
    requires ComponentIndex(ids, cs)
    ensures var r := Created(ids, cs, name, roots, excluded, restrictions);
      Grown(ids, cs, r.ids, r.cs, {r.id}) && (restrictions.None? ==> Grown(ids, cs, r.ids, r.cs, {}))
  {
    var r := Created(ids, cs, name, roots, excluded, restrictions);
    if name in ids {
      var x := cs[ids[name]];
      forall p | p in x.roots ensures p in r.cs[r.id].roots {
        AddAllMember(x.roots, roots, p);
      }
      forall p | p in x.excluded ensures p in r.cs[r.id].excluded {
        AddAllMember(x.excluded, excluded, p);
      }
    }
  }

  // ------------------------------------------------------------- the entries

  /** `Component::create($name)` for each name in turn. */
  method RegisterAll(reg: Registry, names: seq<string>) returns (ids: seq<nat>)
    requires reg.Valid()
    modifies reg
    ensures reg.Valid()
    ensures Grown(old(reg.componentIds), old(reg.components), reg.componentIds, reg.components, {})
    ensures AllRegistered(reg.componentIds, names) && ids == IdsOf(reg.componentIds, names)
    ensures reg.unitIds == old(reg.unitIds) && reg.units == old(reg.units)
  {
    ids := [];
    for j := 0 to |names|
      invariant reg.Valid() && reg.unitIds == old(reg.unitIds) && reg.units == old(reg.units)
      invariant Grown(old(reg.componentIds), old(reg.components), reg.componentIds, reg.components, {})
      invariant AllRegistered(reg.componentIds, names[..j]) && ids == IdsOf(reg.componentIds, names[..j])
    {
      ghost var ids0, cs0 := reg.componentIds, reg.components;
      var c := reg.CreateComponent(names[j], [], [], None);
      RegisteredOne(ids0, cs0, reg.componentIds, reg.components, names, j, ids, c);
      GrownTransitive(old(reg.componentIds), old(reg.components), ids0, cs0, reg.componentIds, reg.components, {});
      ids := ids + [c];
    }
    assert names[..|names|] == names;
  }

  /** One more name registered: the positions so far stay, and the new one is the answered component. */
  lemma RegisteredOne(ids0: map<string, nat>, cs0: seq<Component>, ids1: map<string, nat>, cs1: seq<Component>,
                      names: seq<string>, j: nat, ids: seq<nat>, c: nat)
    requires ComponentIndex(ids0, cs0) && j < |names|
    requires var r := Created(ids0, cs0, names[j], [], [], None); ids1 == r.ids && cs1 == r.cs && c == r.id
    requires AllRegistered(ids0, names[..j]) && ids == IdsOf(ids0, names[..j])
    ensures Grown(ids0, cs0, ids1, cs1, {})
    ensures AllRegistered(ids1, names[..j + 1]) && ids + [c] == IdsOf(ids1, names[..j + 1])
  {
    CreatedGrown(ids0, cs0, names[j], [], [], None);
    CreatedIndex(ids0, cs0, names[j], [], [], None);
    IdsOfKept(ids0, ids1, names[..j]);
    assert names[..j + 1] == names[..j] + [names[j]];
    IdsOfAppend(ids1, names[..j], [names[j]]);
  }

  /** `new Path($root['path'], $root['namespace'])` for each root. */
  method MakeRoots(roots: seq<RootConfig>, h: Host) returns (ps: seq<Path>)
    ensures |ps| == |roots| && forall j :: 0 <= j < |ps| ==> MadeFrom(ps[j], roots[j].path, roots[j].namespace, h)
  {
    ps := [];
    for j := 0 to |roots|
      invariant |ps| == j && forall k :: 0 <= k < j ==> MadeFrom(ps[k], roots[k].path, roots[k].namespace, h)
    {
      var p := new Path(roots[j].path, roots[j].namespace, h);
      ps := ps + [p];
    }
  }

  /** `new Path($excludedPath, '')` for each excluded path. */
  method MakeExcluded(paths: seq<string>, h: Host) returns (ps: seq<Path>)
    ensures |ps| == |paths| && forall j :: 0 <= j < |ps| ==> MadeFrom(ps[j], paths[j], "", h)
  {
    ps := [];
    for j := 0 to |paths|
      invariant |ps| == j && forall k :: 0 <= k < j ==> MadeFrom(ps[k], paths[k], "", h)
    {
      var p := new Path(paths[j], "", h);
      ps := ps + [p];
    }
  }

  /** `Path::fromString($element)` for each element. */
  method MakeElements(values: seq<string>, h: Host) returns (ps: seq<Path>)
    ensures ElementsFrom(ps, values, h)
  {
    ps := [];
    for j := 0 to |values|
      invariant |ps| == j && forall k :: 0 <= k < j ==> MadeFromString(ps[k], values[k], h)
    {
      var p := FromString(values[j], h);
      ps := ps + [p];
    }
  }

  /**
   * The body of the constructor's loop for one entry, up to
   * `Component::create`: the component of that name, with the entry's paths
   * added and the entry's restrictions; the named dependency components are
   * registered first.
   */
  method CreateConfigured(reg: Registry, cfg: ComponentConfig, common: Option<real>, state: AllowedState, h: Host)
    returns (c: nat)
    requires reg.Valid()
    modifies reg
    ensures reg.Valid() && reg.unitIds == old(reg.unitIds) && reg.units == old(reg.units)
    ensures Grown(old(reg.componentIds), old(reg.components), reg.componentIds, reg.components, {c})
    ensures cfg.name in reg.componentIds && reg.componentIds[cfg.name] == c && c < |reg.components|
    ensures Configured(reg.components[c].restrictions, cfg, common, state, reg.componentIds, h)
    ensures RootsIn(reg.components[c], cfg, h) && ExcludedIn(reg.components[c], cfg, h)
  {
    var roots := MakeRoots(cfg.roots, h);
    var excluded := MakeExcluded(cfg.excluded, h);
    var publicElements := MakeElements(cfg.publicElements, h);
    var privateElements := MakeElements(cfg.privateElements, h);
    var allowed := RegisterAll(reg, cfg.allowedDependencies);
    ghost var ids1, cs1 := reg.componentIds, reg.components;
    var forbidden := RegisterAll(reg, cfg.forbiddenDependencies);
    IdsOfKept(ids1, reg.componentIds, cfg.allowedDependencies);
    GrownTransitive(old(reg.componentIds), old(reg.components), ids1, cs1, reg.componentIds, reg.components, {});
    var restrictions := Restrictions(publicElements, privateElements, allowed, forbidden,
                                     EntryState(state, cfg.name), MaxDistance(cfg, common));
    ghost var ids2, cs2 := reg.componentIds, reg.components;
    c := reg.CreateComponent(cfg.name, roots, excluded, Some(restrictions));
    EntryCreated(ids2, cs2, cfg, common, state, h, roots, excluded, restrictions);
    assert Grown(old(reg.componentIds), old(reg.components), ids2, cs2, {c});
    GrownTransitive(old(reg.componentIds), old(reg.components), ids2, cs2, reg.componentIds, reg.components, {c});
  }

  /** `Component::create` with the entry's paths and restrictions makes the entry's component. */
  lemma EntryCreated(ids: map<string, nat>, cs: seq<Component>, cfg: ComponentConfig, common: Option<real>,
                     state: AllowedState, h: Host, roots: seq<Path>, excluded: seq<Path>, restrictions: Restrictions)
    requires ComponentIndex(ids, cs)
    requires |roots| == |cfg.roots| && forall j :: 0 <= j < |roots| ==> MadeFrom(roots[j], cfg.roots[j].path, cfg.roots[j].namespace, h)
    requires |excluded| == |cfg.excluded| && forall j :: 0 <= j < |excluded| ==> MadeFrom(excluded[j], cfg.excluded[j], "", h)
    requires Configured(restrictions, cfg, common, state, ids, h)
    ensures var r := Created(ids, cs, cfg.name, roots, excluded, Some(restrictions));
      Grown(ids, cs, r.ids, r.cs, {r.id}) && ComponentIndex(r.ids, r.cs)
      && cfg.name in r.ids && r.ids[cfg.name] == r.id && r.id < |r.cs|
      && Configured(r.cs[r.id].restrictions, cfg, common, state, r.ids, h)
      && RootsIn(r.cs[r.id], cfg, h) && ExcludedIn(r.cs[r.id], cfg, h)
  {
    var r := Created(ids, cs, cfg.name, roots, excluded, Some(restrictions));
    CreatedGrown(ids, cs, cfg.name, roots, excluded, Some(restrictions));
    CreatedIndex(ids, cs, cfg.name, roots, excluded, Some(restrictions));
    CreatedRoots(ids, cs, cfg.name, roots, excluded, Some(restrictions));
    CreatedExcluded(ids, cs, cfg.name, roots, excluded, Some(restrictions));
    IdsOfKept(ids, r.ids, cfg.allowedDependencies);
    IdsOfKept(ids, r.ids, cfg.forbiddenDependencies);
    forall j | 0 <= j < |cfg.roots| ensures HasPath(r.cs[r.id].roots, cfg.roots[j].path, cfg.roots[j].namespace, h) {
      assert HasPath(roots, cfg.roots[j].path, cfg.roots[j].namespace, h);
      HasPathKept(roots, r.cs[r.id].roots, cfg.roots[j].path, cfg.roots[j].namespace, h);
    }
    forall j | 0 <= j < |cfg.excluded| ensures HasPath(r.cs[r.id].excluded, cfg.excluded[j], "", h) {
      assert HasPath(excluded, cfg.excluded[j], "", h);
      HasPathKept(excluded, r.cs[r.id].excluded, cfg.excluded[j], "", h);
    }
  }
}
