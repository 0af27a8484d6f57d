/**
 * `ComponentAnalyzer::analyze`: every file under a component's root paths
 * that is not excluded becomes a unit of that component, named after its
 * root namespace and relative path, with an output edge to a unit for every
 * name the dependencies finder reports in it. The files each root path
 * lists are an input.
 */
module Analysis {
  import opened Wrappers
  import opened Text
  import opened Collections
  import opened Environment
  import opened Paths
  import opened PathHelper
  import opened Graph
  import opened Registries
  import opened RegistryProperties
  import opened DependenciesFinders

  // ------------------------------------------------------- what analysis keeps

  /** The registry only grows: names keep their units, edges stay, and units of `c` stay in `c`. */
  ghost predicate Keeps(uids0: map<string, nat>, us0: seq<Unit>, uids1: map<string, nat>, us1: seq<Unit>, c: nat)
  {
    (forall n :: n in uids0 ==> n in uids1 && uids1[n] == uids0[n])
    && |us0| <= |us1|
    && (forall u :: 0 <= u < |us0| ==> forall x :: x in us0[u].outputs ==> x in us1[u].outputs)
    && (forall u :: 0 <= u < |us0| && us0[u].component == c ==> us1[u].component == c)
  }

  /** No component's paths or analysis flag change, and none disappears. */
  ghost predicate Settled(cs0: seq<Component>, cs1: seq<Component>)
  {
    |cs0| <= |cs1|
    && forall k :: 0 <= k < |cs0| ==>
      cs1[k].roots == cs0[k].roots && cs1[k].excluded == cs0[k].excluded && cs1[k].enabled == cs0[k].enabled
  }

  lemma KeepsTransitive(uids0: map<string, nat>, us0: seq<Unit>, uids1: map<string, nat>, us1: seq<Unit>,
                        uids2: map<string, nat>, us2: seq<Unit>, c: nat)
    requires Keeps(uids0, us0, uids1, us1, c) && Keeps(uids1, us1, uids2, us2, c)
    ensures Keeps(uids0, us0, uids2, us2, c)
  {
  }

  lemma SettledTransitive(cs0: seq<Component>, cs1: seq<Component>, cs2: seq<Component>)
    requires Settled(cs0, cs1) && Settled(cs1, cs2)
    ensures Settled(cs0, cs2)
  {
  }

  /** Placing a unit leaves every component's paths as they were: a reserved component gets none. */
  lemma ResolvedSettled(ids: map<string, nat>, cs: seq<Component>, name: string, path: Option<string>, kind: Types.Type)
    requires ComponentIndex(ids, cs)
    ensures Settled(cs, Resolved(ids, cs, name, path, kind).cs)
  {
  }

  /** `u` lists the unit registered as `n` as an output, or is that unit. */
  ghost predicate Linked(uids: map<string, nat>, us: seq<Unit>, u: nat, n: string)
  {
    u < |us| && n in uids && (uids[n] != u ==> uids[n] in us[u].outputs)
  }

  /** The unit of an analysed file: registered as `name`, owned by `c`, linked to each of `deps`. */
  ghost predicate FileAnalyzed(uids: map<string, nat>, us: seq<Unit>, c: nat, name: string, deps: seq<string>)
  {
    name in uids && uids[name] < |us| && us[uids[name]].component == c
    && LinkedTo(uids, us, uids[name], deps, |deps|)
  }

  lemma KeepsAnalyzed(uids0: map<string, nat>, us0: seq<Unit>, uids1: map<string, nat>, us1: seq<Unit>, c: nat,
                      name: string, deps: seq<string>)
    requires Keeps(uids0, us0, uids1, us1, c) && FileAnalyzed(uids0, us0, c, name, deps)
    ensures FileAnalyzed(uids1, us1, c, name, deps)
  {
    var u := uids0[name];
    forall k | 0 <= k < |deps| ensures Linked(uids1, us1, u, Trim(deps[k], {'\\'})) {
      KeepsLinked(uids0, us0, uids1, us1, c, u, Trim(deps[k], {'\\'}));
    }
  }

  // ------------------------------------------------------------ the files

  /** `$component->isExcluded($fullPath)`. */
  predicate ExcludedBy(excluded: seq<Path>, fullPath: string)
  {
    exists k :: 0 <= k < |excluded| && excluded[k].IsPartOfPath(fullPath)
  }

  /** The name `analyze` gives the unit of a file found under `root`. */
  function UnitName(root: Path, fullPath: string): string
  {
    RemoveDoubleBackslashes(root.namespace + PathToNamespace(root.GetRelativePath(fullPath)))
  }

  /** The files of one root that are analysed: those with a truthy real path that no excluded path covers. */
  function RootFiles(root: Path, excluded: seq<Path>, files: seq<Option<string>>): (r: seq<(Path, string)>)
    ensures forall k :: 0 <= k < |r| ==> r[k].0 == root && !Falsy(r[k].1) && !ExcludedBy(excluded, r[k].1)
    decreases |files|
  {
    if files == [] then []
    else
      var rest := RootFiles(root, excluded, files[..|files| - 1]);
      var f := files[|files| - 1];
      if f.Some? && !Falsy(f.value) && !ExcludedBy(excluded, f.value) then rest + [(root, f.value)] else rest
  }

  /** Every file `analyze` turns into a unit, root by root, with the root it was found under. */
  function AnalyzedFiles(roots: seq<Path>, excluded: seq<Path>, listing: Path -> seq<Option<string>>): seq<(Path, string)>
  {
    ConcatMap(roots, (root: Path) => RootFiles(root, excluded, listing(root)))
  }

  // ------------------------------------------------- the analysis on values

  /** Both registries as one value: `Component::$instances` and `UnitOfCode::$instances`. */
  datatype State = State(ids: map<string, nat>, cs: seq<Component>, uids: map<string, nat>, us: seq<Unit>)

  ghost function StateOf(reg: Registry): State
    reads reg
  {
    State(reg.componentIds, reg.components, reg.unitIds, reg.units)
  }

  /** What the analysis steps rely on: both indexes hold and every unit's owner exists. */
  ghost predicate Indexed(st: State)
  {
    ComponentIndex(st.ids, st.cs) && UnitIndex(st.uids, st.us)
    && forall v :: 0 <= v < |st.us| ==> st.us[v].component < |st.cs|
  }

  /** `createByUnitOfCode` keeps the component index, only adds components, and answers one of them. */
  lemma ResolvedIndexed(ids: map<string, nat>, cs: seq<Component>, name: string, path: Option<string>, kind: Types.Type)
    requires ComponentIndex(ids, cs)
    ensures var r := Resolved(ids, cs, name, path, kind);
      ComponentIndex(r.ids, r.cs) && r.id < |r.cs| && |cs| <= |r.cs|
      && forall k :: 0 <= k < |cs| ==> r.cs[k].roots == cs[k].roots && r.cs[k].excluded == cs[k].excluded
                                       && r.cs[k].enabled == cs[k].enabled
  {
    match Place(cs, name, path, kind)
    case Existing(c) =>
    case Reserved(n) =>
      CreatedIndex(ids, cs, n, [], [], None);
      if n in ids {
        AddAllPresent(cs[ids[n]].roots, []);
        AddAllPresent(cs[ids[n]].excluded, []);
      }
  }

  /**
   * `UnitOfCode::create($fullName, $component, $path)` on values, the
   * state `Registry.CreateUnit` leaves and the unit it answers: a new name
   * becomes a unit without dependencies, owned by `component` or placed by
   * `createByUnitOfCode`, and listed by its owner; an existing unit moves
   * to `component` when one is given and takes a non-falsy `path`.
   */
  ghost function UnitCreated(st: State, fullName: string, component: Option<nat>, path: Option<string>, h: Host)
    : (r: (State, nat))
    requires Indexed(st) && (component.Some? ==> component.value < |st.cs|)
    ensures Indexed(r.0) && r.1 < |r.0.us| && |st.us| <= |r.0.us| && |st.cs| <= |r.0.cs|
    ensures Trim(fullName, {'\\'}) in r.0.uids && r.0.uids[Trim(fullName, {'\\'})] == r.1
    ensures forall n :: n in st.uids ==> n in r.0.uids && r.0.uids[n] == st.uids[n]
  {
    var name := Trim(fullName, {'\\'});
    if name !in st.uids then
      var kind := Types.Classify(h, name);
      UnitAppended(st, name, kind, NewUnitPath(h, name, kind, path), component)
    else UnitUpdated(st, name, component, path)
  }

  /**
   * A new name of the given kind and path: a unit without dependencies,
   * owned by `component` or placed by `createByUnitOfCode`.
   */
  ghost function UnitAppended(st: State, name: string, kind: Types.Type, p: Option<string>, component: Option<nat>)
    : (r: (State, nat))
    requires Indexed(st) && (component.Some? ==> component.value < |st.cs|) && name !in st.uids
    ensures Indexed(r.0) && r.1 < |r.0.us| && |st.us| <= |r.0.us| && |st.cs| <= |r.0.cs|
    ensures name in r.0.uids && r.0.uids[name] == r.1
    ensures forall n :: n in st.uids ==> n in r.0.uids && r.0.uids[n] == st.uids[n]
  {
    var g := Owner(st, name, component, p, kind);
    var x := Unit(name, p, kind, [], [], g.id);
    AppendedIndexed(st, g, x);
    (Appended(st, g, x), |st.us|)
  }

  /** A new unit `x` appended to the units and listed by its owner `g.id`. */
  ghost function Appended(st: State, g: Registered, x: Unit): State
    requires g.id < |g.cs|
  {
    State(g.ids, WithUnit(g.cs, g.id, |st.us|), st.uids[x.name := |st.us|], st.us + [x])
  }

  /** The owner of a new unit: `component` when one is given, otherwise the one `createByUnitOfCode` places it in. */
  ghost function Owner(st: State, name: string, component: Option<nat>, p: Option<string>, kind: Types.Type)
    : (g: Registered)
    requires Indexed(st) && (component.Some? ==> component.value < |st.cs|)
    ensures ComponentIndex(g.ids, g.cs) && g.id < |g.cs| && |st.cs| <= |g.cs|
  {
    ResolvedIndexed(st.ids, st.cs, name, p, kind);
    if component.Some? then Registered(st.ids, st.cs, component.value) else Resolved(st.ids, st.cs, name, p, kind)
  }

  /** A registered name: its unit moves to `component` when one is given and takes a non-falsy `path`. */
  ghost function UnitUpdated(st: State, name: string, component: Option<nat>, path: Option<string>)
    : (r: (State, nat))
    requires Indexed(st) && (component.Some? ==> component.value < |st.cs|) && name in st.uids
    ensures Indexed(r.0) && r.1 < |r.0.us| && |st.us| <= |r.0.us| && |st.cs| <= |r.0.cs|
    ensures name in r.0.uids && r.0.uids[name] == r.1
    ensures forall n :: n in st.uids ==> n in r.0.uids && r.0.uids[n] == st.uids[n]
  {
    var u := st.uids[name];
    var x := st.us[u].(component := if component.Some? then component.value else st.us[u].component,
                       path := if path.Some? && !Falsy(path.value) then path else st.us[u].path);
    MovedIndexed(st, u, x);
    (State(st.ids, if component.Some? then Moved(st.cs, st.us[u].component, component.value, u) else st.cs,
           st.uids, st.us[u := x]), u)
  }

  /** The state `Registry.CreateUnit` promises is the one `UnitCreated` gives. */
  lemma CreateUnitState(st0: State, st1: State, u: nat, fullName: string, component: Option<nat>, path: Option<string>,
                        h: Host)
    requires Indexed(st0) && (component.Some? ==> component.value < |st0.cs|)
    requires var name := Trim(fullName, {'\\'});
      u < |st1.us| && st1.us[u].name == name && st1.uids == st0.uids[name := u]
    requires var name := Trim(fullName, {'\\'});
      var kind := Types.Classify(h, name);
      var p := NewUnitPath(h, name, kind, path);
      var r := if component.Some? then Registered(st0.ids, st0.cs, component.value)
               else Resolved(st0.ids, st0.cs, name, p, kind);
      name !in st0.uids ==>
        u == |st0.us| && st1.us == st0.us + [Unit(name, p, kind, [], [], r.id)]
        && st1.ids == r.ids && r.id < |r.cs| && st1.cs == WithUnit(r.cs, r.id, u)
    requires var name := Trim(fullName, {'\\'});
      name in st0.uids ==>
        u == st0.uids[name] && u < |st0.us| && st1.ids == st0.ids
        && st1.cs == (if component.Some? then Moved(st0.cs, st0.us[u].component, component.value, u) else st0.cs)
        && st1.us == st0.us[u := st0.us[u].(
             component := if component.Some? then component.value else st0.us[u].component,
             path := if path.Some? && !Falsy(path.value) then path else st0.us[u].path)]
    ensures (st1, u) == UnitCreated(st0, fullName, component, path, h)
  {
    var name := Trim(fullName, {'\\'});
    if name in st0.uids {
      assert st1.uids == st0.uids;
    }
  }

  /** A new unit appended and listed by its owner keeps the indexes. */
  lemma AppendedIndexed(st: State, g: Registered, x: Unit)
    requires Indexed(st) && ComponentIndex(g.ids, g.cs) && g.id < |g.cs| && |st.cs| <= |g.cs|
    requires x.name !in st.uids && x.component == g.id
    ensures var r := Appended(st, g, x);
      Indexed(r) && |st.us| < |r.us| && |st.cs| <= |r.cs| && x.name in r.uids && r.uids[x.name] == |st.us|
      && forall n :: n in st.uids ==> n in r.uids && r.uids[n] == st.uids[n]
  {
    var r := Appended(st, g, x);
    WithUnitIndexed(g.ids, g.cs, g.id, |st.us|);
    AppendedUnitIndex(st.uids, st.us, x);
    forall v | 0 <= v < |r.us| ensures r.us[v].component < |r.cs| {
      if v < |st.us| {
        assert r.us[v] == st.us[v];
      }
    }
  }

  /** Listing a unit in a component keeps the component index. */
  lemma WithUnitIndexed(ids: map<string, nat>, cs: seq<Component>, c: nat, u: nat)
    requires ComponentIndex(ids, cs) && c < |cs|
    ensures ComponentIndex(ids, WithUnit(cs, c, u)) && |WithUnit(cs, c, u)| == |cs|
  {
    var cs1 := WithUnit(cs, c, u);
    forall k | 0 <= k < |cs1| ensures cs1[k].name == cs[k].name {
    }
  }

  /** Appending a unit of a new name keeps the unit index. */
  lemma AppendedUnitIndex(uids: map<string, nat>, us: seq<Unit>, x: Unit)
    requires UnitIndex(uids, us) && x.name !in uids
    ensures UnitIndex(uids[x.name := |us|], us + [x])
  {
    var us1 := us + [x];
    forall v | 0 <= v < |us| ensures us1[v].name == us[v].name {
    }
  }

  /** A unit updated in place, keeping its name, and moved to an existing owner keeps the indexes. */
  lemma MovedIndexed(st: State, u: nat, x: Unit)
    requires Indexed(st) && u < |st.us| && x.name == st.us[u].name && x.component < |st.cs|
    ensures Indexed(State(st.ids, Moved(st.cs, st.us[u].component, x.component, u), st.uids, st.us[u := x]))
    ensures Indexed(State(st.ids, st.cs, st.uids, st.us[u := x]))
  {
    var cs := Moved(st.cs, st.us[u].component, x.component, u);
    forall k | 0 <= k < |cs| ensures cs[k].name == st.cs[k].name {
    }
  }

  /** The units the names of `deps` are registered as, in order, leaving out `u` itself. */
  function Targets(uids: map<string, nat>, u: nat, deps: seq<string>): (r: seq<nat>)
    ensures forall x :: x in r ==> x != u
    decreases |deps|
  {
    if deps == [] then []
    else
      var n := Trim(deps[|deps| - 1], {'\\'});
      Targets(uids, u, deps[..|deps| - 1]) + (if n in uids && uids[n] != u then [uids[n]] else [])
  }

  /** A unit with its edges erased: what analysis never changes for a unit of the old state. */
  function Sans(x: Unit): Unit
  {
    x.(outputs := [], inputs := [])
  }

  /** Registering more names changes no target of names already registered. */
  lemma {:induction false} TargetsKept(uids0: map<string, nat>, uids1: map<string, nat>, u: nat, deps: seq<string>)
    requires NamesIn(deps, uids0) && UidsKept(uids0, uids1)
    ensures Targets(uids0, u, deps) == Targets(uids1, u, deps)
    decreases |deps|
  {
    if deps != [] {
      var init := deps[..|deps| - 1];
      assert deps[|deps| - 1] in deps;
      assert forall x :: x in init ==> x in deps;
      TargetsKept(uids0, uids1, u, init);
    }
  }

  /** The targets of one more name, registered by then, once the names before it are registered. */
  lemma TargetsSnoc(uids0: map<string, nat>, uids1: map<string, nat>, u: nat, names: seq<string>, name: string)
    requires NamesIn(names, uids0) && UidsKept(uids0, uids1) && Trim(name, {'\\'}) in uids1
    ensures var d := uids1[Trim(name, {'\\'})];
      Targets(uids1, u, names + [name]) == Targets(uids0, u, names) + (if d != u then [d] else [])
  {
    TargetsKept(uids0, uids1, u, names);
    assert (names + [name])[..|names|] == names;
  }

  /**
   * `UnitOfCode::create($dependency)` without a component or a path: a
   * registered name answers its unit and changes nothing; a new one is
   * appended without edges.
   */
  lemma DependencyRegistered(st: State, name: string, h: Host)
    requires Indexed(st)
    ensures var m := UnitCreated(st, name, None, None, h);
      var n := Trim(name, {'\\'});
      m.0.uids == st.uids[n := m.1]
      && (n in st.uids ==> m.1 == st.uids[n] && m.0.us == st.us)
      && (n !in st.uids ==>
            m.1 == |st.us| && |m.0.us| == |st.us| + 1 && m.0.us[..|st.us|] == st.us
            && m.0.us[m.1].name == n && m.0.us[m.1].outputs == [] && m.0.us[m.1].inputs == [])
  {
    var n := Trim(name, {'\\'});
    if n in st.uids {
      var u := st.uids[n];
      assert st.us[u := st.us[u]] == st.us;
    }
  }

  /** Every name of `names` is registered. */
  ghost predicate NamesIn(names: seq<string>, uids: map<string, nat>)
  {
    forall n :: n in names ==> Trim(n, {'\\'}) in uids
  }

  /** Every name registered in `uids0` names the same unit in `uids1`. */
  ghost predicate UidsKept(uids0: map<string, nat>, uids1: map<string, nat>)
  {
    forall n :: n in uids0 ==> n in uids1 && uids1[n] == uids0[n]
  }

  /** `u` gained `ts` as outputs in order; no other unit gained any, and new units have none. */
  ghost predicate OutputsFrom(us0: seq<Unit>, us: seq<Unit>, u: nat, ts: seq<nat>)
    requires u < |us0| <= |us|
  {
    us[u].outputs == us0[u].outputs + ts
    && (forall v :: 0 <= v < |us0| && v != u ==> us[v].outputs == us0[v].outputs)
    && (forall v :: |us0| <= v < |us| ==> us[v].outputs == [])
  }

  /** Each of `ts` gained `u` as an input, and no other old unit gained any. */
  ghost predicate InputsFrom(us0: seq<Unit>, us: seq<Unit>, u: nat, ts: seq<nat>)
    requires u < |us0| <= |us|
  {
    us[u].inputs == us0[u].inputs
    && (forall v :: 0 <= v < |us0| && v !in ts ==> us[v].inputs == us0[v].inputs)
    && (forall v :: v in ts ==> v != u && v < |us| && u in us[v].inputs)
  }

  /** Whether `s` is one of `names` with its backslashes trimmed. */
  ghost predicate NameOf(names: seq<string>, s: string)
  {
    exists n :: n in names && s == Trim(n, {'\\'})
  }

  /** Old units changed in their edges at most, and each new one is a name's of `names`. */
  ghost predicate OthersFrom(us0: seq<Unit>, us: seq<Unit>, names: seq<string>)
    requires |us0| <= |us|
  {
    (forall v :: 0 <= v < |us0| ==> Sans(us[v]) == Sans(us0[v]))
    && (forall v :: |us0| <= v < |us| ==> NameOf(names, us[v].name))
  }

  /**
   * What linking `u` to the names of `names` did to the units `st` had,
   * giving `uids` and `us`.
   */
  ghost predicate LinkedFrom(st: State, uids: map<string, nat>, us: seq<Unit>, u: nat, ts: seq<nat>, names: seq<string>)
  {
    u < |st.us| <= |us| && NamesIn(names, uids) && UidsKept(st.uids, uids)
    && OutputsFrom(st.us, us, u, ts) && InputsFrom(st.us, us, u, ts) && OthersFrom(st.us, us, names)
  }

  /**
   * `UnitOfCode::create($name)` without a component or a path, on the
   * units alone: `d` is the unit the name is registered as, a new one
   * without edges when it was not.
   */
  ghost predicate Registering(uids: map<string, nat>, us: seq<Unit>, n: string, uids1: map<string, nat>,
                              us1: seq<Unit>, d: nat)
  {
    uids1 == uids[n := d] && d < |us1|
    && (n in uids ==> d == uids[n] && us1 == us)
    && (n !in uids ==> d == |us| && |us1| == |us| + 1 && us1[..|us|] == us
                       && us1[d].name == n && us1[d].outputs == [] && us1[d].inputs == [])
  }

  /** Registering keeps every old unit. */
  lemma RegisteringKeeps(uids: map<string, nat>, us: seq<Unit>, n: string, uids1: map<string, nat>, us1: seq<Unit>,
                         d: nat)
    requires Registering(uids, us, n, uids1, us1, d)
    ensures |us| <= |us1| && forall v :: 0 <= v < |us| ==> us1[v] == us[v]
  {
    if n !in uids {
      forall v | 0 <= v < |us|
        ensures us1[v] == us[v]
      {
        assert us1[..|us|][v] == us[v];
      }
    }
  }

  /** The edge to `d` extends the outputs of `u` alone. */
  lemma OutputsAppend(us0: seq<Unit>, us: seq<Unit>, u: nat, ts: seq<nat>, us1: seq<Unit>, d: nat)
    requires u < |us0| <= |us| <= |us1| && d < |us1| && OutputsFrom(us0, us, u, ts)
    requires forall v :: 0 <= v < |us| ==> us1[v] == us[v]
    requires forall v :: |us| <= v < |us1| ==> us1[v].outputs == []
    ensures OutputsFrom(us0, AddedOutput(us1, u, d), u, ts + (if d != u then [d] else []))
  {
    AddedOutputEdges(us1, u, d);
  }

  /** The edge to `d` lists `u` among the inputs of `d`. */
  lemma InputsAppend(us0: seq<Unit>, us: seq<Unit>, u: nat, ts: seq<nat>, us1: seq<Unit>, d: nat)
    requires u < |us0| <= |us| <= |us1| && d < |us1| && InputsFrom(us0, us, u, ts)
    requires forall v :: 0 <= v < |us| ==> us1[v] == us[v]
    ensures InputsFrom(us0, AddedOutput(us1, u, d), u, ts + (if d != u then [d] else []))
  {
    var r := AddedOutput(us1, u, d);
    var ts1 := ts + (if d != u then [d] else []);
    AddedOutputEdges(us1, u, d);
    forall v | v in ts1
      ensures v != u && v < |r| && u in r[v].inputs
    {
      if v != d {
        assert v in ts;
      }
    }
  }

  /** The edge to `d` keeps every old unit but its edges, and a new unit is the new name's. */
  lemma OthersAppend(us0: seq<Unit>, us: seq<Unit>, u: nat, names: seq<string>, name: string, us1: seq<Unit>, d: nat)
    requires u < |us0| <= |us| <= |us1| && d < |us1| && OthersFrom(us0, us, names)
    requires forall v :: 0 <= v < |us| ==> us1[v] == us[v]
    requires forall v :: |us| <= v < |us1| ==> us1[v].name == Trim(name, {'\\'})
    ensures OthersFrom(us0, AddedOutput(us1, u, d), names + [name])
  {
    var r := AddedOutput(us1, u, d);
    AddedOutputEdges(us1, u, d);
    forall v | 0 <= v < |us0|
      ensures Sans(r[v]) == Sans(us0[v])
    {
      assert Sans(r[v]) == Sans(us1[v]);
    }
    forall v | |us0| <= v < |r|
      ensures NameOf(names + [name], r[v].name)
    {
      assert r[v].name == us1[v].name;
      if v < |us| {
        var x :| x in names && us[v].name == Trim(x, {'\\'});
        assert x in names + [name];
      } else {
        assert name in names + [name];
      }
    }
  }

  /** One more name linked, on the units alone: the output edge to its unit `d` is added. */
  lemma LinkedAppend(st: State, uids: map<string, nat>, us: seq<Unit>, u: nat, ts: seq<nat>, names: seq<string>,
                     name: string, uids1: map<string, nat>, us1: seq<Unit>, d: nat)
    requires LinkedFrom(st, uids, us, u, ts, names)
    requires Registering(uids, us, Trim(name, {'\\'}), uids1, us1, d)
    ensures LinkedFrom(st, uids1, AddedOutput(us1, u, d), u, ts + (if d != u then [d] else []), names + [name])
  {
    RegisteringKeeps(uids, us, Trim(name, {'\\'}), uids1, us1, d);
    OutputsAppend(st.us, us, u, ts, us1, d);
    InputsAppend(st.us, us, u, ts, us1, d);
    OthersAppend(st.us, us, u, names, name, us1, d);
    forall x | x in names + [name]
      ensures Trim(x, {'\\'}) in uids1
    {
      if x in names {
      }
    }
  }

  /** One more name linked: its unit, unless `u` itself, is appended to the targets. */
  lemma DependencyLinkedStep(st: State, p: State, u: nat, ts: seq<nat>, names: seq<string>, name: string, h: Host)
    requires Indexed(p) && LinkedFrom(st, p.uids, p.us, u, ts, names)
    ensures var r := DependencyLinked(p, u, name, h);
      var n := Trim(name, {'\\'});
      n in r.uids && (forall x :: x in p.uids ==> x in r.uids && r.uids[x] == p.uids[x])
      && LinkedFrom(st, r.uids, r.us, u, ts + (if r.uids[n] != u then [r.uids[n]] else []), names + [name])
  {
    var m := UnitCreated(p, name, None, None, h);
    DependencyRegistered(p, name, h);
    LinkedAppend(st, p.uids, p.us, u, ts, names, name, m.0.uids, m.0.us, m.1);
  }

  /** `UnitOfCode::create($dependency)` and `addOutputDependency` to it, on values. */
  ghost function DependencyLinked(st: State, u: nat, name: string, h: Host): (r: State)
    requires Indexed(st) && u < |st.us|
    ensures Indexed(r) && u < |r.us| && |st.us| <= |r.us| && |st.cs| <= |r.cs|
    ensures forall n :: n in st.uids ==> n in r.uids && r.uids[n] == st.uids[n]
    ensures Trim(name, {'\\'}) in r.uids
  {
    var m := UnitCreated(st, name, None, None, h);
    LinkedIndexed(m.0, u, m.1);
    m.0.(us := AddedOutput(m.0.us, u, m.1))
  }

  /** An output edge changes no unit's name or owner, so it keeps the indexes. */
  lemma LinkedIndexed(st: State, u: nat, d: nat)
    requires Indexed(st) && u < |st.us| && d < |st.us|
    ensures Indexed(st.(us := AddedOutput(st.us, u, d)))
  {
    var us := AddedOutput(st.us, u, d);
    forall v | 0 <= v < |us|
      ensures us[v].name == st.us[v].name && us[v].component == st.us[v].component
    {
    }
  }

  /** The loop over the first `k` names the finder reports for unit `u`. */
  ghost function DependenciesLinked(st: State, u: nat, deps: seq<string>, k: nat, h: Host): (r: State)
    requires Indexed(st) && u < |st.us| && k <= |deps|
    ensures Indexed(r) && u < |r.us| && |st.us| <= |r.us| && |st.cs| <= |r.cs|
    ensures LinkedFrom(st, r.uids, r.us, u, Targets(r.uids, u, deps[..k]), deps[..k])
    decreases k
  {
    if k == 0 then
      assert deps[..0] == [];
      st
    else
      var p := DependenciesLinked(st, u, deps, k - 1, h);
      LinkedSnoc(st, p, u, deps, k, h);
      DependencyLinked(p, u, deps[k - 1], h)
  }

  /** One more name linked, with the targets recomputed over the first `k` names. */
  lemma LinkedSnoc(st: State, p: State, u: nat, deps: seq<string>, k: nat, h: Host)
    requires 0 < k <= |deps| && Indexed(p)
    requires LinkedFrom(st, p.uids, p.us, u, Targets(p.uids, u, deps[..k - 1]), deps[..k - 1])
    ensures var r := DependencyLinked(p, u, deps[k - 1], h);
      LinkedFrom(st, r.uids, r.us, u, Targets(r.uids, u, deps[..k]), deps[..k])
  {
    var names, name := deps[..k - 1], deps[k - 1];
    DependencyLinkedStep(st, p, u, Targets(p.uids, u, names), names, name, h);
    var r := DependencyLinked(p, u, name, h);
    TargetsSnoc(p.uids, r.uids, u, names, name);
    TakeSnoc(deps, k);
  }


  /**
   * One file, on values: its unit is created in `c` with the file's path,
   * then linked to each name the finder reports for that path.
   */
  ghost function FileAnalysis(st: State, c: nat, f: (Path, string), finder: Finder, h: Host): (r: State)
    requires Indexed(st) && c < |st.cs|
    ensures Indexed(r) && |st.cs| <= |r.cs|
  {
    var m := UnitCreated(st, UnitName(f.0, f.1), Some(c), Some(f.1), h);
    var deps := Dependencies(finder, h, m.0.us[m.1].path);
    DependenciesLinked(m.0, m.1, deps, |deps|, h)
  }

  /** The files of `fs` analysed one after the other, in order. */
  ghost function FilesAnalysis(st: State, c: nat, fs: seq<(Path, string)>, finder: Finder, h: Host): (r: State)
    requires Indexed(st) && c < |st.cs|
    ensures Indexed(r) && |st.cs| <= |r.cs|
    decreases |fs|
  {
    if fs == [] then st
    else FileAnalysis(FilesAnalysis(st, c, fs[..|fs| - 1], finder, h), c, fs[|fs| - 1], finder, h)
  }

  /**
   * `analyze($component)` on values: nothing for a component disabled for
   * analysis, otherwise the files it lists, root by root.
   */
  ghost function ComponentAnalysis(st: State, c: nat, finder: Finder, listing: Path -> seq<Option<string>>, h: Host)
    : (r: State)
    requires Indexed(st) && c < |st.cs|
    ensures Indexed(r) && |st.cs| <= |r.cs|
  {
    if !st.cs[c].enabled then st
    else FilesAnalysis(st, c, AnalyzedFiles(st.cs[c].roots, st.cs[c].excluded, listing), finder, h)
  }

  /** Analysing the files of `fs` and then `f` is analysing `fs + [f]`. */
  lemma FilesAnalysisStep(st: State, c: nat, fs: seq<(Path, string)>, f: (Path, string), finder: Finder, h: Host)
    requires Indexed(st) && c < |st.cs|
    ensures FilesAnalysis(st, c, fs + [f], finder, h) == FileAnalysis(FilesAnalysis(st, c, fs, finder, h), c, f, finder, h)
  {
    assert (fs + [f])[..|fs|] == fs;
  }

  /** Analysing `a` and then `b` is analysing `a + b`. */
  lemma {:induction false} FilesAnalysisAppend(st: State, c: nat, a: seq<(Path, string)>, b: seq<(Path, string)>,
                                                finder: Finder, h: Host)
    requires Indexed(st) && c < |st.cs|
    ensures FilesAnalysis(st, c, a + b, finder, h) == FilesAnalysis(FilesAnalysis(st, c, a, finder, h), c, b, finder, h)
    decreases |b|
  {
    if b == [] {
      assert a + b == a;
    } else {
      var b0, l := b[..|b| - 1], b[|b| - 1];
      assert a + b == (a + b0) + [l] && b == b0 + [l];
      FilesAnalysisStep(st, c, a + b0, l, finder, h);
      FilesAnalysisAppend(st, c, a, b0, finder, h);
      FilesAnalysisStep(FilesAnalysis(st, c, a, finder, h), c, b0, l, finder, h);
    }
  }


  /** The unit of file `f` is analysed in the given registry state. */
  ghost predicate Done(uids: map<string, nat>, us: seq<Unit>, c: nat, finder: Finder, h: Host, f: (Path, string))
  {
    FileAnalyzed(uids, us, c, Trim(UnitName(f.0, f.1), {'\\'}), Dependencies(finder, h, Some(f.1)))
  }

  // ------------------------------------------------------------ the loops

  /** A link survives any change that keeps the registry. */
  lemma KeepsLinked(uids0: map<string, nat>, us0: seq<Unit>, uids1: map<string, nat>, us1: seq<Unit>, c: nat,
                    u: nat, n: string)
    requires Keeps(uids0, us0, uids1, us1, c) && Linked(uids0, us0, u, n)
    ensures Linked(uids1, us1, u, n)
  {
    if uids0[n] != u {
      assert uids0[n] in us0[u].outputs;
    }
  }

  /** An edge from `u` to `d` keeps the registry and links `u` to the name `d` is registered as. */
  lemma EdgeKeeps(uids: map<string, nat>, us: seq<Unit>, c: nat, u: nat, d: nat, n: string)
    requires u < |us| && d < |us| && n in uids && uids[n] == d
    ensures Keeps(uids, us, uids, AddedOutput(us, u, d), c) && Linked(uids, AddedOutput(us, u, d), u, n)
  {
    AddedOutputEdges(us, u, d);
  }

  /** `UnitOfCode::create($dependency)` and `addOutputDependency` to it. */
  method AddDependency(reg: Registry, c: nat, u: nat, name: string, h: Host)
    requires reg.Valid() && u < |reg.units|
    modifies reg
    ensures reg.Valid() && u < |reg.units|
    ensures Keeps(old(reg.unitIds), old(reg.units), reg.unitIds, reg.units, c)
    ensures Settled(old(reg.components), reg.components)
    ensures Linked(reg.unitIds, reg.units, u, Trim(name, {'\\'}))
    ensures StateOf(reg) == DependencyLinked(old(StateOf(reg)), u, name, h)
  {
    var d := CreateDependency(reg, name, h, c);
    ghost var uids1, us1 := reg.unitIds, reg.units;
    reg.AddOutputDependency(u, d);
    EdgeKeeps(uids1, us1, c, u, d, Trim(name, {'\\'}));
    KeepsTransitive(old(reg.unitIds), old(reg.units), uids1, us1, reg.unitIds, reg.units, c);
  }

  /** `u` is linked to the first `k` of the reported names. */
  ghost predicate LinkedTo(uids: map<string, nat>, us: seq<Unit>, u: nat, deps: seq<string>, k: nat)
    requires k <= |deps|
  {
    forall j :: 0 <= j < k ==> Linked(uids, us, u, Trim(deps[j], {'\\'}))
  }

  /** A step of the loop over reported names keeps the earlier links and adds the next. */
  lemma LinkedToStep(uids0: map<string, nat>, us0: seq<Unit>, uids1: map<string, nat>, us1: seq<Unit>, c: nat,
                     u: nat, deps: seq<string>, k: nat)
    requires k < |deps| && Keeps(uids0, us0, uids1, us1, c) && LinkedTo(uids0, us0, u, deps, k)
    requires Linked(uids1, us1, u, Trim(deps[k], {'\\'}))
    ensures LinkedTo(uids1, us1, u, deps, k + 1)
  {
    forall j | 0 <= j < k ensures Linked(uids1, us1, u, Trim(deps[j], {'\\'})) {
      KeepsLinked(uids0, us0, uids1, us1, c, u, Trim(deps[j], {'\\'}));
    }
  }

  /** The loop over what the finder reports. */
  method AddDependencies(reg: Registry, c: nat, u: nat, deps: seq<string>, h: Host)
    requires reg.Valid() && u < |reg.units|
    modifies reg
    ensures reg.Valid() && u < |reg.units|
    ensures Keeps(old(reg.unitIds), old(reg.units), reg.unitIds, reg.units, c)
    ensures Settled(old(reg.components), reg.components)
    ensures LinkedTo(reg.unitIds, reg.units, u, deps, |deps|)
    ensures StateOf(reg) == DependenciesLinked(old(StateOf(reg)), u, deps, |deps|, h)
  {
    for k := 0 to |deps|
      invariant reg.Valid() && u < |reg.units|
      invariant StateOf(reg) == DependenciesLinked(old(StateOf(reg)), u, deps, k, h)
      invariant Keeps(old(reg.unitIds), old(reg.units), reg.unitIds, reg.units, c)
      invariant Settled(old(reg.components), reg.components)
      invariant LinkedTo(reg.unitIds, reg.units, u, deps, k)
    {
      ghost var uids0, us0, cs0 := reg.unitIds, reg.units, reg.components;
      AddDependency(reg, c, u, deps[k], h);
      KeepsTransitive(old(reg.unitIds), old(reg.units), uids0, us0, reg.unitIds, reg.units, c);
      SettledTransitive(old(reg.components), cs0, reg.components);
      LinkedToStep(uids0, us0, reg.unitIds, reg.units, c, u, deps, k);
    }
  }

  /** What `UnitOfCode::create($dependency)` promises, with neither component nor path, stated on values. */
  lemma DependencyCreated(ids0: map<string, nat>, cs0: seq<Component>, uids0: map<string, nat>, us0: seq<Unit>,
                          ids1: map<string, nat>, cs1: seq<Component>, uids1: map<string, nat>, us1: seq<Unit>,
                          name: string, h: Host, c: nat, d: nat)
    requires Consistent(ids0, cs0, uids0, us0)
    requires var n := Trim(name, {'\\'});
      d < |us1| && us1[d].name == n && uids1 == uids0[n := d]
    requires var n := Trim(name, {'\\'});
      var kind := Types.Classify(h, n);
      var p := NewUnitPath(h, n, kind, None);
      var r := Resolved(ids0, cs0, n, p, kind);
      n !in uids0 ==>
        d == |us0| && us1 == us0 + [Unit(n, p, kind, [], [], r.id)]
        && ids1 == r.ids && r.id < |r.cs| && cs1 == WithUnit(r.cs, r.id, d)
    requires var n := Trim(name, {'\\'});
      n in uids0 ==>
        d == uids0[n] && d < |us0| && ids1 == ids0 && cs1 == cs0
        && us1 == us0[d := us0[d].(component := us0[d].component, path := us0[d].path)]
    ensures Keeps(uids0, us0, uids1, us1, c) && Settled(cs0, cs1)
  {
    var n := Trim(name, {'\\'});
    if n !in uids0 {
      var kind := Types.Classify(h, n);
      ResolvedSettled(ids0, cs0, n, NewUnitPath(h, n, kind, None), kind);
    } else {
      assert us1 == us0;
    }
  }

  /** `UnitOfCode::create($dependency)` with neither component nor path. */
  method CreateDependency(reg: Registry, name: string, h: Host, c: nat) returns (d: nat)
    requires reg.Valid()
    modifies reg
    ensures reg.Valid() && d < |reg.units|
    ensures (StateOf(reg), d) == UnitCreated(old(StateOf(reg)), name, None, None, h)
    ensures Trim(name, {'\\'}) in reg.unitIds && reg.unitIds[Trim(name, {'\\'})] == d
    ensures Keeps(old(reg.unitIds), old(reg.units), reg.unitIds, reg.units, c)
    ensures Settled(old(reg.components), reg.components)
  {
    d := reg.CreateUnit(name, None, None, h);
    CreateUnitState(old(StateOf(reg)), StateOf(reg), d, name, None, None, h);
    DependencyCreated(old(reg.componentIds), old(reg.components), old(reg.unitIds), old(reg.units),
                      reg.componentIds, reg.components, reg.unitIds, reg.units, name, h, c, d);
  }

  /**
   * What `UnitOfCode::create($fullName, $component, $fullPath)` promises,
   * stated on values: the unit of the file is owned by `c` and has that path.
   */
  lemma FileUnitCreated(ids0: map<string, nat>, cs0: seq<Component>, uids0: map<string, nat>, us0: seq<Unit>,
                        ids1: map<string, nat>, cs1: seq<Component>, uids1: map<string, nat>, us1: seq<Unit>,
                        fullName: string, c: nat, fullPath: string, h: Host, u: nat)
    requires Consistent(ids0, cs0, uids0, us0) && c < |cs0| && !Falsy(fullPath)
    requires var n := Trim(fullName, {'\\'});
      u < |us1| && us1[u].name == n && uids1 == uids0[n := u]
    requires var n := Trim(fullName, {'\\'});
      var kind := Types.Classify(h, n);
      var p := NewUnitPath(h, n, kind, Some(fullPath));
      n !in uids0 ==>
        u == |us0| && us1 == us0 + [Unit(n, p, kind, [], [], c)]
        && ids1 == ids0 && cs1 == WithUnit(cs0, c, u)
    requires var n := Trim(fullName, {'\\'});
      n in uids0 ==>
        u == uids0[n] && u < |us0| && ids1 == ids0
        && cs1 == Moved(cs0, us0[u].component, c, u)
        && us1 == us0[u := us0[u].(component := c, path := Some(fullPath))]
    ensures Keeps(uids0, us0, uids1, us1, c) && Settled(cs0, cs1)
    ensures us1[u].component == c && uids1[Trim(fullName, {'\\'})] == u
    ensures us1[u].path == Some(fullPath)
  {
    if Trim(fullName, {'\\'}) in uids0 {
      UnitMovedKeeps(cs0, us0, cs1, us1, c, u, fullPath);
    }
  }

  /** An existing unit moved to `c` with a new path: nothing else changes. */
  lemma UnitMovedKeeps(cs0: seq<Component>, us0: seq<Unit>, cs1: seq<Component>, us1: seq<Unit>,
                       c: nat, u: nat, fullPath: string)
    requires u < |us0| && us0[u].component < |cs0| && c < |cs0|
    requires cs1 == Moved(cs0, us0[u].component, c, u)
    requires us1 == us0[u := us0[u].(component := c, path := Some(fullPath))]
    ensures forall uids :: Keeps(uids, us0, uids, us1, c)
    ensures Settled(cs0, cs1)
  {
    var from := us0[u].component;
    if from != c {
      var mid := WithoutUnit(cs0, from, u);
      assert Settled(cs0, mid);
      assert Settled(mid, cs1);
    }
  }

  /** One file: its unit, created in `c` with the file's path, and the edges to what the finder reports. */
  method AnalyzeFile(reg: Registry, c: nat, root: Path, fullPath: string, finder: Finder, h: Host)
    requires reg.Valid() && c < |reg.components| && !Falsy(fullPath)
    modifies reg
    ensures reg.Valid()
    ensures Keeps(old(reg.unitIds), old(reg.units), reg.unitIds, reg.units, c)
    ensures Settled(old(reg.components), reg.components)
    ensures Done(reg.unitIds, reg.units, c, finder, h, (root, fullPath))
    ensures StateOf(reg) == FileAnalysis(old(StateOf(reg)), c, (root, fullPath), finder, h)
  {
    var fullName := RemoveDoubleBackslashes(root.namespace + PathToNamespace(root.GetRelativePath(fullPath)));
    var u := reg.CreateUnit(fullName, Some(c), Some(fullPath), h);
    CreateUnitState(old(StateOf(reg)), StateOf(reg), u, fullName, Some(c), Some(fullPath), h);
    FileUnitCreated(old(reg.componentIds), old(reg.components), old(reg.unitIds), old(reg.units),
                    reg.componentIds, reg.components, reg.unitIds, reg.units, fullName, c, fullPath, h, u);
    var deps := Find(finder, h, reg.units[u].path);
    ghost var uids1, us1, cs1 := reg.unitIds, reg.units, reg.components;
    AddDependencies(reg, c, u, deps, h);
    KeepsTransitive(old(reg.unitIds), old(reg.units), uids1, us1, reg.unitIds, reg.units, c);
    SettledTransitive(old(reg.components), cs1, reg.components);
    assert FileAnalyzed(reg.unitIds, reg.units, c, Trim(fullName, {'\\'}), deps);
  }

  /** Every file of `fs` is analysed in the given registry state. */
  ghost predicate AllDone(uids: map<string, nat>, us: seq<Unit>, c: nat, finder: Finder, h: Host, fs: seq<(Path, string)>)
  {
    forall k :: 0 <= k < |fs| ==> Done(uids, us, c, finder, h, fs[k])
  }

  /** Analysed files stay analysed while the registry is kept, and one more can be added. */
  lemma AllDoneStep(uids0: map<string, nat>, us0: seq<Unit>, uids1: map<string, nat>, us1: seq<Unit>, c: nat,
                    finder: Finder, h: Host, fs: seq<(Path, string)>, f: (Path, string))
    requires Keeps(uids0, us0, uids1, us1, c) && AllDone(uids0, us0, c, finder, h, fs)
    requires Done(uids1, us1, c, finder, h, f)
    ensures AllDone(uids1, us1, c, finder, h, fs + [f])
  {
    forall k | 0 <= k < |fs| ensures Done(uids1, us1, c, finder, h, fs[k]) {
      var f := fs[k];
      KeepsAnalyzed(uids0, us0, uids1, us1, c, Trim(UnitName(f.0, f.1), {'\\'}), Dependencies(finder, h, Some(f.1)));
    }
  }

  /** `RootFiles` over one more file of the listing. */
  lemma RootFilesStep(root: Path, excluded: seq<Path>, files: seq<Option<string>>, j: nat, before: seq<(Path, string)>)
    requires j < |files|
    ensures before + RootFiles(root, excluded, files[..j + 1])
      == before + RootFiles(root, excluded, files[..j])
         + (if files[j].Some? && !Falsy(files[j].value) && !ExcludedBy(excluded, files[j].value)
            then [(root, files[j].value)] else [])
  {
    assert files[..j + 1][..j] == files[..j];
  }

  /** The analysis of the files of `RootFiles` over one more file of the listing. */
  lemma RootFilesAnalysisStep(st: State, c: nat, root: Path, excluded: seq<Path>, files: seq<Option<string>>, j: nat,
                              finder: Finder, h: Host)
    requires Indexed(st) && c < |st.cs| && j < |files|
    ensures var before := FilesAnalysis(st, c, RootFiles(root, excluded, files[..j]), finder, h);
      FilesAnalysis(st, c, RootFiles(root, excluded, files[..j + 1]), finder, h)
      == if files[j].Some? && !Falsy(files[j].value) && !ExcludedBy(excluded, files[j].value)
         then FileAnalysis(before, c, (root, files[j].value), finder, h) else before
  {
    var pre := files[..j + 1];
    assert pre[..|pre| - 1] == files[..j] && pre[|pre| - 1] == files[j];
    var fs := RootFiles(root, excluded, files[..j]);
    var next := RootFiles(root, excluded, pre);
    if files[j].Some? && !Falsy(files[j].value) && !ExcludedBy(excluded, files[j].value) {
      FilesAnalysisStep(st, c, fs, (root, files[j].value), finder, h);
    } else {
      assert next == fs + [];
    }
  }

  /** `ComponentAnalyzer`: the dependencies finder it was built with, and `analyze`. */
  class ComponentAnalyzer {
    const finder: Finder

    constructor (finder: Finder)
      ensures this.finder == finder
    {
      this.finder := finder;
    }

    /**
     * `analyze($component)`: nothing for a component disabled for analysis;
     * otherwise every file `listing` gives for each root path, in order,
     * unless it has no real path or is excluded, becomes a unit of the
     * component with its dependencies.
     */
    method Analyze(reg: Registry, c: nat, listing: Path -> seq<Option<string>>, h: Host)
      requires reg.Valid() && c < |reg.components|
      modifies reg
      ensures reg.Valid()
      ensures !old(reg.components[c].enabled) ==>
        reg.componentIds == old(reg.componentIds) && reg.components == old(reg.components)
        && reg.unitIds == old(reg.unitIds) && reg.units == old(reg.units)
      ensures Keeps(old(reg.unitIds), old(reg.units), reg.unitIds, reg.units, c)
      ensures Settled(old(reg.components), reg.components)
      ensures old(reg.components[c].enabled) ==>
        AllDone(reg.unitIds, reg.units, c, finder, h,
                AnalyzedFiles(old(reg.components[c].roots), old(reg.components[c].excluded), listing))
      ensures StateOf(reg) == ComponentAnalysis(old(StateOf(reg)), c, finder, listing, h)
    {
      if !reg.components[c].enabled {
        return;
      }
      var roots := reg.components[c].roots;
      ghost var excluded := reg.components[c].excluded;
      ghost var each := (root: Path) => RootFiles(root, excluded, listing(root));
      for i := 0 to |roots|
        invariant reg.Valid() && c < |reg.components| && reg.components[c].excluded == excluded
        invariant Keeps(old(reg.unitIds), old(reg.units), reg.unitIds, reg.units, c)
        invariant Settled(old(reg.components), reg.components)
        invariant AllDone(reg.unitIds, reg.units, c, finder, h, ConcatMap(roots[..i], each))
        invariant StateOf(reg) == FilesAnalysis(old(StateOf(reg)), c, ConcatMap(roots[..i], each), finder, h)
      {
        ConcatMapStep(roots, each, i);
        FilesAnalysisAppend(old(StateOf(reg)), c, ConcatMap(roots[..i], each), each(roots[i]), finder, h);
        ghost var uids0, us0, cs0 := reg.unitIds, reg.units, reg.components;
        AnalyzeRoot(reg, c, roots[i], listing(roots[i]), h, ConcatMap(roots[..i], each));
        KeepsTransitive(old(reg.unitIds), old(reg.units), uids0, us0, reg.unitIds, reg.units, c);
        SettledTransitive(old(reg.components), cs0, reg.components);
      }
      TakeAll(roots);
    }

    /** One file of the listing: skipped without a real path or when excluded, analysed otherwise. */
    method AnalyzeListed(reg: Registry, c: nat, root: Path, fullPath: Option<string>, h: Host,
                         ghost before: seq<(Path, string)>)
      requires reg.Valid() && c < |reg.components|
      requires AllDone(reg.unitIds, reg.units, c, finder, h, before)
      modifies reg
      ensures reg.Valid() && c < |reg.components| && reg.components[c].excluded == old(reg.components[c].excluded)
      ensures Keeps(old(reg.unitIds), old(reg.units), reg.unitIds, reg.units, c)
      ensures Settled(old(reg.components), reg.components)
      ensures AllDone(reg.unitIds, reg.units, c, finder, h,
                      before + if fullPath.Some? && !Falsy(fullPath.value)
                                  && !ExcludedBy(old(reg.components[c].excluded), fullPath.value)
                               then [(root, fullPath.value)] else [])
      ensures StateOf(reg) == if fullPath.Some? && !Falsy(fullPath.value)
                                 && !ExcludedBy(old(reg.components[c].excluded), fullPath.value)
                              then FileAnalysis(old(StateOf(reg)), c, (root, fullPath.value), finder, h)
                              else old(StateOf(reg))
    {
      if fullPath.None? || Falsy(fullPath.value) {
        assert before + [] == before;
        return;
      }
      var skipped := reg.IsExcluded(c, fullPath.value);
      if skipped {
        assert before + [] == before;
        return;
      }
      AnalyzeFile(reg, c, root, fullPath.value, finder, h);
      AllDoneStep(old(reg.unitIds), old(reg.units), reg.unitIds, reg.units, c, finder, h, before, (root, fullPath.value));
    }

    /** The files of one root path, in the order the listing gives them. */
    method AnalyzeRoot(reg: Registry, c: nat, root: Path, files: seq<Option<string>>, h: Host,
                       ghost before: seq<(Path, string)>)
      requires reg.Valid() && c < |reg.components|
      requires AllDone(reg.unitIds, reg.units, c, finder, h, before)
      modifies reg
      ensures reg.Valid() && c < |reg.components| && reg.components[c].excluded == old(reg.components[c].excluded)
      ensures Keeps(old(reg.unitIds), old(reg.units), reg.unitIds, reg.units, c)
      ensures Settled(old(reg.components), reg.components)
      ensures AllDone(reg.unitIds, reg.units, c, finder, h,
                      before + RootFiles(root, old(reg.components[c].excluded), files))
      ensures StateOf(reg) == FilesAnalysis(old(StateOf(reg)), c, RootFiles(root, old(reg.components[c].excluded), files),
                                            finder, h)
    {
      ghost var excluded := reg.components[c].excluded;
      for j := 0 to |files|
        invariant reg.Valid() && c < |reg.components| && reg.components[c].excluded == excluded
        invariant Keeps(old(reg.unitIds), old(reg.units), reg.unitIds, reg.units, c)
        invariant Settled(old(reg.components), reg.components)
        invariant AllDone(reg.unitIds, reg.units, c, finder, h, before + RootFiles(root, excluded, files[..j]))
        invariant StateOf(reg) == FilesAnalysis(old(StateOf(reg)), c, RootFiles(root, excluded, files[..j]), finder, h)
      {
        RootFilesStep(root, excluded, files, j, before);
        RootFilesAnalysisStep(old(StateOf(reg)), c, root, excluded, files, j, finder, h);
        ghost var uids0, us0, cs0 := reg.unitIds, reg.units, reg.components;
        AnalyzeListed(reg, c, root, files[j], h, before + RootFiles(root, excluded, files[..j]));
        KeepsTransitive(old(reg.unitIds), old(reg.units), uids0, us0, reg.unitIds, reg.units, c);
        SettledTransitive(old(reg.components), cs0, reg.components);
      }
      assert files[..|files|] == files;
    }
  }
}
