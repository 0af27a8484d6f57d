/**
 * `ArchAnalyzerFacade`: the constructor that turns the configuration into
 * components, the one-time analysis of the analysed components, the
 * filtering by allowed paths, `check` and `allowCurrentState`.
 */
module Facade {
  import opened Wrappers
  import opened Text
  import opened Collections
  import opened Environment
  import opened Paths
  import opened Graph
  import opened GraphProperties
  import opened Registries
  import opened FilterProperties
  import opened DependenciesFinders
  import opened Analysis
  import opened Checks
  import opened FacadeConfig
  import opened FacadeState

  // ------------------------------------------------------- the constructor

  /** The names of the entries whose `is_analyze_enabled` is not false, in order. */
  function EnabledNames(cfgs: seq<ComponentConfig>): (r: seq<string>)
    ensures |r| <= |cfgs|
    decreases |cfgs|
  {
    if cfgs == [] then []
    else
      var last := cfgs[|cfgs| - 1];
      EnabledNames(cfgs[..|cfgs| - 1]) + (if Switch(last.isAnalyzeEnabled) then [last.name] else [])
  }

  function IsEnabledEntry(n: string): ComponentConfig -> bool
  {
    (cfg: ComponentConfig) => cfg.name == n && Switch(cfg.isAnalyzeEnabled)
  }

  /** A name is analysed exactly when some entry of that name leaves the analysis on. */
  lemma {:induction false} EnabledNamesSpec(cfgs: seq<ComponentConfig>, n: string)
    ensures n in EnabledNames(cfgs) <==> exists k :: 0 <= k < |cfgs| && IsEnabledEntry(n)(cfgs[k])
    decreases |cfgs|
  {
    if cfgs != [] {
      var init := cfgs[..|cfgs| - 1];
      EnabledNamesSpec(init, n);
      ExistsSnoc(cfgs, init, IsEnabledEntry(n));
    }
  }

  lemma EnabledNamesStep(cfgs: seq<ComponentConfig>, i: nat)
    requires i < |cfgs|
    ensures EnabledNames(cfgs[..i + 1])
      == EnabledNames(cfgs[..i]) + (if Switch(cfgs[i].isAnalyzeEnabled) then [cfgs[i].name] else [])
  {
    assert cfgs[..i + 1][..i] == cfgs[..i];
  }

  /** No entry after the `k`-th among the first `n` has its name. */
  predicate LastIn(cfgs: seq<ComponentConfig>, k: nat, n: nat)
    requires k < n <= |cfgs|
  {
    forall j :: k < j < n ==> cfgs[j].name != cfgs[k].name
  }

  /**
   * What the constructor has made of entry `k` once the first `n` are read:
   * a component of that name holding the entry's paths, disabled for
   * analysis when the entry says so, and with the entry's restrictions
   * unless a later entry of the same name replaced them.
   */
  ghost predicate EntryLoaded(ids: map<string, nat>, cs: seq<Component>, cfgs: seq<ComponentConfig>, k: nat, n: nat,
                              common: Option<real>, state: AllowedState, h: Host)
    requires k < n <= |cfgs|
  {
    var name := cfgs[k].name;
    name in ids && ids[name] < |cs|
    && RootsIn(cs[ids[name]], cfgs[k], h) && ExcludedIn(cs[ids[name]], cfgs[k], h)
    && (!Switch(cfgs[k].isAnalyzeEnabled) ==> !cs[ids[name]].enabled)
    && (LastIn(cfgs, k, n) ==> Configured(cs[ids[name]].restrictions, cfgs[k], common, state, ids, h))
  }

  ghost predicate Loaded(ids: map<string, nat>, cs: seq<Component>, cfgs: seq<ComponentConfig>, n: nat,
                         common: Option<real>, state: AllowedState, h: Host)
    requires n <= |cfgs|
  {
    forall k :: 0 <= k < n ==> EntryLoaded(ids, cs, cfgs, k, n, common, state, h)
  }

  /** Restrictions built against a registry stay what they were while names keep their positions. */
  lemma ConfiguredKept(r: Restrictions, cfg: ComponentConfig, common: Option<real>, state: AllowedState,
                       ids0: map<string, nat>, ids1: map<string, nat>, h: Host)
    requires Configured(r, cfg, common, state, ids0, h) && KeptIds(ids0, ids1)
    ensures Configured(r, cfg, common, state, ids1, h)
  {
    IdsOfKept(ids0, ids1, cfg.allowedDependencies);
    IdsOfKept(ids0, ids1, cfg.forbiddenDependencies);
  }

  /** The entry's paths stay among a component's paths while those only grow. */
  lemma PathsKept(x0: Component, x1: Component, cfg: ComponentConfig, h: Host)
    requires RootsIn(x0, cfg, h) && ExcludedIn(x0, cfg, h)
    requires (forall p :: p in x0.roots ==> p in x1.roots) && (forall p :: p in x0.excluded ==> p in x1.excluded)
    ensures RootsIn(x1, cfg, h) && ExcludedIn(x1, cfg, h)
  {
    forall j | 0 <= j < |cfg.roots| ensures HasPath(x1.roots, cfg.roots[j].path, cfg.roots[j].namespace, h) {
      HasPathKept(x0.roots, x1.roots, cfg.roots[j].path, cfg.roots[j].namespace, h);
    }
    forall j | 0 <= j < |cfg.excluded| ensures HasPath(x1.excluded, cfg.excluded[j], "", h) {
      HasPathKept(x0.excluded, x1.excluded, cfg.excluded[j], "", h);
    }
  }

  /** An earlier entry stays loaded when entry `n`, whose component is `c`, is read. */
  lemma EntryStep(ids0: map<string, nat>, cs0: seq<Component>, ids1: map<string, nat>, cs1: seq<Component>,
                  cfgs: seq<ComponentConfig>, n: nat, common: Option<real>, state: AllowedState, h: Host, c: nat, k: nat)
    requires k < n < |cfgs| && EntryLoaded(ids0, cs0, cfgs, k, n, common, state, h)
    requires Grown(ids0, cs0, ids1, cs1, {c}) && ComponentIndex(ids1, cs1)
    requires cfgs[n].name in ids1 && ids1[cfgs[n].name] == c
    ensures EntryLoaded(ids1, cs1, cfgs, k, n + 1, common, state, h)
  {
    var name := cfgs[k].name;
    var x := ids0[name];
    assert ids1[name] == x;
    PathsKept(cs0[x], cs1[x], cfgs[k], h);
    if LastIn(cfgs, k, n + 1) {
      assert LastIn(cfgs, k, n);
      assert cfgs[n].name != name;
      assert cs1[c].name == cfgs[n].name && cs1[x].name == name;
      ConfiguredKept(cs0[x].restrictions, cfgs[k], common, state, ids0, ids1, h);
    }
  }

  /** Reading entry `n` keeps the earlier entries loaded and loads entry `n`. */
  lemma LoadedStep(ids0: map<string, nat>, cs0: seq<Component>, ids1: map<string, nat>, cs1: seq<Component>,
                   cfgs: seq<ComponentConfig>, n: nat, common: Option<real>, state: AllowedState, h: Host, c: nat)
    requires n < |cfgs| && Loaded(ids0, cs0, cfgs, n, common, state, h)
    requires Grown(ids0, cs0, ids1, cs1, {c}) && ComponentIndex(ids1, cs1)
    requires cfgs[n].name in ids1 && ids1[cfgs[n].name] == c && c < |cs1|
    requires Configured(cs1[c].restrictions, cfgs[n], common, state, ids1, h)
    requires RootsIn(cs1[c], cfgs[n], h) && ExcludedIn(cs1[c], cfgs[n], h)
    requires !Switch(cfgs[n].isAnalyzeEnabled) ==> !cs1[c].enabled
    ensures Loaded(ids1, cs1, cfgs, n + 1, common, state, h)
  {
    var m := n + 1;
    forall k | 0 <= k < m ensures EntryLoaded(ids1, cs1, cfgs, k, m, common, state, h) {
      if k < n {
        EntryStep(ids0, cs0, ids1, cs1, cfgs, n, common, state, h, c, k);
      }
    }
  }

  /**
   * One entry of the constructor's loop: the configured component, then
   * `excludeFromAnalyze` when the entry switches the analysis off.
   */
  method LoadEntry(reg: Registry, cfg: ComponentConfig, common: Option<real>, state: AllowedState, h: Host)
    returns (c: nat, enabled: bool)
    requires reg.Valid()
    modifies reg
    ensures reg.Valid() && reg.unitIds == old(reg.unitIds) && reg.units == old(reg.units)
    ensures Grown(old(reg.componentIds), old(reg.components), reg.componentIds, reg.components, {c})
    ensures cfg.name in reg.componentIds && reg.componentIds[cfg.name] == c && c < |reg.components|
    ensures Configured(reg.components[c].restrictions, cfg, common, state, reg.componentIds, h)
    ensures RootsIn(reg.components[c], cfg, h) && ExcludedIn(reg.components[c], cfg, h)
    ensures enabled == Switch(cfg.isAnalyzeEnabled) && (!enabled ==> !reg.components[c].enabled)
  {
    c := CreateConfigured(reg, cfg, common, state, h);
    enabled := Switch(cfg.isAnalyzeEnabled);
    if !enabled {
      ghost var cs1 := reg.components;
      reg.ExcludeFromAnalyze(c);
      assert Grown(reg.componentIds, cs1, reg.componentIds, reg.components, {c});
      GrownTransitive(old(reg.componentIds), old(reg.components), reg.componentIds, cs1,
                      reg.componentIds, reg.components, {c});
    }
  }

  /** The analysed components after entry `i`: those before it, and its component when it is enabled. */
  lemma AnalyzedNext(ids0: map<string, nat>, ids1: map<string, nat>, cfgs: seq<ComponentConfig>, i: nat,
                     analyzed: seq<nat>, c: nat, enabled: bool)
    requires i < |cfgs| && KeptIds(ids0, ids1)
    requires AllRegistered(ids0, EnabledNames(cfgs[..i])) && analyzed == IdsOf(ids0, EnabledNames(cfgs[..i]))
    requires cfgs[i].name in ids1 && ids1[cfgs[i].name] == c && enabled == Switch(cfgs[i].isAnalyzeEnabled)
    ensures AllRegistered(ids1, EnabledNames(cfgs[..i + 1]))
    ensures analyzed + (if enabled then [c] else []) == IdsOf(ids1, EnabledNames(cfgs[..i + 1]))
  {
    EnabledNamesStep(cfgs, i);
    IdsOfKept(ids0, ids1, EnabledNames(cfgs[..i]));
    if enabled {
      IdsOfAppend(ids1, EnabledNames(cfgs[..i]), [cfgs[i].name]);
    }
  }

  /** The constructor's loop over the entries of `components`. */
  method LoadComponents(reg: Registry, cfgs: seq<ComponentConfig>, common: Option<real>, state: AllowedState, h: Host)
    returns (analyzed: seq<nat>)
    requires reg.Valid()
    modifies reg
    ensures reg.Valid() && reg.unitIds == old(reg.unitIds) && reg.units == old(reg.units)
    ensures KeptIds(old(reg.componentIds), reg.componentIds) && |old(reg.components)| <= |reg.components|
    ensures Loaded(reg.componentIds, reg.components, cfgs, |cfgs|, common, state, h)
    ensures AllRegistered(reg.componentIds, EnabledNames(cfgs))
    ensures analyzed == IdsOf(reg.componentIds, EnabledNames(cfgs))
    ensures Below(analyzed, |reg.components|)
  {
    analyzed := [];
    for i := 0 to |cfgs|
      invariant reg.Valid() && reg.unitIds == old(reg.unitIds) && reg.units == old(reg.units)
      invariant KeptIds(old(reg.componentIds), reg.componentIds) && |old(reg.components)| <= |reg.components|
      invariant Loaded(reg.componentIds, reg.components, cfgs, i, common, state, h)
      invariant AllRegistered(reg.componentIds, EnabledNames(cfgs[..i]))
      invariant analyzed == IdsOf(reg.componentIds, EnabledNames(cfgs[..i]))
    {
      ghost var ids0, cs0 := reg.componentIds, reg.components;
      var c, enabled := LoadEntry(reg, cfgs[i], common, state, h);
      LoadedStep(ids0, cs0, reg.componentIds, reg.components, cfgs, i, common, state, h, c);
      AnalyzedNext(ids0, reg.componentIds, cfgs, i, analyzed, c, enabled);
      if enabled {
        analyzed := analyzed + [c];
      }
    }
    assert cfgs[..|cfgs|] == cfgs;
    IdsOfBelow(reg.componentIds, reg.components, EnabledNames(cfgs));
  }

  lemma IdsOfBelow(ids: map<string, nat>, cs: seq<Component>, names: seq<string>)
    requires ComponentIndex(ids, cs) && AllRegistered(ids, names)
    ensures Below(IdsOf(ids, names), |cs|)
  {
    var r := IdsOf(ids, names);
    forall x | x in r ensures x < |cs| {
      var j :| 0 <= j < |r| && r[j] == x;
      assert names[j] in ids;
    }
  }

  // ----------------------------------------------------------- the analysis

  /** The unit of file `f` exists and is linked to each dependency the finder reports for it. */
  ghost predicate FileLinked(uids: map<string, nat>, us: seq<Unit>, finder: Finder, h: Host, f: (Path, string))
  {
    var name := Trim(Analysis.UnitName(f.0, f.1), {'\\'});
    var deps := Dependencies(finder, h, Some(f.1));
    name in uids && uids[name] < |us| && LinkedTo(uids, us, uids[name], deps, |deps|)
  }

  ghost predicate AllLinked(uids: map<string, nat>, us: seq<Unit>, finder: Finder, h: Host, fs: seq<(Path, string)>)
  {
    forall k :: 0 <= k < |fs| ==> FileLinked(uids, us, finder, h, fs[k])
  }

  /** The files of an analysed component are linked, whichever component owns their units. */
  lemma DoneLinked(uids: map<string, nat>, us: seq<Unit>, c: nat, finder: Finder, h: Host, fs: seq<(Path, string)>)
    requires AllDone(uids, us, c, finder, h, fs)
    ensures AllLinked(uids, us, finder, h, fs)
  {
    forall k | 0 <= k < |fs| ensures FileLinked(uids, us, finder, h, fs[k]) {
      assert Done(uids, us, c, finder, h, fs[k]);
    }
  }

  /** Links survive the analysis of any component. */
  lemma AllLinkedKept(uids0: map<string, nat>, us0: seq<Unit>, uids1: map<string, nat>, us1: seq<Unit>, c: nat,
                      finder: Finder, h: Host, fs: seq<(Path, string)>)
    requires Keeps(uids0, us0, uids1, us1, c) && AllLinked(uids0, us0, finder, h, fs)
    ensures AllLinked(uids1, us1, finder, h, fs)
  {
    forall k | 0 <= k < |fs| ensures FileLinked(uids1, us1, finder, h, fs[k]) {
      var f := fs[k];
      var name := Trim(Analysis.UnitName(f.0, f.1), {'\\'});
      var deps := Dependencies(finder, h, Some(f.1));
      assert FileLinked(uids0, us0, finder, h, f);
      var u := uids0[name];
      forall j | 0 <= j < |deps| ensures Linked(uids1, us1, u, Trim(deps[j], {'\\'})) {
        KeepsLinked(uids0, us0, uids1, us1, c, u, Trim(deps[j], {'\\'}));
      }
    }
  }

  /**
   * Every enabled component among `xs`, as `cs` holds it, has each file it
   * lists turned into a linked unit.
   */
  ghost predicate AnalyzedAll(cs: seq<Component>, uids: map<string, nat>, us: seq<Unit>, finder: Finder, h: Host,
                              listing: Path -> seq<Option<string>>, xs: seq<nat>)
  {
    forall i :: 0 <= i < |xs| && xs[i] < |cs| && cs[xs[i]].enabled ==>
      AllLinked(uids, us, finder, h, AnalyzedFiles(cs[xs[i]].roots, cs[xs[i]].excluded, listing))
  }

  /** One more component analysed: the earlier ones stay analysed. */
  lemma AnalyzedStep(cs0: seq<Component>, cs1: seq<Component>, uids0: map<string, nat>, us0: seq<Unit>,
                     uids1: map<string, nat>, us1: seq<Unit>, finder: Finder, h: Host,
                     listing: Path -> seq<Option<string>>, xs: seq<nat>, i: nat)
    requires i < |xs| && xs[i] < |cs0| && Settled(cs0, cs1)
    requires AnalyzedAll(cs0, uids0, us0, finder, h, listing, xs[..i])
    requires Keeps(uids0, us0, uids1, us1, xs[i])
    requires cs1[xs[i]].enabled ==>
      AllDone(uids1, us1, xs[i], finder, h, AnalyzedFiles(cs1[xs[i]].roots, cs1[xs[i]].excluded, listing))
    ensures AnalyzedAll(cs0, uids1, us1, finder, h, listing, xs[..i + 1])
  {
    var ys := xs[..i + 1];
    forall j | 0 <= j < |ys| && ys[j] < |cs0| && cs0[ys[j]].enabled
      ensures AllLinked(uids1, us1, finder, h, AnalyzedFiles(cs0[ys[j]].roots, cs0[ys[j]].excluded, listing))
    {
      if j < i {
        assert ys[j] == xs[..i][j];
        var fs := AnalyzedFiles(cs0[ys[j]].roots, cs0[ys[j]].excluded, listing);
        assert AllLinked(uids0, us0, finder, h, fs);
        AllLinkedKept(uids0, us0, uids1, us1, xs[i], finder, h, fs);
      } else {
        var c := xs[i];
        assert cs1[c].roots == cs0[c].roots && cs1[c].excluded == cs0[c].excluded && cs1[c].enabled;
        DoneLinked(uids1, us1, c, finder, h, AnalyzedFiles(cs1[c].roots, cs1[c].excluded, listing));
      }
    }
  }

  /** `analyze()` on values: the components of `xs` analysed one after the other, in order. */
  ghost function ComponentsAnalysis(st: State, xs: seq<nat>, finder: Finder, listing: Path -> seq<Option<string>>,
                                    h: Host): (r: State)
    requires Indexed(st) && Below(xs, |st.cs|)
    ensures Indexed(r) && |st.cs| <= |r.cs|
    decreases |xs|
  {
    if xs == [] then st
    else
      BelowPrefix(xs, |xs| - 1, |st.cs|);
      var before := ComponentsAnalysis(st, xs[..|xs| - 1], finder, listing, h);
      assert xs[|xs| - 1] in xs;
      ComponentAnalysis(before, xs[|xs| - 1], finder, listing, h)
  }

  /** A prefix of a list of indices below `n` is below `n`. */
  lemma BelowPrefix(xs: seq<nat>, i: nat, n: nat)
    requires Below(xs, n) && i <= |xs|
    ensures Below(xs[..i], n)
  {
    forall x | x in xs[..i]
      ensures x < n
    {
      var k :| 0 <= k < i && xs[..i][k] == x;
      assert xs[k] in xs;
    }
  }

  /** One more component analysed. */
  lemma ComponentsAnalysisStep(st: State, xs: seq<nat>, i: nat, finder: Finder, listing: Path -> seq<Option<string>>,
                               h: Host)
    requires Indexed(st) && Below(xs, |st.cs|) && i < |xs|
    ensures Below(xs[..i], |st.cs|) && Below(xs[..i + 1], |st.cs|) && xs[i] < |st.cs|
    ensures ComponentsAnalysis(st, xs[..i + 1], finder, listing, h)
      == ComponentAnalysis(ComponentsAnalysis(st, xs[..i], finder, listing, h), xs[i], finder, listing, h)
  {
    BelowPrefix(xs, i, |st.cs|);
    BelowPrefix(xs, i + 1, |st.cs|);
    assert xs[i] in xs;
    var pre := xs[..i + 1];
    assert pre[..|pre| - 1] == xs[..i];
    assert pre[|pre| - 1] == xs[i];
    assert pre != [];
  }

  /** The loop of `analyze` over the analysed components. */
  method AnalyzeEach(reg: Registry, analyzer: ComponentAnalyzer, xs: seq<nat>, listing: Path -> seq<Option<string>>,
                     h: Host)
    requires reg.Valid() && Below(xs, |reg.components|)
    modifies reg
    ensures reg.Valid() && Settled(old(reg.components), reg.components)
    ensures AnalyzedAll(old(reg.components), reg.unitIds, reg.units, analyzer.finder, h, listing, xs)
    ensures StateOf(reg) == ComponentsAnalysis(old(StateOf(reg)), xs, analyzer.finder, listing, h)
  {
    for i := 0 to |xs|
      invariant reg.Valid() && Settled(old(reg.components), reg.components)
      invariant Below(xs[..i], |old(reg.components)|)
      invariant StateOf(reg) == ComponentsAnalysis(old(StateOf(reg)), xs[..i], analyzer.finder, listing, h)
      invariant AnalyzedAll(old(reg.components), reg.unitIds, reg.units, analyzer.finder, h, listing, xs[..i])
    {
      assert xs[i] in xs;
      ComponentsAnalysisStep(old(StateOf(reg)), xs, i, analyzer.finder, listing, h);
      ghost var cs1, uids1, us1 := reg.components, reg.unitIds, reg.units;
      analyzer.Analyze(reg, xs[i], listing, h);
      AnalyzedStep(old(reg.components), cs1, uids1, us1, reg.unitIds, reg.units, analyzer.finder, h, listing, xs, i);
      SettledTransitive(old(reg.components), cs1, reg.components);
    }
    assert xs[..|xs|] == xs;
  }

  // ---------------------------------------------------------- the filtering

  /** The component and unit registries, as one value. */
  datatype Snapshot = Snapshot(cs: seq<Component>, us: seq<Unit>)

  /** `$component->filterByPaths($allowedPaths)` on a snapshot. */
  function ComponentFiltered(s: Snapshot, policy: Policy, allowed: seq<Path>, c: nat): (r: Snapshot)
    requires c < |s.cs|
    ensures |r.cs| == |s.cs|
  {
    var flag := policy.allowedStateEnabled(s.cs[c].restrictions);
    Snapshot(s.cs[c := s.cs[c].(units := KeptUnits(s.cs, s.us, policy, allowed, flag, s.cs[c].units))],
             FilteredUnits(s.cs, s.us, policy, allowed, flag, s.cs[c].units))
  }

  /** The first loop of the facade's `filterByPaths`: each of `xs` filtered in turn. */
  function FilteredAll(s: Snapshot, policy: Policy, allowed: seq<Path>, xs: seq<nat>): (r: Snapshot)
    ensures |r.cs| == |s.cs|
    decreases |xs|
  {
    if xs == [] then s
    else
      var t := FilteredAll(s, policy, allowed, xs[..|xs| - 1]);
      var c := xs[|xs| - 1];
      if c < |t.cs| then ComponentFiltered(t, policy, allowed, c) else t
  }

  lemma FilteredAllStep(s: Snapshot, policy: Policy, allowed: seq<Path>, xs: seq<nat>, i: nat)
    requires i < |xs|
    ensures var t := FilteredAll(s, policy, allowed, xs[..i]);
      FilteredAll(s, policy, allowed, xs[..i + 1])
        == if xs[i] < |t.cs| then ComponentFiltered(t, policy, allowed, xs[i]) else t
  {
    assert xs[..i + 1][..i] == xs[..i];
  }

  /** With no allowed path, the first loop leaves every component and every unit as it was. */
  lemma {:induction false} NothingFiltered(s: Snapshot, policy: Policy, xs: seq<nat>)
    ensures FilteredAll(s, policy, [], xs) == s
    decreases |xs|
  {
    if xs != [] {
      NothingFiltered(s, policy, xs[..|xs| - 1]);
      var c := xs[|xs| - 1];
      if c < |s.cs| {
        var flag := policy.allowedStateEnabled(s.cs[c].restrictions);
        NothingAllowed(s.cs, s.us, policy, flag, s.cs[c].units);
        assert s.cs[c := s.cs[c].(units := s.cs[c].units)] == s.cs;
      }
    }
  }

  /** The first loop of `filterByPaths`. */
  method FilterEach(reg: Registry, xs: seq<nat>, allowed: seq<Path>, policy: Policy)
    requires reg.Valid() && Below(xs, |reg.components|)
    modifies reg
    ensures reg.Valid() && reg.componentIds == old(reg.componentIds) && reg.unitIds == old(reg.unitIds)
    ensures Snapshot(reg.components, reg.units)
      == FilteredAll(Snapshot(old(reg.components), old(reg.units)), policy, allowed, xs)
  {
    ghost var s0 := Snapshot(reg.components, reg.units);
    for i := 0 to |xs|
      invariant reg.Valid() && reg.componentIds == old(reg.componentIds) && reg.unitIds == old(reg.unitIds)
      invariant Snapshot(reg.components, reg.units) == FilteredAll(s0, policy, allowed, xs[..i])
    {
      assert xs[i] in xs;
      FilteredAllStep(s0, policy, allowed, xs, i);
      reg.FilterByPaths(xs[i], allowed, policy);
    }
    assert xs[..|xs|] == xs;
  }

  /** The condition under which the second loop of `filterByPaths` keeps a component. */
  predicate IsConnected(cs: seq<Component>, us: seq<Unit>, c: nat)
  {
    c < |cs| && !(EffDependencyComponents(cs, us, c) == [] && DependentComponents(cs, us, c) == [])
  }

  /** The components of `xs` the second loop of `filterByPaths` keeps, in order. */
  function Connected(cs: seq<Component>, us: seq<Unit>, xs: seq<nat>): seq<nat>
    decreases |xs|
  {
    if xs == [] then []
    else
      var c := xs[|xs| - 1];
      Connected(cs, us, xs[..|xs| - 1]) + (if IsConnected(cs, us, c) then [c] else [])
  }

  lemma {:induction false} ConnectedSpec(cs: seq<Component>, us: seq<Unit>, xs: seq<nat>)
    ensures forall c :: c in Connected(cs, us, xs) <==> c in xs && IsConnected(cs, us, c)
    decreases |xs|
  {
    if xs != [] {
      var init := xs[..|xs| - 1];
      ConnectedSpec(cs, us, init);
      assert xs == init + [xs[|xs| - 1]];
    }
  }

  /** `empty(getDependencyComponents()) && empty(getDependentComponents())`, negated. */
  method ConnectedOf(reg: Registry, c: nat, ghost cs0: seq<Component>) returns (b: bool)
    requires reg.Valid() && SameAnswers(cs0, reg.components, reg.units) && c < |cs0|
    modifies reg
    ensures reg.Valid() && SameAnswers(cs0, reg.components, reg.units)
    ensures reg.componentIds == old(reg.componentIds) && reg.unitIds == old(reg.unitIds) && reg.units == old(reg.units)
    ensures b == IsConnected(cs0, reg.units, c)
  {
    var deps := reg.GetDependencyComponents(c);
    SameAnswersTransitive(cs0, old(reg.components), reg.components, reg.units);
    if deps != [] {
      return true;
    }
    SameAnswersCores(cs0, reg.components, reg.units);
    var dependents := reg.GetDependentComponents(c);
    b := dependents != [];
  }

  lemma KeptNext(cs: seq<Component>, us: seq<Unit>, xs: seq<nat>, i: nat, kept: seq<nat>, keep: bool)
    requires i < |xs| && kept == Connected(cs, us, xs[..i]) && keep == IsConnected(cs, us, xs[i])
    ensures kept + (if keep then [xs[i]] else []) == Connected(cs, us, xs[..i + 1])
  {
    assert xs[..i + 1][..i] == xs[..i];
  }

  /** The second loop of `filterByPaths`: the components with neither dependencies nor dependents go. */
  method KeepConnected(reg: Registry, xs: seq<nat>) returns (kept: seq<nat>)
    requires reg.Valid() && Below(xs, |reg.components|)
    modifies reg
    ensures reg.Valid() && SameAnswers(old(reg.components), reg.components, reg.units)
    ensures reg.componentIds == old(reg.componentIds) && reg.unitIds == old(reg.unitIds) && reg.units == old(reg.units)
    ensures kept == Connected(old(reg.components), reg.units, xs)
  {
    ghost var cs0, us0 := reg.components, reg.units;
    SameAnswersReflexive(cs0, reg.units);
    kept := [];
    for i := 0 to |xs|
      invariant reg.Valid() && SameAnswers(cs0, reg.components, reg.units)
      invariant reg.componentIds == old(reg.componentIds) && reg.unitIds == old(reg.unitIds) && reg.units == old(reg.units)
      invariant kept == Connected(cs0, us0, xs[..i])
    {
      assert xs[i] in xs;
      var keep := ConnectedOf(reg, xs[i], cs0);
      KeptNext(cs0, us0, xs, i, kept, keep);
      if keep {
        kept := kept + [xs[i]];
      }
    }
    assert xs[..|xs|] == xs;
  }

  /** `new Path($path)` for each allowed path. */
  method MakeAllowed(paths: seq<string>, h: Host) returns (ps: seq<Path>)
    ensures |ps| == |paths| && forall j :: 0 <= j < |ps| ==> MadeFrom(ps[j], paths[j], "", h)
  {
    ps := [];
    for j := 0 to |paths|
      invariant |ps| == j && forall k :: 0 <= k < j ==> MadeFrom(ps[k], paths[k], "", h)
    {
      var p := new Path(paths[j], "", h);
      ps := ps + [p];
    }
  }

  // ---------------------------------------------------------------- check

  /** The loop of `check` over the analysed components. */
  method CheckEach(reg: Registry, policy: Policy, adp: bool, sdp: bool, xs: seq<nat>) returns (errors: seq<Message>)
    requires reg.Valid() && Below(xs, |reg.components|)
    modifies reg
    ensures reg.Valid() && SameAnswers(old(reg.components), reg.components, reg.units)
    ensures reg.componentIds == old(reg.componentIds) && reg.unitIds == old(reg.unitIds) && reg.units == old(reg.units)
    ensures AdjacencyOk(Adjacency(old(reg.components), reg.units))
    ensures errors == CheckMessages(old(reg.components), reg.units, policy, adp, sdp, xs)
  {
    ghost var cs0 := reg.components;
    AdjacencySound(cs0, reg.units);
    SameAnswersReflexive(cs0, reg.units);
    ghost var f := MessagesOf(cs0, reg.units, policy, adp, sdp);
    errors := [];
    for i := 0 to |xs|
      invariant reg.Valid() && SameAnswers(cs0, reg.components, reg.units)
      invariant reg.componentIds == old(reg.componentIds) && reg.unitIds == old(reg.unitIds) && reg.units == old(reg.units)
      invariant errors == ConcatMap(xs[..i], f)
    {
      assert xs[i] in xs;
      ConcatMapStep(xs, f, i);
      ghost var cs1 := reg.components;
      var ms := ComponentMessagesOf(reg, policy, adp, sdp, xs[i]);
      ComponentStep(cs0, cs1, reg.components, reg.units, policy, adp, sdp, xs[i], ms);
      errors := errors + ms;
    }
    assert xs[..|xs|] == xs;
  }

  /** A component is kept by the second loop of `filterByPaths` alike in states that answer alike. */
  lemma ConnectedAlike(cs1: seq<Component>, cs2: seq<Component>, us: seq<Unit>, c: nat)
    requires SameAnswers(cs1, cs2, us)
    ensures IsConnected(cs1, us, c) == IsConnected(cs2, us, c)
  {
    SameAnswersCores(cs1, cs2, us);
  }

  /** The components kept are those of `xs` connected in any state answering alike. */
  lemma Remaining(cs1: seq<Component>, cs2: seq<Component>, us: seq<Unit>, xs: seq<nat>)
    requires SameAnswers(cs1, cs2, us)
    ensures forall c :: c in Connected(cs1, us, xs) <==> c in xs && IsConnected(cs2, us, c)
  {
    ConnectedSpec(cs1, us, xs);
    forall c ensures IsConnected(cs1, us, c) == IsConnected(cs2, us, c) {
      ConnectedAlike(cs1, cs2, us, c);
    }
  }

  /**
   * What `allowCurrentState` stores is read back by the constructor: the
   * allowed state of an analysed component is exactly its current triples.
   */
  lemma AllowedStateReadBack(ids: map<string, nat>, cs: seq<Component>, us: seq<Unit>, xs: seq<nat>, c: nat,
                             r: Restrictions, cfg: ComponentConfig, common: Option<real>, ids1: map<string, nat>, h: Host)
    requires ComponentIndex(ids, cs) && c in xs && c < |cs| && cfg.name == cs[c].name
    requires Configured(r, cfg, common, CurrentState(cs, us, xs), ids1, h)
    ensures r.allowedState == set t | t in ComponentTriples(cs, us, c)
  {
    IndexedNamesDistinct(ids, cs);
    StateReadBack(cs, us, xs, c);
  }

  // ------------------------------------------------------------ the facade

  /**
   * `ArchAnalyzerFacade`. The component and unit registries are the shared
   * `registry`; `listing` is what `getFiles` yields for a root path and
   * `host` the file system and the declared classes.
   */
  class ArchAnalyzerFacade {
    const registry: Registry
    const analyzer: ComponentAnalyzer
    const policy: Policy
    const listing: Path -> seq<Option<string>>
    const host: Host
    const checkAcyclicDependenciesPrinciple: bool
    const checkStableDependenciesPrinciple: bool
    var analyzedComponents: seq<nat>
    var isAnalyzePerformed: bool

    ghost predicate Valid()
      reads this, registry
    {
      registry.Valid() && Below(analyzedComponents, |registry.components|)
    }

    /**
     * `__construct($config)`: both principle checks default to on; each
     * entry is created as a component, and the enabled ones are the analysed
     * components, in order. `state` is what the allowed-state storage file
     * holds (empty when it is not read).
     */
    constructor (config: Config, registry: Registry, finder: Finder, policy: Policy, state: AllowedState,
                 listing: Path -> seq<Option<string>>, h: Host)
      requires registry.Valid()
      modifies registry
      ensures Valid() && !isAnalyzePerformed
      ensures this.registry == registry && this.policy == policy && this.listing == listing && host == h
      ensures analyzer.finder == finder
      ensures checkAcyclicDependenciesPrinciple == Switch(config.checkAcyclicDependenciesPrinciple)
      ensures checkStableDependenciesPrinciple == Switch(config.checkStableDependenciesPrinciple)
      ensures registry.unitIds == old(registry.unitIds) && registry.units == old(registry.units)
      ensures KeptIds(old(registry.componentIds), registry.componentIds)
      ensures Loaded(registry.componentIds, registry.components, config.components, |config.components|,
                     config.maxAllowableDistance, state, h)
      ensures analyzedComponents == IdsOf(registry.componentIds, EnabledNames(config.components))
    {
      var analyzed := LoadComponents(registry, config.components, config.maxAllowableDistance, state, h);
      this.registry := registry;
      this.policy := policy;
      this.listing := listing;
      host := h;
      checkAcyclicDependenciesPrinciple := Switch(config.checkAcyclicDependenciesPrinciple);
      checkStableDependenciesPrinciple := Switch(config.checkStableDependenciesPrinciple);
      analyzer := new ComponentAnalyzer(finder);
      analyzedComponents := analyzed;
      isAnalyzePerformed := false;
    }

    /** `analyze()`: the analysed components are analysed once; later calls change nothing. */
    method Analyze()
      requires Valid()
      modifies this, registry
      ensures Valid() && isAnalyzePerformed && analyzedComponents == old(analyzedComponents)
      ensures Settled(old(registry.components), registry.components)
      ensures old(isAnalyzePerformed) ==>
        registry.componentIds == old(registry.componentIds) && registry.components == old(registry.components)
        && registry.unitIds == old(registry.unitIds) && registry.units == old(registry.units)
      ensures !old(isAnalyzePerformed) ==>
        AnalyzedAll(old(registry.components), registry.unitIds, registry.units, analyzer.finder, host, listing,
                    analyzedComponents)
      ensures !old(isAnalyzePerformed) ==>
        StateOf(registry) == ComponentsAnalysis(old(StateOf(registry)), analyzedComponents, analyzer.finder, listing, host)
    {
      if !isAnalyzePerformed {
        AnalyzeEach(registry, analyzer, analyzedComponents, listing, host);
        isAnalyzePerformed := true;
      }
    }

    /**
     * `filterByPaths($allowedPaths)`: every analysed component is filtered
     * by the allowed paths, then those with neither dependency nor dependent
     * components are no longer analysed.
     */
    method FilterByPaths(allowedPaths: seq<string>) returns (allowed: seq<Path>)
      requires Valid()
      modifies this, registry
      ensures Valid() && isAnalyzePerformed == old(isAnalyzePerformed)
      ensures |allowed| == |allowedPaths| && forall j :: 0 <= j < |allowed| ==> MadeFrom(allowed[j], allowedPaths[j], "", host)
      ensures registry.componentIds == old(registry.componentIds) && registry.unitIds == old(registry.unitIds)
      ensures var f := FilteredAll(Snapshot(old(registry.components), old(registry.units)), policy, allowed,
                                   old(analyzedComponents));
        registry.units == f.us && SameAnswers(f.cs, registry.components, registry.units)
        && analyzedComponents == Connected(f.cs, f.us, old(analyzedComponents))
      ensures allowedPaths == [] ==>
        registry.units == old(registry.units) && SameAnswers(old(registry.components), registry.components, registry.units)
    {
      allowed := MakeAllowed(allowedPaths, host);
      FilterEach(registry, analyzedComponents, allowed, policy);
      if allowedPaths == [] {
        NothingFiltered(Snapshot(old(registry.components), old(registry.units)), policy, analyzedComponents);
      }
      ghost var f := FilteredAll(Snapshot(old(registry.components), old(registry.units)), policy, allowed,
                                 analyzedComponents);
      ConnectedSpec(f.cs, f.us, analyzedComponents);
      analyzedComponents := KeepConnected(registry, analyzedComponents);
    }

    /**
     * `check($allowedPaths)`: after the analysis and the filtering, the
     * messages of each remaining analysed component, in order; a component
     * remains exactly when it has a dependency or a dependent component.
     */
    method Check(allowedPaths: seq<string>) returns (errors: seq<Message>, ghost analyzed: Snapshot,
                                                     ghost allowed: seq<Path>)
      requires Valid()
      modifies this, registry
      ensures Valid() && isAnalyzePerformed
      ensures old(isAnalyzePerformed) ==> analyzed == Snapshot(old(registry.components), old(registry.units))
      ensures !old(isAnalyzePerformed) ==>
        var a := ComponentsAnalysis(old(StateOf(registry)), old(analyzedComponents), analyzer.finder, listing, host);
        analyzed == Snapshot(a.cs, a.us)
      ensures |allowed| == |allowedPaths| && forall j :: 0 <= j < |allowed| ==> MadeFrom(allowed[j], allowedPaths[j], "", host)
      ensures var f := FilteredAll(analyzed, policy, allowed, old(analyzedComponents));
        registry.units == f.us && SameAnswers(f.cs, registry.components, registry.units)
        && analyzedComponents == Connected(f.cs, f.us, old(analyzedComponents))
      ensures forall c :: c in analyzedComponents <==>
        c in old(analyzedComponents) && IsConnected(registry.components, registry.units, c)
      ensures AdjacencyOk(Adjacency(registry.components, registry.units))
      ensures errors == CheckMessages(registry.components, registry.units, policy, checkAcyclicDependenciesPrinciple,
                                      checkStableDependenciesPrinciple, analyzedComponents)
    {
      Analyze();
      analyzed := Snapshot(registry.components, registry.units);
      var paths := FilterByPaths(allowedPaths);
      allowed := paths;
      ghost var cs1 := registry.components;
      errors := CheckEach(registry, policy, checkAcyclicDependenciesPrinciple, checkStableDependenciesPrinciple,
                          analyzedComponents);
      CheckMessagesAlike(cs1, registry.components, registry.units, policy, checkAcyclicDependenciesPrinciple,
                         checkStableDependenciesPrinciple, analyzedComponents);
      ghost var f := FilteredAll(analyzed, policy, allowed, old(analyzedComponents));
      SameAnswersTransitive(f.cs, cs1, registry.components, registry.units);
      Remaining(f.cs, registry.components, registry.units, old(analyzedComponents));
    }

    /**
     * `generateReport($reportPath, $allowedPaths)` up to the rendering: the
     * components the report is rendered for.
     */
    method GenerateReport(allowedPaths: seq<string>) returns (rendered: seq<nat>, ghost analyzed: Snapshot,
                                                             ghost allowed: seq<Path>)
      requires Valid()
      modifies this, registry
      ensures Valid() && isAnalyzePerformed && rendered == analyzedComponents
      ensures old(isAnalyzePerformed) ==> analyzed == Snapshot(old(registry.components), old(registry.units))
      ensures !old(isAnalyzePerformed) ==>
        var a := ComponentsAnalysis(old(StateOf(registry)), old(analyzedComponents), analyzer.finder, listing, host);
        analyzed == Snapshot(a.cs, a.us)
      ensures |allowed| == |allowedPaths| && forall j :: 0 <= j < |allowed| ==> MadeFrom(allowed[j], allowedPaths[j], "", host)
      ensures var f := FilteredAll(analyzed, policy, allowed, old(analyzedComponents));
        registry.units == f.us && SameAnswers(f.cs, registry.components, registry.units)
        && analyzedComponents == Connected(f.cs, f.us, old(analyzedComponents))
      ensures forall c :: c in rendered <==>
        c in old(analyzedComponents) && IsConnected(registry.components, registry.units, c)
    {
      Analyze();
      analyzed := Snapshot(registry.components, registry.units);
      var paths := FilterByPaths(allowedPaths);
      allowed := paths;
      ghost var f := FilteredAll(analyzed, policy, allowed, old(analyzedComponents));
      Remaining(f.cs, registry.components, registry.units, old(analyzedComponents));
      rendered := analyzedComponents;
    }

    /**
     * `allowCurrentState($storageFile)` up to writing the file: after the
     * analysis, the triples of every analysed component.
     */
    method AllowCurrentState() returns (state: AllowedState)
      requires Valid()
      modifies this, registry
      ensures Valid() && isAnalyzePerformed && analyzedComponents == old(analyzedComponents)
      ensures state == CurrentState(registry.components, registry.units, analyzedComponents)
    {
      Analyze();
      ghost var cs1 := registry.components;
      state := CurrentStateOf(registry, analyzedComponents);
      CurrentStateAlike(cs1, registry.components, registry.units, analyzedComponents);
    }
  }
}
