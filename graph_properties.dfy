/**
 * What the queries of module Graph answer, stated without their loops:
 * membership, absence of duplicates, bounds of the metrics, what the
 * caches keep, and the shape of cycles.
 */
module GraphProperties {
  import opened Wrappers
  import opened Collections
  import opened Types
  import opened Paths
  import opened Graph

  /** The inputs of a unit, as a function of its position. */
  function Inputs(us: seq<Unit>): nat -> seq<nat>
  {
    (u: nat) => if u < |us| then us[u].inputs else []
  }

  /** The outputs of a unit, as a function of its position. */
  function Outputs(us: seq<Unit>): nat -> seq<nat>
  {
    (u: nat) => if u < |us| then us[u].outputs else []
  }

  // ----------------------------------------------------- component queries

  lemma DependentComponentsShape(xs: seq<nat>, us: seq<Unit>, c: nat)
    requires Below(xs, |us|)
    ensures forall k :: 0 <= k < |xs| ==> UnitDependentOwners(us, c)(xs[k]) == ConcatMap(Inputs(us)(xs[k]), DependentOwner(us, c))
  {
  }

  lemma DependentComponentsOnly(xs: seq<nat>, us: seq<Unit>, c: nat, y: nat)
    requires Below(xs, |us|) && EdgesBelow(us)
    requires y in ConcatMap(xs, UnitDependentOwners(us, c))
    ensures exists u, d :: u in xs && d in us[u].inputs && us[d].component != c && y == us[d].component
  {
    DependentComponentsShape(xs, us, c);
    ConcatMapNestedMember(xs, UnitDependentOwners(us, c), Inputs(us), DependentOwner(us, c), y);
    var u, d :| u in xs && d in Inputs(us)(u) && y in DependentOwner(us, c)(d);
    assert u < |us| && d in us[u].inputs && d < |us|;
    assert us[d].component != c && y == us[d].component;
  }

  lemma DependentComponentsIf(xs: seq<nat>, us: seq<Unit>, c: nat, y: nat, u: nat, d: nat)
    requires Below(xs, |us|) && EdgesBelow(us)
    requires u in xs && d in us[u].inputs && us[d].component != c && y == us[d].component
    ensures y in ConcatMap(xs, UnitDependentOwners(us, c))
  {
    DependentComponentsShape(xs, us, c);
    ConcatMapNestedMember(xs, UnitDependentOwners(us, c), Inputs(us), DependentOwner(us, c), y);
    assert d in Inputs(us)(u) && y in DependentOwner(us, c)(d);
  }

  /** `getDependentComponents`: the owners, other than `c`, of the units depending on `c`'s units, each once. */
  lemma DependentComponentsSpec(cs: seq<Component>, us: seq<Unit>, c: nat)
    requires WellFormed(cs, us) && c < |cs|
    ensures NoDup(DependentComponents(cs, us, c))
    ensures forall y: nat :: y in DependentComponents(cs, us, c) <==>
      exists u, d :: u in cs[c].units && d in us[u].inputs && us[d].component != c && y == us[d].component
  {
    DedupeSpec(ConcatMap(cs[c].units, UnitDependentOwners(us, c)));
    forall y: nat ensures y in DependentComponents(cs, us, c) <==>
      exists u, d :: u in cs[c].units && d in us[u].inputs && us[d].component != c && y == us[d].component
    {
      if y in DependentComponents(cs, us, c) {
        DependentComponentsOnly(cs[c].units, us, c, y);
      }
      if exists u, d :: u in cs[c].units && d in us[u].inputs && us[d].component != c && y == us[d].component {
        var u, d :| u in cs[c].units && d in us[u].inputs && us[d].component != c && y == us[d].component;
        DependentComponentsIf(cs[c].units, us, c, y, u, d);
      }
    }
  }

  lemma DependencyComponentsShape(xs: seq<nat>, us: seq<Unit>, c: nat)
    requires Below(xs, |us|)
    ensures forall k :: 0 <= k < |xs| ==> UnitDependencyOwners(us, c)(xs[k]) == ConcatMap(Outputs(us)(xs[k]), DependencyOwner(us, c))
  {
  }

  lemma DependencyComponentsOnly(xs: seq<nat>, us: seq<Unit>, c: nat, y: nat)
    requires Below(xs, |us|) && EdgesBelow(us)
    requires y in ConcatMap(xs, UnitDependencyOwners(us, c))
    ensures exists u, d :: u in xs && d in us[u].outputs && ExternalDependency(us, c, d) && y == us[d].component
  {
    DependencyComponentsShape(xs, us, c);
    ConcatMapNestedMember(xs, UnitDependencyOwners(us, c), Outputs(us), DependencyOwner(us, c), y);
    var u, d :| u in xs && d in Outputs(us)(u) && y in DependencyOwner(us, c)(d);
    assert u < |us| && d in us[u].outputs && d < |us|;
    assert ExternalDependency(us, c, d) && y == us[d].component;
  }

  lemma DependencyComponentsIf(xs: seq<nat>, us: seq<Unit>, c: nat, y: nat, u: nat, d: nat)
    requires Below(xs, |us|) && EdgesBelow(us)
    requires u in xs && d in us[u].outputs && ExternalDependency(us, c, d) && y == us[d].component
    ensures y in ConcatMap(xs, UnitDependencyOwners(us, c))
  {
    DependencyComponentsShape(xs, us, c);
    ConcatMapNestedMember(xs, UnitDependencyOwners(us, c), Outputs(us), DependencyOwner(us, c), y);
    assert d in Outputs(us)(u) && y in DependencyOwner(us, c)(d);
  }

  /** `getDependencyComponents`, computed: the owners of the external outputs of `c`'s units, each once. */
  lemma DependencyComponentsSpec(cs: seq<Component>, us: seq<Unit>, c: nat)
    requires WellFormed(cs, us) && c < |cs|
    ensures NoDup(DependencyComponents(cs, us, c))
    ensures forall y: nat :: y in DependencyComponents(cs, us, c) <==>
      exists u, d :: u in cs[c].units && d in us[u].outputs && ExternalDependency(us, c, d) && y == us[d].component
  {
    DedupeSpec(ConcatMap(cs[c].units, UnitDependencyOwners(us, c)));
    forall y: nat ensures y in DependencyComponents(cs, us, c) <==>
      exists u, d :: u in cs[c].units && d in us[u].outputs && ExternalDependency(us, c, d) && y == us[d].component
    {
      if y in DependencyComponents(cs, us, c) {
        DependencyComponentsOnly(cs[c].units, us, c, y);
      }
      if exists u, d :: u in cs[c].units && d in us[u].outputs && ExternalDependency(us, c, d) && y == us[d].component {
        var u, d :| u in cs[c].units && d in us[u].outputs && ExternalDependency(us, c, d) && y == us[d].component;
        DependencyComponentsIf(cs[c].units, us, c, y, u, d);
      }
    }
  }

  lemma FanInShape(xs: seq<nat>, us: seq<Unit>, c: nat)
    requires Below(xs, |us|)
    ensures forall k :: 0 <= k < |xs| ==> UnitExternalInputNames(us, c)(xs[k]) == ConcatMap(Inputs(us)(xs[k]), ExternalInputName(us, c))
  {
  }

  lemma FanInOnly(xs: seq<nat>, us: seq<Unit>, c: nat, n: string)
    requires Below(xs, |us|) && EdgesBelow(us)
    requires n in ConcatMap(xs, UnitExternalInputNames(us, c))
    ensures exists u, d :: u in xs && d in us[u].inputs && us[d].component != c && n == us[d].name
  {
    FanInShape(xs, us, c);
    ConcatMapNestedMember(xs, UnitExternalInputNames(us, c), Inputs(us), ExternalInputName(us, c), n);
    var u, d :| u in xs && d in Inputs(us)(u) && n in ExternalInputName(us, c)(d);
    assert u < |us| && d in us[u].inputs && d < |us|;
    assert us[d].component != c && n == us[d].name;
  }

  lemma FanInIf(xs: seq<nat>, us: seq<Unit>, c: nat, n: string, u: nat, d: nat)
    requires Below(xs, |us|) && EdgesBelow(us)
    requires u in xs && d in us[u].inputs && us[d].component != c && n == us[d].name
    ensures n in ConcatMap(xs, UnitExternalInputNames(us, c))
  {
    FanInShape(xs, us, c);
    ConcatMapNestedMember(xs, UnitExternalInputNames(us, c), Inputs(us), ExternalInputName(us, c), n);
    assert d in Inputs(us)(u) && n in ExternalInputName(us, c)(d);
  }

  /** Fan-in: the distinct names of the units outside `c` depending on `c`'s units. */
  lemma FanInSpec(cs: seq<Component>, us: seq<Unit>, c: nat)
    requires WellFormed(cs, us) && c < |cs|
    ensures NoDup(FanIn(cs, us, c))
    ensures forall n: string :: n in FanIn(cs, us, c) <==>
      exists u, d :: u in cs[c].units && d in us[u].inputs && us[d].component != c && n == us[d].name
  {
    DedupeSpec(ConcatMap(cs[c].units, UnitExternalInputNames(us, c)));
    forall n: string ensures n in FanIn(cs, us, c) <==>
      exists u, d :: u in cs[c].units && d in us[u].inputs && us[d].component != c && n == us[d].name
    {
      if n in FanIn(cs, us, c) {
        FanInOnly(cs[c].units, us, c, n);
      }
      if exists u, d :: u in cs[c].units && d in us[u].inputs && us[d].component != c && n == us[d].name {
        var u, d :| u in cs[c].units && d in us[u].inputs && us[d].component != c && n == us[d].name;
        FanInIf(cs[c].units, us, c, n, u, d);
      }
    }
  }

  lemma FanOutShape(xs: seq<nat>, us: seq<Unit>, c: nat)
    requires Below(xs, |us|)
    ensures forall k :: 0 <= k < |xs| ==> UnitExternalOutputNames(us, c)(xs[k]) == ConcatMap(Outputs(us)(xs[k]), ExternalOutputName(us, c))
  {
  }

  lemma FanOutOnly(xs: seq<nat>, us: seq<Unit>, c: nat, n: string)
    requires Below(xs, |us|) && EdgesBelow(us)
    requires n in ConcatMap(xs, UnitExternalOutputNames(us, c))
    ensures exists u, d :: u in xs && d in us[u].outputs && ExternalDependency(us, c, d) && n == us[d].name
  {
    FanOutShape(xs, us, c);
    ConcatMapNestedMember(xs, UnitExternalOutputNames(us, c), Outputs(us), ExternalOutputName(us, c), n);
    var u, d :| u in xs && d in Outputs(us)(u) && n in ExternalOutputName(us, c)(d);
    assert u < |us| && d in us[u].outputs && d < |us|;
    assert ExternalDependency(us, c, d) && n == us[d].name;
  }

  lemma FanOutIf(xs: seq<nat>, us: seq<Unit>, c: nat, n: string, u: nat, d: nat)
    requires Below(xs, |us|) && EdgesBelow(us)
    requires u in xs && d in us[u].outputs && ExternalDependency(us, c, d) && n == us[d].name
    ensures n in ConcatMap(xs, UnitExternalOutputNames(us, c))
  {
    FanOutShape(xs, us, c);
    ConcatMapNestedMember(xs, UnitExternalOutputNames(us, c), Outputs(us), ExternalOutputName(us, c), n);
    assert d in Outputs(us)(u) && n in ExternalOutputName(us, c)(d);
  }

  /** Fan-out: the distinct names of the external units `c`'s units depend on. */
  lemma FanOutSpec(cs: seq<Component>, us: seq<Unit>, c: nat)
    requires WellFormed(cs, us) && c < |cs|
    ensures NoDup(FanOut(cs, us, c))
    ensures forall n: string :: n in FanOut(cs, us, c) <==>
      exists u, d :: u in cs[c].units && d in us[u].outputs && ExternalDependency(us, c, d) && n == us[d].name
  {
    DedupeSpec(ConcatMap(cs[c].units, UnitExternalOutputNames(us, c)));
    forall n: string ensures n in FanOut(cs, us, c) <==>
      exists u, d :: u in cs[c].units && d in us[u].outputs && ExternalDependency(us, c, d) && n == us[d].name
    {
      if n in FanOut(cs, us, c) {
        FanOutOnly(cs[c].units, us, c, n);
      }
      if exists u, d :: u in cs[c].units && d in us[u].outputs && ExternalDependency(us, c, d) && n == us[d].name {
        var u, d :| u in cs[c].units && d in us[u].outputs && ExternalDependency(us, c, d) && n == us[d].name;
        FanOutIf(cs[c].units, us, c, n, u, d);
      }
    }
  }

  /** No component is its own dependency component, and every one exists. */
  lemma DependencyComponentsBounds(cs: seq<Component>, us: seq<Unit>, c: nat)
    requires WellFormed(cs, us) && c < |cs|
    ensures c !in DependencyComponents(cs, us, c)
    ensures Below(DependencyComponents(cs, us, c), |cs|)
  {
    DependencyComponentsSpec(cs, us, c);
  }

  lemma DependencyUnitsShape(xs: seq<nat>, us: seq<Unit>, dc: nat)
    requires Below(xs, |us|)
    ensures forall k :: 0 <= k < |xs| ==> OutputsOwnedBy(us, dc)(xs[k]) == ConcatMap(Outputs(us)(xs[k]), OwnedOutput(us, dc))
  {
  }

  lemma DependencyUnitsOnly(xs: seq<nat>, us: seq<Unit>, dc: nat, y: nat)
    requires Below(xs, |us|) && EdgesBelow(us)
    requires y in ConcatMap(xs, OutputsOwnedBy(us, dc))
    ensures y < |us| && us[y].component == dc && exists u :: u in xs && y in us[u].outputs
  {
    DependencyUnitsShape(xs, us, dc);
    ConcatMapNestedMember(xs, OutputsOwnedBy(us, dc), Outputs(us), OwnedOutput(us, dc), y);
    var u, d :| u in xs && d in Outputs(us)(u) && y in OwnedOutput(us, dc)(d);
    assert u < |us| && d in us[u].outputs;
    assert y in (if d < |us| && us[d].component == dc then [d] else []);
    assert y == d && d < |us| && us[d].component == dc;
    assert u in xs && y in us[u].outputs;
  }

  lemma DependencyUnitsIf(xs: seq<nat>, us: seq<Unit>, dc: nat, y: nat, u: nat)
    requires Below(xs, |us|) && EdgesBelow(us)
    requires y < |us| && us[y].component == dc && u in xs && y in us[u].outputs
    ensures y in ConcatMap(xs, OutputsOwnedBy(us, dc))
  {
    DependencyUnitsShape(xs, us, dc);
    ConcatMapNestedMember(xs, OutputsOwnedBy(us, dc), Outputs(us), OwnedOutput(us, dc), y);
    assert y in Outputs(us)(u) && y in OwnedOutput(us, dc)(y);
  }

  /** `getDependencyUnitsOfCode($dc)`, computed: the units `dc` owns that `c`'s units depend on, each once. */
  lemma DependencyUnitsSpec(cs: seq<Component>, us: seq<Unit>, c: nat, dc: nat)
    requires WellFormed(cs, us) && c < |cs|
    ensures NoDup(DependencyUnits(cs, us, c, dc))
    ensures forall y: nat :: y in DependencyUnits(cs, us, c, dc) <==>
      y < |us| && us[y].component == dc && exists u :: u in cs[c].units && y in us[u].outputs
  {
    DedupeSpec(ConcatMap(cs[c].units, OutputsOwnedBy(us, dc)));
    forall y: nat ensures y in DependencyUnits(cs, us, c, dc) <==>
      y < |us| && us[y].component == dc && exists u :: u in cs[c].units && y in us[u].outputs
    {
      if y in DependencyUnits(cs, us, c, dc) {
        DependencyUnitsOnly(cs[c].units, us, dc, y);
      }
      if y < |us| && us[y].component == dc && exists u :: u in cs[c].units && y in us[u].outputs {
        var u :| u in cs[c].units && y in us[u].outputs;
        DependencyUnitsIf(cs[c].units, us, dc, y, u);
      }
    }
  }

  lemma DependentUnitsOnly(xs: seq<nat>, us: seq<Unit>, dc: nat, y: nat)
    requires Below(xs, |us|) && EdgesBelow(us)
    requires y in ConcatMap(xs, UnitsDependingOn(us, dc))
    ensures y in xs && exists d :: d in us[y].outputs && us[d].component == dc
  {
    var f := UnitsDependingOn(us, dc);
    ConcatMapMembers(xs, f);
    var k :| 0 <= k < |xs| && y in f(xs[k]);
    var u := xs[k];
    assert u < |us| && y in ConcatMap(us[u].outputs, DependingUnit(us, dc, u));
    ConcatMapMembers(us[u].outputs, DependingUnit(us, dc, u));
    var j :| 0 <= j < |us[u].outputs| && y in DependingUnit(us, dc, u)(us[u].outputs[j]);
    var d := us[u].outputs[j];
    assert y in (if d < |us| && us[d].component == dc then [u] else []);
    assert y == u && d < |us| && us[d].component == dc;
    assert y in xs && d in us[y].outputs;
  }

  lemma DependentUnitsIf(xs: seq<nat>, us: seq<Unit>, dc: nat, y: nat, d: nat)
    requires Below(xs, |us|) && EdgesBelow(us)
    requires y in xs && d in us[y].outputs && us[d].component == dc
    ensures y in ConcatMap(xs, UnitsDependingOn(us, dc))
  {
    var f := UnitsDependingOn(us, dc);
    var k :| 0 <= k < |xs| && xs[k] == y;
    var j :| 0 <= j < |us[y].outputs| && us[y].outputs[j] == d;
    ConcatMapMembers(us[y].outputs, DependingUnit(us, dc, y));
    assert d < |us| && us[d].component == dc;
    assert y in DependingUnit(us, dc, y)(us[y].outputs[j]);
    assert y in f(xs[k]);
    ConcatMapMembers(xs, f);
  }

  /** `getDependentUnitsOfCode($dc)`, computed: `c`'s units with an output `dc` owns, each once. */
  lemma DependentUnitsSpec(cs: seq<Component>, us: seq<Unit>, c: nat, dc: nat)
    requires WellFormed(cs, us) && c < |cs|
    ensures NoDup(DependentUnits(cs, us, c, dc))
    ensures forall y: nat :: y in DependentUnits(cs, us, c, dc) <==>
      y in cs[c].units && exists d :: d in us[y].outputs && us[d].component == dc
  {
    DedupeSpec(ConcatMap(cs[c].units, UnitsDependingOn(us, dc)));
    forall y: nat ensures y in DependentUnits(cs, us, c, dc) <==>
      y in cs[c].units && exists d :: d in us[y].outputs && us[d].component == dc
    {
      if y in DependentUnits(cs, us, c, dc) {
        DependentUnitsOnly(cs[c].units, us, dc, y);
      }
      if y in cs[c].units && exists d :: d in us[y].outputs && us[d].component == dc {
        var d :| d in us[y].outputs && us[d].component == dc;
        DependentUnitsIf(cs[c].units, us, dc, y, d);
      }
    }
  }

  /** Every dependent unit is a unit. */
  lemma DependentUnitsBounds(cs: seq<Component>, us: seq<Unit>, c: nat, dc: nat)
    requires WellFormed(cs, us) && c < |cs|
    ensures Below(DependentUnits(cs, us, c, dc), |us|)
  {
    DependentUnitsSpec(cs, us, c, dc);
  }

  /** Every dependency unit is a unit. */
  lemma DependencyUnitsBounds(cs: seq<Component>, us: seq<Unit>, c: nat, dc: nat)
    requires WellFormed(cs, us) && c < |cs|
    ensures Below(DependencyUnits(cs, us, c, dc), |us|)
  {
    DependencyUnitsSpec(cs, us, c, dc);
  }

  // -------------------------------------------------------------- caches

  /** Components with the same cores compute the same answers; only the caches can tell them apart. */
  lemma SameCores(cs1: seq<Component>, cs2: seq<Component>, us: seq<Unit>, c: nat)
    requires |cs1| == |cs2| && c < |cs1| && Core(cs1[c]) == Core(cs2[c])
    ensures DependencyComponents(cs1, us, c) == DependencyComponents(cs2, us, c)
    ensures Instability(cs1, us, c) == Instability(cs2, us, c)
    ensures Abstractness(cs1, us, c) == Abstractness(cs2, us, c)
    ensures Primitiveness(cs1, us, c) == Primitiveness(cs2, us, c)
    ensures forall dc :: DependentUnits(cs1, us, c, dc) == DependentUnits(cs2, us, c, dc)
    ensures forall dc :: DependencyUnits(cs1, us, c, dc) == DependencyUnits(cs2, us, c, dc)
  {
    assert cs1[c].units == Core(cs1[c]).units;
  }

  /** Two states are alike in their answers when they are the same state. */
  lemma SameAnswersReflexive(cs: seq<Component>, us: seq<Unit>)
    ensures SameAnswers(cs, cs, us)
  {
  }

  lemma {:induction false} SameAnswersTransitive(cs1: seq<Component>, cs2: seq<Component>, cs3: seq<Component>, us: seq<Unit>)
    requires SameAnswers(cs1, cs2, us) && SameAnswers(cs2, cs3, us)
    ensures SameAnswers(cs1, cs3, us)
  {
    forall c, dc | 0 <= c < |cs1| && 0 <= dc < |cs1|
      ensures EffDependentUnits(cs1, us, c, dc) == EffDependentUnits(cs3, us, c, dc)
      ensures EffDependencyUnits(cs1, us, c, dc) == EffDependencyUnits(cs3, us, c, dc)
    {
      assert EffDependentUnits(cs1, us, c, dc) == EffDependentUnits(cs2, us, c, dc);
      assert EffDependencyUnits(cs1, us, c, dc) == EffDependencyUnits(cs2, us, c, dc);
    }
  }

  /** Alike answers mean alike names, so distinct names carry over. */
  lemma SameAnswersNames(cs1: seq<Component>, cs2: seq<Component>, us: seq<Unit>)
    requires SameAnswers(cs1, cs2, us)
    ensures forall c :: 0 <= c < |cs1| ==> cs2[c].name == cs1[c].name && cs2[c].units == cs1[c].units
  {
    forall c | 0 <= c < |cs1| ensures cs2[c].name == cs1[c].name && cs2[c].units == cs1[c].units {
      assert Core(cs1[c]) == Core(cs2[c]);
    }
  }

  /** Filling the `getDependencyComponents` cache with the computed list changes no answer. */
  lemma CacheDependencyComponents(cs: seq<Component>, us: seq<Unit>, c: nat)
    requires c < |cs| && cs[c].cache.dependencyComponents.None?
    ensures SameAnswers(cs, WithCache(cs, c, cs[c].cache.(dependencyComponents := Some(DependencyComponents(cs, us, c)))), us)
  {
    var cs2 := WithCache(cs, c, cs[c].cache.(dependencyComponents := Some(DependencyComponents(cs, us, c))));
    forall x | 0 <= x < |cs| ensures EffDependencyComponents(cs, us, x) == EffDependencyComponents(cs2, us, x) {
      SameCores(cs, cs2, us, x);
    }
    forall x | 0 <= x < |cs| ensures EffInstability(cs, us, x) == EffInstability(cs2, us, x) {
      SameCores(cs, cs2, us, x);
    }
    forall x, dc | 0 <= x < |cs| && 0 <= dc < |cs|
      ensures EffDependentUnits(cs, us, x, dc) == EffDependentUnits(cs2, us, x, dc)
      ensures EffDependencyUnits(cs, us, x, dc) == EffDependencyUnits(cs2, us, x, dc)
    {
      SameCores(cs, cs2, us, x);
      assert cs2[dc].name == Core(cs2[dc]).name == Core(cs[dc]).name;
    }
  }

  /** Filling the `calculateInstabilityRate` cache with the computed rate changes no answer. */
  lemma CacheInstability(cs: seq<Component>, us: seq<Unit>, c: nat)
    requires c < |cs| && cs[c].cache.instability.None?
    ensures SameAnswers(cs, WithCache(cs, c, cs[c].cache.(instability := Some(Instability(cs, us, c)))), us)
  {
    var cs2 := WithCache(cs, c, cs[c].cache.(instability := Some(Instability(cs, us, c))));
    forall x | 0 <= x < |cs| ensures EffDependencyComponents(cs, us, x) == EffDependencyComponents(cs2, us, x) {
      SameCores(cs, cs2, us, x);
    }
    forall x | 0 <= x < |cs| ensures EffInstability(cs, us, x) == EffInstability(cs2, us, x) {
      SameCores(cs, cs2, us, x);
    }
    forall x, dc | 0 <= x < |cs| && 0 <= dc < |cs|
      ensures EffDependentUnits(cs, us, x, dc) == EffDependentUnits(cs2, us, x, dc)
      ensures EffDependencyUnits(cs, us, x, dc) == EffDependencyUnits(cs2, us, x, dc)
    {
      SameCores(cs, cs2, us, x);
      assert cs2[dc].name == Core(cs2[dc]).name == Core(cs[dc]).name;
    }
  }

  /**
   * Filling the `getDependentUnitsOfCode` cache under `dc`'s name changes no
   * answer, because no other component has that name.
   */
  lemma CacheDependentUnits(cs: seq<Component>, us: seq<Unit>, c: nat, dc: nat)
    requires c < |cs| && dc < |cs| && DistinctNames(cs) && cs[dc].name !in cs[c].cache.dependentUnits
    ensures SameAnswers(cs, WithCache(cs, c, cs[c].cache.(dependentUnits :=
      cs[c].cache.dependentUnits[cs[dc].name := DependentUnits(cs, us, c, dc)])), us)
  {
    var cs2 := WithCache(cs, c, cs[c].cache.(dependentUnits :=
      cs[c].cache.dependentUnits[cs[dc].name := DependentUnits(cs, us, c, dc)]));
    forall x | 0 <= x < |cs| ensures EffDependencyComponents(cs, us, x) == EffDependencyComponents(cs2, us, x) {
      SameCores(cs, cs2, us, x);
    }
    forall x | 0 <= x < |cs| ensures EffInstability(cs, us, x) == EffInstability(cs2, us, x) {
      SameCores(cs, cs2, us, x);
    }
    forall x, y | 0 <= x < |cs| && 0 <= y < |cs|
      ensures EffDependentUnits(cs, us, x, y) == EffDependentUnits(cs2, us, x, y)
      ensures EffDependencyUnits(cs, us, x, y) == EffDependencyUnits(cs2, us, x, y)
    {
      SameCores(cs, cs2, us, x);
      assert cs2[y].name == Core(cs2[y]).name == Core(cs[y]).name;
      if x == c && cs[y].name == cs[dc].name {
        assert y == dc;
      }
    }
  }

  /** Filling the `getDependencyUnitsOfCode` cache under `dc`'s name changes no answer. */
  lemma CacheDependencyUnits(cs: seq<Component>, us: seq<Unit>, c: nat, dc: nat)
    requires c < |cs| && dc < |cs| && DistinctNames(cs) && cs[dc].name !in cs[c].cache.dependencyUnits
    ensures SameAnswers(cs, WithCache(cs, c, cs[c].cache.(dependencyUnits :=
      cs[c].cache.dependencyUnits[cs[dc].name := DependencyUnits(cs, us, c, dc)])), us)
  {
    var cs2 := WithCache(cs, c, cs[c].cache.(dependencyUnits :=
      cs[c].cache.dependencyUnits[cs[dc].name := DependencyUnits(cs, us, c, dc)]));
    forall x | 0 <= x < |cs| ensures EffDependencyComponents(cs, us, x) == EffDependencyComponents(cs2, us, x) {
      SameCores(cs, cs2, us, x);
    }
    forall x | 0 <= x < |cs| ensures EffInstability(cs, us, x) == EffInstability(cs2, us, x) {
      SameCores(cs, cs2, us, x);
    }
    forall x, y | 0 <= x < |cs| && 0 <= y < |cs|
      ensures EffDependentUnits(cs, us, x, y) == EffDependentUnits(cs2, us, x, y)
      ensures EffDependencyUnits(cs, us, x, y) == EffDependencyUnits(cs2, us, x, y)
    {
      SameCores(cs, cs2, us, x);
      assert cs2[y].name == Core(cs2[y]).name == Core(cs[y]).name;
      if x == c && cs[y].name == cs[dc].name {
        assert y == dc;
      }
    }
  }

  /** States alike in their answers have the same dependency-component graph. */
  lemma SameAnswersAdjacency(cs1: seq<Component>, cs2: seq<Component>, us: seq<Unit>)
    requires SameAnswers(cs1, cs2, us)
    ensures Adjacency(cs1, us) == Adjacency(cs2, us)
  {
  }

  /** In a consistent registry every answer of `getDependencyComponents` is a list of other components. */
  lemma AdjacencySound(cs: seq<Component>, us: seq<Unit>)
    requires WellFormed(cs, us) && CachesSound(cs)
    ensures AdjacencyOk(Adjacency(cs, us))
  {
    var adj := Adjacency(cs, us);
    forall c | 0 <= c < |adj| ensures Below(adj[c], |adj|) && c !in adj[c] {
      if cs[c].cache.dependencyComponents.None? {
        DependencyComponentsBounds(cs, us, c);
      } else {
        assert CacheBelow(cs[c].cache, |cs|, |us|);
      }
    }
  }

  // ------------------------------------------------------------- metrics

  lemma {:induction false} PrimitivenessSumBounds(us: seq<Unit>, xs: seq<nat>)
    ensures 0.0 <= PrimitivenessSum(us, xs) <= |xs| as real
    decreases |xs|
  {
    if xs != [] {
      PrimitivenessSumBounds(us, xs[..|xs| - 1]);
    }
  }

  /** `calculatePrimitivenessRate` is a rate: between 0 and 1. */
  lemma PrimitivenessBounds(cs: seq<Component>, us: seq<Unit>, c: nat)
    requires c < |cs|
    ensures 0.0 <= Primitiveness(cs, us, c) <= 1.0
  {
    PrimitivenessSumBounds(us, cs[c].units);
  }

  /** `calculateDistanceRate` lies between 0 and 1 whenever the cached instability is a rate. */
  lemma DistanceBounds(cs: seq<Component>, us: seq<Unit>, c: nat)
    requires c < |cs| && CachesSound(cs)
    ensures 0.0 <= Distance(cs, us, c) <= 1.0
  {
  }

  // -------------------------------------------------------------- cycles

  /** `b` is a dependency component of `a`. */
  predicate Edge(adj: seq<seq<nat>>, a: nat, b: nat)
  {
    a < |adj| && b in adj[a]
  }

  /** A path of the search: distinct components, each a dependency component of the one before. */
  predicate SimplePath(adj: seq<seq<nat>>, p: seq<nat>)
  {
    NoDup(p) && (forall i :: 0 <= i < |p| ==> p[i] < |adj|)
    && forall i :: 0 <= i < |p| - 1 ==> Edge(adj, p[i], p[i + 1])
  }

  /** A reported cycle: a simple path from `root`, closed by an edge back to `root`, three entries at least. */
  predicate CycleThrough(adj: seq<seq<nat>>, root: nat, w: seq<nat>)
  {
    |w| >= 3 && w[0] == root && w[|w| - 1] == root
    && SimplePath(adj, w[..|w| - 1]) && Edge(adj, w[|w| - 2], root)
  }

  /** A path whose last component depends on its first closes into a cycle. */
  lemma CycleClosed(adj: seq<seq<nat>>, p: seq<nat>, d: nat)
    requires AdjacencyOk(adj) && SimplePath(adj, p) && p != [] && d == p[0] && Edge(adj, p[|p| - 1], d)
    ensures CycleThrough(adj, p[0], p + [d])
  {
    var w := p + [d];
    assert w[..|w| - 1] == p;
    assert p[0] in adj[p[|p| - 1]];
    assert p[|p| - 1] != p[0];
  }

  /** A path extended by a new dependency component is still a path. */
  lemma PathExtended(adj: seq<seq<nat>>, p: seq<nat>, d: nat)
    requires SimplePath(adj, p) && p != [] && d !in p && d < |adj| && Edge(adj, p[|p| - 1], d)
    ensures SimplePath(adj, p + [d])
  {
    var q := p + [d];
    forall i, j | 0 <= i < j < |q| ensures q[i] != q[j] {
      if j < |p| {
        assert q[i] == p[i] && q[j] == p[j];
      } else {
        assert q[i] == p[i] && q[j] == d;
      }
    }
    forall i | 0 <= i < |q| - 1 ensures Edge(adj, q[i], q[i + 1]) {
      if i < |p| - 1 {
        assert q[i] == p[i] && q[i + 1] == p[i + 1];
      }
    }
  }

  lemma {:induction false} CyclesShape(adj: seq<seq<nat>>, node: nat, path: seq<nat>, result: seq<seq<nat>>)
    requires AdjacencyOk(adj) && node < |adj| && node !in path
    requires SimplePath(adj, path + [node])
    requires forall w :: w in result ==> CycleThrough(adj, (path + [node])[0], w)
    ensures forall w :: w in Cycles(adj, node, path, result) ==> CycleThrough(adj, (path + [node])[0], w)
    decreases Unvisited(|adj|, path), 1, 0
  {
    CyclesScanShape(adj, node, path, 0, result);
  }

  lemma {:induction false} CyclesScanShape(adj: seq<seq<nat>>, node: nat, path: seq<nat>, i: nat, result: seq<seq<nat>>)
    requires AdjacencyOk(adj) && node < |adj| && node !in path && i <= |adj[node]|
    requires SimplePath(adj, path + [node])
    requires forall w :: w in result ==> CycleThrough(adj, (path + [node])[0], w)
    ensures forall w :: w in CyclesScan(adj, node, path, i, result) ==> CycleThrough(adj, (path + [node])[0], w)
    decreases Unvisited(|adj|, path), 0, |adj[node]| - i
  {
    if i < |adj[node]| {
      var p := path + [node];
      var d := adj[node][i];
      assert d in adj[node] && p[|p| - 1] == node;
      if d in p {
        if p[0] == d {
          CycleClosed(adj, p, d);
          CyclesScanShape(adj, node, path, i + 1, result + [p + [d]]);
        } else {
          CyclesScanShape(adj, node, path, i + 1, result);
        }
      } else {
        assert node in Unvisited(|adj|, path) && node !in Unvisited(|adj|, p);
        PathExtended(adj, p, d);
        assert (p + [d])[0] == p[0];
        CyclesShape(adj, d, p, result);
        CyclesScanShape(adj, node, path, i + 1, Cycles(adj, d, p, result));
      }
    }
  }

  /**
   * Every list `getCyclicDependencies` returns for component `c` starts and
   * ends with `c`, follows dependency-component edges, and passes through
   * distinct components other than `c`, at least one of them.
   */
  lemma CyclicDependenciesShape(adj: seq<seq<nat>>, c: nat)
    requires AdjacencyOk(adj) && c < |adj|
    ensures forall w :: w in Cycles(adj, c, [], []) ==> CycleThrough(adj, c, w)
  {
    assert [] + [c] == [c];
    CyclesShape(adj, c, [], []);
  }

  lemma {:induction false} CyclesGrow(adj: seq<seq<nat>>, node: nat, path: seq<nat>, result: seq<seq<nat>>)
    requires AdjacencyOk(adj) && node < |adj| && node !in path
    ensures forall w :: w in result ==> w in Cycles(adj, node, path, result)
    decreases Unvisited(|adj|, path), 1, 0
  {
    CyclesScanGrow(adj, node, path, 0, result);
  }

  /** The search only ever adds to the result it is given. */
  lemma {:induction false} CyclesScanGrow(adj: seq<seq<nat>>, node: nat, path: seq<nat>, i: nat, result: seq<seq<nat>>)
    requires AdjacencyOk(adj) && node < |adj| && node !in path && i <= |adj[node]|
    ensures forall w :: w in result ==> w in CyclesScan(adj, node, path, i, result)
    decreases Unvisited(|adj|, path), 0, |adj[node]| - i
  {
    if i < |adj[node]| {
      var p := path + [node];
      var d := adj[node][i];
      if d in p {
        CyclesScanGrow(adj, node, path, i + 1, if p[0] == d then result + [p + [d]] else result);
      } else {
        assert d in adj[node];
        assert node in Unvisited(|adj|, path) && node !in Unvisited(|adj|, p);
        CyclesGrow(adj, d, p, result);
        CyclesScanGrow(adj, node, path, i + 1, Cycles(adj, d, p, result));
      }
    }
  }

  /** What one step of the scan at index `j` leaves as the result. */
  function ScanNext(adj: seq<seq<nat>>, node: nat, path: seq<nat>, j: nat, r: seq<seq<nat>>): seq<seq<nat>>
    requires AdjacencyOk(adj) && node < |adj| && node !in path && j < |adj[node]|
  {
    var p := path + [node];
    var d := adj[node][j];
    assert d in adj[node];
    if d in p then (if p[0] == d then r + [p + [d]] else r) else Cycles(adj, d, p, r)
  }

  lemma ScanStep(adj: seq<seq<nat>>, node: nat, path: seq<nat>, j: nat, r: seq<seq<nat>>)
    requires AdjacencyOk(adj) && node < |adj| && node !in path && j < |adj[node]|
    ensures CyclesScan(adj, node, path, j, r) == CyclesScan(adj, node, path, j + 1, ScanNext(adj, node, path, j, r))
  {
  }

  /** The result after the scan steps at indices `i` to `j - 1`. */
  function ScanUpTo(adj: seq<seq<nat>>, node: nat, path: seq<nat>, i: nat, j: nat, result: seq<seq<nat>>): seq<seq<nat>>
    requires AdjacencyOk(adj) && node < |adj| && node !in path && i <= j <= |adj[node]|
    decreases j - i
  {
    if i == j then result else ScanNext(adj, node, path, j - 1, ScanUpTo(adj, node, path, i, j - 1, result))
  }

  /** The scan from `i` on passes through the scan from any later `j` on. */
  lemma {:induction false} ScanReaches(adj: seq<seq<nat>>, node: nat, path: seq<nat>, i: nat, j: nat, result: seq<seq<nat>>)
    requires AdjacencyOk(adj) && node < |adj| && node !in path && i <= j <= |adj[node]|
    ensures CyclesScan(adj, node, path, i, result) == CyclesScan(adj, node, path, j, ScanUpTo(adj, node, path, i, j, result))
    decreases j - i
  {
    if i < j {
      ScanReaches(adj, node, path, i, j - 1, result);
      ScanStep(adj, node, path, j - 1, ScanUpTo(adj, node, path, i, j - 1, result));
    }
  }

  /**
   * Searching from the `m`-th component of a cycle `q` (closed by the edge
   * from its last component back to its first), with the components before
   * it as the path, reports `q` closed.
   */
  lemma {:induction false} CycleFound(adj: seq<seq<nat>>, q: seq<nat>, m: nat, result: seq<seq<nat>>)
    requires AdjacencyOk(adj) && SimplePath(adj, q) && 1 <= m <= |q| && Edge(adj, q[|q| - 1], q[0])
    ensures q[m - 1] < |adj| && q[m - 1] !in q[..m - 1]
    ensures q + [q[0]] in Cycles(adj, q[m - 1], q[..m - 1], result)
    decreases |q| - m
  {
    var node := q[m - 1];
    var path := q[..m - 1];
    NotInPrefix(q, m - 1, m - 1);
    var p := path + [node];
    assert p == q[..m];
    var target := if m < |q| then q[m] else q[0];
    assert Edge(adj, node, target);
    var j := IndexOf(adj[node], target);
    ScanReaches(adj, node, path, 0, j, result);
    var r := ScanUpTo(adj, node, path, 0, j, result);
    if m < |q| {
      NotInPrefix(q, m, m);
      CycleFound(adj, q, m + 1, r);
      assert q[..m] == p && q[m] !in p;
      ScanStep(adj, node, path, j, r);
      assert ScanNext(adj, node, path, j, r) == Cycles(adj, q[m], p, r);
      CyclesScanGrow(adj, node, path, j + 1, ScanNext(adj, node, path, j, r));
    } else {
      assert p == q && target in p && p[0] == target;
      ScanStep(adj, node, path, j, r);
      assert ScanNext(adj, node, path, j, r) == r + [q + [q[0]]];
      CyclesScanGrow(adj, node, path, j + 1, ScanNext(adj, node, path, j, r));
    }
  }

  /** Every cycle through `c` is reported by `getCyclicDependencies` on `c`. */
  lemma CyclicDependenciesComplete(adj: seq<seq<nat>>, c: nat, w: seq<nat>)
    requires AdjacencyOk(adj) && c < |adj| && CycleThrough(adj, c, w)
    ensures w in Cycles(adj, c, [], [])
  {
    var q := w[..|w| - 1];
    assert w == q + [q[0]];
    CycleFound(adj, q, 1, []);
    assert q[..0] == [];
  }

  /** `getCyclicDependencies` on `c` reports exactly the cycles through `c`. */
  lemma CyclicDependenciesExact(adj: seq<seq<nat>>, c: nat)
    requires AdjacencyOk(adj) && c < |adj|
    ensures forall w :: w in Cycles(adj, c, [], []) <==> CycleThrough(adj, c, w)
  {
    CyclicDependenciesShape(adj, c);
    forall w | CycleThrough(adj, c, w) ensures w in Cycles(adj, c, [], []) {
      CyclicDependenciesComplete(adj, c, w);
    }
  }
}
