/**
 * The snapshot `ArchAnalyzerFacade::allowCurrentState` stores: for each
 * analysed component, every (dependency component, dependent unit,
 * dependency unit) name triple of its dependencies, whatever its
 * restrictions say. The map is the result; writing it to the storage file
 * is not part of this model.
 */
module FacadeState {
  import opened Wrappers
  import opened Collections
  import opened Graph
  import opened GraphProperties
  import opened Registries
  import opened Checks
  import opened FacadeConfig

  type Triple = (string, string, string)

  /** The names recorded for dependent unit `u` of a component using unit `d` of dependency component `dc`. */
  function TripleOf(cs: seq<Component>, us: seq<Unit>, dc: nat, u: nat, d: nat): Triple
  {
    (NameOf(cs, dc), UnitNameOf(us, u), UnitNameOf(us, d))
  }

  /**
   * `dc` is a dependency component of `c`, `u` a unit of `c` depending on it
   * and `d` an output of `u` that `dc` owns, by the answers of the queries.
   */
  predicate Dependency(cs: seq<Component>, us: seq<Unit>, c: nat, dc: nat, u: nat, d: nat)
  {
    c < |cs| && dc < |cs| && dc in EffDependencyComponents(cs, us, c)
    && u < |us| && u in EffDependentUnits(cs, us, c, dc)
    && d in OutputDependencies(us, u, Some(dc))
  }

  function DependencyTriple(cs: seq<Component>, us: seq<Unit>, dc: nat, u: nat): nat -> seq<Triple>
  {
    (d: nat) => [TripleOf(cs, us, dc, u, d)]
  }

  /** The triples of dependent unit `u`: one per output of `u` that `dc` owns. */
  function UnitTriples(cs: seq<Component>, us: seq<Unit>, dc: nat): nat -> seq<Triple>
  {
    (u: nat) => if u < |us| then ConcatMap(OutputDependencies(us, u, Some(dc)), DependencyTriple(cs, us, dc, u)) else []
  }

  /** The triples through dependency component `dc`: those of each unit of `c` depending on it. */
  function ViaTriples(cs: seq<Component>, us: seq<Unit>, c: nat): nat -> seq<Triple>
    requires c < |cs|
  {
    (dc: nat) => if dc < |cs| then ConcatMap(EffDependentUnits(cs, us, c, dc), UnitTriples(cs, us, dc)) else []
  }

  /** The triples of component `c`, in the order of the three nested loops. */
  function ComponentTriples(cs: seq<Component>, us: seq<Unit>, c: nat): seq<Triple>
    requires c < |cs|
  {
    ConcatMap(EffDependencyComponents(cs, us, c), ViaTriples(cs, us, c))
  }

  /** Setting `$currentState[$n][..] = true` for each triple: the key appears with the first triple. */
  function Recorded(m: AllowedState, n: string, ts: seq<Triple>): AllowedState
  {
    if ts == [] then m else m[n := EntryState(m, n) + set t | t in ts]
  }

  /** The map `allowCurrentState` builds over the analysed components `xs`, in order. */
  function CurrentState(cs: seq<Component>, us: seq<Unit>, xs: seq<nat>): AllowedState
    decreases |xs|
  {
    if xs == [] then map[]
    else
      var m := CurrentState(cs, us, xs[..|xs| - 1]);
      var c := xs[|xs| - 1];
      if c < |cs| then Recorded(m, cs[c].name, ComponentTriples(cs, us, c)) else m
  }

  // ------------------------------------------------------- what is recorded

  lemma UnitTriplesSpec(cs: seq<Component>, us: seq<Unit>, dc: nat, u: nat, t: Triple)
    requires u < |us|
    ensures t in UnitTriples(cs, us, dc)(u)
      <==> exists d :: d in OutputDependencies(us, u, Some(dc)) && t == TripleOf(cs, us, dc, u, d)
  {
    ConcatMapMember(OutputDependencies(us, u, Some(dc)), DependencyTriple(cs, us, dc, u), t);
  }

  lemma ViaTriplesSpec(cs: seq<Component>, us: seq<Unit>, c: nat, dc: nat, t: Triple)
    requires WellFormed(cs, us) && c < |cs| && dc < |cs|
    ensures t in ViaTriples(cs, us, c)(dc)
      <==> exists u, d :: u in EffDependentUnits(cs, us, c, dc) && u < |us|
                          && d in OutputDependencies(us, u, Some(dc)) && t == TripleOf(cs, us, dc, u, d)
  {
    var dependents := EffDependentUnits(cs, us, c, dc);
    EffDependentUnitsBelow(cs, us, c, dc);
    ConcatMapMember(dependents, UnitTriples(cs, us, dc), t);
    forall u | u in dependents
      ensures t in UnitTriples(cs, us, dc)(u)
        <==> exists d :: d in OutputDependencies(us, u, Some(dc)) && t == TripleOf(cs, us, dc, u, d)
    {
      UnitTriplesSpec(cs, us, dc, u, t);
    }
  }

  /**
   * A triple is among those of `c` exactly when it names a dependency of
   * `c`: every one, with no restriction consulted.
   */
  lemma ComponentTriplesSpec(cs: seq<Component>, us: seq<Unit>, c: nat, t: Triple)
    requires WellFormed(cs, us) && CachesSound(cs) && c < |cs|
    ensures t in ComponentTriples(cs, us, c)
      <==> exists dc, u, d :: Dependency(cs, us, c, dc, u, d) && t == TripleOf(cs, us, dc, u, d)
  {
    var deps := EffDependencyComponents(cs, us, c);
    AdjacencySound(cs, us);
    assert Below(deps, |cs|) by {
      assert deps == Adjacency(cs, us)[c];
    }
    ConcatMapMember(deps, ViaTriples(cs, us, c), t);
    forall dc | dc in deps
      ensures t in ViaTriples(cs, us, c)(dc)
        <==> exists u, d :: u in EffDependentUnits(cs, us, c, dc) && u < |us|
                            && d in OutputDependencies(us, u, Some(dc)) && t == TripleOf(cs, us, dc, u, d)
    {
      ViaTriplesSpec(cs, us, c, dc, t);
    }
    if t in ComponentTriples(cs, us, c) {
      var dc :| dc in deps && t in ViaTriples(cs, us, c)(dc);
      var u, d :| u in EffDependentUnits(cs, us, c, dc) && u < |us|
                  && d in OutputDependencies(us, u, Some(dc)) && t == TripleOf(cs, us, dc, u, d);
      assert Dependency(cs, us, c, dc, u, d);
    }
  }

  /** Component `c` is named `n` and has triple `t`. */
  function Holds(cs: seq<Component>, us: seq<Unit>, n: string, t: Triple): nat -> bool
  {
    (c: nat) => c < |cs| && cs[c].name == n && t in ComponentTriples(cs, us, c)
  }

  /** Component `c` is named `n` and has a triple at all. */
  function HoldsSome(cs: seq<Component>, us: seq<Unit>, n: string): nat -> bool
  {
    (c: nat) => c < |cs| && cs[c].name == n && ComponentTriples(cs, us, c) != []
  }

  /** Some component among `xs` is named `n` and has triple `t`. */
  predicate HasTriple(cs: seq<Component>, us: seq<Unit>, xs: seq<nat>, n: string, t: Triple)
  {
    exists k :: 0 <= k < |xs| && Holds(cs, us, n, t)(xs[k])
  }

  /** Some component among `xs` is named `n` and has a triple at all. */
  predicate HasSome(cs: seq<Component>, us: seq<Unit>, xs: seq<nat>, n: string)
  {
    exists k :: 0 <= k < |xs| && HoldsSome(cs, us, n)(xs[k])
  }

  /**
   * The snapshot has a triple under name `n` exactly when some analysed
   * component of that name has it; it has the key `n` exactly when such a
   * component has a triple at all.
   */
  lemma {:induction false} CurrentStateSpec(cs: seq<Component>, us: seq<Unit>, xs: seq<nat>, n: string, t: Triple)
    ensures (n in CurrentState(cs, us, xs) && t in CurrentState(cs, us, xs)[n]) <==> HasTriple(cs, us, xs, n, t)
    ensures n in CurrentState(cs, us, xs) <==> HasSome(cs, us, xs, n)
    decreases |xs|
  {
    if xs != [] {
      var init := xs[..|xs| - 1];
      var c := xs[|xs| - 1];
      CurrentStateSpec(cs, us, init, n, t);
      ExistsSnoc(xs, init, Holds(cs, us, n, t));
      ExistsSnoc(xs, init, HoldsSome(cs, us, n));
      var m0 := CurrentState(cs, us, init);
      var ts := if c < |cs| then ComponentTriples(cs, us, c) else [];
      assert CurrentState(cs, us, xs) == Recorded(m0, NameOf(cs, c), ts);
      RecordedSpec(m0, NameOf(cs, c), ts, n, t);
    }
  }

  /** What recording triples under a name adds to the map. */
  lemma RecordedSpec(m: AllowedState, name: string, ts: seq<Triple>, n: string, t: Triple)
    ensures (n in Recorded(m, name, ts) && t in Recorded(m, name, ts)[n])
      <==> (n in m && t in m[n]) || (n == name && t in ts)
    ensures n in Recorded(m, name, ts) <==> n in m || (n == name && ts != [])
  {
  }

  /**
   * Read back by the constructor (`$allowedState[$name]`), the snapshot
   * gives an analysed component exactly its own triples, when names are
   * distinct.
   */
  lemma StateReadBack(cs: seq<Component>, us: seq<Unit>, xs: seq<nat>, c: nat)
    requires DistinctNames(cs) && c in xs && c < |cs|
    ensures EntryState(CurrentState(cs, us, xs), cs[c].name) == set t | t in ComponentTriples(cs, us, c)
  {
    var m := CurrentState(cs, us, xs);
    var n := cs[c].name;
    var k0 :| 0 <= k0 < |xs| && xs[k0] == c;
    forall t ensures t in EntryState(m, n) <==> t in ComponentTriples(cs, us, c) {
      CurrentStateSpec(cs, us, xs, n, t);
      if t in EntryState(m, n) {
        var k :| 0 <= k < |xs| && Holds(cs, us, n, t)(xs[k]);
        assert xs[k] == c;
      }
      if t in ComponentTriples(cs, us, c) {
        assert Holds(cs, us, n, t)(xs[k0]);
      }
    }
  }

  // ------------------------------------------------- the caches change nothing

  lemma TriplesAlike(cs1: seq<Component>, cs2: seq<Component>, us: seq<Unit>, c: nat)
    requires SameAnswers(cs1, cs2, us) && c < |cs1|
    ensures forall dc: nat :: ViaTriples(cs1, us, c)(dc) == ViaTriples(cs2, us, c)(dc)
    ensures ComponentTriples(cs1, us, c) == ComponentTriples(cs2, us, c)
  {
    SameAnswersCores(cs1, cs2, us);
    forall dc: nat | dc < |cs1| ensures ViaTriples(cs1, us, c)(dc) == ViaTriples(cs2, us, c)(dc) {
      forall u: nat ensures UnitTriples(cs1, us, dc)(u) == UnitTriples(cs2, us, dc)(u) {
        if u < |us| {
          assert forall d: nat :: DependencyTriple(cs1, us, dc, u)(d) == DependencyTriple(cs2, us, dc, u)(d);
          ConcatMapCongruent(OutputDependencies(us, u, Some(dc)), DependencyTriple(cs1, us, dc, u), DependencyTriple(cs2, us, dc, u));
        }
      }
      assert EffDependentUnits(cs1, us, c, dc) == EffDependentUnits(cs2, us, c, dc);
      ConcatMapCongruent(EffDependentUnits(cs1, us, c, dc), UnitTriples(cs1, us, dc), UnitTriples(cs2, us, dc));
    }
    assert EffDependencyComponents(cs1, us, c) == EffDependencyComponents(cs2, us, c);
    ConcatMapCongruent(EffDependencyComponents(cs1, us, c), ViaTriples(cs1, us, c), ViaTriples(cs2, us, c));
  }

  /** The snapshot is the same in every state the queries lead to. */
  lemma {:induction false} CurrentStateAlike(cs1: seq<Component>, cs2: seq<Component>, us: seq<Unit>, xs: seq<nat>)
    requires SameAnswers(cs1, cs2, us)
    ensures CurrentState(cs1, us, xs) == CurrentState(cs2, us, xs)
    decreases |xs|
  {
    if xs != [] {
      CurrentStateAlike(cs1, cs2, us, xs[..|xs| - 1]);
      var c := xs[|xs| - 1];
      if c < |cs1| {
        SameAnswersCores(cs1, cs2, us);
        TriplesAlike(cs1, cs2, us, c);
      }
    }
  }

  lemma CurrentStateStep(cs: seq<Component>, us: seq<Unit>, xs: seq<nat>, i: nat)
    requires i < |xs| && xs[i] < |cs|
    ensures CurrentState(cs, us, xs[..i + 1])
      == Recorded(CurrentState(cs, us, xs[..i]), cs[xs[i]].name, ComponentTriples(cs, us, xs[i]))
  {
    assert xs[..i + 1][..i] == xs[..i];
  }

  /** One more component recorded, its triples answered in a state the queries led to. */
  lemma StateStep(cs0: seq<Component>, cs1: seq<Component>, cs2: seq<Component>, us: seq<Unit>, xs: seq<nat>, i: nat,
                  state: AllowedState, ts: seq<Triple>)
    requires SameAnswers(cs0, cs1, us) && SameAnswers(cs1, cs2, us) && i < |xs| && xs[i] < |cs0|
    requires state == CurrentState(cs0, us, xs[..i]) && ts == ComponentTriples(cs1, us, xs[i])
    ensures SameAnswers(cs0, cs2, us) && xs[i] < |cs2|
    ensures Recorded(state, cs2[xs[i]].name, ts) == CurrentState(cs0, us, xs[..i + 1])
  {
    CurrentStateStep(cs0, us, xs, i);
    TriplesAlike(cs0, cs1, us, xs[i]);
    SameAnswersTransitive(cs0, cs1, cs2, us);
    SameAnswersCores(cs0, cs2, us);
  }

  // ------------------------------------------------------------ the loops

  /** The innermost loop: the outputs of dependent `u` that `dc` owns. */
  method UnitTriplesOf(reg: Registry, dc: nat, u: nat) returns (ts: seq<Triple>)
    requires WellFormed(reg.components, reg.units) && dc < |reg.components| && u < |reg.units|
    ensures ts == UnitTriples(reg.components, reg.units, dc)(u)
  {
    var outs := reg.OutputDependencies(u, Some(dc));
    ghost var f := DependencyTriple(reg.components, reg.units, dc, u);
    ts := [];
    for k := 0 to |outs|
      invariant ts == ConcatMap(outs[..k], f)
    {
      ConcatMapStep(outs, f, k);
      var d := outs[k];
      assert d in outs;
      ts := ts + [(reg.components[dc].name, reg.units[u].name, reg.units[d].name)];
    }
    assert outs[..|outs|] == outs;
  }

  /** The middle loop over the dependent units, each unit's triples in turn. */
  method DependentTriplesOf(reg: Registry, dc: nat, dependents: seq<nat>) returns (ts: seq<Triple>)
    requires WellFormed(reg.components, reg.units) && dc < |reg.components| && Below(dependents, |reg.units|)
    ensures ts == ConcatMap(dependents, UnitTriples(reg.components, reg.units, dc))
  {
    ghost var f := UnitTriples(reg.components, reg.units, dc);
    ts := [];
    for k := 0 to |dependents|
      invariant ts == ConcatMap(dependents[..k], f)
    {
      ConcatMapStep(dependents, f, k);
      assert dependents[k] in dependents;
      var more := UnitTriplesOf(reg, dc, dependents[k]);
      ts := ts + more;
    }
    assert dependents[..|dependents|] == dependents;
  }

  /** The triples of `c` through dependency component `dc`, its dependent units answered through the cache. */
  method ViaTriplesOf(reg: Registry, c: nat, dc: nat, ghost cs0: seq<Component>) returns (ts: seq<Triple>)
    requires reg.Valid() && SameAnswers(cs0, reg.components, reg.units) && c < |cs0| && dc < |cs0|
    modifies reg
    ensures reg.Valid() && SameAnswers(cs0, reg.components, reg.units)
    ensures reg.componentIds == old(reg.componentIds) && reg.unitIds == old(reg.unitIds) && reg.units == old(reg.units)
    ensures ts == ViaTriples(cs0, reg.units, c)(dc)
  {
    var dependents := reg.GetDependentUnitsOfCode(c, dc);
    EffDependentUnitsBelow(old(reg.components), reg.units, c, dc);
    SameAnswersTransitive(cs0, old(reg.components), reg.components, reg.units);
    TriplesAlike(cs0, reg.components, reg.units, c);
    ts := DependentTriplesOf(reg, dc, dependents);
  }

  /** The loop over the dependency components `deps` of `c`. */
  method ViaTriplesFor(reg: Registry, c: nat, deps: seq<nat>, ghost cs0: seq<Component>) returns (ts: seq<Triple>)
    requires reg.Valid() && SameAnswers(cs0, reg.components, reg.units) && c < |cs0| && Below(deps, |cs0|)
    modifies reg
    ensures reg.Valid() && SameAnswers(cs0, reg.components, reg.units)
    ensures reg.componentIds == old(reg.componentIds) && reg.unitIds == old(reg.unitIds) && reg.units == old(reg.units)
    ensures ts == ConcatMap(deps, ViaTriples(cs0, reg.units, c))
  {
    ghost var f := ViaTriples(cs0, reg.units, c);
    ts := [];
    for k := 0 to |deps|
      invariant reg.Valid() && SameAnswers(cs0, reg.components, reg.units)
      invariant reg.componentIds == old(reg.componentIds) && reg.unitIds == old(reg.unitIds) && reg.units == old(reg.units)
      invariant ts == ConcatMap(deps[..k], f)
    {
      ConcatMapStep(deps, f, k);
      assert deps[k] in deps;
      var more := ViaTriplesOf(reg, c, deps[k], cs0);
      ts := ts + more;
    }
    assert deps[..|deps|] == deps;
  }

  /** The triples of analysed component `c`, its dependency components answered through the cache. */
  method ComponentTriplesOf(reg: Registry, c: nat) returns (ts: seq<Triple>)
    requires reg.Valid() && c < |reg.components|
    modifies reg
    ensures reg.Valid() && SameAnswers(old(reg.components), reg.components, reg.units)
    ensures reg.componentIds == old(reg.componentIds) && reg.unitIds == old(reg.unitIds) && reg.units == old(reg.units)
    ensures ts == ComponentTriples(old(reg.components), reg.units, c)
  {
    AdjacencySound(reg.components, reg.units);
    var deps := reg.GetDependencyComponents(c);
    assert deps == Adjacency(old(reg.components), reg.units)[c];
    ts := ViaTriplesFor(reg, c, deps, old(reg.components));
  }

  /** The outer loop of `allowCurrentState` over the analysed components `xs`. */
  method CurrentStateOf(reg: Registry, xs: seq<nat>) returns (state: AllowedState)
    requires reg.Valid() && Below(xs, |reg.components|)
    modifies reg
    ensures reg.Valid() && SameAnswers(old(reg.components), reg.components, reg.units)
    ensures reg.componentIds == old(reg.componentIds) && reg.unitIds == old(reg.unitIds) && reg.units == old(reg.units)
    ensures state == CurrentState(old(reg.components), reg.units, xs)
  {
    ghost var cs0 := reg.components;
    SameAnswersReflexive(cs0, reg.units);
    state := map[];
    for i := 0 to |xs|
      invariant reg.Valid() && SameAnswers(cs0, reg.components, reg.units)
      invariant reg.componentIds == old(reg.componentIds) && reg.unitIds == old(reg.unitIds) && reg.units == old(reg.units)
      invariant state == CurrentState(cs0, reg.units, xs[..i])
    {
      var c := xs[i];
      assert c in xs;
      ghost var cs1 := reg.components;
      var ts := ComponentTriplesOf(reg, c);
      StateStep(cs0, cs1, reg.components, reg.units, xs, i, state, ts);
      state := Recorded(state, reg.components[c].name, ts);
    }
    assert xs[..|xs|] == xs;
  }
}
