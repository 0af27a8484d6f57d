/**
 * The findings of `ArchAnalyzerFacade::check` for the analysed components:
 * cycles (the acyclic dependencies principle), dependents whose instability
 * rate is below their dependency's (the stable dependencies principle), illegal dependency
 * components, non-public dependency units and the distance overage. Each
 * kind is a function of the registry's answers; the methods collect them
 * through the registry's queries, whose caches change no answer.
 */
module Checks {
  import opened Wrappers
  import opened Collections
  import opened Graph
  import opened GraphProperties
  import opened Registries

  /** One finding of `check`: the names and rates its text is made of. */
  datatype Message =
    | CyclicDependencies(path: seq<string>)
    | UnstableDependency(dependent: string, dependentInstability: real, dependency: string, dependencyInstability: real)
    | IllegalDependency(component: string, dependency: string, elements: seq<(string, string)>)
    | NonPublicDependency(component: string, element: string, dependents: seq<string>)
    | DistanceExceeded(component: string, overage: real, distance: real)

  function NameOf(cs: seq<Component>, c: nat): string
  {
    if c < |cs| then cs[c].name else ""
  }

  function NamesOf(cs: seq<Component>, xs: seq<nat>): seq<string>
  {
    seq(|xs|, k requires 0 <= k < |xs| => NameOf(cs, xs[k]))
  }

  function UnitNameOf(us: seq<Unit>, u: nat): string
  {
    if u < |us| then us[u].name else ""
  }

  function UnitName(us: seq<Unit>): nat -> seq<string>
  {
    (u: nat) => [UnitNameOf(us, u)]
  }

  /** The positions `Restrictions` answers that are positions of existing entities. */
  function Existing(xs: seq<nat>, n: nat): (r: seq<nat>)
    ensures Below(r, n)
    ensures forall x :: x in r <==> x in xs && x < n
  {
    Filter(xs, (x: nat) => x < n)
  }

  /** Two states alike in their answers: same size, same names, same restrictions. */
  lemma SameAnswersCores(cs1: seq<Component>, cs2: seq<Component>, us: seq<Unit>)
    requires SameAnswers(cs1, cs2, us)
    ensures forall c :: 0 <= c < |cs1| ==>
      cs2[c].name == cs1[c].name && cs2[c].restrictions == cs1[c].restrictions && cs2[c].units == cs1[c].units
    ensures forall c :: NameOf(cs1, c) == NameOf(cs2, c)
    ensures forall xs :: NamesOf(cs1, xs) == NamesOf(cs2, xs)
  {
    forall c | 0 <= c < |cs1|
      ensures cs2[c].name == cs1[c].name && cs2[c].restrictions == cs1[c].restrictions && cs2[c].units == cs1[c].units
    {
      assert Core(cs1[c]) == Core(cs2[c]);
    }
  }

  // ------------------------------------------------------------------ ADP

  function CycleMessage(cs: seq<Component>): seq<nat> -> seq<Message>
  {
    (w: seq<nat>) => [CyclicDependencies(NamesOf(cs, w))]
  }

  /** With the ADP check on: one message per list `getCyclicDependencies` returns, in its order. */
  function AdpMessages(cs: seq<Component>, us: seq<Unit>, c: nat): seq<Message>
    requires AdjacencyOk(Adjacency(cs, us)) && c < |cs|
  {
    ConcatMap(Cycles(Adjacency(cs, us), c, [], []), CycleMessage(cs))
  }

  // ------------------------------------------------------------------ SDP

  /** A message for dependent `d` of `c` exactly when the instability rate of `d` is below that of `c`. */
  function UnstableMessage(cs: seq<Component>, us: seq<Unit>, c: nat): nat -> seq<Message>
    requires c < |cs|
  {
    (d: nat) =>
      if d < |cs| && EffInstability(cs, us, d) < EffInstability(cs, us, c)
      then [UnstableDependency(cs[d].name, EffInstability(cs, us, d), cs[c].name, EffInstability(cs, us, c))]
      else []
  }

  /** With the SDP check on: the dependent components of `c`, in order, whose instability rate is below `c`'s. */
  function SdpMessages(cs: seq<Component>, us: seq<Unit>, c: nat): seq<Message>
    requires c < |cs|
  {
    ConcatMap(DependentComponents(cs, us, c), UnstableMessage(cs, us, c))
  }

  // ---------------------------------------------------- illegal components

  /** `isDependencyInAllowedState`, asked of dependent `u` about `d`, by the restrictions of `u`'s owner. */
  predicate InAllowedState(cs: seq<Component>, us: seq<Unit>, policy: Policy, u: nat, d: nat)
  {
    u < |us| && us[u].component < |cs| && policy.unitDependencyInAllowedState(cs[us[u].component].restrictions, d, u)
  }

  /** The line `u -> d` of a message, unless the pair is in allowed state. */
  function IllegalPair(cs: seq<Component>, us: seq<Unit>, policy: Policy, u: nat): nat -> seq<(string, string)>
  {
    (d: nat) => if InAllowedState(cs, us, policy, u, d) then [] else [(UnitNameOf(us, u), UnitNameOf(us, d))]
  }

  /** The lines for one dependent unit: its outputs owned by `ic`. */
  function UnitPairs(cs: seq<Component>, us: seq<Unit>, policy: Policy, ic: nat): nat -> seq<(string, string)>
  {
    (u: nat) => if u < |us| then ConcatMap(OutputDependencies(us, u, Some(ic)), IllegalPair(cs, us, policy, u)) else []
  }

  /** One message per illegal dependency component, listing the pairs of units not in allowed state. */
  function IllegalMessage(cs: seq<Component>, us: seq<Unit>, policy: Policy, c: nat): nat -> seq<Message>
    requires c < |cs|
  {
    (ic: nat) =>
      if ic < |cs|
      then [IllegalDependency(cs[c].name, cs[ic].name, ConcatMap(EffDependentUnits(cs, us, c, ic), UnitPairs(cs, us, policy, ic)))]
      else []
  }

  function IllegalComponents(cs: seq<Component>, policy: Policy, c: nat): (r: seq<nat>)
    requires c < |cs|
    ensures Below(r, |cs|)
  {
    Existing(policy.illegalDependencyComponents(cs[c].restrictions, c), |cs|)
  }

  function IllegalMessages(cs: seq<Component>, us: seq<Unit>, policy: Policy, c: nat): seq<Message>
    requires c < |cs|
  {
    ConcatMap(IllegalComponents(cs, policy, c), IllegalMessage(cs, us, policy, c))
  }

  // ---------------------------------------------------- non-public units

  /** One message per non-public dependency unit, listing the units of `c` that depend on it. */
  function NonPublicMessage(cs: seq<Component>, us: seq<Unit>, c: nat): nat -> seq<Message>
    requires c < |cs|
  {
    (iu: nat) =>
      if iu < |us|
      then [NonPublicDependency(cs[c].name, us[iu].name, ConcatMap(InputDependencies(us, iu, Some(c)), UnitName(us)))]
      else []
  }

  /** `getIllegalDependencyUnitsOfCode(true)`: only private elements of allowed components. */
  function IllegalUnits(cs: seq<Component>, us: seq<Unit>, policy: Policy, c: nat): seq<nat>
    requires c < |cs|
  {
    Existing(policy.illegalDependencyUnits(cs[c].restrictions, c, true), |us|)
  }

  function NonPublicMessages(cs: seq<Component>, us: seq<Unit>, policy: Policy, c: nat): seq<Message>
    requires c < |cs|
  {
    ConcatMap(IllegalUnits(cs, us, policy, c), NonPublicMessage(cs, us, c))
  }

  // ------------------------------------------------------------- distance

  /** A message when the overage is not zero (a zero float is falsy), with the distance itself. */
  function DistanceMessages(cs: seq<Component>, us: seq<Unit>, policy: Policy, c: nat): seq<Message>
    requires c < |cs|
  {
    var overage := policy.distanceRateOverage(cs[c].restrictions, c);
    if overage != 0.0 then [DistanceExceeded(cs[c].name, overage, Distance(cs, us, c))] else []
  }

  // ------------------------------------------------------------ all of it

  /** The messages of one analysed component, in the order `check` emits them. */
  function ComponentMessages(cs: seq<Component>, us: seq<Unit>, policy: Policy, adp: bool, sdp: bool, c: nat): seq<Message>
    requires AdjacencyOk(Adjacency(cs, us)) && c < |cs|
  {
    (if adp then AdpMessages(cs, us, c) else [])
    + (if sdp then SdpMessages(cs, us, c) else [])
    + IllegalMessages(cs, us, policy, c)
    + NonPublicMessages(cs, us, policy, c)
    + DistanceMessages(cs, us, policy, c)
  }

  function MessagesOf(cs: seq<Component>, us: seq<Unit>, policy: Policy, adp: bool, sdp: bool): nat -> seq<Message>
    requires AdjacencyOk(Adjacency(cs, us))
  {
    (c: nat) => if c < |cs| then ComponentMessages(cs, us, policy, adp, sdp, c) else []
  }

  /** What `check` returns for the analysed components `xs`, in their order. */
  function CheckMessages(cs: seq<Component>, us: seq<Unit>, policy: Policy, adp: bool, sdp: bool, xs: seq<nat>): seq<Message>
    requires AdjacencyOk(Adjacency(cs, us))
  {
    ConcatMap(xs, MessagesOf(cs, us, policy, adp, sdp))
  }

  // ------------------------------------------ the answers, not the caches

  /** A cache `getDependentUnitsOfCode` holds names units only. */
  lemma EffDependentUnitsBelow(cs: seq<Component>, us: seq<Unit>, c: nat, dc: nat)
    requires WellFormed(cs, us) && c < |cs| && dc < |cs|
    ensures Below(EffDependentUnits(cs, us, c, dc), |us|)
  {
    if cs[dc].name !in cs[c].cache.dependentUnits {
      DependentUnitsBounds(cs, us, c, dc);
    }
  }

  /** Every dependent component is a component. */
  lemma DependentComponentsBelow(cs: seq<Component>, us: seq<Unit>, c: nat)
    requires WellFormed(cs, us) && c < |cs|
    ensures Below(DependentComponents(cs, us, c), |cs|)
  {
    DependentComponentsSpec(cs, us, c);
  }

  lemma AdpAlike(cs1: seq<Component>, cs2: seq<Component>, us: seq<Unit>, c: nat)
    requires SameAnswers(cs1, cs2, us) && AdjacencyOk(Adjacency(cs1, us)) && c < |cs1|
    ensures AdjacencyOk(Adjacency(cs2, us))
    ensures AdpMessages(cs1, us, c) == AdpMessages(cs2, us, c)
  {
    SameAnswersAdjacency(cs1, cs2, us);
    SameAnswersCores(cs1, cs2, us);
    ConcatMapCongruent(Cycles(Adjacency(cs1, us), c, [], []), CycleMessage(cs1), CycleMessage(cs2));
  }

  lemma UnstableAlike(cs1: seq<Component>, cs2: seq<Component>, us: seq<Unit>, c: nat)
    requires SameAnswers(cs1, cs2, us) && c < |cs1|
    ensures forall d: nat :: UnstableMessage(cs1, us, c)(d) == UnstableMessage(cs2, us, c)(d)
  {
    SameAnswersCores(cs1, cs2, us);
  }

  lemma SdpAlike(cs1: seq<Component>, cs2: seq<Component>, us: seq<Unit>, c: nat)
    requires SameAnswers(cs1, cs2, us) && c < |cs1|
    ensures SdpMessages(cs1, us, c) == SdpMessages(cs2, us, c)
  {
    SameAnswersCores(cs1, cs2, us);
    assert DependentComponents(cs1, us, c) == DependentComponents(cs2, us, c);
    UnstableAlike(cs1, cs2, us, c);
    ConcatMapCongruent(DependentComponents(cs1, us, c), UnstableMessage(cs1, us, c), UnstableMessage(cs2, us, c));
  }

  lemma UnitPairsAlike(cs1: seq<Component>, cs2: seq<Component>, us: seq<Unit>, policy: Policy, ic: nat)
    requires SameAnswers(cs1, cs2, us)
    ensures forall u: nat :: UnitPairs(cs1, us, policy, ic)(u) == UnitPairs(cs2, us, policy, ic)(u)
  {
    SameAnswersCores(cs1, cs2, us);
    forall u: nat | u < |us| ensures UnitPairs(cs1, us, policy, ic)(u) == UnitPairs(cs2, us, policy, ic)(u) {
      assert forall d: nat :: IllegalPair(cs1, us, policy, u)(d) == IllegalPair(cs2, us, policy, u)(d);
      ConcatMapCongruent(OutputDependencies(us, u, Some(ic)), IllegalPair(cs1, us, policy, u), IllegalPair(cs2, us, policy, u));
    }
  }

  lemma IllegalAlike(cs1: seq<Component>, cs2: seq<Component>, us: seq<Unit>, policy: Policy, c: nat)
    requires SameAnswers(cs1, cs2, us) && c < |cs1|
    ensures forall ic: nat :: IllegalMessage(cs1, us, policy, c)(ic) == IllegalMessage(cs2, us, policy, c)(ic)
    ensures IllegalMessages(cs1, us, policy, c) == IllegalMessages(cs2, us, policy, c)
  {
    SameAnswersCores(cs1, cs2, us);
    UnitPairsAlike(cs1, cs2, us, policy, 0);
    forall ic: nat | ic < |cs1| ensures IllegalMessage(cs1, us, policy, c)(ic) == IllegalMessage(cs2, us, policy, c)(ic) {
      UnitPairsAlike(cs1, cs2, us, policy, ic);
      assert EffDependentUnits(cs1, us, c, ic) == EffDependentUnits(cs2, us, c, ic);
      ConcatMapCongruent(EffDependentUnits(cs1, us, c, ic), UnitPairs(cs1, us, policy, ic), UnitPairs(cs2, us, policy, ic));
    }
    assert IllegalComponents(cs1, policy, c) == IllegalComponents(cs2, policy, c);
    ConcatMapCongruent(IllegalComponents(cs1, policy, c), IllegalMessage(cs1, us, policy, c), IllegalMessage(cs2, us, policy, c));
  }

  lemma NonPublicAlike(cs1: seq<Component>, cs2: seq<Component>, us: seq<Unit>, policy: Policy, c: nat)
    requires SameAnswers(cs1, cs2, us) && c < |cs1|
    ensures forall iu: nat :: NonPublicMessage(cs1, us, c)(iu) == NonPublicMessage(cs2, us, c)(iu)
    ensures NonPublicMessages(cs1, us, policy, c) == NonPublicMessages(cs2, us, policy, c)
  {
    SameAnswersCores(cs1, cs2, us);
    assert IllegalUnits(cs1, us, policy, c) == IllegalUnits(cs2, us, policy, c);
    ConcatMapCongruent(IllegalUnits(cs1, us, policy, c), NonPublicMessage(cs1, us, c), NonPublicMessage(cs2, us, c));
  }

  lemma DistanceAlike(cs1: seq<Component>, cs2: seq<Component>, us: seq<Unit>, policy: Policy, c: nat)
    requires SameAnswers(cs1, cs2, us) && c < |cs1|
    ensures Distance(cs1, us, c) == Distance(cs2, us, c)
    ensures DistanceMessages(cs1, us, policy, c) == DistanceMessages(cs2, us, policy, c)
  {
    SameAnswersCores(cs1, cs2, us);
    SameCores(cs1, cs2, us, c);
  }

  /** The messages of a component are the same in every state the queries lead to. */
  lemma ComponentMessagesAlike(cs1: seq<Component>, cs2: seq<Component>, us: seq<Unit>, policy: Policy,
                               adp: bool, sdp: bool, c: nat)
    requires SameAnswers(cs1, cs2, us) && AdjacencyOk(Adjacency(cs1, us)) && c < |cs1|
    ensures AdjacencyOk(Adjacency(cs2, us))
    ensures ComponentMessages(cs1, us, policy, adp, sdp, c) == ComponentMessages(cs2, us, policy, adp, sdp, c)
  {
    AdpAlike(cs1, cs2, us, c);
    SdpAlike(cs1, cs2, us, c);
    IllegalAlike(cs1, cs2, us, policy, c);
    NonPublicAlike(cs1, cs2, us, policy, c);
    DistanceAlike(cs1, cs2, us, policy, c);
  }

  lemma CheckMessagesAlike(cs1: seq<Component>, cs2: seq<Component>, us: seq<Unit>, policy: Policy,
                           adp: bool, sdp: bool, xs: seq<nat>)
    requires SameAnswers(cs1, cs2, us) && AdjacencyOk(Adjacency(cs1, us))
    ensures AdjacencyOk(Adjacency(cs2, us))
    ensures CheckMessages(cs1, us, policy, adp, sdp, xs) == CheckMessages(cs2, us, policy, adp, sdp, xs)
  {
    SameAnswersAdjacency(cs1, cs2, us);
    forall c: nat | c < |cs1|
      ensures MessagesOf(cs1, us, policy, adp, sdp)(c) == MessagesOf(cs2, us, policy, adp, sdp)(c)
    {
      ComponentMessagesAlike(cs1, cs2, us, policy, adp, sdp, c);
    }
    ConcatMapCongruent(xs, MessagesOf(cs1, us, policy, adp, sdp), MessagesOf(cs2, us, policy, adp, sdp));
  }

  // ------------------------------------------------ collecting through queries

  /** The text of each cycle: the names of its components, in order. */
  method CycleMessagesOf(cs: seq<Component>, cycles: seq<seq<nat>>) returns (ms: seq<Message>)
    ensures ms == ConcatMap(cycles, CycleMessage(cs))
    ensures |ms| == |cycles| && forall k :: 0 <= k < |ms| ==> ms[k] == CyclicDependencies(NamesOf(cs, cycles[k]))
  {
    ms := [];
    for k := 0 to |cycles|
      invariant ms == ConcatMap(cycles[..k], CycleMessage(cs))
      invariant |ms| == k && forall j :: 0 <= j < k ==> ms[j] == CyclicDependencies(NamesOf(cs, cycles[j]))
    {
      ConcatMapStep(cycles, CycleMessage(cs), k);
      ms := ms + [CyclicDependencies(NamesOf(cs, cycles[k]))];
    }
    assert cycles[..|cycles|] == cycles;
  }

  /** The list of cycles through `c`, one message each. */
  method AdpMessagesOf(reg: Registry, c: nat) returns (ms: seq<Message>)
    requires reg.Valid() && c < |reg.components|
    modifies reg
    ensures reg.Valid() && SameAnswers(old(reg.components), reg.components, reg.units)
    ensures reg.componentIds == old(reg.componentIds) && reg.unitIds == old(reg.unitIds) && reg.units == old(reg.units)
    ensures AdjacencyOk(Adjacency(old(reg.components), reg.units))
    ensures ms == AdpMessages(old(reg.components), reg.units, c)
  {
    var cycles := reg.GetCyclicDependencies(c);
    ms := CycleMessagesOf(reg.components, cycles);
    SameAnswersAdjacency(old(reg.components), reg.components, reg.units);
    AdpAlike(old(reg.components), reg.components, reg.units, c);
  }

  /** For dependent `d`: the two instability rates, the dependent's first, compared. */
  method UnstableMessageOf(reg: Registry, c: nat, d: nat) returns (ms: seq<Message>)
    requires reg.Valid() && c < |reg.components| && d < |reg.components|
    modifies reg
    ensures reg.Valid() && SameAnswers(old(reg.components), reg.components, reg.units)
    ensures reg.componentIds == old(reg.componentIds) && reg.unitIds == old(reg.unitIds) && reg.units == old(reg.units)
    ensures ms == UnstableMessage(old(reg.components), reg.units, c)(d)
  {
    ghost var cs1 := reg.components;
    var dependentRate := reg.CalculateInstabilityRate(d);
    ghost var cs2 := reg.components;
    var rate := reg.CalculateInstabilityRate(c);
    RatesCompared(cs1, cs2, reg.components, reg.units, c, d, dependentRate, rate);
    if dependentRate < rate {
      ms := [UnstableDependency(reg.components[d].name, dependentRate, reg.components[c].name, rate)];
    } else {
      ms := [];
    }
  }

  /** The two rates answered in turn are those of the state before either query. */
  lemma RatesCompared(cs1: seq<Component>, cs2: seq<Component>, cs3: seq<Component>, us: seq<Unit>, c: nat, d: nat,
                      dependentRate: real, rate: real)
    requires SameAnswers(cs1, cs2, us) && SameAnswers(cs2, cs3, us) && c < |cs1| && d < |cs1|
    requires dependentRate == EffInstability(cs1, us, d) && rate == EffInstability(cs2, us, c)
    ensures SameAnswers(cs1, cs3, us)
    ensures UnstableMessage(cs1, us, c)(d)
      == if dependentRate < rate then [UnstableDependency(cs3[d].name, dependentRate, cs3[c].name, rate)] else []
  {
    SameAnswersTransitive(cs1, cs2, cs3, us);
    SameAnswersCores(cs1, cs3, us);
  }

  /** One comparison per dependent component, in order. */
  method SdpMessagesOf(reg: Registry, c: nat) returns (ms: seq<Message>)
    requires reg.Valid() && c < |reg.components|
    modifies reg
    ensures reg.Valid() && SameAnswers(old(reg.components), reg.components, reg.units)
    ensures reg.componentIds == old(reg.componentIds) && reg.unitIds == old(reg.unitIds) && reg.units == old(reg.units)
    ensures ms == SdpMessages(old(reg.components), reg.units, c)
  {
    var ds := reg.GetDependentComponents(c);
    DependentComponentsBelow(reg.components, reg.units, c);
    ghost var cs0 := reg.components;
    ghost var f := UnstableMessage(cs0, reg.units, c);
    SameAnswersReflexive(cs0, reg.units);
    ms := [];
    for k := 0 to |ds|
      invariant reg.Valid() && SameAnswers(cs0, reg.components, reg.units)
      invariant reg.componentIds == old(reg.componentIds) && reg.unitIds == old(reg.unitIds) && reg.units == old(reg.units)
      invariant ms == ConcatMap(ds[..k], f)
    {
      ConcatMapStep(ds, f, k);
      assert ds[k] in ds;
      ghost var cs1 := reg.components;
      var m := UnstableMessageOf(reg, c, ds[k]);
      UnstableStep(cs0, cs1, reg.components, reg.units, c, ds[k], m);
      ms := ms + m;
    }
    assert ds[..|ds|] == ds;
  }

  lemma UnstableStep(cs0: seq<Component>, cs1: seq<Component>, cs2: seq<Component>, us: seq<Unit>, c: nat, d: nat,
                     m: seq<Message>)
    requires SameAnswers(cs0, cs1, us) && SameAnswers(cs1, cs2, us) && c < |cs0|
    requires m == UnstableMessage(cs1, us, c)(d)
    ensures SameAnswers(cs0, cs2, us) && m == UnstableMessage(cs0, us, c)(d)
  {
    UnstableAlike(cs0, cs1, us, c);
    SameAnswersTransitive(cs0, cs1, cs2, us);
  }

  /** The pairs of dependent `u`: its outputs owned by `ic`, unless in allowed state. */
  method UnitPairsOf(reg: Registry, policy: Policy, u: nat, ic: nat) returns (ps: seq<(string, string)>)
    requires WellFormed(reg.components, reg.units) && u < |reg.units|
    ensures ps == UnitPairs(reg.components, reg.units, policy, ic)(u)
  {
    var outs := reg.OutputDependencies(u, Some(ic));
    ghost var f := IllegalPair(reg.components, reg.units, policy, u);
    var owner := reg.units[u].component;
    ps := [];
    for k := 0 to |outs|
      invariant ps == ConcatMap(outs[..k], f)
    {
      ConcatMapStep(outs, f, k);
      var d := outs[k];
      assert d in outs;
      if !policy.unitDependencyInAllowedState(reg.components[owner].restrictions, d, u) {
        ps := ps + [(reg.units[u].name, reg.units[d].name)];
      }
    }
    assert outs[..|outs|] == outs;
  }

  /** The message for illegal dependency component `ic`: the pairs of each unit of `c` depending on it. */
  method IllegalMessageOf(reg: Registry, policy: Policy, c: nat, ic: nat, ghost cs0: seq<Component>) returns (ms: seq<Message>)
    requires reg.Valid() && SameAnswers(cs0, reg.components, reg.units) && c < |cs0| && ic < |cs0|
    modifies reg
    ensures reg.Valid() && SameAnswers(cs0, reg.components, reg.units)
    ensures reg.componentIds == old(reg.componentIds) && reg.unitIds == old(reg.unitIds) && reg.units == old(reg.units)
    ensures ms == IllegalMessage(cs0, reg.units, policy, c)(ic)
  {
    var dependents := reg.GetDependentUnitsOfCode(c, ic);
    EffDependentUnitsBelow(old(reg.components), reg.units, c, ic);
    SameAnswersTransitive(cs0, old(reg.components), reg.components, reg.units);
    IllegalAlike(cs0, reg.components, reg.units, policy, c);
    var pairs := IllegalPairsOf(reg, policy, dependents, ic);
    ms := [IllegalDependency(reg.components[c].name, reg.components[ic].name, pairs)];
  }

  /** The pairs of the dependent units, each unit's in turn. */
  method IllegalPairsOf(reg: Registry, policy: Policy, dependents: seq<nat>, ic: nat) returns (pairs: seq<(string, string)>)
    requires WellFormed(reg.components, reg.units) && Below(dependents, |reg.units|)
    ensures pairs == ConcatMap(dependents, UnitPairs(reg.components, reg.units, policy, ic))
  {
    ghost var f := UnitPairs(reg.components, reg.units, policy, ic);
    pairs := [];
    for k := 0 to |dependents|
      invariant pairs == ConcatMap(dependents[..k], f)
    {
      ConcatMapStep(dependents, f, k);
      assert dependents[k] in dependents;
      var ps := UnitPairsOf(reg, policy, dependents[k], ic);
      pairs := pairs + ps;
    }
    assert dependents[..|dependents|] == dependents;
  }

  /** One message per illegal dependency component its restrictions name. */
  method IllegalMessagesOf(reg: Registry, policy: Policy, c: nat) returns (ms: seq<Message>)
    requires reg.Valid() && c < |reg.components|
    modifies reg
    ensures reg.Valid() && SameAnswers(old(reg.components), reg.components, reg.units)
    ensures reg.componentIds == old(reg.componentIds) && reg.unitIds == old(reg.unitIds) && reg.units == old(reg.units)
    ensures ms == IllegalMessages(old(reg.components), reg.units, policy, c)
  {
    var ics := IllegalComponents(reg.components, policy, c);
    SameAnswersReflexive(reg.components, reg.units);
    ms := IllegalMessagesFor(reg, policy, c, ics, reg.components);
  }

  /** The messages for the components `ics`, in order. */
  method IllegalMessagesFor(reg: Registry, policy: Policy, c: nat, ics: seq<nat>, ghost cs0: seq<Component>)
    returns (ms: seq<Message>)
    requires reg.Valid() && SameAnswers(cs0, reg.components, reg.units) && c < |cs0| && Below(ics, |cs0|)
    modifies reg
    ensures reg.Valid() && SameAnswers(cs0, reg.components, reg.units)
    ensures reg.componentIds == old(reg.componentIds) && reg.unitIds == old(reg.unitIds) && reg.units == old(reg.units)
    ensures ms == ConcatMap(ics, IllegalMessage(cs0, reg.units, policy, c))
  {
    ghost var f := IllegalMessage(cs0, reg.units, policy, c);
    ms := [];
    for k := 0 to |ics|
      invariant reg.Valid() && SameAnswers(cs0, reg.components, reg.units)
      invariant reg.componentIds == old(reg.componentIds) && reg.unitIds == old(reg.unitIds) && reg.units == old(reg.units)
      invariant ms == ConcatMap(ics[..k], f)
    {
      ConcatMapStep(ics, f, k);
      assert ics[k] in ics;
      var m := IllegalMessageOf(reg, policy, c, ics[k], cs0);
      ms := ms + m;
    }
    assert ics[..|ics|] == ics;
  }

  /** The message for non-public unit `iu`: the names of its inputs that `c` owns. */
  method NonPublicMessageOf(reg: Registry, c: nat, iu: nat) returns (ms: seq<Message>)
    requires WellFormed(reg.components, reg.units) && c < |reg.components| && iu < |reg.units|
    ensures ms == NonPublicMessage(reg.components, reg.units, c)(iu)
  {
    var deps := reg.InputDependencies(iu, Some(c));
    ghost var f := UnitName(reg.units);
    var names := [];
    for k := 0 to |deps|
      invariant names == ConcatMap(deps[..k], f)
    {
      ConcatMapStep(deps, f, k);
      assert deps[k] in deps;
      names := names + [reg.units[deps[k]].name];
    }
    assert deps[..|deps|] == deps;
    ms := [NonPublicDependency(reg.components[c].name, reg.units[iu].name, names)];
  }

  /** One message per non-public unit of an allowed component. */
  method NonPublicMessagesOf(reg: Registry, policy: Policy, c: nat) returns (ms: seq<Message>)
    requires WellFormed(reg.components, reg.units) && c < |reg.components|
    ensures ms == NonPublicMessages(reg.components, reg.units, policy, c)
  {
    var ius := IllegalUnits(reg.components, reg.units, policy, c);
    ghost var f := NonPublicMessage(reg.components, reg.units, c);
    ms := [];
    for k := 0 to |ius|
      invariant ms == ConcatMap(ius[..k], f)
    {
      ConcatMapStep(ius, f, k);
      assert ius[k] in ius;
      var m := NonPublicMessageOf(reg, c, ius[k]);
      ms := ms + m;
    }
    assert ius[..|ius|] == ius;
  }

  /** The distance is computed only when there is an overage to report. */
  method DistanceMessagesOf(reg: Registry, policy: Policy, c: nat) returns (ms: seq<Message>)
    requires reg.Valid() && c < |reg.components|
    modifies reg
    ensures reg.Valid() && SameAnswers(old(reg.components), reg.components, reg.units)
    ensures reg.componentIds == old(reg.componentIds) && reg.unitIds == old(reg.unitIds) && reg.units == old(reg.units)
    ensures ms == DistanceMessages(old(reg.components), reg.units, policy, c)
  {
    var overage := policy.distanceRateOverage(reg.components[c].restrictions, c);
    if overage != 0.0 {
      var distance := reg.CalculateDistanceRate(c);
      SameAnswersCores(old(reg.components), reg.components, reg.units);
      ms := [DistanceExceeded(reg.components[c].name, overage, distance)];
    } else {
      SameAnswersReflexive(reg.components, reg.units);
      ms := [];
    }
  }

  /** The messages of one analysed component, each kind in turn, the ADP and SDP ones when switched on. */
  method ComponentMessagesOf(reg: Registry, policy: Policy, adp: bool, sdp: bool, c: nat) returns (ms: seq<Message>)
    requires reg.Valid() && c < |reg.components|
    modifies reg
    ensures reg.Valid() && SameAnswers(old(reg.components), reg.components, reg.units)
    ensures reg.componentIds == old(reg.componentIds) && reg.unitIds == old(reg.unitIds) && reg.units == old(reg.units)
    ensures AdjacencyOk(Adjacency(old(reg.components), reg.units))
    ensures ms == ComponentMessages(old(reg.components), reg.units, policy, adp, sdp, c)
  {
    AdjacencySound(reg.components, reg.units);
    var adpMessages := [];
    if adp {
      adpMessages := AdpMessagesOf(reg, c);
    } else {
      SameAnswersReflexive(reg.components, reg.units);
    }
    ghost var cs1 := reg.components;
    var sdpMessages := [];
    if sdp {
      sdpMessages := SdpMessagesOf(reg, c);
    } else {
      SameAnswersReflexive(reg.components, reg.units);
    }
    ghost var cs2 := reg.components;
    var illegal := IllegalMessagesOf(reg, policy, c);
    ghost var cs3 := reg.components;
    var nonPublic := NonPublicMessagesOf(reg, policy, c);
    var distance := DistanceMessagesOf(reg, policy, c);
    MessagesCollected(old(reg.components), cs1, cs2, cs3, reg.components, reg.units, policy, adp, sdp, c,
                      adpMessages, sdpMessages, illegal, nonPublic, distance);
    ms := adpMessages + sdpMessages + illegal + nonPublic + distance;
  }

  /** Each kind collected in the state the previous queries left is the kind of the first state. */
  lemma MessagesCollected(cs0: seq<Component>, cs1: seq<Component>, cs2: seq<Component>, cs3: seq<Component>,
                          cs4: seq<Component>, us: seq<Unit>, policy: Policy, adp: bool, sdp: bool, c: nat,
                          adpMessages: seq<Message>, sdpMessages: seq<Message>, illegal: seq<Message>,
                          nonPublic: seq<Message>, distance: seq<Message>)
    requires AdjacencyOk(Adjacency(cs0, us)) && c < |cs0|
    requires SameAnswers(cs0, cs1, us) && SameAnswers(cs1, cs2, us) && SameAnswers(cs2, cs3, us) && SameAnswers(cs3, cs4, us)
    requires adpMessages == if adp then AdpMessages(cs0, us, c) else []
    requires sdpMessages == if sdp then SdpMessages(cs1, us, c) else []
    requires illegal == IllegalMessages(cs2, us, policy, c)
    requires nonPublic == NonPublicMessages(cs3, us, policy, c)
    requires distance == DistanceMessages(cs3, us, policy, c)
    ensures SameAnswers(cs0, cs4, us)
    ensures adpMessages + sdpMessages + illegal + nonPublic + distance == ComponentMessages(cs0, us, policy, adp, sdp, c)
  {
    SameAnswersTransitive(cs0, cs1, cs2, us);
    SameAnswersTransitive(cs0, cs2, cs3, us);
    SameAnswersTransitive(cs0, cs3, cs4, us);
    SdpAlike(cs0, cs1, us, c);
    IllegalAlike(cs0, cs2, us, policy, c);
    NonPublicAlike(cs0, cs3, us, policy, c);
    DistanceAlike(cs0, cs3, us, policy, c);
  }

  /** One more component's messages, collected after earlier queries, are those of the first state. */
  lemma ComponentStep(cs0: seq<Component>, cs1: seq<Component>, cs2: seq<Component>, us: seq<Unit>, policy: Policy,
                      adp: bool, sdp: bool, c: nat, m: seq<Message>)
    requires SameAnswers(cs0, cs1, us) && SameAnswers(cs1, cs2, us) && AdjacencyOk(Adjacency(cs0, us)) && c < |cs0|
    requires AdjacencyOk(Adjacency(cs1, us)) && m == ComponentMessages(cs1, us, policy, adp, sdp, c)
    ensures SameAnswers(cs0, cs2, us) && m == MessagesOf(cs0, us, policy, adp, sdp)(c)
  {
    ComponentMessagesAlike(cs0, cs1, us, policy, adp, sdp, c);
    SameAnswersTransitive(cs0, cs1, cs2, us);
  }
}

