/**
 * What the messages of `check` say: with the ADP check on, one per cycle
 * through the component; with the SDP check on, one per dependent whose
 * instability rate is below the component's; one per illegal dependency
 * component, listing the unit pairs not in allowed state; one per
 * non-public dependency unit; and one when the distance overage is not zero.
 */
module CheckProperties {
  import opened Wrappers
  import opened Collections
  import opened Graph
  import opened GraphProperties
  import opened Checks

  // ------------------------------------------------------------------ ADP

  /** One message per cycle `getCyclicDependencies` reports, naming its components in order. */
  lemma AdpMessagesSpec(cs: seq<Component>, us: seq<Unit>, c: nat)
    requires AdjacencyOk(Adjacency(cs, us)) && c < |cs|
    ensures var cycles := Cycles(Adjacency(cs, us), c, [], []);
      |AdpMessages(cs, us, c)| == |cycles|
      && forall k :: 0 <= k < |cycles| ==> AdpMessages(cs, us, c)[k] == CyclicDependencies(NamesOf(cs, cycles[k]))
  {
    ConcatMapSingletons(Cycles(Adjacency(cs, us), c, [], []), CycleMessage(cs));
  }

  /** A cycle message names a cycle through `c`, and every such cycle has its message. */
  lemma AdpMessageCycles(cs: seq<Component>, us: seq<Unit>, c: nat, w: seq<nat>)
    requires AdjacencyOk(Adjacency(cs, us)) && c < |cs|
    ensures w in Cycles(Adjacency(cs, us), c, [], []) <==> CycleThrough(Adjacency(cs, us), c, w)
    ensures CycleThrough(Adjacency(cs, us), c, w) ==> CyclicDependencies(NamesOf(cs, w)) in AdpMessages(cs, us, c)
  {
    var cycles := Cycles(Adjacency(cs, us), c, [], []);
    CyclicDependenciesExact(Adjacency(cs, us), c);
    AdpMessagesSpec(cs, us, c);
    if CycleThrough(Adjacency(cs, us), c, w) {
      var k :| 0 <= k < |cycles| && cycles[k] == w;
      assert AdpMessages(cs, us, c)[k] == CyclicDependencies(NamesOf(cs, w));
    }
  }

  // ------------------------------------------------------------------ SDP

  /** A message for `d` exactly when `d` depends on `c` and its instability rate is below `c`'s. */
  lemma SdpMessagesSpec(cs: seq<Component>, us: seq<Unit>, c: nat, m: Message)
    requires c < |cs|
    ensures m in SdpMessages(cs, us, c) <==>
      exists d :: d in DependentComponents(cs, us, c) && d < |cs|
        && EffInstability(cs, us, d) < EffInstability(cs, us, c)
        && m == UnstableDependency(cs[d].name, EffInstability(cs, us, d), cs[c].name, EffInstability(cs, us, c))
  {
    ConcatMapMember(DependentComponents(cs, us, c), UnstableMessage(cs, us, c), m);
  }

  // ---------------------------------------------------- illegal components

  /** Exactly one message per illegal dependency component, in order, even when it lists no pair. */
  lemma IllegalMessagesSpec(cs: seq<Component>, us: seq<Unit>, policy: Policy, c: nat)
    requires c < |cs|
    ensures var ics := IllegalComponents(cs, policy, c);
      |IllegalMessages(cs, us, policy, c)| == |ics|
      && forall k :: 0 <= k < |ics| ==>
        var m := IllegalMessages(cs, us, policy, c)[k];
        m.IllegalDependency? && m.component == cs[c].name && m.dependency == NameOf(cs, ics[k])
  {
    var ics := IllegalComponents(cs, policy, c);
    forall k | 0 <= k < |ics| ensures |IllegalMessage(cs, us, policy, c)(ics[k])| == 1 {
      assert ics[k] in ics;
    }
    ConcatMapSingletons(ics, IllegalMessage(cs, us, policy, c));
  }

  /** The component answered as illegal are the existing ones among those the restrictions name. */
  lemma IllegalComponentsSpec(cs: seq<Component>, policy: Policy, c: nat, ic: nat)
    requires c < |cs|
    ensures ic in IllegalComponents(cs, policy, c) <==>
      ic in policy.illegalDependencyComponents(cs[c].restrictions, c) && ic < |cs|
  {
  }

  /** The lines for one dependent unit: its outputs owned by `ic` that are not in allowed state. */
  lemma UnitPairsSpec(cs: seq<Component>, us: seq<Unit>, policy: Policy, ic: nat, u: nat, p: (string, string))
    requires u < |us|
    ensures p in UnitPairs(cs, us, policy, ic)(u) <==>
      exists d: nat :: d in OutputDependencies(us, u, Some(ic)) && !InAllowedState(cs, us, policy, u, d)
        && p == (us[u].name, UnitNameOf(us, d))
  {
    ConcatMapMember<nat, (string, string)>(OutputDependencies(us, u, Some(ic)), IllegalPair(cs, us, policy, u), p);
  }

  /**
   * The message about `ic` lists `u -> d` exactly when `u` is a dependent
   * unit of `c` towards `ic`, `d` a unit of `ic` it depends on, and the pair
   * is not in allowed state.
   */
  lemma IllegalElementsSpec(cs: seq<Component>, us: seq<Unit>, policy: Policy, c: nat, ic: nat, p: (string, string))
    requires c < |cs| && ic < |cs|
    ensures p in ConcatMap(EffDependentUnits(cs, us, c, ic), UnitPairs(cs, us, policy, ic)) <==>
      exists u: nat, d: nat :: u in EffDependentUnits(cs, us, c, ic) && u < |us|
        && d in OutputDependencies(us, u, Some(ic)) && !InAllowedState(cs, us, policy, u, d)
        && p == (us[u].name, UnitNameOf(us, d))
  {
    var dependents: seq<nat> := EffDependentUnits(cs, us, c, ic);
    var f: nat -> seq<(string, string)> := UnitPairs(cs, us, policy, ic);
    ConcatMapMember(dependents, f, p);
    if p in ConcatMap(dependents, f) {
      var u: nat :| u in dependents && p in f(u);
      assert u < |us|;
      UnitPairsSpec(cs, us, policy, ic, u, p);
      var d: nat :| d in OutputDependencies(us, u, Some(ic)) && !InAllowedState(cs, us, policy, u, d)
               && p == (us[u].name, UnitNameOf(us, d));
      assert u in dependents && u < |us|;
    }
    if exists u: nat, d: nat :: u in dependents && u < |us|
         && d in OutputDependencies(us, u, Some(ic)) && !InAllowedState(cs, us, policy, u, d)
         && p == (us[u].name, UnitNameOf(us, d))
    {
      var u, d :| u in dependents && u < |us|
                  && d in OutputDependencies(us, u, Some(ic)) && !InAllowedState(cs, us, policy, u, d)
                  && p == (us[u].name, UnitNameOf(us, d));
      UnitPairsSpec(cs, us, policy, ic, u, p);
      assert p in f(u);
    }
  }

  // ---------------------------------------------------- non-public units

  /** Exactly one message per existing non-public dependency unit, in order, naming it. */
  lemma NonPublicMessagesSpec(cs: seq<Component>, us: seq<Unit>, policy: Policy, c: nat)
    requires c < |cs|
    ensures var ius := IllegalUnits(cs, us, policy, c);
      |NonPublicMessages(cs, us, policy, c)| == |ius|
      && forall k :: 0 <= k < |ius| ==>
        var m := NonPublicMessages(cs, us, policy, c)[k];
        m.NonPublicDependency? && m.component == cs[c].name && m.element == UnitNameOf(us, ius[k])
  {
    var ius := IllegalUnits(cs, us, policy, c);
    forall k | 0 <= k < |ius| ensures |NonPublicMessage(cs, us, c)(ius[k])| == 1 {
      assert ius[k] in ius;
    }
    ConcatMapSingletons(ius, NonPublicMessage(cs, us, c));
  }

  /** The dependents a non-public message lists are the inputs of the unit owned by `c`, one name each. */
  lemma NonPublicDependentsSpec(cs: seq<Component>, us: seq<Unit>, c: nat, iu: nat)
    requires iu < |us|
    ensures var names := ConcatMap(InputDependencies(us, iu, Some(c)), UnitName(us));
      var ins := InputDependencies(us, iu, Some(c));
      |names| == |ins| && forall k :: 0 <= k < |ins| ==> names[k] == UnitNameOf(us, ins[k])
  {
    ConcatMapSingletons(InputDependencies(us, iu, Some(c)), UnitName(us));
  }

  // ------------------------------------------------------------- distance

  /** A distance message exactly when the overage is not zero, carrying the overage and the distance. */
  lemma DistanceMessagesSpec(cs: seq<Component>, us: seq<Unit>, policy: Policy, c: nat, m: Message)
    requires c < |cs|
    ensures m in DistanceMessages(cs, us, policy, c) <==>
      policy.distanceRateOverage(cs[c].restrictions, c) != 0.0
      && m == DistanceExceeded(cs[c].name, policy.distanceRateOverage(cs[c].restrictions, c), Distance(cs, us, c))
  {
  }

  // ------------------------------------------------------------ all of it

  lemma MessageKinds(cs: seq<Component>, us: seq<Unit>, policy: Policy, c: nat)
    requires c < |cs|
    ensures forall m :: m in SdpMessages(cs, us, c) ==> m.UnstableDependency?
    ensures forall m :: m in IllegalMessages(cs, us, policy, c) ==> m.IllegalDependency?
    ensures forall m :: m in NonPublicMessages(cs, us, policy, c) ==> m.NonPublicDependency?
  {
    UnstableKinds(cs, us, c);
    IllegalKinds(cs, us, policy, c);
    NonPublicKinds(cs, us, policy, c);
  }

  lemma UnstableKinds(cs: seq<Component>, us: seq<Unit>, c: nat)
    requires c < |cs|
    ensures forall m :: m in SdpMessages(cs, us, c) ==> m.UnstableDependency?
  {
    ConcatMapMembers(DependentComponents(cs, us, c), UnstableMessage(cs, us, c));
  }

  lemma IllegalKinds(cs: seq<Component>, us: seq<Unit>, policy: Policy, c: nat)
    requires c < |cs|
    ensures forall m :: m in IllegalMessages(cs, us, policy, c) ==> m.IllegalDependency?
  {
    ConcatMapMembers(IllegalComponents(cs, policy, c), IllegalMessage(cs, us, policy, c));
  }

  lemma NonPublicKinds(cs: seq<Component>, us: seq<Unit>, policy: Policy, c: nat)
    requires c < |cs|
    ensures forall m :: m in NonPublicMessages(cs, us, policy, c) ==> m.NonPublicDependency?
  {
    ConcatMapMembers(IllegalUnits(cs, us, policy, c), NonPublicMessage(cs, us, c));
  }

  lemma CycleKinds(cs: seq<Component>, us: seq<Unit>, c: nat)
    requires AdjacencyOk(Adjacency(cs, us)) && c < |cs|
    ensures forall m :: m in AdpMessages(cs, us, c) ==> m.CyclicDependencies?
  {
    ConcatMapMembers(Cycles(Adjacency(cs, us), c, [], []), CycleMessage(cs));
  }

  /** A principle that is switched off contributes no message; the other kinds do not depend on the switches. */
  lemma SwitchedOff(cs: seq<Component>, us: seq<Unit>, policy: Policy, adp: bool, sdp: bool, c: nat, m: Message)
    requires AdjacencyOk(Adjacency(cs, us)) && c < |cs|
    requires m in ComponentMessages(cs, us, policy, adp, sdp, c)
    ensures m.CyclicDependencies? ==> adp
    ensures m.UnstableDependency? ==> sdp
  {
    MessageKinds(cs, us, policy, c);
    CycleKinds(cs, us, c);
    var a := if adp then AdpMessages(cs, us, c) else [];
    var b := if sdp then SdpMessages(cs, us, c) else [];
    var i := IllegalMessages(cs, us, policy, c);
    var n := NonPublicMessages(cs, us, policy, c);
    var d := DistanceMessages(cs, us, policy, c);
    assert ComponentMessages(cs, us, policy, adp, sdp, c) == a + b + i + n + d;
    assert m in a || m in b || m in i || m in n || m in d;
  }

  /** A message of `check` is a message of one of the analysed components. */
  lemma CheckMessagesSpec(cs: seq<Component>, us: seq<Unit>, policy: Policy, adp: bool, sdp: bool, xs: seq<nat>,
                          m: Message)
    requires AdjacencyOk(Adjacency(cs, us))
    ensures m in CheckMessages(cs, us, policy, adp, sdp, xs) <==>
      exists k :: 0 <= k < |xs| && xs[k] < |cs| && m in ComponentMessages(cs, us, policy, adp, sdp, xs[k])
  {
    ConcatMapMembers(xs, MessagesOf(cs, us, policy, adp, sdp));
  }
}
