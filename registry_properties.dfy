/**
 * What the state changes of the registries promise: create-or-get by name,
 * paths added by identity, restrictions kept unless given, edges recorded in
 * both directions, and ownership kept when a unit changes owner.
 */
module RegistryProperties {
  import opened Wrappers
  import opened Collections
  import opened Types
  import opened Paths
  import opened Graph
  import opened Registries

  // ----------------------------------------------------- create-or-get

  /** `Component::create` with a registered name answers that component and registers nothing. */
  lemma CreatedExisting(ids: map<string, nat>, cs: seq<Component>, name: string, roots: seq<Path>, excluded: seq<Path>,
                        restrictions: Option<Restrictions>)
    requires ComponentIndex(ids, cs) && name in ids
    ensures var r := Created(ids, cs, name, roots, excluded, restrictions);
      r.id == ids[name] && r.ids == ids && |r.cs| == |cs|
      && forall c :: 0 <= c < |cs| && c != r.id ==> r.cs[c] == cs[c]
  {
  }

  /**
   * After `Component::create` the registry still maps each name to the one
   * component of that name, and the answered component bears the name.
   */
  lemma CreatedIndex(ids: map<string, nat>, cs: seq<Component>, name: string, roots: seq<Path>, excluded: seq<Path>,
                     restrictions: Option<Restrictions>)
    requires ComponentIndex(ids, cs)
    ensures var r := Created(ids, cs, name, roots, excluded, restrictions);
      ComponentIndex(r.ids, r.cs) && DistinctNames(r.cs)
      && r.id < |r.cs| && r.cs[r.id].name == name && name in r.ids && r.ids[name] == r.id
  {
    var r := Created(ids, cs, name, roots, excluded, restrictions);
    assert ComponentIndex(r.ids, r.cs);
    IndexedNamesDistinct(r.ids, r.cs);
  }

  /** Creating the same name twice answers the same component both times. */
  lemma CreatedTwice(ids: map<string, nat>, cs: seq<Component>, name: string, roots: seq<Path>, excluded: seq<Path>,
                     restrictions: Option<Restrictions>, roots2: seq<Path>, excluded2: seq<Path>, restrictions2: Option<Restrictions>)
    requires ComponentIndex(ids, cs)
    ensures var r := Created(ids, cs, name, roots, excluded, restrictions);
      ComponentIndex(r.ids, r.cs)
      && Created(r.ids, r.cs, name, roots2, excluded2, restrictions2).id == r.id
  {
    CreatedIndex(ids, cs, name, roots, excluded, restrictions);
  }

  /**
   * The root paths after `Component::create`: those it had come first and
   * stay, and a given path is added only when that very object is missing.
   */
  lemma CreatedRoots(ids: map<string, nat>, cs: seq<Component>, name: string, roots: seq<Path>, excluded: seq<Path>,
                     restrictions: Option<Restrictions>)
    requires ComponentIndex(ids, cs)
    ensures var r := Created(ids, cs, name, roots, excluded, restrictions);
      var before := if name in ids then cs[ids[name]].roots else [];
      r.id < |r.cs| && |before| <= |r.cs[r.id].roots| && r.cs[r.id].roots[..|before|] == before
      && forall p :: p in r.cs[r.id].roots <==> p in before || p in roots
  {
    var r := Created(ids, cs, name, roots, excluded, restrictions);
    if name in ids {
      var x := cs[ids[name]];
      AddAllExtends(x.roots, roots);
      forall p ensures p in r.cs[r.id].roots <==> p in x.roots || p in roots {
        AddAllMember(x.roots, roots, p);
      }
    }
  }

  /** The excluded paths after `Component::create`, alike. */
  lemma CreatedExcluded(ids: map<string, nat>, cs: seq<Component>, name: string, roots: seq<Path>, excluded: seq<Path>,
                        restrictions: Option<Restrictions>)
    requires ComponentIndex(ids, cs)
    ensures var r := Created(ids, cs, name, roots, excluded, restrictions);
      var before := if name in ids then cs[ids[name]].excluded else [];
      r.id < |r.cs| && |before| <= |r.cs[r.id].excluded| && r.cs[r.id].excluded[..|before|] == before
      && forall p :: p in r.cs[r.id].excluded <==> p in before || p in excluded
  {
    var r := Created(ids, cs, name, roots, excluded, restrictions);
    if name in ids {
      var x := cs[ids[name]];
      AddAllExtends(x.excluded, excluded);
      forall p ensures p in r.cs[r.id].excluded <==> p in x.excluded || p in excluded {
        AddAllMember(x.excluded, excluded, p);
      }
    }
  }

  /** Restrictions are replaced only when some are given; a new component without them gets empty ones. */
  lemma CreatedRestrictions(ids: map<string, nat>, cs: seq<Component>, name: string, roots: seq<Path>, excluded: seq<Path>,
                            restrictions: Option<Restrictions>)
    requires ComponentIndex(ids, cs)
    ensures var r := Created(ids, cs, name, roots, excluded, restrictions);
      r.id < |r.cs|
      && r.cs[r.id].restrictions == (if restrictions.Some? then restrictions.value
                                     else if name in ids then cs[ids[name]].restrictions
                                     else NoRestrictions)
  {
  }

  // ---------------------------------------------------------------- edges

  /**
   * `addOutputDependency`: on another unit, `u` lists `d` once more as an
   * output and `d` lists `u` as an input; no third unit changes; on itself
   * nothing changes.
   */
  lemma AddedOutputEdges(us: seq<Unit>, u: nat, d: nat)
    requires u < |us| && d < |us|
    ensures var r := AddedOutput(us, u, d);
      (u == d ==> r == us)
      && (u != d ==> r[u].outputs == us[u].outputs + [d] && r[u].inputs == us[u].inputs
                     && u in r[d].inputs && (u in us[d].inputs ==> r[d].inputs == us[d].inputs)
                     && r[d].outputs == us[d].outputs)
      && forall v :: 0 <= v < |us| && v != u && v != d ==> r[v] == us[v]
  {
  }

  /** `addInputDependency`, the mirror image. */
  lemma AddedInputEdges(us: seq<Unit>, u: nat, d: nat)
    requires u < |us| && d < |us|
    ensures var r := AddedInput(us, u, d);
      (u == d ==> r == us)
      && (u != d ==> r[u].inputs == us[u].inputs + [d] && r[u].outputs == us[u].outputs
                     && u in r[d].outputs && (u in us[d].outputs ==> r[d].outputs == us[d].outputs)
                     && r[d].inputs == us[d].inputs)
      && forall v :: 0 <= v < |us| && v != u && v != d ==> r[v] == us[v]
  {
  }

  /** Both kinds of edge update keep the two directions of the graph in step. */
  lemma AddedOutputSymmetric(us: seq<Unit>, u: nat, d: nat)
    requires u < |us| && d < |us| && Symmetric(us)
    ensures Symmetric(AddedOutput(us, u, d))
  {
    var r := AddedOutput(us, u, d);
    if u != d {
      forall a, b | 0 <= a < |r| && 0 <= b < |r| ensures b in r[a].outputs <==> a in r[b].inputs {
        if a == u && b == d {
          assert d in r[u].outputs && u in r[d].inputs;
        } else {
          assert b in r[a].outputs <==> b in us[a].outputs;
          assert a in r[b].inputs <==> a in us[b].inputs;
        }
      }
    }
  }

  lemma AddedInputSymmetric(us: seq<Unit>, u: nat, d: nat)
    requires u < |us| && d < |us| && Symmetric(us)
    ensures Symmetric(AddedInput(us, u, d))
  {
    var r := AddedInput(us, u, d);
    if u != d {
      forall a, b | 0 <= a < |r| && 0 <= b < |r| ensures b in r[a].outputs <==> a in r[b].inputs {
        if a == d && b == u {
          assert u in r[d].outputs && d in r[u].inputs;
        } else {
          assert b in r[a].outputs <==> b in us[a].outputs;
          assert a in r[b].inputs <==> a in us[b].inputs;
        }
      }
    }
  }

  /** Two units `A` and `B` with no edges yet. */
  function TwoUnits(): (us: seq<Unit>)
    ensures |us| == 2 && us[0].outputs == [] && us[1].inputs == []
  {
    [Unit("A", None, Undefined, [], [], 0), Unit("B", None, Undefined, [], [], 0)]
  }

  /** `A.addOutputDependency(B)` twice: `A` lists `B` twice as an output, `B` lists `A` once as an input. */
  lemma DoubleOutputEdge()
    ensures var us := AddedOutput(AddedOutput(TwoUnits(), 0, 1), 0, 1);
      us[0].outputs == [1, 1] && us[1].inputs == [0]
  {
    var once := AddedOutput(TwoUnits(), 0, 1);
    AddedOutputEdges(TwoUnits(), 0, 1);
    assert once[0].outputs == [1] && once[1].inputs == [0];
    AddedOutputEdges(once, 0, 1);
  }

  // ------------------------------------------------------------ ownership

  /**
   * `setComponent` moving `u` to `to` keeps every unit listed by its owner,
   * and keeps each owner listing only units it owns, once.
   */
  lemma MovedOwned(cs: seq<Component>, us: seq<Unit>, u: nat, to: nat)
    requires u < |us| && to < |cs| && Owned(cs, us) && Owners(cs, us)
    ensures var cs2 := Moved(cs, us[u].component, to, u);
      var us2 := us[u := us[u].(component := to)];
      Owned(cs2, us2) && Owners(cs2, us2)
  {
    var from := us[u].component;
    var cs2 := Moved(cs, from, to, u);
    var us2 := us[u := us[u].(component := to)];
    if from != to {
      var mid := WithoutUnit(cs, from, u);
      FilterNoDup(cs[from].units, Other(u));
      AddAllNoDup(mid[to].units, [u]);
      forall v | 0 <= v < |us2| ensures us2[v].component < |cs2| && v in cs2[us2[v].component].units {
        if v != u {
          assert v in cs[us[v].component].units;
          assert v in mid[us[v].component].units;
        }
      }
      forall c | 0 <= c < |cs2|
        ensures NoDup(cs2[c].units) && forall x :: x in cs2[c].units ==> x < |us2| && us2[x].component == c
      {
        if c == to {
          assert NoDup(AddUnique(mid[to].units, u));
        }
      }
    }
  }

  /** A unit just constructed and listed by its owner keeps the registry owned. */
  lemma AppendedOwned(cs: seq<Component>, us: seq<Unit>, x: Unit)
    requires Owned(cs, us) && Owners(cs, us) && x.component < |cs|
    ensures var u := |us|;
      Owned(WithUnit(cs, x.component, u), us + [x]) && Owners(WithUnit(cs, x.component, u), us + [x])
  {
    var u := |us|;
    var cs2 := WithUnit(cs, x.component, u);
    var us2 := us + [x];
    forall c | 0 <= c < |cs2|
      ensures NoDup(cs2[c].units) && forall y :: y in cs2[c].units ==> y < |us2| && us2[y].component == c
    {
      if c == x.component {
        assert u !in cs[c].units;
      }
    }
    forall v | 0 <= v < |us2| ensures us2[v].component < |cs2| && v in cs2[us2[v].component].units {
      if v < |us| {
        assert us2[v] == us[v];
      }
    }
  }

  // ----------------------------------------------------------- filtering

  /**
   * The allowed-path loop as written fails on a unit without a path as soon
   * as one path is allowed, where the intended test answers "under none".
   */
  lemma NullPathTypeError(allowed: seq<Path>)
    requires allowed != []
    ensures AllowedAsWritten(allowed, None) == Failure("TypeError")
    ensures !UnderAllowedPath(allowed, None)
  {
  }

  /** On a unit with a path, the loop as written and the intended test agree. */
  lemma AllowedAsWrittenAgrees(allowed: seq<Path>, path: Option<string>)
    requires path.Some? || allowed == []
    ensures AllowedAsWritten(allowed, path) == Success(UnderAllowedPath(allowed, path))
  {
  }
}
