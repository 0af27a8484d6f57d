/**
 * The dependency finders a unit can be given: the code-parsing finder with
 * its strategies, and `CompositeDependenciesFinder`, which asks each of its
 * finders in turn and keeps every name once, in order of first appearance.
 */
module DependenciesFinders {
  import opened Wrappers
  import opened Collections
  import opened Environment
  import opened Strategies
  import CodeParsing
  import CodeParsingProperties

  datatype Finder =
    | CodeParsingFinder(strategies: seq<Strategy>)
    | Composite(finders: seq<Finder>)

  /** `find($unitOfCode)`; only the unit's path is read. */
  function Dependencies(f: Finder, h: Host, path: Option<string>): seq<string>
    decreases f
  {
    match f
    case CodeParsingFinder(sts) => CodeParsing.CodeDependencies(sts, h, path)
    case Composite(fs) => Dedupe(Flatten(Results(fs, h, path)))
  }

  /** `$dependencies[] = $strategy->find($unitOfCode)` for each finder. */
  function Results(fs: seq<Finder>, h: Host, path: Option<string>): (r: seq<seq<string>>)
    ensures |r| == |fs|
    decreases fs
  {
    seq(|fs|, k requires 0 <= k < |fs| => Dependencies(fs[k], h, path))
  }

  /** `find`. */
  method Find(f: Finder, h: Host, path: Option<string>) returns (dependencies: seq<string>)
    ensures dependencies == Dependencies(f, h, path)
    decreases f
  {
    match f
    case CodeParsingFinder(sts) =>
      dependencies := CodeParsing.Find(sts, h, path);
    case Composite(fs) =>
      var results: seq<seq<string>> := [];
      for i := 0 to |fs|
        invariant results == Results(fs[..i], h, path)
      {
        var found := Find(fs[i], h, path);
        results := results + [found];
      }
      assert fs[..|fs|] == fs;
      dependencies := Dedupe(Flatten(results));
  }

  /** Every finder reports each name once. */
  lemma {:induction false} DependenciesNoDup(f: Finder, h: Host, path: Option<string>)
    ensures NoDup(Dependencies(f, h, path))
  {
    match f
    case CodeParsingFinder(sts) =>
      CodeParsingProperties.DependenciesShape(sts, h, path);
    case Composite(fs) =>
      DedupeSpec(Flatten(Results(fs, h, path)));
  }

  /** A composite reports exactly what some of its finders report; with no finders, nothing. */
  lemma CompositeMembers(fs: seq<Finder>, h: Host, path: Option<string>)
    ensures forall y :: y in Dependencies(Composite(fs), h, path) <==> exists k :: 0 <= k < |fs| && y in Dependencies(fs[k], h, path)
    ensures fs == [] ==> Dependencies(Composite(fs), h, path) == []
  {
    var rs := Results(fs, h, path);
    DedupeSpec(Flatten(rs));
    FlattenMembers(rs);
    forall y ensures y in Dependencies(Composite(fs), h, path) <==> exists k :: 0 <= k < |fs| && y in Dependencies(fs[k], h, path) {
      if exists k :: 0 <= k < |fs| && y in Dependencies(fs[k], h, path) {
        var k :| 0 <= k < |fs| && y in Dependencies(fs[k], h, path);
        assert y in rs[k];
      }
    }
  }

  /** What the first finder reports comes first, unchanged. */
  lemma FirstFinderFirst(fs: seq<Finder>, h: Host, path: Option<string>)
    requires fs != []
    ensures var first := Dependencies(fs[0], h, path);
      var r := Dependencies(Composite(fs), h, path);
      |first| <= |r| && r[..|first|] == first
  {
    var rs := Results(fs, h, path);
    var first := Dependencies(fs[0], h, path);
    assert Flatten(rs) == first + Flatten(rs[1..]);
    AddAllAppend([], first, Flatten(rs[1..]));
    DependenciesNoDup(fs[0], h, path);
    DedupeOfNoDup(first);
    AddAllExtends(first, Flatten(rs[1..]));
  }

  /** Wrapping one finder in a composite changes nothing. */
  lemma SingleFinder(f: Finder, h: Host, path: Option<string>)
    ensures Dependencies(Composite([f]), h, path) == Dependencies(f, h, path)
  {
    var rs := Results([f], h, path);
    assert rs == [Dependencies(f, h, path)];
    assert Flatten(rs) == Dependencies(f, h, path) + Flatten(rs[1..]);
    assert Flatten(rs) == Dependencies(f, h, path);
    DependenciesNoDup(f, h, path);
    DedupeOfNoDup(Dependencies(f, h, path));
  }
}
