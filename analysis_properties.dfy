/**
 * What the analysis promises beyond growth: the files a root yields, in
 * listing order, and the exact edges a file's analysis adds. The file's
 * unit gains one output per reported name, in the order reported, so a
 * file analysed twice lists its dependencies twice; nothing else gains an
 * output, and every unit the analysis creates is a reported dependency's.
 */
module AnalysisProperties {
  import opened Wrappers
  import opened Text
  import opened Collections
  import opened Environment
  import opened Paths
  import opened Graph
  import opened Registries
  import opened RegistryProperties
  import opened DependenciesFinders
  import opened Analysis

  // ------------------------------------------------------- the files of a root

  /** Whether `getFiles` yields a file that `analyze` keeps. */
  predicate Kept(excluded: seq<Path>, f: Option<string>)
  {
    f.Some? && !Falsy(f.value) && !ExcludedBy(excluded, f.value)
  }

  /** A root's files are exactly the listed files that are kept, each with the root. */
  lemma {:induction false} RootFilesMembers(root: Path, excluded: seq<Path>, files: seq<Option<string>>, f: string)
    ensures (root, f) in RootFiles(root, excluded, files)
      <==> (exists j :: 0 <= j < |files| && files[j] == Some(f)) && !Falsy(f) && !ExcludedBy(excluded, f)
    decreases |files|
  {
    if files != [] {
      var init := files[..|files| - 1];
      RootFilesMembers(root, excluded, init, f);
      ExistsSnoc(files, init, (x: Option<string>) => x == Some(f));
    }
  }

  /** A root's files in listing order: one entry per kept file, none for the others. */
  lemma {:induction false} RootFilesInOrder(root: Path, excluded: seq<Path>, files: seq<Option<string>>)
    ensures RootFiles(root, excluded, files)
      == ConcatMap(files, (x: Option<string>) => if Kept(excluded, x) then [(root, x.value)] else [])
    decreases |files|
  {
    if files != [] {
      RootFilesInOrder(root, excluded, files[..|files| - 1]);
    }
  }

  // --------------------------------------------------- the edges of a file

  /** `UnitOfCode::create` for a file, on values: the file's unit, owned by `c`, as the edges see it. */
  lemma FileUnitMade(st: State, c: nat, f: (Path, string), h: Host)
    requires Indexed(st) && c < |st.cs|
    ensures var m := UnitCreated(st, UnitName(f.0, f.1), Some(c), Some(f.1), h);
      var n := Trim(UnitName(f.0, f.1), {'\\'});
      var u := m.1;
      u < |m.0.us| && m.0.us[u].name == n && m.0.us[u].component == c
      && (!Falsy(f.1) ==> m.0.us[u].path == Some(f.1))
      && (n in st.uids ==> u == st.uids[n] && u < |st.us| == |m.0.us| && m.0.us[u].outputs == st.us[u].outputs)
      && (n !in st.uids ==> u == |st.us| && |m.0.us| == |st.us| + 1 && m.0.us[u].outputs == [])
      && (forall v :: 0 <= v < |st.us| && v != u ==> m.0.us[v].outputs == st.us[v].outputs)
  {
  }

  /** A file's unit created, then linked to the names found in it: the edges, from the state before both. */
  lemma FileEdgesCombined(st: State, m0: State, uids: map<string, nat>, us: seq<Unit>, u: nat, n: string, c: nat,
                          ts: seq<nat>, deps: seq<string>)
    requires u < |m0.us| && m0.us[u].name == n && m0.us[u].component == c && n in m0.uids && m0.uids[n] == u
    requires UidsKept(st.uids, m0.uids)
    requires n in st.uids ==> u == st.uids[n] && u < |st.us| == |m0.us| && m0.us[u].outputs == st.us[u].outputs
    requires n !in st.uids ==> u == |st.us| && |m0.us| == |st.us| + 1 && m0.us[u].outputs == []
    requires forall v :: 0 <= v < |st.us| && v != u ==> m0.us[v].outputs == st.us[v].outputs
    requires LinkedFrom(m0, uids, us, u, ts, deps)
    ensures n in uids && uids[n] == u && u < |us| && us[u].name == n && us[u].component == c
    ensures us[u].path == m0.us[u].path && UidsKept(st.uids, uids)
    ensures us[u].outputs == (if n in st.uids then st.us[u].outputs else []) + ts
    ensures forall v :: 0 <= v < |st.us| && v != u ==> us[v].outputs == st.us[v].outputs
    ensures forall v :: |st.us| <= v < |us| && v != u ==> us[v].outputs == [] && NameOf(deps, us[v].name)
  {
    assert Sans(us[u]) == Sans(m0.us[u]);
    forall v | |st.us| <= v < |us| && v != u
      ensures us[v].outputs == [] && NameOf(deps, us[v].name)
    {
      assert |m0.us| <= v;
    }
  }

  /**
   * One file, edge by edge: its unit belongs to `c`, and its outputs are
   * its old outputs followed by the units of the names found in it, in the
   * order found; every other unit of the old state keeps its outputs, and
   * each unit the file's analysis creates is a found name's, without
   * outputs.
   */
  lemma FileAnalysisEdges(st: State, c: nat, f: (Path, string), finder: Finder, h: Host)
    requires Indexed(st) && c < |st.cs|
    ensures var r := FileAnalysis(st, c, f, finder, h);
      var n := Trim(UnitName(f.0, f.1), {'\\'});
      n in r.uids
      && var u := r.uids[n];
      u < |r.us|
      && var deps := Dependencies(finder, h, r.us[u].path);
      r.us[u].component == c && r.us[u].name == n && UidsKept(st.uids, r.uids)
      && (!Falsy(f.1) ==> r.us[u].path == Some(f.1))
      && r.us[u].outputs == (if n in st.uids then st.us[u].outputs else []) + Targets(r.uids, u, deps)
      && (forall v :: 0 <= v < |st.us| && v != u ==> r.us[v].outputs == st.us[v].outputs)
      && (forall v :: |st.us| <= v < |r.us| && v != u ==> r.us[v].outputs == [] && NameOf(deps, r.us[v].name))
  {
    var m := UnitCreated(st, UnitName(f.0, f.1), Some(c), Some(f.1), h);
    var u := m.1;
    var deps := Dependencies(finder, h, m.0.us[u].path);
    var r := FileAnalysis(st, c, f, finder, h);
    assert r == DependenciesLinked(m.0, u, deps, |deps|, h);
    FileUnitMade(st, c, f, h);
    TakeAll(deps);
    FileEdgesCombined(st, m.0, r.uids, r.us, u, Trim(UnitName(f.0, f.1), {'\\'}), c, Targets(r.uids, u, deps), deps);
  }

  /**
   * A file analysed a second time, from another root path that lists it
   * with the same root namespace and relative path, lists the names found
   * in it once more: `addOutputDependency` appends without looking.
   */
  lemma FileAnalysedTwice(st: State, c: nat, f: (Path, string), finder: Finder, h: Host)
    requires Indexed(st) && c < |st.cs| && !Falsy(f.1)
    ensures var r1 := FileAnalysis(st, c, f, finder, h);
      var r2 := FileAnalysis(r1, c, f, finder, h);
      var n := Trim(UnitName(f.0, f.1), {'\\'});
      n in r1.uids && n in r2.uids && r2.uids[n] == r1.uids[n] && r1.uids[n] < |r1.us|
      && r2.us[r1.uids[n]].outputs == r1.us[r1.uids[n]].outputs
                                        + Targets(r2.uids, r1.uids[n], Dependencies(finder, h, Some(f.1)))
  {
    FileAnalysisEdges(st, c, f, finder, h);
    var r1 := FileAnalysis(st, c, f, finder, h);
    FileAnalysisEdges(r1, c, f, finder, h);
  }
}
