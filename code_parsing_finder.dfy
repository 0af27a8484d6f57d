/**
 * `CodeParsingDependenciesFinder`: the dependencies of one unit read from the
 * text of its file. The `use` statements give the imported names, the
 * parsing strategies give the names the code mentions, and a name that is
 * not declared as written is resolved against the file's namespace and the
 * imports. Every result is trimmed of `\` and reported once.
 *
 * Each step is a specification function; the methods follow the loops of
 * `find`, `parseUses` and `parseCode` and are proved to compute them.
 */
module CodeParsing {
  import opened Wrappers
  import opened Text
  import opened Collections
  import opened StringHelper
  import opened PathHelper
  import opened Patterns
  import opened Environment
  import opened Strategies
  import Types
  import Exclusion

  // ---------------------------------------------------------------------
  // The namespace declaration

  /** `$matches['namespace'] ?? ''`: the name in the first `namespace X;`, or `''`. */
  function CurrentNamespace(content: string): (ns: string)
    ensures ns == "" || AllChars(ns, IsClassChar)
  {
    var hits := FindAll(NamespaceDecl, content, 0);
    if hits == [] then "" else hits[0].groups[0]
  }

  // ---------------------------------------------------------------------
  // `parseUses`

  /** `[, $results] = $matches` of `preg_match_all('/^use ([^;]*);$/ium')`. */
  function UseRows(content: string): (rows: seq<string>)
    ensures forall k :: 0 <= k < |rows| ==> ';' !in rows[k]
  {
    Column(FindAll(UseDecl, content, 0), 0)
  }

  predicate IsLineFeed(c: char) { c == '\n' }

  /**
   * `preg_replace('/( {2,}|[\n]+)/', ' ', $row)` from position `i`: a run of
   * two or more spaces and a run of line feeds each become one space; a
   * lone space stays.
   */
  function NormalizeFrom(row: string, i: nat): (r: string)
    requires i <= |row|
    ensures '\n' !in r
    decreases |row| - i
  {
    if i == |row| then ""
    else if row[i] == ' ' && i + 1 < |row| && row[i + 1] == ' ' then
      var j := RunEnd(row, i, IsBlank);
      assert j > i by { assert IsBlank(row[i]); }
      " " + NormalizeFrom(row, j)
    else if row[i] == '\n' then
      var j := RunEnd(row, i, IsLineFeed);
      assert j > i by { assert IsLineFeed(row[i]); }
      " " + NormalizeFrom(row, j)
    else
      [row[i]] + NormalizeFrom(row, i + 1)
  }

  function NormalizeRow(row: string): string
  {
    NormalizeFrom(row, 0)
  }

  /** The last position before `n` holding `c`. */
  function LastBefore(s: string, c: char, n: nat): (r: Option<nat>)
    requires n <= |s|
    ensures r.Some? ==> r.value < n && s[r.value] == c && forall k :: r.value < k < n ==> s[k] != c
    ensures r.None? ==> forall k :: 0 <= k < n ==> s[k] != c
  {
    if n == 0 then None
    else if s[n - 1] == c then Some(n - 1)
    else LastBefore(s, c, n - 1)
  }

  /**
   * `preg_match('/(.*){(.*)}/', $row)` on a row without line feeds: both
   * groups are greedy, so the braces are the last `}` and the last `{`
   * before it. The result is the positions of the two braces.
   */
  function GroupBraces(row: string): (r: Option<(nat, nat)>)
    ensures r.None? <==> forall i, j :: 0 <= i < j < |row| ==> !(row[i] == '{' && row[j] == '}')
    ensures r.Some? ==>
      r.value.0 < r.value.1 < |row| && row[r.value.0] == '{' && row[r.value.1] == '}' &&
      (forall k :: r.value.0 < k < r.value.1 ==> row[k] != '{') &&
      (forall k :: r.value.1 < k < |row| ==> row[k] != '}')
  {
    match LastBefore(row, '}', |row|)
    case None => None
    case Some(j) =>
      match LastBefore(row, '{', j)
      case None => None
      case Some(i) => Some((i, j))
  }

  /** `$rows`: the common part joined to each comma-separated detail, or the row itself. */
  function GroupParts(row: string): (rows: seq<string>)
    ensures |rows| >= 1
  {
    match GroupBraces(row)
    case None => [row]
    case Some((i, j)) =>
      var pieces := Explode(row[i + 1..j], ",");
      seq(|pieces|, k requires 0 <= k < |pieces| => row[..i] + pieces[k])
  }

  /** `removeSpaces(explode(' as ', removeDoubleSpaces($one))[0])`: the imported name without its alias. */
  function ImportName(one: string): (name: string)
    ensures ' ' !in name
  {
    RemoveSpaces(Explode(RemoveDoubleSpaces(one), " as ")[0])
  }

  function ImportNames(ones: seq<string>): (names: seq<string>)
    ensures |names| == |ones|
  {
    seq(|ones|, k requires 0 <= k < |ones| => ImportName(ones[k]))
  }

  /** The names one `use` statement imports. */
  function RowImports(row: string): seq<string>
  {
    ImportNames(GroupParts(NormalizeRow(row)))
  }

  /** The names all `use` statements import, in order. */
  function UseNames(rows: seq<string>): seq<string>
    decreases |rows|
  {
    if rows == [] then [] else UseNames(rows[..|rows| - 1]) + RowImports(rows[|rows| - 1])
  }

  /**
   * The two key sets `parseUses` fills: declared names go to the first,
   * the others (namespace prefixes) to the second, each once in order of
   * first appearance.
   */
  function SortImports(h: Host, names: seq<string>): (r: (seq<string>, seq<string>))
    decreases |names|
  {
    if names == [] then ([], [])
    else
      var p := SortImports(h, names[..|names| - 1]);
      var x := names[|names| - 1];
      if ElementExists(h, x) then (AddUnique(p.0, x), p.1) else (p.0, AddUnique(p.1, x))
  }

  /** The imports of a file: `[$existingClasses, $importedNamespaceParts]`. */
  function Imports(h: Host, content: string): (seq<string>, seq<string>)
  {
    SortImports(h, UseNames(UseRows(content)))
  }

  lemma SortImportsStep(h: Host, names: seq<string>, x: string)
    ensures SortImports(h, names + [x]) ==
      var p := SortImports(h, names);
      if ElementExists(h, x) then (AddUnique(p.0, x), p.1) else (p.0, AddUnique(p.1, x))
  {
    assert (names + [x])[..|names|] == names;
  }

  lemma ImportNamesStep(ones: seq<string>, j: nat)
    requires j < |ones|
    ensures ImportNames(ones[..j + 1]) == ImportNames(ones[..j]) + [ImportName(ones[j])]
  {
  }

  lemma UseNamesStep(rows: seq<string>, i: nat)
    requires i < |rows|
    ensures UseNames(rows[..i + 1]) == UseNames(rows[..i]) + RowImports(rows[i])
  {
    assert rows[..i + 1][..i] == rows[..i];
  }

  /** The loop building `$rows` from one normalised row. */
  method SplitGroup(row: string) returns (rows: seq<string>)
    ensures rows == GroupParts(row)
  {
    var g := GroupBraces(row);
    if g.Some? {
      var common, details := row[..g.value.0], row[g.value.0 + 1..g.value.1];
      var pieces := Explode(details, ",");
      rows := [];
      for k := 0 to |pieces|
        invariant rows == seq(k, m requires 0 <= m < k => common + pieces[m])
      {
        rows := rows + [common + pieces[k]];
      }
    } else {
      rows := [row];
    }
  }

  lemma SortRowsStep(h: Host, before: seq<string>, rows: seq<string>, j: nat, name: string)
    requires j < |rows| && name == ImportName(rows[j])
    ensures SortImports(h, before + ImportNames(rows[..j + 1])) ==
      var p := SortImports(h, before + ImportNames(rows[..j]));
      if ElementExists(h, name) then (AddUnique(p.0, name), p.1) else (p.0, AddUnique(p.1, name))
  {
    ImportNamesStep(rows, j);
    assert before + ImportNames(rows[..j + 1]) == (before + ImportNames(rows[..j])) + [name];
    SortImportsStep(h, before + ImportNames(rows[..j]), name);
  }

  /** The inner loop of `parseUses`: files the names of `rows` into the two key sets. */
  method SortRows(h: Host, existing0: seq<string>, imported0: seq<string>, rows: seq<string>, ghost before: seq<string>)
    returns (existing: seq<string>, imported: seq<string>)
    requires (existing0, imported0) == SortImports(h, before)
    ensures (existing, imported) == SortImports(h, before + ImportNames(rows))
  {
    existing, imported := existing0, imported0;
    assert before + ImportNames(rows[..0]) == before;
    for j := 0 to |rows|
      invariant (existing, imported) == SortImports(h, before + ImportNames(rows[..j]))
    {
      var parts := Explode(RemoveDoubleSpaces(rows[j]), " as ");
      var name := RemoveSpaces(parts[0]);
      SortRowsStep(h, before, rows, j, name);
      if ElementExists(h, name) {
        existing := AddUnique(existing, name);
      } else {
        imported := AddUnique(imported, name);
      }
    }
    assert rows[..|rows|] == rows;
  }

  /** `parseUses`. */
  method ParseUses(h: Host, content: string) returns (existing: seq<string>, imported: seq<string>)
    ensures existing == Imports(h, content).0 && imported == Imports(h, content).1
  {
    var results := UseRows(content);
    existing, imported := [], [];
    for i := 0 to |results|
      invariant (existing, imported) == SortImports(h, UseNames(results[..i]))
    {
      var row := NormalizeRow(results[i]);
      var rows := SplitGroup(row);
      UseNamesStep(results, i);
      existing, imported := SortRows(h, existing, imported, rows, UseNames(results[..i]));
    }
    assert results[..|results|] == results;
  }

  // ---------------------------------------------------------------------
  // `parseCode`

  /** `$dependencies[] = $strategy->parse($content)` for each strategy. */
  function StrategyResults(sts: seq<Strategy>, content: string): (r: seq<seq<string>>)
    ensures |r| == |sts|
  {
    seq(|sts|, k requires 0 <= k < |sts| => Parsed(sts[k], content))
  }

  /** `array_unique(array_merge(...$dependencies))`. */
  function CodeTokens(sts: seq<Strategy>, content: string): seq<string>
  {
    Dedupe(Flatten(StrategyResults(sts, content)))
  }

  /**
   * `[$fullNames, $importedClassNames]`: exclusions are skipped, primitives
   * and declared names are full names, the rest still have to be resolved.
   */
  function SplitTokens(h: Host, toks: seq<string>): (r: (seq<string>, seq<string>))
    decreases |toks|
  {
    if toks == [] then ([], [])
    else
      var p := SplitTokens(h, toks[..|toks| - 1]);
      var t := toks[|toks| - 1];
      if Exclusion.IsExclusion(t) then p
      else if Types.IsPrimitive(t) || ElementExists(h, t) then (p.0 + [t], p.1)
      else (p.0, p.1 + [t])
  }

  /** What the strategies find in a file, split as `parseCode` splits it. */
  function CodeNames(sts: seq<Strategy>, h: Host, content: string): (seq<string>, seq<string>)
  {
    SplitTokens(h, CodeTokens(sts, content))
  }

  lemma SplitTokensStep(h: Host, toks: seq<string>, k: nat)
    requires k < |toks|
    ensures SplitTokens(h, toks[..k + 1]) ==
      var p := SplitTokens(h, toks[..k]);
      if Exclusion.IsExclusion(toks[k]) then p
      else if Types.IsPrimitive(toks[k]) || ElementExists(h, toks[k]) then (p.0 + [toks[k]], p.1)
      else (p.0, p.1 + [toks[k]])
  {
    assert toks[..k + 1][..k] == toks[..k];
  }

  /** `parseCode`. */
  method ParseCode(sts: seq<Strategy>, h: Host, content: string) returns (fullNames: seq<string>, importedNames: seq<string>)
    ensures fullNames == CodeNames(sts, h, content).0 && importedNames == CodeNames(sts, h, content).1
  {
    var dependencies: seq<seq<string>> := [];
    for i := 0 to |sts|
      invariant dependencies == StrategyResults(sts[..i], content)
    {
      var found := Parse(sts[i], content);
      dependencies := dependencies + [found];
    }
    assert sts[..|sts|] == sts;
    var toks := Dedupe(Flatten(dependencies));
    fullNames, importedNames := [], [];
    for k := 0 to |toks|
      invariant fullNames == SplitTokens(h, toks[..k]).0 && importedNames == SplitTokens(h, toks[..k]).1
    {
      var t := toks[k];
      SplitTokensStep(h, toks, k);
      if Exclusion.IsExclusion(t) {
        continue;
      }
      if Types.IsPrimitive(t) || ElementExists(h, t) {
        fullNames := fullNames + [t];
      } else {
        importedNames := importedNames + [t];
      }
    }
    assert toks[..|toks|] == toks;
  }

  // ---------------------------------------------------------------------
  // Resolution of the names not declared as written

  /** `trim(array_shift(explode('\\', $name)))`: the first segment of a name. */
  function FirstSegment(name: string): string
  {
    Trim(Explode(name, "\\")[0], Whitespace)
  }

  /** `trim(array_pop(explode('\\', $part)))`: the last segment of an import. */
  function LastSegment(part: string): string
  {
    var ps := Explode(part, "\\");
    Trim(ps[|ps| - 1], Whitespace)
  }

  /** `implode('\\', $tmp)` after the pop: an import without its last segment. */
  function LeadingSegments(part: string): string
  {
    var ps := Explode(part, "\\");
    Implode("\\", ps[..|ps| - 1])
  }

  /** The guess inside the file's namespace. */
  function InNamespace(ns: string, name: string): string
  {
    RemoveDoubleBackslashes(ns + "\\" + name)
  }

  /** The guess through an import whose last segment is the name's first segment. */
  function ViaImport(part: string, name: string): string
  {
    RemoveDoubleBackslashes(LeadingSegments(part) + "\\" + name)
  }

  /** What one import contributes for `name`: a guess when its last segment is the name's first segment. */
  function ImportGuess(name: string, part: string): seq<string>
  {
    if FirstSegment(name) == LastSegment(part) then [ViaImport(part, name)] else []
  }

  /** The guesses through imports, in import order. */
  function ViaImports(name: string, parts: seq<string>): seq<string>
  {
    ConcatMap(parts, part => ImportGuess(name, part))
  }

  /** What one undeclared name contributes: the namespace guess when it is declared, else the import guesses. */
  function Resolve(h: Host, ns: string, name: string, parts: seq<string>): seq<string>
  {
    var d := InNamespace(ns, name);
    if ElementExists(h, d) then [d] else ViaImports(name, parts)
  }

  function ResolveAll(h: Host, ns: string, names: seq<string>, parts: seq<string>): seq<string>
  {
    ConcatMap(names, name => Resolve(h, ns, name, parts))
  }

  /** `$dependencies` before trimming: declared imports, full names, then resolved names. */
  function Collected(sts: seq<Strategy>, h: Host, content: string): seq<string>
  {
    var u := Imports(h, content);
    var c := CodeNames(sts, h, content);
    u.0 + c.0 + ResolveAll(h, CurrentNamespace(content), c.1, u.1)
  }

  /** `foreach ($dependencies as &$d) $d = trim($d, '\\')`. */
  function TrimBackslashes(xs: seq<string>): (r: seq<string>)
    ensures |r| == |xs|
  {
    seq(|xs|, k requires 0 <= k < |xs| => Trim(xs[k], {'\\'}))
  }

  /** `find`: nothing without a path or a readable, truthy text. */
  function CodeDependencies(sts: seq<Strategy>, h: Host, path: Option<string>): seq<string>
  {
    if path.None? then []
    else
      match Contents(h, path.value)
      case None => []
      case Some(content) =>
        if Falsy(content) then [] else Dedupe(TrimBackslashes(Collected(sts, h, content)))
  }

  lemma ViaImportsStep(name: string, parts: seq<string>, j: nat)
    requires j < |parts|
    ensures ViaImports(name, parts[..j + 1]) == ViaImports(name, parts[..j]) + ImportGuess(name, parts[j])
  {
    ConcatMapStep(parts, part => ImportGuess(name, part), j);
  }

  lemma ResolveAllStep(h: Host, ns: string, names: seq<string>, parts: seq<string>, i: nat)
    requires i < |names|
    ensures ResolveAll(h, ns, names[..i + 1], parts) == ResolveAll(h, ns, names[..i], parts) + Resolve(h, ns, names[i], parts)
  {
    ConcatMapStep(names, name => Resolve(h, ns, name, parts), i);
  }

  /** One pass of the outer loop of `find`: the guesses for one undeclared name. */
  method ResolveName(h: Host, ns: string, name: string, parts: seq<string>, dependencies0: seq<string>)
    returns (dependencies: seq<string>)
    ensures dependencies == dependencies0 + Resolve(h, ns, name, parts)
  {
    dependencies := dependencies0;
    var start := FirstSegment(name);
    var dependency := InNamespace(ns, name);
    if ElementExists(h, dependency) {
      dependencies := dependencies + [dependency];
      return;
    }
    assert dependencies0 + ViaImports(name, parts[..0]) == dependencies0;
    for j := 0 to |parts|
      invariant dependencies == dependencies0 + ViaImports(name, parts[..j])
    {
      var part := parts[j];
      ViaImportsStep(name, parts, j);
      if start != LastSegment(part) {
        assert dependencies0 + ViaImports(name, parts[..j + 1]) == dependencies;
        continue;
      }
      dependencies := dependencies + [ViaImport(part, name)];
    }
    assert parts[..|parts|] == parts;
  }

  /** The by-reference loop of `find`: trims `\` off every entry in place. */
  method TrimEach(collected: seq<string>) returns (dependencies: seq<string>)
    ensures dependencies == TrimBackslashes(collected)
  {
    dependencies := collected;
    for k := 0 to |dependencies|
      invariant |dependencies| == |collected|
      invariant forall m :: 0 <= m < k ==> dependencies[m] == Trim(collected[m], {'\\'})
      invariant forall m :: k <= m < |dependencies| ==> dependencies[m] == collected[m]
    {
      dependencies := dependencies[k := Trim(dependencies[k], {'\\'})];
    }
  }

  /** The outer loop of `find` over the undeclared names. */
  method ResolveNames(h: Host, ns: string, names: seq<string>, parts: seq<string>, base: seq<string>)
    returns (dependencies: seq<string>)
    ensures dependencies == base + ResolveAll(h, ns, names, parts)
  {
    dependencies := base;
    assert base + ResolveAll(h, ns, names[..0], parts) == base;
    for i := 0 to |names|
      invariant dependencies == base + ResolveAll(h, ns, names[..i], parts)
    {
      ResolveAllStep(h, ns, names, parts, i);
      assert base + ResolveAll(h, ns, names[..i + 1], parts) == dependencies + Resolve(h, ns, names[i], parts);
      dependencies := ResolveName(h, ns, names[i], parts, dependencies);
    }
    assert names[..|names|] == names;
  }

  lemma DependenciesOfText(sts: seq<Strategy>, h: Host, p: string, content: string)
    requires Contents(h, p) == Some(content) && !Falsy(content)
    ensures CodeDependencies(sts, h, Some(p)) == Dedupe(TrimBackslashes(Collected(sts, h, content)))
  {
  }

  /** `find`. */
  method Find(sts: seq<Strategy>, h: Host, path: Option<string>) returns (dependencies: seq<string>)
    ensures dependencies == CodeDependencies(sts, h, path)
  {
    if path.None? {
      return [];
    }
    var read := Contents(h, path.value);
    if read.None? || Falsy(read.value) {
      return [];
    }
    var content := read.value;
    var ns := CurrentNamespace(content);
    var existing, importedParts := ParseUses(h, content);
    var fullNames, importedNames := ParseCode(sts, h, content);
    dependencies := ResolveNames(h, ns, importedNames, importedParts, existing + fullNames);
    assert dependencies == Collected(sts, h, content);
    dependencies := TrimEach(dependencies);
    dependencies := Dedupe(dependencies);
    DependenciesOfText(sts, h, path.value, content);
  }
}
