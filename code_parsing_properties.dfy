/**
 * What `CodeParsingDependenciesFinder` guarantees: how the namespace is
 * found, how `use` statements are read, how names are sorted and
 * resolved, and what `find` reports.
 */
module CodeParsingProperties {
  import opened Wrappers
  import opened Text
  import opened Collections
  import opened StringHelper
  import opened Patterns
  import opened Environment
  import opened Strategies
  import opened CodeParsing
  import StrategyProperties
  import Types
  import Exclusion

  // ---------------------------------------------------------------------
  // The namespace

  /** The first declaration in the text gives the namespace. */
  lemma NamespaceOfFirstDeclaration(content: string, p: nat)
    requires p < |content| && MatchAt(NamespaceDecl, content, p).Some?
    requires forall q :: 0 <= q < p ==> MatchAt(NamespaceDecl, content, q).None?
    ensures CurrentNamespace(content) == MatchAt(NamespaceDecl, content, p).value.groups[0]
  {
    FindAllSkip(NamespaceDecl, content, 0, p);
    FindAllFirst(NamespaceDecl, content, p);
  }

  /** Without a declaration the namespace is `''`. */
  lemma NamespaceWithoutDeclaration(content: string)
    requires forall q :: 0 <= q < |content| ==> MatchAt(NamespaceDecl, content, q).None?
    ensures CurrentNamespace(content) == ""
  {
    FindAllNone(NamespaceDecl, content, 0);
  }

  /** The layout of `kw N;…`, for a keyword written in lower case. */
  lemma KeywordLayout(kw: string, n: string, rest: string)
    requires Lower(kw) == kw
    ensures var content := kw + " " + n + ";" + rest;
      KeywordAt(content, 0, kw) && content[|kw|] == ' ' &&
      content[|kw| + 1..|kw| + 1 + |n|] == n && content[|kw| + 1 + |n|] == ';'
  {
    KeywordHead(kw, n, rest);
    NameAfterKeyword(kw, n, rest);
  }

  lemma KeywordHead(kw: string, n: string, rest: string)
    requires Lower(kw) == kw
    ensures KeywordAt(kw + " " + n + ";" + rest, 0, kw)
  {
    var content := kw + " " + n + ";" + rest;
    assert content[..|kw|] == kw by {
      PrefixOfConcat(kw + " " + n + ";", rest, |kw|);
      PrefixOfConcat(kw + " " + n, ";", |kw|);
      PrefixOfConcat(kw + " ", n, |kw|);
      PrefixOfConcat(kw, " ", |kw|);
    }
    StrategyProperties.KeywordFromText(content, 0, kw);
  }

  lemma NameAfterKeyword(kw: string, n: string, rest: string)
    ensures var content := kw + " " + n + ";" + rest;
      content[|kw|] == ' ' && content[|kw| + 1..|kw| + 1 + |n|] == n && content[|kw| + 1 + |n|] == ';'
  {
    MiddleOfFour(kw + " ", n, ";", rest);
    assert |kw + " "| == |kw| + 1;
  }

  lemma PrefixOfConcat(x: string, y: string, k: nat)
    requires k <= |x|
    ensures (x + y)[..k] == x[..k]
  {
  }

  lemma MiddleOfFour(x: string, y: string, u: string, v: string)
    ensures (x + y + u + v)[|x|..|x| + |y|] == y
  {
    var s := x + y + u + v;
    assert s[..|x| + |y|] == x + y by {
      PrefixOfConcat(x + y + u, v, |x| + |y|);
      PrefixOfConcat(x + y, u, |x| + |y|);
    }
    SliceOfPrefix(s, |x|, |x| + |y|);
    SuffixOfConcat(x, y);
  }

  lemma SuffixOfConcat(x: string, y: string)
    ensures (x + y)[|x|..] == y
  {
  }

  lemma SliceOfPrefix(s: string, i: nat, j: nat)
    requires i <= j <= |s|
    ensures s[i..j] == s[..j][i..]
  {
  }

  lemma NamespaceFromLayout(content: string, n: string)
    requires |n| > 0 && AllChars(n, IsClassChar)
    requires KeywordAt(content, 0, "namespace") && 10 + |n| < |content| && content[9] == ' '
    requires content[10..10 + |n|] == n && content[10 + |n|] == ';'
    ensures MatchAt(NamespaceDecl, content, 0) == Some(Hit(11 + |n|, [n]))
  {
    assert forall k :: 10 <= k < 10 + |n| ==> content[k] == n[k - 10];
    RunEndUnique(content, 9, 10, IsBlank);
    RunEndUnique(content, 10, 10 + |n|, IsClassChar);
  }

  /** A file that opens with `namespace N;` is in namespace `N`. */
  lemma NamespaceAtStart(n: string, rest: string)
    requires |n| > 0 && AllChars(n, IsClassChar)
    ensures CurrentNamespace("namespace" + " " + n + ";" + rest) == n
  {
    var content := "namespace" + " " + n + ";" + rest;
    LowerOfNoUpper("namespace");
    KeywordLayout("namespace", n, rest);
    NamespaceFromLayout(content, n);
    FindAllFirst(NamespaceDecl, content, 0);
  }

  // ---------------------------------------------------------------------
  // Reading `use` statements

  /** A row without line feeds or double spaces is left as it is. */
  lemma {:induction false} NormalizeKeeps(row: string, i: nat)
    requires i <= |row| && '\n' !in row && NoDoubled(row, ' ')
    ensures NormalizeFrom(row, i) == row[i..]
    decreases |row| - i
  {
    if i < |row| {
      NormalizeKeeps(row, i + 1);
      assert row[i..] == [row[i]] + row[i + 1..];
    }
  }

  /** Splitting `{…}` at the only braces of a row. */
  lemma GroupBracesAt(row: string, i: nat, j: nat)
    requires i < j < |row| && row[i] == '{' && row[j] == '}'
    requires forall k :: 0 <= k < |row| && k != i ==> row[k] != '{'
    requires forall k :: 0 <= k < |row| && k != j ==> row[k] != '}'
    ensures GroupBraces(row) == Some((i, j))
  {
  }

  lemma GroupRowText(p: string, b: string, c: string)
    requires ' ' !in p && ' ' !in b && ' ' !in c
    requires '{' !in p && '{' !in b && '{' !in c && '}' !in p && '}' !in b && '}' !in c
    requires '\n' !in p && '\n' !in b && '\n' !in c
    ensures var row := p + "{" + b + ", " + c + "}";
      var i, j := |p|, |row| - 1;
      i < j && row[i] == '{' && row[j] == '}' && row[..i] == p && row[i + 1..j] == b + ", " + c &&
      (forall k :: 0 <= k < |row| && k != i ==> row[k] != '{') &&
      (forall k :: 0 <= k < |row| && k != j ==> row[k] != '}') &&
      '\n' !in row && NoDoubled(row, ' ')
  {
    var row := p + "{" + b + ", " + c + "}";
    assert row == p + ("{" + b + ", " + c + "}");
    forall k | 0 <= k < |row| ensures row[k] == ' ' ==> k == |p| + 2 + |b| {
      if k < |p| {
        assert row[k] == p[k];
      } else if |p| < k < |p| + 1 + |b| {
        assert row[k] == b[k - |p| - 1];
      } else if |p| + 3 + |b| <= k < |row| - 1 {
        assert row[k] == c[k - |p| - 3 - |b|];
      }
    }
    forall k | 0 <= k < |row| ensures row[k] != '\n' && (k != |p| ==> row[k] != '{') && (k != |row| - 1 ==> row[k] != '}') {
      if k < |p| {
        assert row[k] == p[k];
      } else if |p| < k < |p| + 1 + |b| {
        assert row[k] == b[k - |p| - 1];
      } else if |p| + 3 + |b| <= k < |row| - 1 {
        assert row[k] == c[k - |p| - 3 - |b|];
      }
    }
  }

  lemma GroupPartsOfBraces(row: string, i: nat, j: nat, b: string, d: string)
    requires i < j <= |row| && GroupBraces(row) == Some((i, j))
    requires Explode(row[i + 1..j], ",") == [b, d]
    ensures GroupParts(row) == [row[..i] + b, row[..i] + d]
  {
  }

  /** In a name without spaces, there is no alias to drop and no space to remove. */
  lemma ImportNameOfWord(w: string)
    requires ' ' !in w
    ensures ImportName(w) == w
  {
    assert NoDoubled(w, ' ');
    forall k: nat | k <= |w| ensures !OccursAt(w, " as ", k) {
      if k + 4 <= |w| {
        assert w[k..k + 4][0] == w[k];
      }
    }
    ExplodeNoOccurrence(w, " as ");
  }

  /** A name with one space in it loses the space. */
  lemma ImportNameOfSpaced(p: string, c: string)
    requires ' ' !in p && ' ' !in c
    ensures ImportName(p + " " + c) == p + c
  {
    var s := p + " " + c;
    forall k | 0 <= k < |s| ensures s[k] == ' ' ==> k == |p| {
      if k < |p| {
        assert s[k] == p[k];
      } else if k > |p| {
        assert s[k] == c[k - |p| - 1];
      }
    }
    assert NoDoubled(s, ' ');
    forall k: nat | k <= |s| ensures !OccursAt(s, " as ", k) {
      if k + 4 <= |s| {
        assert s[k..k + 4][0] == s[k] && s[k..k + 4][3] == s[k + 3];
      }
    }
    ExplodeNoOccurrence(s, " as ");
    RemoveSpacesAppend(p + " ", c);
    RemoveSpacesAppend(p, " ");
  }

  lemma GroupRowNormal(p: string, b: string, c: string)
    requires ' ' !in p && ' ' !in b && ' ' !in c
    requires '{' !in p && '{' !in b && '{' !in c && '}' !in p && '}' !in b && '}' !in c
    requires '\n' !in p && '\n' !in b && '\n' !in c
    ensures NormalizeRow(p + "{" + b + ", " + c + "}") == p + "{" + b + ", " + c + "}"
  {
    GroupRowText(p, b, c);
    NormalizeKeeps(p + "{" + b + ", " + c + "}", 0);
  }

  lemma GroupRowParts(p: string, b: string, c: string)
    requires ' ' !in p && ' ' !in b && ' ' !in c
    requires '{' !in p && '{' !in b && '{' !in c && '}' !in p && '}' !in b && '}' !in c
    requires '\n' !in p && '\n' !in b && '\n' !in c && ',' !in b && ',' !in c
    ensures GroupParts(p + "{" + b + ", " + c + "}") == [p + b, p + " " + c]
  {
    var row := p + "{" + b + ", " + c + "}";
    GroupRowText(p, b, c);
    GroupBracesAt(row, |p|, |row| - 1);
    ExplodePair(b, c);
    GroupPartsOfBraces(row, |p|, |row| - 1, b, " " + c);
    assert p + (" " + c) == p + " " + c;
  }

  /** `B, C` explodes at the comma into `B` and ` C`. */
  lemma ExplodePair(b: string, c: string)
    requires ',' !in b && ',' !in c
    ensures Explode(b + ", " + c, ",") == [b, " " + c]
  {
    ExplodeCharSplit(b, " " + c, ',');
    assert b + [','] + (" " + c) == b + ", " + c;
    ExplodeAbsent(" " + c, ',');
  }

  /** `use P{B, C};` imports `PB` and `PC`. */
  lemma GroupedImport(p: string, b: string, c: string)
    requires ' ' !in p && ' ' !in b && ' ' !in c
    requires '{' !in p && '{' !in b && '{' !in c && '}' !in p && '}' !in b && '}' !in c
    requires '\n' !in p && '\n' !in b && '\n' !in c && ',' !in b && ',' !in c
    ensures RowImports(p + "{" + b + ", " + c + "}") == [p + b, p + c]
  {
    GroupRowNormal(p, b, c);
    GroupRowParts(p, b, c);
    ImportNameOfWord(p + b);
    ImportNameOfSpaced(p, c);
  }

  /** `use X as Y;` imports `X`: the alias is dropped. */
  lemma AliasedImport(x: string, y: string)
    requires ' ' !in x && ' ' !in y
    ensures ImportName(x + " as " + y) == x
  {
    var s := x + " as " + y;
    forall k | 0 <= k < |s| ensures s[k] == ' ' ==> k == |x| || k == |x| + 3 {
      if k < |x| {
        assert s[k] == x[k];
      } else if k > |x| + 3 {
        assert s[k] == y[k - |x| - 4];
      }
    }
    assert NoDoubled(s, ' ');
    ExplodeHead(x, " as ", y);
  }

  /** A plain `use X;` imports `X`. */
  lemma PlainImport(x: string)
    requires ' ' !in x && '\n' !in x && '{' !in x
    ensures RowImports(x) == [x]
  {
    assert NoDoubled(x, ' ');
    NormalizeKeeps(x, 0);
    assert GroupBraces(x).None?;
    ImportNameOfWord(x);
  }

  /**
   * `parseUses` files each imported name once: declared names among the
   * existing classes, the others among the namespace prefixes.
   */
  lemma {:induction false} SortImportsSpec(h: Host, names: seq<string>)
    ensures var r := SortImports(h, names);
      NoDup(r.0) && NoDup(r.1) &&
      (forall x :: x in r.0 <==> x in names && ElementExists(h, x)) &&
      (forall x :: x in r.1 <==> x in names && !ElementExists(h, x))
    decreases |names|
  {
    if names != [] {
      var xs := names[..|names| - 1];
      SortImportsSpec(h, xs);
      assert names == xs + [names[|names| - 1]];
    }
  }

  /** No name is both an existing class and a namespace prefix. */
  lemma ImportsDisjoint(h: Host, content: string, x: string)
    ensures !(x in Imports(h, content).0 && x in Imports(h, content).1)
  {
    SortImportsSpec(h, UseNames(UseRows(content)));
  }

  // ---------------------------------------------------------------------
  // Splitting what the strategies find

  /** The tokens are what some strategy found, once each. */
  lemma CodeTokensSpec(sts: seq<Strategy>, content: string)
    ensures NoDup(CodeTokens(sts, content))
    ensures forall t :: t in CodeTokens(sts, content) <==> exists k :: 0 <= k < |sts| && t in Parsed(sts[k], content)
  {
    var rs := StrategyResults(sts, content);
    DedupeSpec(Flatten(rs));
    FlattenMembers(rs);
    forall t ensures t in CodeTokens(sts, content) <==> exists k :: 0 <= k < |sts| && t in Parsed(sts[k], content) {
      if exists k :: 0 <= k < |sts| && t in Parsed(sts[k], content) {
        var k :| 0 <= k < |sts| && t in Parsed(sts[k], content);
        assert t in rs[k];
      }
    }
  }

  /**
   * Exclusions are never reported; primitives and declared names are full
   * names; the other names are left for resolution. Order is kept.
   */
  lemma {:induction false} SplitTokensSpec(h: Host, toks: seq<string>)
    ensures var r := SplitTokens(h, toks);
      (forall x :: x in r.0 <==> x in toks && !Exclusion.IsExclusion(x) && (Types.IsPrimitive(x) || ElementExists(h, x))) &&
      (forall x :: x in r.1 <==> x in toks && !Exclusion.IsExclusion(x) && !Types.IsPrimitive(x) && !ElementExists(h, x)) &&
      (NoDup(toks) ==> NoDup(r.0) && NoDup(r.1))
    decreases |toks|
  {
    if toks != [] {
      var xs := toks[..|toks| - 1];
      var t := toks[|toks| - 1];
      SplitTokensSpec(h, xs);
      assert toks == xs + [t];
      if NoDup(toks) {
        assert NoDup(xs);
        assert t !in xs;
      }
    }
  }

  // ---------------------------------------------------------------------
  // Resolution

  /** The import guesses: one per import whose last segment is the name's first segment. */
  lemma ViaImportsSpec(name: string, parts: seq<string>)
    ensures forall y :: y in ViaImports(name, parts) <==>
      exists k :: 0 <= k < |parts| && FirstSegment(name) == LastSegment(parts[k]) && y == ViaImport(parts[k], name)
  {
    ConcatMapMembers(parts, part => ImportGuess(name, part));
  }

  /**
   * A name is first tried inside the file's namespace; only when that is
   * not declared do the imports give guesses.
   */
  lemma ResolveSpec(h: Host, ns: string, name: string, parts: seq<string>)
    ensures ElementExists(h, InNamespace(ns, name)) ==> Resolve(h, ns, name, parts) == [InNamespace(ns, name)]
    ensures !ElementExists(h, InNamespace(ns, name)) ==> forall y :: y in Resolve(h, ns, name, parts) <==>
      exists k :: 0 <= k < |parts| && FirstSegment(name) == LastSegment(parts[k]) && y == ViaImport(parts[k], name)
  {
    ViaImportsSpec(name, parts);
  }

  /** A name that is neither declared in the namespace nor matched by an import is dropped. */
  lemma UnmatchedNameDropped(h: Host, ns: string, name: string, parts: seq<string>)
    requires !ElementExists(h, InNamespace(ns, name))
    requires forall k :: 0 <= k < |parts| ==> FirstSegment(name) != LastSegment(parts[k])
    ensures Resolve(h, ns, name, parts) == []
  {
    ConcatMapEmpty(parts, part => ImportGuess(name, part));
  }

  /** The resolved names are what the undeclared names resolve to. */
  lemma ResolveAllSpec(h: Host, ns: string, names: seq<string>, parts: seq<string>)
    ensures forall y :: y in ResolveAll(h, ns, names, parts) <==> exists k :: 0 <= k < |names| && y in Resolve(h, ns, names[k], parts)
  {
    ConcatMapMembers(names, name => Resolve(h, ns, name, parts));
  }

  // ---------------------------------------------------------------------
  // What `find` reports

  /** Neither end is a `\`. */
  predicate Trimmed(x: string)
  {
    x == [] || (x[0] != '\\' && x[|x| - 1] != '\\')
  }

  lemma TrimmedOfTrim(s: string)
    ensures Trimmed(Trim(s, {'\\'}))
  {
    TrimSpec(s, {'\\'});
  }

  lemma TrimmedMembers(xs: seq<string>)
    ensures NoDup(Dedupe(TrimBackslashes(xs)))
    ensures forall k :: 0 <= k < |Dedupe(TrimBackslashes(xs))| ==> Trimmed(Dedupe(TrimBackslashes(xs))[k])
    ensures forall y :: y in Dedupe(TrimBackslashes(xs)) <==> exists k :: 0 <= k < |xs| && y == Trim(xs[k], {'\\'})
  {
    var ts := TrimBackslashes(xs);
    DedupeSpec(ts);
    forall k | 0 <= k < |Dedupe(ts)| ensures Trimmed(Dedupe(ts)[k]) {
      var m := IndexOf(ts, Dedupe(ts)[k]);
      TrimmedOfTrim(xs[m]);
    }
    forall y ensures y in ts <==> exists k :: 0 <= k < |xs| && y == Trim(xs[k], {'\\'}) {
      if y in ts {
        var m := IndexOf(ts, y);
        assert y == Trim(xs[m], {'\\'});
      }
      if exists k :: 0 <= k < |xs| && y == Trim(xs[k], {'\\'}) {
        var k :| 0 <= k < |xs| && y == Trim(xs[k], {'\\'});
        assert ts[k] == y;
      }
    }
  }

  /**
   * Without a path, without a readable file or with a falsy text there is
   * nothing; otherwise every dependency is reported once, with no `\` at
   * either end.
   */
  lemma DependenciesShape(sts: seq<Strategy>, h: Host, path: Option<string>)
    ensures path.None? ==> CodeDependencies(sts, h, path) == []
    ensures path.Some? && (Contents(h, path.value).None? || Falsy(Contents(h, path.value).value)) ==>
      CodeDependencies(sts, h, path) == []
    ensures NoDup(CodeDependencies(sts, h, path))
    ensures forall k :: 0 <= k < |CodeDependencies(sts, h, path)| ==> Trimmed(CodeDependencies(sts, h, path)[k])
  {
    if path.Some? && Contents(h, path.value).Some? && !Falsy(Contents(h, path.value).value) {
      TrimmedMembers(Collected(sts, h, Contents(h, path.value).value));
    }
  }

  /** The dependencies are exactly the trimmed collected names. */
  lemma DependencyMembers(sts: seq<Strategy>, h: Host, p: string, content: string)
    requires Contents(h, p) == Some(content) && !Falsy(content)
    ensures forall y :: y in CodeDependencies(sts, h, Some(p)) <==>
      exists k :: 0 <= k < |Collected(sts, h, content)| && y == Trim(Collected(sts, h, content)[k], {'\\'})
  {
    TrimmedMembers(Collected(sts, h, content));
  }

  lemma CollectedReported(sts: seq<Strategy>, h: Host, p: string, content: string, x: string)
    requires Contents(h, p) == Some(content) && !Falsy(content)
    requires x in Collected(sts, h, content)
    ensures Trim(x, {'\\'}) in CodeDependencies(sts, h, Some(p))
  {
    DependencyMembers(sts, h, p, content);
    var k := IndexOf(Collected(sts, h, content), x);
  }

  /** A declared imported name is reported. */
  lemma ExistingImportReported(sts: seq<Strategy>, h: Host, p: string, content: string, x: string)
    requires Contents(h, p) == Some(content) && !Falsy(content)
    requires x in UseNames(UseRows(content)) && ElementExists(h, x)
    ensures Trim(x, {'\\'}) in CodeDependencies(sts, h, Some(p))
  {
    SortImportsSpec(h, UseNames(UseRows(content)));
    CollectedReported(sts, h, p, content, x);
  }

  /** A primitive or declared name a strategy finds is reported, unless it is an exclusion. */
  lemma KnownNameReported(sts: seq<Strategy>, h: Host, p: string, content: string, x: string)
    requires Contents(h, p) == Some(content) && !Falsy(content)
    requires x in CodeTokens(sts, content) && !Exclusion.IsExclusion(x)
    requires Types.IsPrimitive(x) || ElementExists(h, x)
    ensures Trim(x, {'\\'}) in CodeDependencies(sts, h, Some(p))
  {
    SplitTokensSpec(h, CodeTokens(sts, content));
    CollectedReported(sts, h, p, content, x);
  }

  /** An undeclared name whose guess in the file's namespace is declared is reported under that namespace. */
  lemma NamespaceGuessReported(sts: seq<Strategy>, h: Host, p: string, content: string, x: string)
    requires Contents(h, p) == Some(content) && !Falsy(content)
    requires x in CodeTokens(sts, content) && !Exclusion.IsExclusion(x)
    requires !Types.IsPrimitive(x) && !ElementExists(h, x)
    requires ElementExists(h, InNamespace(CurrentNamespace(content), x))
    ensures Trim(InNamespace(CurrentNamespace(content), x), {'\\'}) in CodeDependencies(sts, h, Some(p))
  {
    var names := CodeNames(sts, h, content).1;
    var parts := Imports(h, content).1;
    var ns := CurrentNamespace(content);
    SplitTokensSpec(h, CodeTokens(sts, content));
    var k := IndexOf(names, x);
    ResolveAllSpec(h, ns, names, parts);
    assert InNamespace(ns, x) in Resolve(h, ns, names[k], parts);
    CollectedReported(sts, h, p, content, InNamespace(ns, x));
  }

  /**
   * Otherwise each import whose last segment is the name's first segment
   * gives a guess, and every such guess is reported.
   */
  lemma ImportGuessReported(sts: seq<Strategy>, h: Host, p: string, content: string, x: string, part: string)
    requires Contents(h, p) == Some(content) && !Falsy(content)
    requires x in CodeTokens(sts, content) && !Exclusion.IsExclusion(x)
    requires !Types.IsPrimitive(x) && !ElementExists(h, x)
    requires !ElementExists(h, InNamespace(CurrentNamespace(content), x))
    requires part in Imports(h, content).1 && FirstSegment(x) == LastSegment(part)
    ensures Trim(ViaImport(part, x), {'\\'}) in CodeDependencies(sts, h, Some(p))
  {
    var names := CodeNames(sts, h, content).1;
    var parts := Imports(h, content).1;
    var ns := CurrentNamespace(content);
    SplitTokensSpec(h, CodeTokens(sts, content));
    var k := IndexOf(names, x);
    var m := IndexOf(parts, part);
    ResolveSpec(h, ns, x, parts);
    ResolveAllSpec(h, ns, names, parts);
    assert ViaImport(part, x) in Resolve(h, ns, names[k], parts);
    CollectedReported(sts, h, p, content, ViaImport(part, x));
  }
}
