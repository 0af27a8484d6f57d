/**
 * The code-parsing strategies: each applies one pattern to a file's text
 * and turns the captures into type names. The three `::`/`new`/`instanceof`
 * strategies keep the distinct captures; the annotation strategies remove
 * spaces, delete `[]`, split on `|` and collect the distinct pieces in
 * order of first appearance.
 */
module Strategies {
  import opened Text
  import opened Collections
  import opened StringHelper
  import opened Patterns

  datatype Strategy = Static | New | Instanceof | Param | Return | Throws | Property | Var | Method

  /** Every element of `col` satisfies `p`. */
  predicate AllItems(col: seq<string>, p: string -> bool)
  {
    forall k :: 0 <= k < |col| ==> p(col[k])
  }

  /** What all matches guarantee about one group carries over to the column of that group. */
  lemma ColumnOf(pat: Pattern, hits: seq<Hit>, g: nat, p: string -> bool)
    requires forall k :: 0 <= k < |hits| ==> WellFormed(pat, hits[k])
    requires forall h: Hit :: WellFormed(pat, h) ==> g < |h.groups| && p(h.groups[g])
    ensures AllItems(Column(hits, g), p)
  {
    var col := Column(hits, g);
    forall k | 0 <= k < |col| ensures p(col[k]) {
      assert WellFormed(pat, hits[k]);
    }
  }

  /** `array_unique` keeps what every element satisfies. */
  lemma DedupeItems(col: seq<string>, p: string -> bool)
    requires AllItems(col, p)
    ensures AllItems(Dedupe(col), p) && NoDup(Dedupe(col))
    ensures forall t :: t in Dedupe(col) <==> t in col
  {
    DedupeSpec(col);
    forall k | 0 <= k < |Dedupe(col)| ensures p(Dedupe(col)[k]) {
      assert Dedupe(col)[k] in col;
    }
  }

  predicate ClassChars(t: string) { AllChars(t, IsClassChar) }
  predicate NoOpenParen(t: string) { '(' !in t }
  predicate NonEmptyClassChars(t: string) { |t| > 0 && AllChars(t, IsClassChar) }

  /** `ClassesCalledStaticallyParsingStrategy::parse`: the distinct names before `::`. */
  function ParseStatic(content: string): (r: seq<string>)
    ensures NoDup(r) && AllItems(r, ClassChars)
    ensures forall t :: t in r <==> t in Column(FindAll(StaticCall, content, 0), 0)
  {
    var hits := FindAll(StaticCall, content, 0);
    ColumnOf(StaticCall, hits, 0, ClassChars);
    DedupeItems(Column(hits, 0), ClassChars);
    Dedupe(Column(hits, 0))
  }

  /** `ClassesCreatedThroughNewParsingStrategy::parse`: the distinct texts between `new` and the next `(`. */
  function ParseNew(content: string): (r: seq<string>)
    ensures NoDup(r) && AllItems(r, NoOpenParen)
    ensures forall t :: t in r <==> t in Column(FindAll(NewCall, content, 0), 0)
  {
    var hits := FindAll(NewCall, content, 0);
    ColumnOf(NewCall, hits, 0, NoOpenParen);
    DedupeItems(Column(hits, 0), NoOpenParen);
    Dedupe(Column(hits, 0))
  }

  /** `ClassesFromInstanceofConstructionParsingStrategy::parse`: the distinct right operands. */
  function ParseInstanceof(content: string): (r: seq<string>)
    ensures NoDup(r) && AllItems(r, NonEmptyClassChars)
    ensures forall t :: t in r <==> t in Column(FindAll(InstanceOf, content, 0), 1)
  {
    var hits := FindAll(InstanceOf, content, 0);
    ColumnOf(InstanceOf, hits, 1, NonEmptyClassChars);
    DedupeItems(Column(hits, 1), NonEmptyClassChars);
    Dedupe(Column(hits, 1))
  }

  /** The names one annotated type list contributes: spaces removed, `[]` deleted, split on `|`. */
  function SplitTypes(typesAsString: string): (types: seq<string>)
    ensures forall k :: 0 <= k < |types| ==> ' ' !in types[k] && '|' !in types[k]
  {
    var t := ReplaceAll(RemoveSpaces(typesAsString), "[]", "");
    ReplaceByEmptyIntroducesNothing(RemoveSpaces(typesAsString), "[]", ' ');
    ExplodeCharPieces(t, '|');
    ExplodeCharKeepsOut(t, '|', ' ');
    Explode(t, "|")
  }

  /** The names one `@throws` list contributes: spaces removed and split on `|`; `[]` is kept. */
  function SplitExceptions(exceptionsAsString: string): (types: seq<string>)
    ensures forall k :: 0 <= k < |types| ==> ' ' !in types[k] && '|' !in types[k]
  {
    var t := RemoveSpaces(exceptionsAsString);
    ExplodeCharPieces(t, '|');
    ExplodeCharKeepsOut(t, '|', ' ');
    Explode(t, "|")
  }

  /** A character the type list lacks is in none of its names. */
  lemma SplitTypesKeepsOut(typesAsString: string, d: char)
    requires d !in typesAsString
    ensures forall k :: 0 <= k < |SplitTypes(typesAsString)| ==> d !in SplitTypes(typesAsString)[k]
  {
    var r := RemoveSpaces(typesAsString);
    ReplaceByEmptyIntroducesNothing(r, "[]", d);
    ExplodeCharKeepsOut(ReplaceAll(r, "[]", ""), '|', d);
  }

  lemma SplitExceptionsKeepsOut(exceptionsAsString: string, d: char)
    requires d !in exceptionsAsString
    ensures forall k :: 0 <= k < |SplitExceptions(exceptionsAsString)| ==> d !in SplitExceptions(exceptionsAsString)[k]
  {
    ExplodeCharKeepsOut(RemoveSpaces(exceptionsAsString), '|', d);
  }

  /**
   * The ordered key set `$dependencies` after inserting, capture by capture,
   * the names `split` extracts from each capture.
   */
  function KeysOf(acc: seq<string>, captures: seq<string>, split: string -> seq<string>): seq<string>
    decreases |captures|
  {
    if captures == [] then acc else KeysOf(AddAll(acc, split(captures[0])), captures[1..], split)
  }

  lemma {:induction false} KeysOfNoDup(acc: seq<string>, captures: seq<string>, split: string -> seq<string>)
    requires NoDup(acc)
    ensures NoDup(KeysOf(acc, captures, split))
    decreases |captures|
  {
    if captures != [] {
      AddAllNoDup(acc, split(captures[0]));
      KeysOfNoDup(AddAll(acc, split(captures[0])), captures[1..], split);
    }
  }

  /** A name is collected exactly when some capture contributes it. */
  lemma {:induction false} KeysOfMember(acc: seq<string>, captures: seq<string>, split: string -> seq<string>, t: string)
    ensures t in KeysOf(acc, captures, split) <==> t in acc || exists k :: 0 <= k < |captures| && t in split(captures[k])
    decreases |captures|
  {
    if captures != [] {
      var acc' := AddAll(acc, split(captures[0]));
      KeysOfMember(acc', captures[1..], split, t);
      AddAllMember(acc, split(captures[0]), t);
      if t in KeysOf(acc, captures, split) && t !in acc && t !in split(captures[0]) {
        var k :| 0 <= k < |captures[1..]| && t in split(captures[1..][k]);
        assert captures[1..][k] == captures[k + 1];
      }
      if exists k :: 0 <= k < |captures| && t in split(captures[k]) {
        var k :| 0 <= k < |captures| && t in split(captures[k]);
        if k > 0 {
          assert captures[k] == captures[1..][k - 1];
        }
      }
    }
  }

  /** The nested loops that fill `$dependencies` and return its keys. */
  method CollectKeys(captures: seq<string>, split: string -> seq<string>) returns (deps: seq<string>)
    ensures deps == KeysOf([], captures, split)
  {
    deps := [];
    var i := 0;
    while i < |captures|
      invariant 0 <= i <= |captures|
      invariant KeysOf(deps, captures[i..], split) == KeysOf([], captures, split)
    {
      var types := split(captures[i]);
      ghost var before := deps;
      var j := 0;
      while j < |types|
        invariant 0 <= j <= |types|
        invariant AddAll(deps, types[j..]) == AddAll(before, types)
      {
        assert types[j..][1..] == types[j + 1..];
        deps := AddUnique(deps, types[j]);
        j := j + 1;
      }
      assert captures[i..][1..] == captures[i + 1..];
      i := i + 1;
    }
  }

  /** `ParamAnnotationsParsingStrategy::parse`. */
  function ParamTypes(content: string): seq<string>
  {
    KeysOf([], FilterTruthy(Column(FindAll(ParamTag, content, 0), 0)), SplitTypes)
  }

  /** `PropertyAnnotationsParsingStrategy::parse`. */
  function PropertyTypes(content: string): seq<string>
  {
    KeysOf([], FilterTruthy(Column(FindAll(PropertyTag, content, 0), 1)), SplitTypes)
  }

  /** `ReturnAnnotationsParsingStrategy::parse`. */
  function ReturnTypes(content: string): seq<string>
  {
    KeysOf([], FilterTruthy(Column(FindAll(ReturnTag, content, 0), 0)), SplitTypes)
  }

  /** `ThrowsAnnotationsParsingStrategy::parse`. */
  function ThrowsTypes(content: string): seq<string>
  {
    KeysOf([], FilterTruthy(Column(FindAll(ThrowsTag, content, 0), 0)), SplitExceptions)
  }

  method ParseParam(content: string) returns (deps: seq<string>)
    ensures deps == ParamTypes(content)
  {
    var hits := FindAll(ParamTag, content, 0);
    deps := CollectKeys(FilterTruthy(Column(hits, 0)), SplitTypes);
  }

  method ParseProperty(content: string) returns (deps: seq<string>)
    ensures deps == PropertyTypes(content)
  {
    var hits := FindAll(PropertyTag, content, 0);
    deps := CollectKeys(FilterTruthy(Column(hits, 1)), SplitTypes);
  }

  method ParseReturn(content: string) returns (deps: seq<string>)
    ensures deps == ReturnTypes(content)
  {
    var hits := FindAll(ReturnTag, content, 0);
    deps := CollectKeys(FilterTruthy(Column(hits, 0)), SplitTypes);
  }

  method ParseThrows(content: string) returns (deps: seq<string>)
    ensures deps == ThrowsTypes(content)
  {
    var hits := FindAll(ThrowsTag, content, 0);
    deps := CollectKeys(FilterTruthy(Column(hits, 0)), SplitExceptions);
  }

  /**
   * `is_numeric` on a token made of `[\w|\[\]\\$]`: such a token has no
   * sign, point or whitespace, so it is numeric exactly when it is digits,
   * optionally followed by `e` or `E` and more digits.
   */
  predicate IsNumericToken(t: string)
  {
    var i := RunEnd(t, 0, IsDigit);
    i > 0 && (i == |t| || ((t[i] == 'e' || t[i] == 'E') && i + 1 < |t| && RunEnd(t, i + 1, IsDigit) == |t|))
  }

  /** The filter closure of `VarAnnotationsParsingStrategy`. */
  predicate KeepVarToken(t: string)
  {
    !Falsy(t) && !IsNumericToken(t) && '$' !in t
  }

  /** `array_filter($group, $filter)`. */
  function FilterVarTokens(xs: seq<string>): (r: seq<string>)
    ensures forall x :: x in r <==> x in xs && KeepVarToken(x)
    decreases |xs|
  {
    if xs == [] then []
    else if KeepVarToken(xs[0]) then [xs[0]] + FilterVarTokens(xs[1..])
    else FilterVarTokens(xs[1..])
  }

  /** The surviving first tokens of every `@var`, then the surviving second tokens. */
  function VarCaptures(content: string): seq<string>
  {
    var hits := FindAll(VarTag, content, 0);
    FilterVarTokens(Column(hits, 0)) + FilterVarTokens(Column(hits, 1))
  }

  /** `VarAnnotationsParsingStrategy::parse`. */
  function VarTypes(content: string): seq<string>
  {
    KeysOf([], VarCaptures(content), SplitTypes)
  }

  method ParseVar(content: string) returns (deps: seq<string>)
    ensures deps == VarTypes(content)
  {
    var hits := FindAll(VarTag, content, 0);
    var kept := FilterVarTokens(Column(hits, 0)) + FilterVarTokens(Column(hits, 1));
    deps := CollectKeys(kept, SplitTypes);
  }

  /** The type one `@method` argument contributes: the first of at least two space-separated words before any `=`. */
  function ArgumentType(argument: string): (r: seq<string>)
    ensures |r| <= 1
  {
    var variableWithType := Explode(argument, "=")[0];
    var parts := FilterTruthy(Explode(variableWithType, " "));
    if |parts| >= 2 then [parts[0]] else []
  }

  /** The types a comma-separated argument list contributes, in order. */
  function ArgumentTypes(arguments: seq<string>): seq<string>
    decreases |arguments|
  {
    if arguments == [] then [] else ArgumentType(arguments[0]) + ArgumentTypes(arguments[1..])
  }

  /** The types the argument lists of all matches contribute. */
  function ArgumentListTypes(argumentLists: seq<string>): seq<string>
    decreases |argumentLists|
  {
    if argumentLists == [] then []
    else ArgumentTypes(Explode(argumentLists[0], ",")) + ArgumentListTypes(argumentLists[1..])
  }

  /** `$types`: the non-empty left and right return types, then the argument types. */
  function MethodTypeStrings(hits: seq<Hit>): seq<string>
  {
    FilterTruthy(Column(hits, 1) + Column(hits, 4)) + ArgumentListTypes(Column(hits, 3))
  }

  /** `MethodAnnotationsParsingStrategy::parse`. */
  function MethodTypes(content: string): seq<string>
  {
    KeysOf([], MethodTypeStrings(FindAll(MethodTag, content, 0)), SplitTypes)
  }

  lemma AppendAssoc(a: seq<string>, b: seq<string>, c: seq<string>)
    ensures (a + b) + c == a + (b + c)
  {
  }

  /** The inner loop of `MethodAnnotationsParsingStrategy::parse`: appends the type of each argument. */
  method AppendArgumentTypes(types: seq<string>, arguments: seq<string>) returns (r: seq<string>)
    ensures r == types + ArgumentTypes(arguments)
  {
    r := types;
    var j := 0;
    while j < |arguments|
      invariant 0 <= j <= |arguments|
      invariant r + ArgumentTypes(arguments[j..]) == types + ArgumentTypes(arguments)
    {
      var variableWithType := Explode(arguments[j], "=")[0];
      var argumentParts := FilterTruthy(Explode(variableWithType, " "));
      assert ArgumentType(arguments[j]) == if |argumentParts| >= 2 then [argumentParts[0]] else [];
      assert arguments[j..][1..] == arguments[j + 1..];
      ghost var old_r := r;
      if |argumentParts| >= 2 {
        r := r + [argumentParts[0]];
      }
      assert r == old_r + ArgumentType(arguments[j]);
      assert ArgumentTypes(arguments[j..]) == ArgumentType(arguments[j]) + ArgumentTypes(arguments[j + 1..]);
      AppendAssoc(old_r, ArgumentType(arguments[j]), ArgumentTypes(arguments[j + 1..]));
      j := j + 1;
    }
    assert arguments[j..] == [];
  }

  /** The outer loop over the argument lists of all matches. */
  method AppendArgumentListTypes(types: seq<string>, argumentLists: seq<string>) returns (r: seq<string>)
    ensures r == types + ArgumentListTypes(argumentLists)
  {
    r := types;
    var i := 0;
    while i < |argumentLists|
      invariant 0 <= i <= |argumentLists|
      invariant r + ArgumentListTypes(argumentLists[i..]) == types + ArgumentListTypes(argumentLists)
    {
      assert argumentLists[i..][1..] == argumentLists[i + 1..];
      r := AppendArgumentTypes(r, Explode(argumentLists[i], ","));
      i := i + 1;
    }
    assert argumentLists[i..] == [];
  }

  method ParseMethod(content: string) returns (deps: seq<string>)
    ensures deps == MethodTypes(content)
  {
    var hits := FindAll(MethodTag, content, 0);
    var types := FilterTruthy(Column(hits, 1) + Column(hits, 4));
    types := AppendArgumentListTypes(types, Column(hits, 3));
    deps := CollectKeys(types, SplitTypes);
  }

  /** What `parse` returns for each strategy. */
  function Parsed(st: Strategy, content: string): seq<string>
  {
    match st
    case Static => ParseStatic(content)
    case New => ParseNew(content)
    case Instanceof => ParseInstanceof(content)
    case Param => ParamTypes(content)
    case Return => ReturnTypes(content)
    case Throws => ThrowsTypes(content)
    case Property => PropertyTypes(content)
    case Var => VarTypes(content)
    case Method => MethodTypes(content)
  }

  /** `CodeParsingStrategyInterface::parse`, dispatched on the strategy. */
  method Parse(st: Strategy, content: string) returns (r: seq<string>)
    ensures r == Parsed(st, content)
  {
    match st
    case Static => r := ParseStatic(content);
    case New => r := ParseNew(content);
    case Instanceof => r := ParseInstanceof(content);
    case Param => r := ParseParam(content);
    case Return => r := ParseReturn(content);
    case Throws => r := ParseThrows(content);
    case Property => r := ParseProperty(content);
    case Var => r := ParseVar(content);
    case Method => r := ParseMethod(content);
  }
}
