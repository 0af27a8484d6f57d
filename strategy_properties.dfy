/** What the code-parsing strategies return, stated over the text they read. */
module StrategyProperties {
  import opened Text
  import opened Collections
  import opened StringHelper
  import opened Patterns
  import opened Strategies
  import opened Wrappers

  /** Every strategy returns each name once. */
  lemma ParsedNoDup(st: Strategy, content: string)
    ensures NoDup(Parsed(st, content))
  {
    match st
    case Static =>
    case New =>
    case Instanceof =>
    case Param => KeysOfNoDup([], FilterTruthy(Column(FindAll(ParamTag, content, 0), 0)), SplitTypes);
    case Return => KeysOfNoDup([], FilterTruthy(Column(FindAll(ReturnTag, content, 0), 0)), SplitTypes);
    case Throws => KeysOfNoDup([], FilterTruthy(Column(FindAll(ThrowsTag, content, 0), 0)), SplitExceptions);
    case Property => KeysOfNoDup([], FilterTruthy(Column(FindAll(PropertyTag, content, 0), 1)), SplitTypes);
    case Var => KeysOfNoDup([], VarCaptures(content), SplitTypes);
    case Method => KeysOfNoDup([], MethodTypeStrings(FindAll(MethodTag, content, 0)), SplitTypes);
  }

  /** A keyword that starts with a non-letter matches only where that character is. */
  lemma KeywordAtFirst(s: string, p: nat, kw: string)
    requires KeywordAt(s, p, kw) && |kw| > 0
    requires !('a' <= kw[0] <= 'z')
    ensures s[p] == kw[0]
  {
    assert Lower(s[p..p + |kw|])[0] == LowerChar(s[p..p + |kw|][0]);
  }

  /** The annotation patterns find nothing in text without `@`. */
  lemma {:induction false} NoAnnotationWithoutAt(pat: Pattern, s: string, o: nat)
    requires pat.ParamTag? || pat.PropertyTag? || pat.ReturnTag? || pat.ThrowsTag? || pat.VarTag? || pat.MethodTag?
    requires o <= |s| && '@' !in s[o..]
    ensures FindAll(pat, s, o) == []
  {
    forall p | o <= p < |s| ensures MatchAt(pat, s, p).None? {
      assert s[p] == s[o..][p - o];
      if MatchAt(pat, s, p).Some? {
        match pat
        case ParamTag => KeywordAtFirst(s, p, "@param");
        case PropertyTag => KeywordAtFirst(s, p, "@property");
        case ReturnTag => KeywordAtFirst(s, p, "@return");
        case ThrowsTag => KeywordAtFirst(s, p, "@throws");
        case VarTag => KeywordAtFirst(s, p, "@var");
        case MethodTag => KeywordAtFirst(s, p, "@method");
      }
    }
    FindAllNone(pat, s, o);
  }

  /** Text with no case-insensitive `@param` yields no `@param` types. */
  lemma ParamNeedsTag(content: string)
    requires forall p :: 0 <= p < |content| ==> !KeywordAt(content, p, "@param")
    ensures ParamTypes(content) == []
  {
    FindAllNone(ParamTag, content, 0);
  }

  /** Text with no case-insensitive `new` yields nothing from the `new` strategy. */
  lemma NewNeedsKeyword(content: string)
    requires forall p :: 0 <= p < |content| ==> !KeywordAt(content, p, "new")
    ensures ParseNew(content) == []
  {
    FindAllNone(NewCall, content, 0);
  }

  /** The `instanceof` strategy finds nothing after the last `$`. */
  lemma {:induction false} NoInstanceofWithoutDollar(s: string, o: nat)
    requires o <= |s| && '$' !in s[o..]
    ensures FindAll(InstanceOf, s, o) == []
  {
    forall p | o <= p < |s| ensures MatchAt(InstanceOf, s, p).None? {
      assert s[p] == s[o..][p - o];
    }
    FindAllNone(InstanceOf, s, o);
  }

  /** A name found through a column is found through the capture that holds it. */
  lemma KeysOfItem(captures: seq<string>, split: string -> seq<string>, t: string) returns (k: nat)
    requires t in KeysOf([], captures, split)
    ensures k < |captures| && t in split(captures[k])
  {
    KeysOfMember([], captures, split, t);
    k :| 0 <= k < |captures| && t in split(captures[k]);
  }

  /** No `@param` or `@property` type contains `$`, a space or `|`. */
  lemma ParamAndPropertyTypesClean(content: string)
    ensures forall t :: t in ParamTypes(content) ==> '$' !in t && ' ' !in t && '|' !in t
    ensures forall t :: t in PropertyTypes(content) ==> '$' !in t && ' ' !in t && '|' !in t
  {
    ParamTypesClean(content);
    PropertyTypesClean(content);
  }

  /** A name `KeysOf` collects is a piece of some capture. */
  lemma KeysOfPieceOf(captures: seq<string>, split: string -> seq<string>, t: string) returns (k: nat, i: nat)
    requires t in KeysOf([], captures, split)
    ensures k < |captures| && i < |split(captures[k])| && split(captures[k])[i] == t
  {
    k := KeysOfItem(captures, split, t);
    i := IndexOf(split(captures[k]), t);
  }

  lemma ParamTypesClean(content: string)
    ensures forall t :: t in ParamTypes(content) ==> '$' !in t && ' ' !in t && '|' !in t
  {
    var h := FindAll(ParamTag, content, 0);
    var c := FilterTruthy(Column(h, 0));
    forall t | t in ParamTypes(content) ensures '$' !in t && ' ' !in t && '|' !in t {
      var k, i := KeysOfPieceOf(c, SplitTypes, t);
      var j := IndexOf(Column(h, 0), c[k]);
      assert WellFormed(ParamTag, h[j]);
      SplitTypesKeepsOut(c[k], '$');
    }
  }

  lemma PropertyTypesClean(content: string)
    ensures forall t :: t in PropertyTypes(content) ==> '$' !in t && ' ' !in t && '|' !in t
  {
    var h := FindAll(PropertyTag, content, 0);
    var c := FilterTruthy(Column(h, 1));
    forall t | t in PropertyTypes(content) ensures '$' !in t && ' ' !in t && '|' !in t {
      var k, i := KeysOfPieceOf(c, SplitTypes, t);
      var j := IndexOf(Column(h, 1), c[k]);
      assert WellFormed(PropertyTag, h[j]);
      SplitTypesKeepsOut(c[k], '$');
    }
  }

  /** `@throws` names never contain `[` or `]`: a bracket ends the capture. */
  lemma ThrowsTypesHaveNoBrackets(content: string)
    ensures forall t :: t in ThrowsTypes(content) ==> '[' !in t && ']' !in t && ' ' !in t && '|' !in t
  {
    var h := FindAll(ThrowsTag, content, 0);
    var c := FilterTruthy(Column(h, 0));
    forall t | t in ThrowsTypes(content) ensures '[' !in t && ']' !in t && ' ' !in t && '|' !in t {
      var k, i := KeysOfPieceOf(c, SplitExceptions, t);
      ThrowsCaptureHasNoBrackets(h, c[k]);
      SplitExceptionsKeepsOut(c[k], '[');
      SplitExceptionsKeepsOut(c[k], ']');
    }
  }

  lemma ThrowsCaptureHasNoBrackets(h: seq<Hit>, x: string)
    requires forall k :: 0 <= k < |h| ==> WellFormed(ThrowsTag, h[k])
    requires x in Column(h, 0)
    ensures '[' !in x && ']' !in x
  {
    var j := IndexOf(Column(h, 0), x);
    assert WellFormed(ThrowsTag, h[j]);
    assert AllChars(x, IsExceptionListChar);
  }

  /** `@var` names never contain `$`: tokens with `$` are discarded before splitting. */
  lemma VarTypesHaveNoDollar(content: string)
    ensures forall t :: t in VarTypes(content) ==> '$' !in t
  {
    var c := VarCaptures(content);
    forall t | t in VarTypes(content) ensures '$' !in t {
      var k := KeysOfItem(c, SplitTypes, t);
      var hits := FindAll(VarTag, content, 0);
      assert c[k] in FilterVarTokens(Column(hits, 0)) || c[k] in FilterVarTokens(Column(hits, 1));
      SplitTypesKeepsOut(c[k], '$');
    }
  }

  /** Non-empty left and right `@method` type groups both reach the type list. */
  lemma MethodTypeGroupsContribute(hits: seq<Hit>, k: nat)
    requires k < |hits| && |hits[k].groups| == 5
    ensures !Falsy(hits[k].groups[1]) ==> hits[k].groups[1] in MethodTypeStrings(hits)
    ensures !Falsy(hits[k].groups[4]) ==> hits[k].groups[4] in MethodTypeStrings(hits)
  {
    assert (Column(hits, 1) + Column(hits, 4))[k] == hits[k].groups[1];
    assert (Column(hits, 1) + Column(hits, 4))[|hits| + k] == hits[k].groups[4];
  }

  /** The text after `=` in an argument, its default value, is ignored. */
  lemma ArgumentDefaultIgnored(a: string, b: string)
    requires '=' !in a
    ensures ArgumentType(a + "=" + b) == ArgumentType(a)
  {
    ExplodeCharSplit(a, b, '=');
    ExplodeAbsent(a, '=');
  }

  /** An argument `Type $name` contributes `Type`. */
  lemma TypedArgumentContributesType(t: string, v: string)
    requires !Falsy(t) && !Falsy(v) && ' ' !in t && ' ' !in v && '=' !in t && '=' !in v
    ensures ArgumentType(t + " " + v) == [t]
  {
    var a := t + " " + v;
    assert '=' !in a;
    ExplodeAbsent(a, '=');
    assert a == t + [' '] + v;
    ExplodeCharSplit(t, v, ' ');
    ExplodeAbsent(v, ' ');
    assert Explode(a, " ") == [t, v];
    assert [t, v][1..] == [v] && [v][1..] == [];
  }

  /** A bare `$name`, a single token, contributes nothing. */
  lemma UntypedArgumentContributesNothing(v: string)
    requires ' ' !in v && '=' !in v
    ensures ArgumentType(v) == []
  {
    ExplodeAbsent(v, '=');
    ExplodeAbsent(v, ' ');
  }

  /** The first distinct value is the first value. */
  lemma DedupeHead(s: seq<string>)
    requires s != []
    ensures Dedupe(s) != [] && Dedupe(s)[0] == s[0]
  {
    AddAllExtends([s[0]], s[1..]);
  }

  /** `new Foo(`: the name between `new`, its optional whitespace and `(` is the first one reported. */
  lemma NewFindsName(ws: string, name: string, rest: string)
    requires AllChars(ws, IsSpace) && '(' !in name && (name == [] || !IsSpace(name[0]))
    ensures var content := "new" + ws + name + "(" + rest;
      ParseNew(content) != [] && ParseNew(content)[0] == name
  {
    var content := "new" + ws + name + "(" + rest;
    assert content[0..3] == "new";
    var a := 3 + |ws|;
    forall k | 3 <= k < a ensures IsSpace(content[k]) { assert content[k] == ws[k - 3]; }
    assert a < |content| ==> content[a] == (name + "(")[0];
    RunEndUnique(content, 3, a, IsSpace);
    var b := a + |name|;
    forall k | a <= k < b ensures IsNotOpen(content[k]) { assert content[k] == name[k - a]; }
    assert content[b] == '(';
    RunEndUnique(content, a, b, IsNotOpen);
    assert content[a..b] == name;
    FindAllFirst(NewCall, content, 0);
    DedupeHead(Column(FindAll(NewCall, content, 0), 0));
  }

  /** `Foo::bar()`: the class characters before `::` are the first name reported. */
  lemma StaticFindsName(name: string, ws: string, rest: string)
    requires AllChars(name, IsClassChar) && AllChars(ws, IsSpace)
    ensures var content := name + ws + "::" + rest;
      ParseStatic(content) != [] && ParseStatic(content)[0] == name
  {
    var content := name + ws + "::" + rest;
    var a := |name|;
    var b := a + |ws|;
    forall k | 0 <= k < a ensures IsClassChar(content[k]) { assert content[k] == name[k]; }
    assert content[a] == (ws + "::")[0];
    RunEndUnique(content, 0, a, IsClassChar);
    forall k | a <= k < b ensures IsSpace(content[k]) { assert content[k] == ws[k - a]; }
    assert content[b] == ':' && content[b + 1] == ':';
    RunEndUnique(content, a, b, IsSpace);
    assert content[0..a] == name;
    FindAllFirst(StaticCall, content, 0);
    DedupeHead(Column(FindAll(StaticCall, content, 0), 0));
  }

  lemma LowerInstanceof()
    ensures Lower("instanceof") == "instanceof"
  {
    LowerOfNoUpper("instanceof");
  }


  /** A text that starts with a keyword written in lower case has the keyword at the start. */
  lemma KeywordPrefix(kw: string, rest: string)
    requires Lower(kw) == kw
    ensures KeywordAt(kw + rest, 0, kw)
  {
    assert (kw + rest)[0..|kw|] == kw;
  }

  /** A keyword written in lower case is found where its text is. */
  lemma KeywordFromText(s: string, p: nat, kw: string)
    requires p + |kw| <= |s| && s[p..p + |kw|] == kw && Lower(kw) == kw
    ensures KeywordAt(s, p, kw)
  {
  }

  /** A maximal run whose characters are given as a slice. */
  lemma RunOfSlice(s: string, i: nat, t: string, p: char -> bool)
    requires i + |t| <= |s| && s[i..i + |t|] == t && AllChars(t, p)
    requires i + |t| < |s| ==> !p(s[i + |t|])
    ensures RunEnd(s, i, p) == i + |t|
  {
    forall k | i <= k < i + |t| ensures p(s[k]) {
      assert s[k] == s[i..i + |t|][k - i];
    }
    RunEndUnique(s, i, i + |t|, p);
  }

  /** The variable part of `$x instanceof Foo`, up to the keyword. */
  lemma InstanceofKeyword(content: string, b: nat)
    requires b + 10 <= |content| && content[b..b + 10] == "instanceof"
    ensures KeywordAt(content, b, "instanceof") && content[b] == 'i'
  {
    LowerInstanceof();
    assert content[b] == content[b..b + 10][0];
  }

  lemma BlankRun(content: string, a: nat)
    requires a + 1 < |content| && content[a] == ' ' && content[a + 1] != ' '
    ensures RunEnd(content, a, IsBlank) == a + 1
  {
    RunEndUnique(content, a, a + 1, IsBlank);
  }

  /** The class part of `$x instanceof Foo`, after the keyword at `b`. */
  lemma InstanceofClassRuns(content: string, b: nat, cls: string, rest: string)
    requires cls != [] && AllChars(cls, IsClassChar)
    requires rest == [] || !IsClassChar(rest[0])
    requires b + 10 <= |content| && content[b + 10..] == " " + cls + rest
    ensures RunEnd(content, b + 10, IsBlank) == b + 11
    ensures RunEnd(content, b + 11, IsClassChar) == b + 11 + |cls|
    ensures content[b + 11..b + 11 + |cls|] == cls
  {
    var c := b + 11;
    var d := c + |cls|;
    assert content[b + 10] == content[b + 10..][0];
    assert content[c] == content[b + 10..][1];
    RunEndUnique(content, b + 10, c, IsBlank);
    forall k | c <= k < d ensures IsClassChar(content[k]) {
      assert content[k] == content[b + 10..][k - b - 10];
    }
    assert d < |content| ==> content[d] == content[b + 10..][d - b - 10];
    RunEndUnique(content, c, d, IsClassChar);
    assert content[c..d] == content[b + 10..][1..1 + |cls|];
  }

  /** Where the parts of a four-part concatenation sit. */
  lemma Layout(a: string, b: string, c: string, d: string)
    ensures var s := a + b + c + d;
      s[..|a|] == a && s[|a|..|a| + |b|] == b && s[|a| + |b|..|a| + |b| + |c|] == c && s[|a| + |b| + |c|..] == d
  {
  }

  /** A match at the start of the text gives the first entry of every column. */
  lemma FirstMatchHeadsColumn(pat: Pattern, content: string, g: nat)
    requires content != [] && MatchAt(pat, content, 0).Some? && g < |MatchAt(pat, content, 0).value.groups|
    ensures Column(FindAll(pat, content, 0), g) != []
    ensures Column(FindAll(pat, content, 0), g)[0] == MatchAt(pat, content, 0).value.groups[g]
  {
    FindAllFirst(pat, content, 0);
  }

  /** The `instanceof` matcher at the start, from the ends of its runs. */
  lemma InstanceofMatchOf(content: string, a: nat, b: nat, c: nat, d: nat)
    requires 12 <= b + 10 < c < d <= |content| && 1 < a < b && content[0] == '$'
    requires RunEnd(content, 1, IsWordChar) == a
    requires RunEnd(content, a, IsBlank) == b
    requires KeywordAt(content, b, "instanceof")
    requires RunEnd(content, b + 10, IsBlank) == c
    requires RunEnd(content, c, IsClassChar) == d
    ensures MatchAt(InstanceOf, content, 0) == Some(Hit(d, [content[0..a], content[c..d]]))
  {
  }

  /** The match of `$v instanceof cls` at the start, from the positions of its parts. */
  lemma InstanceofFromLayout(content: string, v: string, cls: string, rest: string)
    requires v != [] && AllChars(v, IsWordChar)
    requires cls != [] && AllChars(cls, IsClassChar)
    requires rest == [] || !IsClassChar(rest[0])
    requires 12 + |v| <= |content| && content[0] == '$'
    requires content[1..1 + |v|] == v && content[1 + |v|] == ' '
    requires KeywordAt(content, 2 + |v|, "instanceof") && content[2 + |v|] == 'i'
    requires content[12 + |v|..] == " " + cls + rest
    ensures MatchAt(InstanceOf, content, 0).Some? && MatchAt(InstanceOf, content, 0).value.groups[1] == cls
  {
    var b := 2 + |v|;
    RunOfSlice(content, 1, v, IsWordChar);
    BlankRun(content, 1 + |v|);
    InstanceofClassRuns(content, b, cls, rest);
    InstanceofMatchOf(content, 1 + |v|, b, b + 11, b + 11 + |cls|);
  }


  /** `$x instanceof Foo`: the class operand is the first name reported. */
  lemma InstanceofFindsClass(v: string, cls: string, rest: string)
    requires v != [] && AllChars(v, IsWordChar)
    requires cls != [] && AllChars(cls, IsClassChar)
    requires rest == [] || !IsClassChar(rest[0])
    ensures var content := "$" + v + " instanceof " + cls + rest;
      ParseInstanceof(content) != [] && ParseInstanceof(content)[0] == cls
  {
    var content := "$" + v + " instanceof " + cls + rest;
    InstanceofText(v, cls, rest);
    InstanceofKeyword(content, 2 + |v|);
    InstanceofFromLayout(content, v, cls, rest);
    InstanceofFirst(content, cls);
  }

  /** Where the parts of `$v instanceof cls` sit in its text. */
  lemma InstanceofText(v: string, cls: string, rest: string)
    ensures var content := "$" + v + " instanceof " + cls + rest;
      12 + |v| <= |content| && content[0] == '$' &&
      content[1..1 + |v|] == v && content[1 + |v|] == ' ' &&
      content[2 + |v|..12 + |v|] == "instanceof" && content[12 + |v|..] == " " + cls + rest
  {
    var content := "$" + v + " instanceof " + cls + rest;
    assert content == "$" + v + " " + "instanceof" + (" " + cls + rest);
  }

  /** A match at the start of the text reports its class operand first. */
  lemma InstanceofFirst(content: string, cls: string)
    requires content != [] && MatchAt(InstanceOf, content, 0).Some?
    requires MatchAt(InstanceOf, content, 0).value.groups[1] == cls
    ensures ParseInstanceof(content) != [] && ParseInstanceof(content)[0] == cls
  {
    FirstMatchHeadsColumn(InstanceOf, content, 1);
    DedupeHead(Column(FindAll(InstanceOf, content, 0), 1));
  }

  /** `$this->x instanceof Foo` is not matched: the variable must be followed by a blank. */
  lemma PropertyOperandNotMatched(v: string, rest: string)
    requires AllChars(v, IsWordChar) && '$' !in rest
    ensures ParseInstanceof("$" + v + "->" + rest) == []
  {
    var content := "$" + v + "->" + rest;
    var a := 1 + |v|;
    forall k | 1 <= k < a ensures IsWordChar(content[k]) { assert content[k] == v[k - 1]; }
    assert content[a] == '-';
    RunEndUnique(content, 1, a, IsWordChar);
    RunEndUnique(content, a, a, IsBlank);
    assert MatchAt(InstanceOf, content, 0).None?;
    assert '$' !in content[1..] by {
      forall k | 1 <= k < |content| ensures content[k] != '$' {
        if k < a { assert content[k] == v[k - 1]; }
        else if k >= a + 2 { assert content[k] == rest[k - a - 2]; }
      }
    }
    NoInstanceofWithoutDollar(content, 1);
  }

  /** `KeysOf` over one capture inserts the names that capture splits into. */
  lemma KeysOfSingle(t: string, split: string -> seq<string>)
    ensures KeysOf([], [t], split) == Dedupe(split(t))
  {
    assert [t][1..] == [];
  }

  /** The `@param` matcher at the start, from the ends of its runs. */
  lemma ParamMatchOf(content: string, a: nat, b: nat)
    requires KeywordAt(content, 0, "@param") && 6 < a <= b <= |content| && IsSpace(content[6])
    requires RunEnd(content, 6, IsSpace) == a && RunEnd(content, a, IsNotDollar) == b
    ensures MatchAt(ParamTag, content, 0) == Some(Hit(b, [content[a..b]]))
  {
  }

  lemma LowerParam()
    ensures Lower("@param") == "@param"
  {
    LowerOfNoUpper("@param");
  }


  /** The `@param` match of a tag laid out as tag, whitespace, types, `$`. */
  lemma ParamHitFromLayout(content: string, ws: string, t: string)
    requires ws != [] && AllChars(ws, IsSpace) && (t == [] || !IsSpace(t[0])) && '$' !in t
    requires KeywordAt(content, 0, "@param") && 6 + |ws| + |t| < |content|
    requires content[6..6 + |ws|] == ws && content[6 + |ws|..6 + |ws| + |t|] == t
    requires content[6 + |ws| + |t|..] != [] && content[6 + |ws| + |t|..][0] == '$'
    ensures MatchAt(ParamTag, content, 0) == Some(Hit(6 + |ws| + |t|, [t]))
  {
    var a := 6 + |ws|;
    var b := a + |t|;
    assert content[6] == ws[0] by { assert content[6] == content[6..a][0]; }
    assert a < |content| ==> content[a] == (if t == [] then '$' else t[0]) by {
      if t != [] { assert content[a] == content[a..b][0]; }
    }
    RunOfSlice(content, 6, ws, IsSpace);
    RunOfSlice(content, a, t, IsNotDollar);
    ParamMatchOf(content, a, b);
  }

  /** A match at the start followed by no other match gives a one-entry column. */
  lemma OnlyMatchColumn(pat: Pattern, content: string, b: nat, t: string)
    requires 0 < b <= |content|
    requires MatchAt(pat, content, 0) == Some(Hit(b, [t]))
    requires FindAll(pat, content, b) == []
    ensures Column(FindAll(pat, content, 0), 0) == [t]
  {
    FindAllFirst(pat, content, 0);
    assert FindAll(pat, content, 0) == [Hit(b, [t])];
  }

  /** A tag matched at the start and followed by no other `@`: the only match. */
  lemma LoneTagColumn(pat: Pattern, content: string, b: nat, t: string)
    requires pat.ParamTag? || pat.PropertyTag? || pat.ReturnTag? || pat.ThrowsTag? || pat.VarTag? || pat.MethodTag?
    requires 0 < b <= |content| && '@' !in content[b..]
    requires MatchAt(pat, content, 0) == Some(Hit(b, [t]))
    ensures Column(FindAll(pat, content, 0), 0) == [t]
  {
    NoAnnotationWithoutAt(pat, content, b);
    OnlyMatchColumn(pat, content, b, t);
  }

  /**
   * One `@param` tag: the types written between the whitespace after the tag
   * and the variable's `$`, split on `|` with `[]` deleted.
   */
  lemma ParamOneTag(ws: string, t: string, rest: string)
    requires ws != [] && AllChars(ws, IsSpace) && (t == [] || !IsSpace(t[0]))
    requires '$' !in t && '@' !in rest
    ensures ParamTypes("@param" + ws + t + "$" + rest) == if Falsy(t) then [] else Dedupe(SplitTypes(t))
  {
    var content := "@param" + ws + t + "$" + rest;
    ParamText(ws, t, rest);
    ParamHitFromLayout(content, ws, t);
    LoneTagColumn(ParamTag, content, 6 + |ws| + |t|, t);
    KeysOfColumn(Column(FindAll(ParamTag, content, 0), 0), t, SplitTypes);
  }

  /** Where the parts of `@param ws t$rest` sit in its text. */
  lemma ParamText(ws: string, t: string, rest: string)
    requires '@' !in rest
    ensures var content := "@param" + ws + t + "$" + rest;
      KeywordAt(content, 0, "@param") && 6 + |ws| + |t| < |content| &&
      content[6..6 + |ws|] == ws && content[6 + |ws|..6 + |ws| + |t|] == t &&
      content[6 + |ws| + |t|..] != [] && content[6 + |ws| + |t|..][0] == '$' &&
      '@' !in content[6 + |ws| + |t|..]
  {
    var content := "@param" + ws + t + "$" + rest;
    Layout("@param", ws, t, "$" + rest);
    LowerParam();
    KeywordFromText(content, 0, "@param");
  }

  /** The names of a one-entry column: none for a falsy capture, else its pieces. */
  lemma KeysOfColumn(col: seq<string>, t: string, split: string -> seq<string>)
    requires col == [t]
    ensures KeysOf([], FilterTruthy(col), split) == if Falsy(t) then [] else Dedupe(split(t))
  {
    if !Falsy(t) {
      assert FilterTruthy(col) == [t];
      KeysOfSingle(t, split);
    }
  }

  /** A text without the first character of `t` does not contain `t`. */
  lemma NotContainsWithoutFirst(s: string, t: string)
    requires t != [] && t[0] !in s
    ensures !Contains(s, t)
  {
  }

  /** `Foo|Bar ` splits into `Foo` and `Bar`: spaces go, the union is split. */
  lemma SplitTypesOfUnion(x: string, y: string)
    requires ' ' !in x && ' ' !in y && '|' !in x && '|' !in y && '[' !in x && '[' !in y
    ensures SplitTypes(x + "|" + y + " ") == [x, y]
  {
    var u := x + "|" + y;
    assert x + "|" + y + " " == u + " ";
    RemoveCharAppend(u, " ", ' ');
    RemoveCharAbsent(u, ' ');
    assert RemoveChar(" ", ' ') == "";
    assert RemoveSpaces(u + " ") == u;
    NotContainsWithoutFirst(u, "[]");
    ReplaceAllAbsent(u, "[]", "");
    assert u == x + ['|'] + y;
    ExplodeCharSplit(x, y, '|');
    ExplodeAbsent(y, '|');
  }

  /** `@param Foo|Bar $x` declares `Foo` and `Bar`, in that order. */
  lemma ParamUnion(x: string, y: string, v: string)
    requires x != [] && x != y
    requires ' ' !in x && ' ' !in y && '|' !in x && '|' !in y && '[' !in x && '[' !in y
    requires '$' !in x && '$' !in y && '@' !in v && !IsSpace(x[0])
    ensures ParamTypes("@param " + x + "|" + y + " $" + v) == [x, y]
  {
    var t := x + "|" + y + " ";
    assert "@param " + x + "|" + y + " $" + v == "@param" + " " + t + "$" + v;
    assert ' ' in t && '$' !in t && t[0] == x[0];
    ParamOneTag(" ", t, v);
    SplitTypesOfUnion(x, y);
    DedupeOfNoDup([x, y]);
  }

  lemma LowerVar()
    ensures Lower("@var") == "@var"
  {
    LowerOfNoUpper("@var");
  }


  /** The `@var` matcher at the start, from the ends of its runs. */
  lemma VarMatchOf(content: string, a: nat, b: nat, c: nat, d: nat)
    requires KeywordAt(content, 0, "@var") && 4 <= a <= b <= c <= d <= |content|
    requires RunEnd(content, 4, IsSpace) == a && RunEnd(content, a, IsTypeListChar) == b
    requires RunEnd(content, b, IsSpace) == c && RunEnd(content, c, IsTypeListChar) == d
    ensures MatchAt(VarTag, content, 0) == Some(Hit(d, [content[a..b], content[c..d]]))
  {
  }

  /** `@var t1 t2` with two single-word tokens and nothing after them. */
  lemma VarHitFromLayout(content: string, t1: string, t2: string)
    requires t1 != [] && t2 != [] && AllChars(t1, IsTypeListChar) && AllChars(t2, IsTypeListChar)
    requires |content| == 6 + |t1| + |t2| && KeywordAt(content, 0, "@var") && content[4] == ' '
    requires content[5..5 + |t1|] == t1 && content[5 + |t1|] == ' ' && content[6 + |t1|..|content|] == t2
    ensures Column(FindAll(VarTag, content, 0), 0) == [t1]
    ensures Column(FindAll(VarTag, content, 0), 1) == [t2]
  {
    var b := 5 + |t1|;
    VarRuns(content, t1, t2);
    VarMatchOf(content, 5, b, b + 1, |content|);
    EndMatchGroup(VarTag, content, Hit(|content|, [t1, t2]), 0);
    EndMatchGroup(VarTag, content, Hit(|content|, [t1, t2]), 1);
  }

  /** The runs of `@var t1 t2` end where its words end. */
  lemma VarRuns(content: string, t1: string, t2: string)
    requires t1 != [] && t2 != [] && AllChars(t1, IsTypeListChar) && AllChars(t2, IsTypeListChar)
    requires |content| == 6 + |t1| + |t2| && content[4] == ' '
    requires content[5..5 + |t1|] == t1 && content[5 + |t1|] == ' ' && content[6 + |t1|..|content|] == t2
    ensures RunEnd(content, 4, IsSpace) == 5 && RunEnd(content, 5, IsTypeListChar) == 5 + |t1|
    ensures RunEnd(content, 5 + |t1|, IsSpace) == 6 + |t1| && RunEnd(content, 6 + |t1|, IsTypeListChar) == |content|
  {
    SpacedWord(content, 4, t1, IsTypeListChar);
    SpacedWord(content, 5 + |t1|, t2, IsTypeListChar);
  }

  /** One space, then a word of the class `p` ending where the class ends. */
  lemma SpacedWord(content: string, i: nat, t: string, p: char -> bool)
    requires t != [] && AllChars(t, p) && !IsSpace(t[0])
    requires i + 1 + |t| <= |content| && content[i] == ' ' && content[i + 1..i + 1 + |t|] == t
    requires i + 1 + |t| < |content| ==> !p(content[i + 1 + |t|])
    ensures RunEnd(content, i, IsSpace) == i + 1 && RunEnd(content, i + 1, p) == i + 1 + |t|
  {
    assert content[i + 1] == content[i + 1..i + 1 + |t|][0];
    RunEndUnique(content, i, i + 1, IsSpace);
    RunOfSlice(content, i + 1, t, p);
  }

  /** A match at the start that runs to the end of the text: its groups are the only entries. */
  lemma EndMatchGroup(pat: Pattern, content: string, h: Hit, g: nat)
    requires content != [] && h.end == |content| && MatchAt(pat, content, 0) == Some(h) && g < |h.groups|
    ensures Column(FindAll(pat, content, 0), g) == [h.groups[g]]
  {
    FindAllFirst(pat, content, 0);
    assert FindAll(pat, content, 0) == [h];
  }

  /** `@var Foo $x`: the type before the variable is declared. */
  lemma VarTypeBeforeVariable(t: string, v: string)
    requires t != [] && AllChars(t, IsTypeListChar) && AllChars(v, IsTypeListChar) && KeepVarToken(t)
    ensures VarTypes("@var " + t + " $" + v) == Dedupe(SplitTypes(t))
  {
    var w := "$" + v;
    var content := "@var " + t + " " + w;
    assert "@var " + t + " $" + v == content;
    VarWordsText(t, w);
    VarHitFromLayout(content, t, w);
    VarPairCaptures(content, t, w);
    assert !KeepVarToken(w) by { assert w[0] == '$'; }
    assert [t] + [] == [t];
    KeysOfSingle(t, SplitTypes);
  }

  /** `@var $x Foo`: the type after the variable is declared. */
  lemma VarTypeAfterVariable(v: string, t: string)
    requires t != [] && AllChars(t, IsTypeListChar) && AllChars(v, IsTypeListChar) && KeepVarToken(t)
    ensures VarTypes("@var $" + v + " " + t) == Dedupe(SplitTypes(t))
  {
    var w := "$" + v;
    var content := "@var " + w + " " + t;
    assert "@var $" + v + " " + t == content;
    VarWordsText(w, t);
    VarHitFromLayout(content, w, t);
    VarPairCaptures(content, w, t);
    assert !KeepVarToken(w) by { assert w[0] == '$'; }
    assert [] + [t] == [t];
    KeysOfSingle(t, SplitTypes);
  }

  /** Where the parts of `@var w1 w2` sit in its text. */
  lemma VarWordsText(w1: string, w2: string)
    ensures var content := "@var " + w1 + " " + w2;
      |content| == 6 + |w1| + |w2| && KeywordAt(content, 0, "@var") && content[4] == ' ' &&
      content[5..5 + |w1|] == w1 && content[5 + |w1|] == ' ' && content[6 + |w1|..|content|] == w2
  {
    var content := "@var " + w1 + " " + w2;
    Layout("@var ", w1, " ", w2);
    assert content[4] == content[..5][4];
    assert content[5 + |w1|] == content[5 + |w1|..6 + |w1|][0];
    assert content == "@var" + (" " + w1 + " " + w2);
    LowerVar();
    KeywordPrefix("@var", " " + w1 + " " + w2);
  }

  /** With one `@var` match, the captured tokens are those of its two words the filter keeps. */
  lemma VarPairCaptures(content: string, w1: string, w2: string)
    requires Column(FindAll(VarTag, content, 0), 0) == [w1]
    requires Column(FindAll(VarTag, content, 0), 1) == [w2]
    ensures VarCaptures(content) == (if KeepVarToken(w1) then [w1] else []) + (if KeepVarToken(w2) then [w2] else [])
  {
    assert FilterVarTokens([w1]) == (if KeepVarToken(w1) then [w1] else []) by { assert [w1][1..] == []; }
    assert FilterVarTokens([w2]) == (if KeepVarToken(w2) then [w2] else []) by { assert [w2][1..] == []; }
  }

  /** `@param Foo[] $x`: the array suffix is deleted before splitting. */
  lemma SplitTypesOfArray(x: string)
    requires ' ' !in x && '|' !in x && '[' !in x && x != []
    ensures SplitTypes(x + "[] ") == [x]
  {
    assert x + "[] " == (x + "[]") + " ";
    RemoveCharAppend(x + "[]", " ", ' ');
    RemoveCharAbsent(x + "[]", ' ');
    assert RemoveChar(" ", ' ') == "";
    assert RemoveSpaces(x + "[] ") == x + "[]";
    assert (x + "[]")[..|x|] == x;
    ReplaceAllSkipsPrefix(x, "[]", "[]", "");
    assert ReplaceAll("[]", "[]", "") == "";
    assert x + "" == x;
    ExplodeAbsent(x, '|');
  }

  /** `@param Foo[] $x` declares `Foo`. */
  lemma ParamArray(x: string, v: string)
    requires ' ' !in x && '|' !in x && '[' !in x && '$' !in x && x != [] && !IsSpace(x[0]) && '@' !in v
    ensures ParamTypes("@param " + x + "[] $" + v) == [x]
  {
    var t := x + "[] ";
    assert "@param " + x + "[] $" + v == "@param" + " " + t + "$" + v;
    assert '$' !in t && t[0] == x[0] && |t| > 1;
    ParamOneTag(" ", t, v);
    SplitTypesOfArray(x);
    DedupeOfNoDup([x]);
  }

  lemma LowerReturn()
    ensures Lower("@return") == "@return"
  {
    LowerOfNoUpper("@return");
  }


  lemma LowerThrows()
    ensures Lower("@throws") == "@throws"
  {
    LowerOfNoUpper("@throws");
  }


  /** `kw t` at the start of the text, where `t` is a run of the pattern's class ending the text. */
  lemma TagRunWhole(content: string, kw: string, inClass: char -> bool, t: string)
    requires KeywordAt(content, 0, kw) && |content| == |kw| + 1 + |t|
    requires content[|kw|] == ' ' && content[|kw| + 1..] == t
    requires AllChars(t, inClass) && (t == [] || !IsSpace(t[0]))
    ensures TagRunAt(content, 0, kw, inClass) == Some(Hit(|content|, [t]))
  {
    var a := |kw| + 1;
    assert t != [] ==> content[a] == t[0] by {
      if t != [] { assert content[a] == content[a..][0]; }
    }
    RunEndUnique(content, |kw|, a, IsSpace);
    assert content[a..a + |t|] == t;
    RunOfSlice(content, a, t, inClass);
  }

  /** A tag matched at the start and followed by no other `@`: its groups are the only entries. */
  lemma LoneTagGroup(pat: Pattern, content: string, h: Hit, g: nat)
    requires pat.ParamTag? || pat.PropertyTag? || pat.ReturnTag? || pat.ThrowsTag? || pat.VarTag? || pat.MethodTag?
    requires MatchAt(pat, content, 0) == Some(h) && 0 < h.end <= |content| && '@' !in content[h.end..]
    requires g < |h.groups|
    ensures Column(FindAll(pat, content, 0), g) == [h.groups[g]]
  {
    NoAnnotationWithoutAt(pat, content, h.end);
    FindAllFirst(pat, content, 0);
    assert FindAll(pat, content, 0) == [h];
  }

  /** A match at the start that runs to the end of the text is the only match. */
  lemma EndMatchColumn(pat: Pattern, content: string, t: string)
    requires content != [] && MatchAt(pat, content, 0) == Some(Hit(|content|, [t]))
    ensures Column(FindAll(pat, content, 0), 0) == [t]
  {
    OnlyMatchColumn(pat, content, |content|, t);
  }

  /** One `@return` tag ending the text: its type list, split on `|` with `[]` deleted. */
  lemma ReturnOneTag(t: string)
    requires AllChars(t, IsTypeListChar) && !Falsy(t)
    ensures ReturnTypes("@return " + t) == Dedupe(SplitTypes(t))
  {
    assert t != [] && IsTypeListChar(t[0]);
    var content := "@return " + t;
    ReturnText(t);
    ReturnFromLayout(content, t);
    EndMatchColumn(ReturnTag, content, t);
    KeysOfColumn(Column(FindAll(ReturnTag, content, 0), 0), t, SplitTypes);
  }

  /** Where the parts of `@return t` sit in its text. */
  lemma ReturnText(t: string)
    ensures var content := "@return " + t;
      KeywordAt(content, 0, "@return") && |content| == 8 + |t| &&
      content[7..8] == " " && content[8..8 + |t|] == t
  {
    var content := "@return " + t;
    Layout("@return", " ", t, "");
    assert content == "@return" + " " + t + "";
    LowerReturn();
    KeywordFromText(content, 0, "@return");
  }

  /** A `@return` tag whose list ends the text is the only match. */
  lemma ReturnFromLayout(content: string, t: string)
    requires AllChars(t, IsTypeListChar) && t != [] && !IsSpace(t[0])
    requires KeywordAt(content, 0, "@return") && |content| == 8 + |t|
    requires content[7..8] == " " && content[8..8 + |t|] == t
    ensures MatchAt(ReturnTag, content, 0) == Some(Hit(|content|, [t]))
  {
    assert content[7] == content[7..8][0];
    assert content[8..] == content[8..8 + |t|];
    TagRunWhole(content, "@return", IsTypeListChar, t);
  }


  /** A union of two words, as a run of the `@return` and `@throws` classes. */
  lemma UnionChars(x: string, y: string, suffix: string)
    requires AllChars(x, IsWordChar) && AllChars(y, IsWordChar) && AllChars(suffix, IsTypeListChar)
    ensures AllChars(x + "|" + y + suffix, IsTypeListChar)
    ensures suffix == [] ==> AllChars(x + "|" + y + suffix, IsExceptionListChar)
    ensures ' ' !in x && '|' !in x && '[' !in x && ' ' !in y && '|' !in y && '[' !in y
  {
    var t := x + "|" + y + suffix;
    forall k | 0 <= k < |t| ensures IsTypeListChar(t[k]) && (suffix == [] ==> IsExceptionListChar(t[k])) {
      if k < |x| { assert t[k] == x[k]; }
      else if |x| < k < |x| + 1 + |y| { assert t[k] == y[k - |x| - 1]; }
      else if |x| + 1 + |y| <= k { assert t[k] == suffix[k - |x| - 1 - |y|]; }
    }
    assert forall k :: 0 <= k < |x| ==> x[k] != ' ' && x[k] != '|' && x[k] != '[';
    assert forall k :: 0 <= k < |y| ==> y[k] != ' ' && y[k] != '|' && y[k] != '[';
  }

  /** `Foo|Bar[]` splits into `Foo` and `Bar`. */
  lemma SplitTypesOfUnionArray(x: string, y: string)
    requires ' ' !in x && ' ' !in y && '|' !in x && '|' !in y && '[' !in x && '[' !in y
    ensures SplitTypes(x + "|" + y + "[]") == [x, y]
  {
    var u := x + "|" + y;
    var t := u + "[]";
    assert x + "|" + y + "[]" == t;
    RemoveCharAbsent(t, ' ');
    ReplaceAllSkipsPrefix(u, "[]", "[]", "");
    assert ReplaceAll("[]", "[]", "") == "";
    assert u + "" == u;
    assert u == x + ['|'] + y;
    ExplodeCharSplit(x, y, '|');
    ExplodeAbsent(y, '|');
  }

  /** `@return Foo|Bar[]` declares `Foo` and `Bar`. */
  lemma ReturnUnionOfArray(x: string, y: string)
    requires x != [] && y != [] && x != y && AllChars(x, IsWordChar) && AllChars(y, IsWordChar)
    ensures ReturnTypes("@return " + x + "|" + y + "[]") == [x, y]
  {
    UnionChars(x, y, "[]");
    var t := x + "|" + y + "[]";
    assert "@return " + x + "|" + y + "[]" == "@return " + t;
    ReturnOneTag(t);
    SplitTypesOfUnionArray(x, y);
    DedupeOfNoDup([x, y]);
  }

  /** `@return $this` keeps `$this`: this strategy filters nothing. */
  lemma ReturnKeepsVariable(v: string)
    requires AllChars(v, IsWordChar)
    ensures ReturnTypes("@return $" + v) == ["$" + v]
  {
    var t := "$" + v;
    DollarWord(v);
    assert "@return $" + v == "@return " + t;
    ReturnOneTag(t);
    SplitTypesOfWord(t);
    DedupeOfNoDup([t]);
  }

  /** `$v` for a word `v` is a non-falsy run of the `@return` class without separators. */
  lemma DollarWord(v: string)
    requires AllChars(v, IsWordChar)
    ensures var t := "$" + v; AllChars(t, IsTypeListChar) && !Falsy(t)
    ensures var t := "$" + v; ' ' !in t && '|' !in t && '[' !in t
  {
    var t := "$" + v;
    forall k | 0 <= k < |t| ensures IsTypeListChar(t[k]) && t[k] != ' ' && t[k] != '|' && t[k] != '[' {
      if k > 0 { assert t[k] == v[k - 1]; }
    }
    assert t[0] == '$';
  }

  /** A name without spaces, bars or brackets splits into itself. */
  lemma SplitTypesOfWord(t: string)
    requires ' ' !in t && '|' !in t && '[' !in t
    ensures SplitTypes(t) == [t]
  {
    RemoveCharAbsent(t, ' ');
    NotContainsWithoutFirst(t, "[]");
    ReplaceAllAbsent(t, "[]", "");
    ExplodeAbsent(t, '|');
  }

  /** `A|B` splits into `A` and `B`. */
  lemma SplitExceptionsOfUnion(x: string, y: string)
    requires ' ' !in x && ' ' !in y && '|' !in x && '|' !in y
    ensures SplitExceptions(x + "|" + y) == [x, y]
  {
    var t := x + "|" + y;
    RemoveCharAbsent(t, ' ');
    assert t == x + ['|'] + y;
    ExplodeCharSplit(x, y, '|');
    ExplodeAbsent(y, '|');
  }

  /** One `@throws` tag ending the text: its list split on `|`. */
  lemma ThrowsOneTag(t: string)
    requires AllChars(t, IsExceptionListChar) && !Falsy(t)
    ensures ThrowsTypes("@throws " + t) == Dedupe(SplitExceptions(t))
  {
    assert t != [] && IsExceptionListChar(t[0]);
    var content := "@throws " + t;
    ThrowsText(t);
    ThrowsFromLayout(content, t);
    EndMatchColumn(ThrowsTag, content, t);
    KeysOfColumn(Column(FindAll(ThrowsTag, content, 0), 0), t, SplitExceptions);
  }

  /** Where the parts of `@throws t` sit in its text. */
  lemma ThrowsText(t: string)
    ensures var content := "@throws " + t;
      KeywordAt(content, 0, "@throws") && |content| == 8 + |t| &&
      content[7..8] == " " && content[8..8 + |t|] == t
  {
    var content := "@throws " + t;
    Layout("@throws", " ", t, "");
    assert content == "@throws" + " " + t + "";
    LowerThrows();
    KeywordFromText(content, 0, "@throws");
  }

  /** A `@throws` tag whose list ends the text is the only match. */
  lemma ThrowsFromLayout(content: string, t: string)
    requires AllChars(t, IsExceptionListChar) && t != [] && !IsSpace(t[0])
    requires KeywordAt(content, 0, "@throws") && |content| == 8 + |t|
    requires content[7..8] == " " && content[8..8 + |t|] == t
    ensures MatchAt(ThrowsTag, content, 0) == Some(Hit(|content|, [t]))
  {
    assert content[7] == content[7..8][0];
    assert content[8..] == content[8..8 + |t|];
    TagRunWhole(content, "@throws", IsExceptionListChar, t);
  }


  /** `@throws A|B` declares `A` and `B`. */
  lemma ThrowsUnion(x: string, y: string)
    requires x != [] && y != [] && x != y && AllChars(x, IsWordChar) && AllChars(y, IsWordChar)
    ensures ThrowsTypes("@throws " + x + "|" + y) == [x, y]
  {
    UnionChars(x, y, "");
    var t := x + "|" + y;
    assert x + "|" + y + "" == t;
    assert "@throws " + x + "|" + y == "@throws " + t;
    ThrowsOneTag(t);
    SplitExceptionsOfUnion(x, y);
    DedupeOfNoDup([x, y]);
  }

  lemma LowerPropertyRead()
    ensures Lower("@property-read") == "@property-read"
  {
    LowerOfNoUpper("@property-read");
  }


  /** When `@property` fails and `@property-read` matches, the longer spelling is the match. */
  lemma PropertySecondSpelling(content: string, h: Hit)
    requires TagToDollarAt(content, 0, "@property").None?
    requires TagToDollarAt(content, 0, "@property-read") == Some(h)
    ensures MatchAt(PropertyTag, content, 0) == Some(Hit(h.end, [content[0..14]] + h.groups))
  {
    var kws := ["@property", "@property-read", "@property-write"];
    assert kws[0] == "@property" && kws[1] == "@property-read";
  }

  /** `@property` followed by `-` is not the `@property` spelling. */
  lemma PropertyFirstSpellingFails(content: string)
    requires |content| > 9 && content[9] == '-'
    ensures TagToDollarAt(content, 0, "@property").None?
  {
  }

  /** `kw\s+([^$]*)` at the start, from the ends of its runs. */
  lemma TagToDollarOf(content: string, kw: string, a: nat, b: nat)
    requires KeywordAt(content, 0, kw) && |kw| < a <= b <= |content| && IsSpace(content[|kw|])
    requires RunEnd(content, |kw|, IsSpace) == a && RunEnd(content, a, IsNotDollar) == b
    ensures TagToDollarAt(content, 0, kw) == Some(Hit(b, [content[a..b]]))
  {
  }

  /** `kw`, one space and types up to `$` at the start of the text. */
  lemma TagToDollarLayout(content: string, kw: string, t: string)
    requires KeywordAt(content, 0, kw) && |content| > |kw| + 1 + |t| && content[|kw|] == ' '
    requires content[|kw| + 1..|kw| + 1 + |t|] == t && content[|kw| + 1 + |t|] == '$'
    requires '$' !in t && (t == [] || !IsSpace(t[0]))
    ensures TagToDollarAt(content, 0, kw) == Some(Hit(|kw| + 1 + |t|, [t]))
  {
    var a := |kw| + 1;
    assert a < |content| ==> content[a] == (if t == [] then '$' else t[0]) by {
      if t != [] { assert content[a] == content[a..a + |t|][0]; }
    }
    RunEndUnique(content, |kw|, a, IsSpace);
    RunOfSlice(content, a, t, IsNotDollar);
    TagToDollarOf(content, kw, a, a + |t|);
  }

  /** The `@property-read` spelling is reached after `@property` fails on the `-`. */
  lemma PropertyReadHit(content: string, t: string)
    requires |content| > 15 + |t| && KeywordAt(content, 0, "@property-read") && content[9] == '-' && content[14] == ' '
    requires content[15..15 + |t|] == t && content[15 + |t|] == '$' && '$' !in t && (t == [] || !IsSpace(t[0]))
    ensures MatchAt(PropertyTag, content, 0).Some?
    ensures MatchAt(PropertyTag, content, 0).value.end == 15 + |t|
    ensures MatchAt(PropertyTag, content, 0).value.groups[1] == t
  {
    PropertyFirstSpellingFails(content);
    TagToDollarLayout(content, "@property-read", t);
    PropertySecondSpelling(content, Hit(15 + |t|, [t]));
  }

  /** A `@property-read` tag with no `@` after its types is the only match. */
  lemma PropertyReadFromLayout(content: string, t: string)
    requires |content| > 15 + |t| && KeywordAt(content, 0, "@property-read") && content[9] == '-' && content[14] == ' '
    requires content[15..15 + |t|] == t && content[15 + |t|] == '$' && '$' !in t && (t == [] || !IsSpace(t[0]))
    requires '@' !in content[15 + |t|..]
    ensures Column(FindAll(PropertyTag, content, 0), 1) == [t]
  {
    PropertyReadHit(content, t);
    LoneTagGroup(PropertyTag, content, MatchAt(PropertyTag, content, 0).value, 1);
  }

  /** One `@property-read` tag: its types up to `$`, split on `|` with `[]` deleted. */
  lemma PropertyReadOneTag(t: string, v: string)
    requires '$' !in t && (t == [] || !IsSpace(t[0])) && '@' !in v
    ensures PropertyTypes("@property-read " + t + "$" + v) == if Falsy(t) then [] else Dedupe(SplitTypes(t))
  {
    var content := "@property-read " + t + "$" + v;
    PropertyReadText(t, v);
    PropertyReadFromLayout(content, t);
    KeysOfColumn(Column(FindAll(PropertyTag, content, 0), 1), t, SplitTypes);
  }

  /** Where the parts of `@property-read t$v` sit in its text. */
  lemma PropertyReadText(t: string, v: string)
    requires '@' !in v
    ensures var content := "@property-read " + t + "$" + v;
      |content| > 15 + |t| && KeywordAt(content, 0, "@property-read") && content[9] == '-' && content[14] == ' ' &&
      content[15..15 + |t|] == t && content[15 + |t|] == '$' && '@' !in content[15 + |t|..]
  {
    var content := "@property-read " + t + "$" + v;
    PropertyReadLayout(t, v);
    assert content == "@property-read" + (" " + t + "$" + v);
    LowerPropertyRead();
    KeywordPrefix("@property-read", " " + t + "$" + v);
  }

  lemma PropertyReadLayout(t: string, v: string)
    requires '@' !in v
    ensures var content := "@property-read " + t + "$" + v;
      |content| > 15 + |t| && content[9] == '-' && content[14] == ' ' &&
      content[15..15 + |t|] == t && content[15 + |t|] == '$' && '@' !in content[15 + |t|..]
  {
    var content := "@property-read " + t + "$" + v;
    Layout("@property-read ", t, "$", v);
    assert content[9] == content[..15][9];
    assert content[14] == content[..15][14];
    assert content[15 + |t|] == content[15 + |t|..16 + |t|][0];
    assert content[15 + |t|..] == "$" + v;
  }

  /** `@property-read Foo|Bar $x` declares `Foo` and `Bar`. */
  lemma PropertyReadUnion(x: string, y: string, v: string)
    requires x != [] && x != y && !IsSpace(x[0]) && '@' !in v
    requires ' ' !in x && ' ' !in y && '|' !in x && '|' !in y && '[' !in x && '[' !in y && '$' !in x && '$' !in y
    ensures PropertyTypes("@property-read " + x + "|" + y + " $" + v) == [x, y]
  {
    var t := x + "|" + y + " ";
    assert "@property-read " + x + "|" + y + " $" + v == "@property-read " + t + "$" + v;
    assert '$' !in t && t[0] == x[0] && ' ' in t;
    PropertyReadOneTag(t, v);
    SplitTypesOfUnion(x, y);
    DedupeOfNoDup([x, y]);
  }

  // ------------------------------------------------ an `@method` line

  /** The text of a static `@method` line with left-hand types `l`, name `n` and arguments `a`. */
  function StaticMethodLine(l: string, n: string, a: string): string
  {
    "@method static " + l + " " + n + "(" + a + ")\n"
  }

  /** Where the parts of a static `@method` line with parts `l`, `n` and `a` sit in `s`. */
  ghost predicate StaticLayout(s: string, l: string, n: string, a: string)
  {
    var m := 16 + |l|;
    var o := m + |n| + 1;
    |s| == o + |a| + 2 && s[0..14] == "@method static" && s[0..7] == "@method" && s[7] == ' '
    && s[8..14] == "static" && s[14] == ' '
    && s[15..15 + |l|] == l && s[15 + |l|] == ' ' && s[m..m + |n|] == n && s[m + |n|] == '('
    && s[o..o + |a|] == a && s[o + |a|] == ')' && s[o + |a| + 1] == '\n'
  }

  /** Where the parts of a static `@method` line sit. */
  lemma StaticMethodText(l: string, n: string, a: string)
    ensures StaticLayout(StaticMethodLine(l, n, a), l, n, a)
  {
    var s := StaticMethodLine(l, n, a);
    var m := 16 + |l|;
    var o := m + |n| + 1;
    var head := "@method static ";
    assert s == head + l + (" " + n + "(" + a + ")\n");
    assert s[..15] == head;
    assert head == "@method" + " " + "static" + " ";
    assert head[0..14] == "@method static" && head[0..7] == "@method" && head[8..14] == "static";
    assert s[15..15 + |l|] == l;
    assert s == (head + l + " ") + n + ("(" + a + ")\n");
    assert s[m..m + |n|] == n;
    assert s == (head + l + " " + n + "(") + a + ")\n";
    assert s[o..o + |a|] == a;
  }

  /** The tail of the `@method` pattern, from the ends of its runs. */
  lemma MethodTailOf(s: string, m: nat, n: nat, o: nat, b: nat, e: nat, f: nat)
    requires m < n <= o <= b < |s| && e <= f <= |s| && n < o && s[b] == ')' && b + 1 < e
    requires RunEnd(s, m, IsMethodNameChar) == n && RunEnd(s, n, IsSpaceOrOpen) == o
    requires RunEnd(s, o, IsArgumentChar) == b && RunEnd(s, b + 1, IsSpaceOrColon) == e
    requires RunEnd(s, e, IsMethodTypeChar) == f
    ensures MethodTailAt(s, m) == Some(Hit(f, [s[m..n], s[o..b], s[e..f]]))
  {
  }

  /** `\s*(L*)\s+` and the tail, with non-empty left-hand types, from the ends of its runs. */
  lemma MethodBodyOf(s: string, q: nat, w: nat, l: nat, m: nat, h: Hit)
    requires q <= w <= l < m <= |s|
    requires RunEnd(s, q, IsSpace) == w && RunEnd(s, w, IsMethodTypeChar) == l && RunEnd(s, l, IsSpace) == m
    requires MethodTailAt(s, m) == Some(h)
    ensures MethodBodyAt(s, q) == Some(Hit(h.end, [s[w..l]] + h.groups))
  {
  }

  /** `@method\s+static` and the rest, from the ends of its runs. */
  lemma StaticMethodOf(s: string, h: Hit)
    requires KeywordAt(s, 0, "@method") && KeywordAt(s, 8, "static") && RunEnd(s, 7, IsSpace) == 8
    requires MethodBodyAt(s, 14) == Some(h)
    ensures MatchAt(MethodTag, s, 0) == Some(Hit(h.end, [s[0..14]] + h.groups))
  {
  }

  /** A static `@method` line's match, from its marker and the match of the rest. */
  lemma StaticMethodMarked(s: string, h: Hit)
    requires 14 < |s| && s[0..14] == "@method static" && s[0..7] == "@method" && s[7] == ' ' && s[8..14] == "static"
    requires MethodBodyAt(s, 14) == Some(h)
    ensures MatchAt(MethodTag, s, 0) == Some(Hit(h.end, ["@method static"] + h.groups))
  {
    StaticMethodKeywords(s);
    StaticMethodOf(s, h);
  }

  /** The groups of a static `@method` line, marker first. */
  lemma StaticMethodGroups(l: string, n: string, a: string)
    ensures ["@method static"] + [l, n, a, ""] == ["@method static", l, n, a, ""]
  {
  }

  /** A run of `p` one character long. */
  lemma RunOfOne(s: string, i: nat, p: char -> bool)
    requires i < |s| && p(s[i]) && (i + 1 < |s| ==> !p(s[i + 1]))
    ensures RunEnd(s, i, p) == i + 1
  {
  }

  /** The first character of a slice. */
  lemma HeadOfSlice(s: string, i: nat, t: string)
    requires t != [] && i + |t| <= |s| && s[i..i + |t|] == t
    ensures s[i] == t[0]
  {
    assert s[i] == s[i..i + |t|][0];
  }

  lemma LowerMethodTag()
    ensures Lower("@method") == "@method"
  {
    LowerOfNoUpper("@method");
  }

  lemma LowerStatic()
    ensures Lower("static") == "static"
  {
    LowerOfNoUpper("static");
  }

  /** A keyword written in lower case, found where it is written. */
  lemma KeywordWritten(s: string, p: nat, kw: string)
    requires p + |kw| <= |s| && s[p..p + |kw|] == kw && Lower(kw) == kw
    ensures KeywordAt(s, p, kw)
  {
  }

  /** `@method` at the start of a static `@method` line. */
  lemma MethodKeyword(s: string)
    requires 7 <= |s| && s[0..7] == "@method"
    ensures KeywordAt(s, 0, "@method")
  {
    LowerMethodTag();
    KeywordWritten(s, 0, "@method");
  }

  /** `static` after `@method ` in a static `@method` line. */
  lemma StaticKeyword(s: string)
    requires 14 <= |s| && s[8..14] == "static"
    ensures KeywordAt(s, 8, "static")
  {
    LowerStatic();
    KeywordWritten(s, 8, "static");
  }

  /** The one space between `@method` and `static`. */
  lemma MarkerSpace(s: string)
    requires 14 <= |s| && s[7] == ' ' && s[8..14] == "static"
    ensures RunEnd(s, 7, IsSpace) == 8
  {
    assert s[8] == 's' by {
      assert s[8] == s[8..14][0];
    }
    RunOfOne(s, 7, IsSpace);
  }

  /** The keywords of a static `@method` line. */
  lemma StaticMethodKeywords(s: string)
    requires 14 < |s| && s[0..7] == "@method" && s[7] == ' ' && s[8..14] == "static"
    ensures KeywordAt(s, 0, "@method") && KeywordAt(s, 8, "static") && RunEnd(s, 7, IsSpace) == 8
  {
    MethodKeyword(s);
    StaticKeyword(s);
    MarkerSpace(s);
  }

  /** The runs after `static` in a static `@method` line, up to the name. */
  lemma StaticMethodLeftRuns(s: string, l: string, n: string)
    requires 16 + |l| + |n| <= |s| && s[14] == ' ' && s[15 + |l|] == ' '
    requires s[15..15 + |l|] == l && s[16 + |l|..16 + |l| + |n|] == n
    requires l != [] && AllChars(l, IsMethodTypeChar) && n != [] && AllChars(n, IsMethodNameChar)
    ensures RunEnd(s, 14, IsSpace) == 15 && RunEnd(s, 15, IsMethodTypeChar) == 15 + |l|
    ensures RunEnd(s, 15 + |l|, IsSpace) == 16 + |l|
  {
    HeadOfSlice(s, 15, l);
    assert IsMethodTypeChar(l[0]);
    RunOfOne(s, 14, IsSpace);
    RunOfSlice(s, 15, l, IsMethodTypeChar);
    HeadOfSlice(s, 16 + |l|, n);
    assert IsMethodNameChar(n[0]);
    RunOfOne(s, 15 + |l|, IsSpace);
  }

  /** The runs of the name, the opening parenthesis and the arguments. */
  lemma StaticMethodNameRuns(s: string, m: nat, n: string, a: string)
    requires m + |n| + |a| + 1 < |s| && s[m + |n|] == '(' && s[m + |n| + 1 + |a|] == ')'
    requires s[m..m + |n|] == n && s[m + |n| + 1..m + |n| + 1 + |a|] == a
    requires n != [] && AllChars(n, IsMethodNameChar)
    requires AllChars(a, IsArgumentChar) && (a == [] || !IsSpace(a[0]))
    ensures RunEnd(s, m, IsMethodNameChar) == m + |n| && RunEnd(s, m + |n|, IsSpaceOrOpen) == m + |n| + 1
    ensures RunEnd(s, m + |n| + 1, IsArgumentChar) == m + |n| + 1 + |a|
  {
    var o := m + |n| + 1;
    RunOfSlice(s, m, n, IsMethodNameChar);
    if a != [] {
      HeadOfSlice(s, o, a);
    }
    RunOfOne(s, o - 1, IsSpaceOrOpen);
    RunOfSlice(s, o, a, IsArgumentChar);
  }

  /** The runs after the closing parenthesis: the line break, then nothing. */
  lemma StaticMethodEndRuns(s: string, b: nat)
    requires b + 2 == |s| && s[b + 1] == '\n'
    ensures RunEnd(s, b + 1, IsSpaceOrColon) == |s| && RunEnd(s, |s|, IsMethodTypeChar) == |s|
  {
    RunOfOne(s, b + 1, IsSpaceOrColon);
  }

  /** The tail of the `@method` pattern on the name and arguments of a static `@method` line. */
  lemma StaticMethodTail(s: string, m: nat, n: string, a: string)
    requires m + |n| + |a| + 3 == |s| && s[m + |n|] == '(' && s[m + |n| + 1 + |a|] == ')' && s[|s| - 1] == '\n'
    requires s[m..m + |n|] == n && s[m + |n| + 1..m + |n| + 1 + |a|] == a
    requires n != [] && AllChars(n, IsMethodNameChar)
    requires AllChars(a, IsArgumentChar) && (a == [] || !IsSpace(a[0]))
    ensures MethodTailAt(s, m) == Some(Hit(|s|, [n, a, ""]))
  {
    var o := m + |n| + 1;
    var b := o + |a|;
    StaticMethodNameRuns(s, m, n, a);
    StaticMethodEndRuns(s, b);
    MethodTailOf(s, m, o - 1, o, b, b + 2, b + 2);
    assert s[b + 2..b + 2] == "";
  }

  /** The body of the `@method` pattern on a static `@method` line, after `static`. */
  lemma StaticMethodBody(s: string, l: string, n: string, a: string)
    requires StaticLayout(s, l, n, a)
    requires l != [] && AllChars(l, IsMethodTypeChar)
    requires n != [] && AllChars(n, IsMethodNameChar)
    requires AllChars(a, IsArgumentChar) && (a == [] || !IsSpace(a[0]))
    ensures MethodBodyAt(s, 14) == Some(Hit(|s|, [l, n, a, ""]))
  {
    var m := 16 + |l|;
    StaticMethodLeftRuns(s, l, n);
    StaticMethodTail(s, m, n, a);
    MethodBodyOf(s, 14, 15, m - 1, m, Hit(|s|, [n, a, ""]));
    assert [s[15..m - 1]] + [n, a, ""] == [l, n, a, ""];
  }

  /** The match of a static `@method` line, from its layout. */
  lemma StaticMethodMatch(s: string, l: string, n: string, a: string)
    requires StaticLayout(s, l, n, a)
    requires l != [] && AllChars(l, IsMethodTypeChar)
    requires n != [] && AllChars(n, IsMethodNameChar)
    requires AllChars(a, IsArgumentChar) && (a == [] || !IsSpace(a[0]))
    ensures MatchAt(MethodTag, s, 0) == Some(Hit(|s|, ["@method static", l, n, a, ""]))
  {
    StaticMethodBody(s, l, n, a);
    StaticMethodMarked(s, Hit(|s|, [l, n, a, ""]));
    StaticMethodGroups(l, n, a);
  }

  /**
   * A static `@method` line is one match whose groups are the marker, the
   * left-hand types, the name, the arguments and empty right-hand types.
   */
  lemma StaticMethodHit(l: string, n: string, a: string)
    requires l != [] && AllChars(l, IsMethodTypeChar)
    requires n != [] && AllChars(n, IsMethodNameChar)
    requires AllChars(a, IsArgumentChar) && (a == [] || !IsSpace(a[0]))
    ensures MatchAt(MethodTag, StaticMethodLine(l, n, a), 0)
      == Some(Hit(|StaticMethodLine(l, n, a)|, ["@method static", l, n, a, ""]))
  {
    StaticMethodText(l, n, a);
    StaticMethodMatch(StaticMethodLine(l, n, a), l, n, a);
  }

  /** `t v ` split on spaces: the two words and an empty tail. */
  lemma ExplodeTwoWords(t: string, v: string)
    requires ' ' !in t && ' ' !in v
    ensures Explode(t + " " + v + " ", " ") == [t, v, ""]
  {
    assert t + " " + v + " " == t + [' '] + (v + [' '] + "");
    ExplodeCharSplit(t, v + [' '] + "", ' ');
    ExplodeCharSplit(v, "", ' ');
    ExplodeAbsent("", ' ');
  }

  /** Two non-empty words and an empty tail keep the two words. */
  lemma FilterTwoWords(t: string, v: string)
    requires !Falsy(t) && !Falsy(v)
    ensures FilterTruthy([t, v, ""]) == [t, v]
  {
    assert [t, v, ""][1..] == [v, ""] && [v, ""][1..] == [""] && [""][1..] == [];
    assert FilterTruthy([""]) == [];
    assert FilterTruthy([v, ""]) == [v];
  }

  /** An argument `t v =d` contributes `t`: the default is ignored, the type is the first word. */
  lemma TypedArgumentWithDefault(t: string, v: string, d: string)
    requires !Falsy(t) && !Falsy(v) && ' ' !in t && ' ' !in v && '=' !in t && '=' !in v
    ensures ArgumentType(t + " " + v + " =" + d) == [t]
  {
    var a := t + " " + v + " ";
    assert t + " " + v + " =" + d == a + "=" + d;
    assert '=' !in a;
    ArgumentDefaultIgnored(a, d);
    ExplodeAbsent(a, '=');
    ExplodeTwoWords(t, v);
    FilterTwoWords(t, v);
  }

  /** `Baz` is one type. */
  lemma SplitTypesOfName()
    ensures SplitTypes("Baz") == ["Baz"]
  {
    NotContainsWithoutFirst("Baz", "[]");
    ReplaceAllAbsent("Baz", "[]", "");
    ExplodeAbsent("Baz", '|');
  }

  /** The types a static `@method` line declares: its left-hand types, then its arguments' types. */
  lemma StaticMethodTypes(l: string, n: string, a: string)
    requires l != [] && AllChars(l, IsMethodTypeChar) && !Falsy(l)
    requires n != [] && AllChars(n, IsMethodNameChar)
    requires AllChars(a, IsArgumentChar) && (a == [] || !IsSpace(a[0]))
    ensures MethodTypes(StaticMethodLine(l, n, a)) == KeysOf([], [l] + ArgumentTypes(Explode(a, ",")), SplitTypes)
  {
    var s := StaticMethodLine(l, n, a);
    var h := Hit(|s|, ["@method static", l, n, a, ""]);
    StaticMethodHit(l, n, a);
    assert '@' !in s[|s|..];
    LoneTagGroup(MethodTag, s, h, 1);
    LoneTagGroup(MethodTag, s, h, 3);
    LoneTagGroup(MethodTag, s, h, 4);
    assert FilterTruthy([l] + [""]) == [l];
    assert ArgumentListTypes([a]) == ArgumentTypes(Explode(a, ",")) by {
      assert [a][1..] == [];
    }
  }

  /** One argument without commas contributes its type, whatever follows the type. */
  lemma OneArgumentType(a: string, t: string)
    requires ',' !in a && ArgumentType(a) == [t]
    ensures ArgumentTypes(Explode(a, ",")) == [t]
  {
    ExplodeAbsent(a, ',');
    assert [a][1..] == [];
  }

  /** Two captures that split into `x, y` and `z`, all distinct, give the keys `x, y, z`. */
  lemma KeysOfTwo(p: string, q: string, x: string, y: string, z: string)
    requires SplitTypes(p) == [x, y] && SplitTypes(q) == [z] && x != y && z != x && z != y
    ensures KeysOf([], [p, q], SplitTypes) == [x, y, z]
  {
    assert [p, q][1..] == [q] && [q][1..] == [];
    assert [x, y][1..] == [y] && [y][1..] == [] && [z][1..] == [];
    assert AddAll([x], [y]) == [x, y] by {
      assert AddUnique([x], y) == [x, y];
    }
    assert AddAll([], [x, y]) == [x, y] by {
      assert AddUnique([], x) == [x];
    }
    assert AddAll([x, y], [z]) == [x, y, z] by {
      assert AddUnique([x, y], z) == [x, y, z];
    }
    assert KeysOf([x, y], [q], SplitTypes) == [x, y, z];
  }

  /** The parts of `@method static Foo|Bar[] name(Baz $x = 1)` are the parts of a static line. */
  lemma MethodLineParts()
    ensures AllChars("Foo|Bar[]", IsMethodTypeChar) && AllChars("name", IsMethodNameChar)
    ensures AllChars("Baz $x = 1", IsArgumentChar) && !IsSpace("Baz $x = 1"[0]) && !Falsy("Foo|Bar[]")
  {
    var l, a := "Foo|Bar[]", "Baz $x = 1";
    forall k | 0 <= k < |l| ensures IsMethodTypeChar(l[k]) {
    }
    forall k | 0 <= k < 4 ensures IsMethodNameChar("name"[k]) {
    }
    forall k | 0 <= k < |a| ensures IsArgumentChar(a[k]) {
    }
  }

  /** The argument `Baz $x = 1` contributes `Baz`. */
  lemma MethodLineArgument()
    ensures ArgumentTypes(Explode("Baz $x = 1", ",")) == ["Baz"]
  {
    var a := "Baz $x = 1";
    assert ArgumentType(a) == ["Baz"] by {
      assert a == "Baz" + " " + "$x" + " =" + " 1";
      assert ' ' !in "Baz" && '=' !in "Baz" && ' ' !in "$x" && '=' !in "$x";
      TypedArgumentWithDefault("Baz", "$x", " 1");
    }
    OneArgumentType(a, "Baz");
  }

  /** The captures of `@method static Foo|Bar[] name(Baz $x = 1)`: its left-hand types and `Baz`. */
  lemma MethodLineCaptures()
    ensures MethodTypes(StaticMethodLine("Foo|Bar[]", "name", "Baz $x = 1"))
      == KeysOf([], ["Foo|Bar[]", "Baz"], SplitTypes)
  {
    var l, a := "Foo|Bar[]", "Baz $x = 1";
    MethodLineParts();
    StaticMethodTypes(l, "name", a);
    MethodLineArgument();
    assert [l] + ["Baz"] == [l, "Baz"];
  }

  /** `Foo|Bar[]` is the two types `Foo` and `Bar`. */
  lemma SplitTypesOfFooBar()
    ensures SplitTypes("Foo|Bar[]") == ["Foo", "Bar"]
  {
    assert "Foo|Bar[]" == "Foo" + "|" + "Bar" + "[]";
    SplitTypesOfUnionArray("Foo", "Bar");
  }

  /**
   * `@method static Foo|Bar[] name(Baz $x = 1)` declares `Foo` and `Bar`
   * on the left and `Baz` in its arguments, in that order.
   */
  lemma MethodLineTypes()
    ensures MethodTypes(StaticMethodLine("Foo|Bar[]", "name", "Baz $x = 1")) == ["Foo", "Bar", "Baz"]
  {
    MethodLineCaptures();
    assert KeysOf([], ["Foo|Bar[]", "Baz"], SplitTypes) == ["Foo", "Bar", "Baz"] by {
      SplitTypesOfFooBar();
      SplitTypesOfName();
      KeysOfTwo("Foo|Bar[]", "Baz", "Foo", "Bar", "Baz");
    }
  }
}
