/**
 * The regular expressions the analyser applies to PHP source text, each as a
 * hand-written matcher that gives the match PCRE finds at one start position
 * (greedy quantifiers, alternatives tried left to right, backtracking where
 * it can change the outcome), and `preg_match_all` as the scan that takes
 * the leftmost match and resumes at its end. Case-insensitive patterns fold
 * ASCII letters; Unicode mode is not modelled.
 */
module Patterns {
  import opened Text
  import opened Wrappers

  /** One match: the position just past it and its capture groups in order. */
  datatype Hit = Hit(end: nat, groups: seq<string>)

  datatype Pattern =
    | StaticCall   // ([\w\\]*)\s*::
    | NewCall      // new\s*([^(]*)                         case-insensitive
    | InstanceOf   // (\$\w+) +instanceof +([\w\\]+)         case-insensitive
    | ParamTag     // @param\s+([^$]*)                       case-insensitive
    | PropertyTag  // (@property|@property-read|@property-write)\s+([^$]*)
    | ReturnTag    // @return\s+([\w|\[\]\\$]*)
    | ThrowsTag    // @throws\s+([\w|\\$]*)
    | VarTag       // @var\s*([\w|\[\]\\$]*)\s*([\w|\[\]\\$]*)
    | MethodTag    // (@method\s+static|@method)\s*(L*)\s+([^(\s]+)[\s(]+([^()]*)\)[\s:]+(L*)
    | NamespaceDecl // namespace +([\w\\]+);                 case-insensitive
    | UseDecl      // ^use ([^;]*);$                          multi-line, case-insensitive

  /** `kw`, written in lower case, occurs at `p` up to ASCII case. */
  predicate KeywordAt(s: string, p: nat, kw: string)
  {
    p + |kw| <= |s| && Lower(s[p..p + |kw|]) == kw
  }

  /** `[\w\\]` */
  predicate IsClassChar(c: char) { IsWordChar(c) || c == '\\' }
  /** `[\w|\[\]\\$]` */
  predicate IsTypeListChar(c: char) { IsWordChar(c) || c == '|' || c == '[' || c == ']' || c == '\\' || c == '$' }
  /** `[\w|\\$]` */
  predicate IsExceptionListChar(c: char) { IsWordChar(c) || c == '|' || c == '\\' || c == '$' }
  /** `[\w\[\]|\\]` */
  predicate IsMethodTypeChar(c: char) { IsWordChar(c) || c == '[' || c == ']' || c == '|' || c == '\\' }
  /** `[^(\s]` */
  predicate IsMethodNameChar(c: char) { c != '(' && !IsSpace(c) }
  /** `[\s(]` */
  predicate IsSpaceOrOpen(c: char) { IsSpace(c) || c == '(' }
  /** `[^()]` */
  predicate IsArgumentChar(c: char) { c != '(' && c != ')' }
  /** `[\s:]` */
  predicate IsSpaceOrColon(c: char) { IsSpace(c) || c == ':' }
  predicate IsNotOpen(c: char) { c != '(' }
  predicate IsNotDollar(c: char) { c != '$' }
  predicate IsNotSemicolon(c: char) { c != ';' }
  predicate IsBlank(c: char) { c == ' ' }

  /** The characters of `t` all satisfy `p`. */
  predicate AllChars(t: string, p: char -> bool)
  {
    forall k :: 0 <= k < |t| ==> p(t[k])
  }

  /** A hit of a pattern that consumed at least one character starting at `p`. */
  predicate Advances(h: Hit, s: string, p: nat)
  {
    p < h.end <= |s|
  }

  function StaticAt(s: string, p: nat): (r: Option<Hit>)
    requires p <= |s|
    ensures r.Some? ==> Advances(r.value, s, p) && |r.value.groups| == 1 && AllChars(r.value.groups[0], IsClassChar)
  {
    var a := RunEnd(s, p, IsClassChar);
    var b := RunEnd(s, a, IsSpace);
    if b + 2 <= |s| && s[b] == ':' && s[b + 1] == ':' then Some(Hit(b + 2, [s[p..a]])) else None
  }

  function NewAt(s: string, p: nat): (r: Option<Hit>)
    requires p <= |s|
    ensures r.Some? ==> Advances(r.value, s, p) && |r.value.groups| == 1 && '(' !in r.value.groups[0]
    ensures r.Some? <==> KeywordAt(s, p, "new")
  {
    if KeywordAt(s, p, "new") then
      var a := RunEnd(s, p + 3, IsSpace);
      var b := RunEnd(s, a, IsNotOpen);
      assert forall k :: 0 <= k < b - a ==> s[a..b][k] == s[a + k];
      Some(Hit(b, [s[a..b]]))
    else None
  }

  function InstanceOfAt(s: string, p: nat): (r: Option<Hit>)
    requires p <= |s|
    ensures r.Some? ==> Advances(r.value, s, p) && |r.value.groups| == 2
    ensures r.Some? ==> |r.value.groups[1]| > 0 && AllChars(r.value.groups[1], IsClassChar)
    ensures r.Some? ==> s[p] == '$'
  {
    if p < |s| && s[p] == '$' then
      var a := RunEnd(s, p + 1, IsWordChar);
      var b := RunEnd(s, a, IsBlank);
      if a > p + 1 && b > a && KeywordAt(s, b, "instanceof") then
        var c := RunEnd(s, b + 10, IsBlank);
        var d := RunEnd(s, c, IsClassChar);
        if c > b + 10 && d > c then Some(Hit(d, [s[p..a], s[c..d]])) else None
      else None
    else None
  }

  /** `kw\s+([^$]*)` at `p`: the capture starts after the whitespace and stops before the next `$`. */
  function TagToDollarAt(s: string, p: nat, kw: string): (r: Option<Hit>)
    requires p <= |s|
    ensures r.Some? ==> Advances(r.value, s, p) && |r.value.groups| == 1 && '$' !in r.value.groups[0]
    ensures r.Some? ==> KeywordAt(s, p, kw)
  {
    if KeywordAt(s, p, kw) && p + |kw| < |s| && IsSpace(s[p + |kw|]) then
      var a := RunEnd(s, p + |kw|, IsSpace);
      var b := RunEnd(s, a, IsNotDollar);
      assert forall k :: 0 <= k < b - a ==> s[a..b][k] == s[a + k];
      Some(Hit(b, [s[a..b]]))
    else None
  }

  function ParamAt(s: string, p: nat): (r: Option<Hit>)
    requires p <= |s|
    ensures r.Some? ==> Advances(r.value, s, p) && |r.value.groups| == 1 && '$' !in r.value.groups[0]
    ensures r.Some? ==> KeywordAt(s, p, "@param")
  {
    TagToDollarAt(s, p, "@param")
  }

  /** The three spellings are tried in order; `@property` alone fails on `-read`, so the longer spellings are reached. */
  function PropertyAt(s: string, p: nat): (r: Option<Hit>)
    requires p <= |s|
    ensures r.Some? ==> Advances(r.value, s, p) && |r.value.groups| == 2 && '$' !in r.value.groups[1]
    ensures r.Some? ==> KeywordAt(s, p, "@property")
  {
    var kws := ["@property", "@property-read", "@property-write"];
    var first := TagToDollarAt(s, p, kws[0]);
    if first.Some? then Some(Hit(first.value.end, [s[p..p + 9]] + first.value.groups))
    else
      var second := TagToDollarAt(s, p, kws[1]);
      if second.Some? then
        assert s[p..p + 9] == s[p..p + 14][..9];
        Some(Hit(second.value.end, [s[p..p + 14]] + second.value.groups))
      else
        var third := TagToDollarAt(s, p, kws[2]);
        if third.Some? then
          assert s[p..p + 9] == s[p..p + 15][..9];
          Some(Hit(third.value.end, [s[p..p + 15]] + third.value.groups))
        else None
  }

  /** `kw\s+(C*)` at `p` for a character class `C`; the capture may be empty. */
  function TagRunAt(s: string, p: nat, kw: string, inClass: char -> bool): (r: Option<Hit>)
    requires p <= |s|
    ensures r.Some? ==> Advances(r.value, s, p) && |r.value.groups| == 1 && AllChars(r.value.groups[0], inClass)
    ensures r.Some? ==> KeywordAt(s, p, kw)
  {
    if KeywordAt(s, p, kw) && p + |kw| < |s| && IsSpace(s[p + |kw|]) then
      var a := RunEnd(s, p + |kw|, IsSpace);
      var b := RunEnd(s, a, inClass);
      Some(Hit(b, [s[a..b]]))
    else None
  }

  function VarAt(s: string, p: nat): (r: Option<Hit>)
    requires p <= |s|
    ensures r.Some? ==> Advances(r.value, s, p) && |r.value.groups| == 2
    ensures r.Some? ==> AllChars(r.value.groups[0], IsTypeListChar) && AllChars(r.value.groups[1], IsTypeListChar)
    ensures r.Some? ==> KeywordAt(s, p, "@var")
  {
    if KeywordAt(s, p, "@var") then
      var a := RunEnd(s, p + 4, IsSpace);
      var b := RunEnd(s, a, IsTypeListChar);
      var c := RunEnd(s, b, IsSpace);
      var d := RunEnd(s, c, IsTypeListChar);
      Some(Hit(d, [s[a..b], s[c..d]]))
    else None
  }

  /**
   * The part of the `@method` pattern after the method name's leading
   * whitespace: the name, `[\s(]+`, the arguments up to `)`, `[\s:]+` and
   * the right-hand types. Every quantifier here is forced to be maximal.
   * Gives the end and the groups (name, arguments, right-hand types).
   */
  function MethodTailAt(s: string, m: nat): (r: Option<Hit>)
    requires m <= |s|
    ensures r.Some? ==> m < r.value.end <= |s| && |r.value.groups| == 3
    ensures r.Some? ==> AllChars(r.value.groups[2], IsMethodTypeChar) && AllChars(r.value.groups[1], IsArgumentChar)
  {
    var n := RunEnd(s, m, IsMethodNameChar);
    var o := RunEnd(s, n, IsSpaceOrOpen);
    var b := RunEnd(s, o, IsArgumentChar);
    if n > m && o > n && b < |s| && s[b] == ')' then
      var e := RunEnd(s, b + 1, IsSpaceOrColon);
      var f := RunEnd(s, e, IsMethodTypeChar);
      if e > b + 1 then Some(Hit(f, [s[m..n], s[o..b], s[e..f]])) else None
    else None
  }

  /**
   * `\s*(L*)\s+` followed by the tail, after an annotation ending at `q`.
   * With `\s*` maximal the left-hand types must be a non-empty run followed
   * by whitespace; failing that, `\s*` gives back its whitespace and the
   * left-hand types are empty.
   */
  function MethodBodyAt(s: string, q: nat): (r: Option<Hit>)
    requires q <= |s|
    ensures r.Some? ==> q < r.value.end <= |s| && |r.value.groups| == 4
    ensures r.Some? ==> AllChars(r.value.groups[0], IsMethodTypeChar) && AllChars(r.value.groups[3], IsMethodTypeChar)
    ensures r.Some? ==> AllChars(r.value.groups[2], IsArgumentChar)
  {
    var w := RunEnd(s, q, IsSpace);
    var l := RunEnd(s, w, IsMethodTypeChar);
    var m := RunEnd(s, l, IsSpace);
    var withLeft := if m > l then MethodTailAt(s, m) else None;
    if withLeft.Some? then Some(Hit(withLeft.value.end, [s[w..l]] + withLeft.value.groups))
    else
      var noLeft := if w > q then MethodTailAt(s, w) else None;
      if noLeft.Some? then Some(Hit(noLeft.value.end, [""] + noLeft.value.groups)) else None
  }

  function MethodAt(s: string, p: nat): (r: Option<Hit>)
    requires p <= |s|
    ensures r.Some? ==> Advances(r.value, s, p) && |r.value.groups| == 5
    ensures r.Some? ==> AllChars(r.value.groups[1], IsMethodTypeChar) && AllChars(r.value.groups[4], IsMethodTypeChar)
    ensures r.Some? ==> AllChars(r.value.groups[3], IsArgumentChar)
    ensures r.Some? ==> KeywordAt(s, p, "@method")
  {
    if KeywordAt(s, p, "@method") then
      var w := RunEnd(s, p + 7, IsSpace);
      var withStatic :=
        if w > p + 7 && KeywordAt(s, w, "static") then MethodBodyAt(s, w + 6) else None;
      if withStatic.Some? then Some(Hit(withStatic.value.end, [s[p..w + 6]] + withStatic.value.groups))
      else
        var plain := MethodBodyAt(s, p + 7);
        if plain.Some? then Some(Hit(plain.value.end, [s[p..p + 7]] + plain.value.groups)) else None
    else None
  }

  function NamespaceAt(s: string, p: nat): (r: Option<Hit>)
    requires p <= |s|
    ensures r.Some? ==> Advances(r.value, s, p) && |r.value.groups| == 1
    ensures r.Some? ==> |r.value.groups[0]| > 0 && AllChars(r.value.groups[0], IsClassChar)
  {
    if KeywordAt(s, p, "namespace") then
      var a := RunEnd(s, p + 9, IsBlank);
      var b := RunEnd(s, a, IsClassChar);
      if a > p + 9 && b > a && b < |s| && s[b] == ';' then Some(Hit(b + 1, [s[a..b]])) else None
    else None
  }

  /** A line starting with `use `, then everything up to the first `;`, which must end the line or the text. */
  function UseAt(s: string, p: nat): (r: Option<Hit>)
    requires p <= |s|
    ensures r.Some? ==> Advances(r.value, s, p) && |r.value.groups| == 1 && ';' !in r.value.groups[0]
    ensures r.Some? ==> p == 0 || s[p - 1] == '\n'
  {
    if (p == 0 || s[p - 1] == '\n') && KeywordAt(s, p, "use ") then
      var a := p + 4;
      var d := RunEnd(s, a, IsNotSemicolon);
      assert forall k :: 0 <= k < d - a ==> s[a..d][k] == s[a + k];
      if d < |s| && (d + 1 == |s| || s[d + 1] == '\n') then Some(Hit(d + 1, [s[a..d]])) else None
    else None
  }

  /** The match `pat` has at position `p`, if any. */
  function MatchAt(pat: Pattern, s: string, p: nat): (r: Option<Hit>)
    requires p <= |s|
    ensures r.Some? ==> Advances(r.value, s, p) && WellFormed(pat, r.value)
  {
    match pat
    case StaticCall => StaticAt(s, p)
    case NewCall => NewAt(s, p)
    case InstanceOf => InstanceOfAt(s, p)
    case ParamTag => ParamAt(s, p)
    case PropertyTag => PropertyAt(s, p)
    case ReturnTag => TagRunAt(s, p, "@return", IsTypeListChar)
    case ThrowsTag => TagRunAt(s, p, "@throws", IsExceptionListChar)
    case VarTag => VarAt(s, p)
    case MethodTag => MethodAt(s, p)
    case NamespaceDecl => NamespaceAt(s, p)
    case UseDecl => UseAt(s, p)
  }

  /** What every match of a pattern guarantees about its groups. */
  predicate WellFormed(pat: Pattern, h: Hit)
  {
    match pat
    case StaticCall => |h.groups| == 1 && AllChars(h.groups[0], IsClassChar)
    case NewCall => |h.groups| == 1 && '(' !in h.groups[0]
    case InstanceOf => |h.groups| == 2 && |h.groups[1]| > 0 && AllChars(h.groups[1], IsClassChar)
    case ParamTag => |h.groups| == 1 && '$' !in h.groups[0]
    case PropertyTag => |h.groups| == 2 && '$' !in h.groups[1]
    case ReturnTag => |h.groups| == 1 && AllChars(h.groups[0], IsTypeListChar)
    case ThrowsTag => |h.groups| == 1 && AllChars(h.groups[0], IsExceptionListChar)
    case VarTag => |h.groups| == 2 && AllChars(h.groups[0], IsTypeListChar) && AllChars(h.groups[1], IsTypeListChar)
    case MethodTag => |h.groups| == 5 && AllChars(h.groups[1], IsMethodTypeChar) && AllChars(h.groups[4], IsMethodTypeChar)
    case NamespaceDecl => |h.groups| == 1 && |h.groups[0]| > 0 && AllChars(h.groups[0], IsClassChar)
    case UseDecl => |h.groups| == 1 && ';' !in h.groups[0]
  }

  /**
   * `preg_match_all` from offset `o`: the leftmost match, then the matches
   * after its end. Every pattern here consumes at least one character.
   */
  function FindAll(pat: Pattern, s: string, o: nat): (hits: seq<Hit>)
    requires o <= |s|
    ensures forall k :: 0 <= k < |hits| ==> WellFormed(pat, hits[k]) && o < hits[k].end <= |s|
    decreases |s| - o
  {
    if o == |s| then []
    else
      match MatchAt(pat, s, o)
      case Some(h) => [h] + FindAll(pat, s, h.end)
      case None => FindAll(pat, s, o + 1)
  }

  /** `$matches[g]`: group `g` of every match, in order; a group that did not take part is `''`. */
  function Column(hits: seq<Hit>, g: nat): (col: seq<string>)
    ensures |col| == |hits|
    ensures forall k :: 0 <= k < |hits| && g < |hits[k].groups| ==> col[k] == hits[k].groups[g]
  {
    seq(|hits|, k requires 0 <= k < |hits| => if g < |hits[k].groups| then hits[k].groups[g] else "")
  }

  /** Where no match starts, `preg_match_all` finds nothing. */
  lemma {:induction false} FindAllNone(pat: Pattern, s: string, o: nat)
    requires o <= |s|
    requires forall p :: o <= p < |s| ==> MatchAt(pat, s, p).None?
    ensures FindAll(pat, s, o) == []
    decreases |s| - o
  {
    if o < |s| {
      FindAllNone(pat, s, o + 1);
    }
  }

  /** A match found at `o` is the first one reported. */
  lemma FindAllFirst(pat: Pattern, s: string, o: nat)
    requires o < |s| && MatchAt(pat, s, o).Some?
    ensures FindAll(pat, s, o) == [MatchAt(pat, s, o).value] + FindAll(pat, s, MatchAt(pat, s, o).value.end)
  {
  }

  /** `preg_match_all` passes over the positions where no match starts. */
  lemma {:induction false} FindAllSkip(pat: Pattern, s: string, o: nat, p: nat)
    requires o <= p <= |s|
    requires forall q :: o <= q < p ==> MatchAt(pat, s, q).None?
    ensures FindAll(pat, s, o) == FindAll(pat, s, p)
    decreases p - o
  {
    if o < p {
      FindAllSkip(pat, s, o + 1, p);
    }
  }
}
