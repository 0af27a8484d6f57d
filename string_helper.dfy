/**
 * `StringHelper`: the space and backslash normalisations applied to import
 * rows and annotation types.
 */
module StringHelper {
  import opened Text

  /** `removeSpaces`: every `' '` is deleted; tabs, newlines and all other characters stay. */
  function RemoveSpaces(s: string): (r: string)
    ensures ' ' !in r
    ensures forall d :: d != ' ' ==> (d in r <==> d in s)
    ensures ' ' !in s ==> r == s
  {
    if ' ' !in s then RemoveCharAbsent(s, ' '); RemoveChar(s, ' ')
    else RemoveChar(s, ' ')
  }

  lemma RemoveSpacesIdempotent(s: string)
    ensures RemoveSpaces(RemoveSpaces(s)) == RemoveSpaces(s)
  {
  }

  /** `removeSpaces` distributes over concatenation, so the remaining characters keep their order. */
  lemma RemoveSpacesAppend(a: string, b: string)
    ensures RemoveSpaces(a + b) == RemoveSpaces(a) + RemoveSpaces(b)
  {
    RemoveCharAppend(a, b, ' ');
  }

  /** `removeDoubleSpaces`: each run of spaces becomes exactly one space. */
  function RemoveDoubleSpaces(s: string): (r: string)
    ensures NoDoubled(r, ' ')
    ensures |r| <= |s|
    ensures NoDoubled(s, ' ') ==> r == s
    ensures forall d :: d in r <==> d in s
  {
    SqueezeNoDoubled(s, ' ');
    forall d ensures d in Squeeze(s, ' ') <==> d in s {
      SqueezeKeepsChar(s, ' ', d);
    }
    if NoDoubled(s, ' ') then SqueezeOfNoDoubled(s, ' '); Squeeze(s, ' ')
    else Squeeze(s, ' ')
  }

  lemma RemoveDoubleSpacesIdempotent(s: string)
    ensures RemoveDoubleSpaces(RemoveDoubleSpaces(s)) == RemoveDoubleSpaces(s)
  {
  }

  /** Collapsing runs of spaces and then deleting spaces is just deleting spaces. */
  lemma RemoveSpacesAfterRemoveDoubleSpaces(s: string)
    ensures RemoveSpaces(RemoveDoubleSpaces(s)) == RemoveSpaces(s)
  {
    SqueezeKeepsOthers(s, ' ');
  }

  /** Number of occurrences of `c` in `s`. */
  function Count(s: string, c: char): nat
    decreases |s|
  {
    if s == [] then 0 else (if s[0] == c then 1 else 0) + Count(s[1..], c)
  }

  /** `escapeBackslashes`: every `\` is doubled. */
  function EscapeBackslashes(s: string): (r: string)
    ensures |r| == |s| + Count(s, '\\')
    ensures '\\' !in s ==> r == s
    decreases |s|
  {
    if s == [] then s
    else if s[0] == '\\' then
      assert s[..1] == "\\";
      "\\\\" + EscapeBackslashes(s[1..])
    else
      assert s[..1] != "\\";
      [s[0]] + EscapeBackslashes(s[1..])
  }

  /** `EscapeBackslashes` is `str_replace('\\', '\\\\', s)`. */
  lemma {:induction false} EscapeIsReplace(s: string)
    ensures EscapeBackslashes(s) == ReplaceAll(s, "\\", "\\\\")
    decreases |s|
  {
    if s != [] {
      EscapeIsReplace(s[1..]);
      if s[0] == '\\' {
        assert s[..1] == "\\";
      } else {
        assert s[..1] != "\\";
      }
    }
  }

  /** Halves every pair of backslashes: the inverse of `EscapeBackslashes`. */
  function UnescapeBackslashes(t: string): string
    decreases |t|
  {
    if |t| >= 2 && t[0] == '\\' && t[1] == '\\' then "\\" + UnescapeBackslashes(t[2..])
    else if t == [] then t
    else [t[0]] + UnescapeBackslashes(t[1..])
  }

  /** Undoing the doubling restores the input. */
  lemma {:induction false} UnescapeEscape(s: string)
    ensures UnescapeBackslashes(EscapeBackslashes(s)) == s
    decreases |s|
  {
    if s != [] {
      UnescapeEscape(s[1..]);
      var t := EscapeBackslashes(s);
      if s[0] == '\\' {
        assert t[2..] == EscapeBackslashes(s[1..]);
      } else {
        assert t[1..] == EscapeBackslashes(s[1..]);
      }
      assert s == [s[0]] + s[1..];
    }
  }
}
