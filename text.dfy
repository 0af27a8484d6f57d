/**
 * The PHP string primitives the analyser is built from, on ASCII text:
 * character classes of PCRE (`\w`, `\s`), `strtolower`, `stripos(..) === 0`,
 * `str_replace`, `explode`, `implode`, `trim`, the falsy strings of
 * `empty()`/`array_filter`, and the maximal run a greedy regex quantifier
 * consumes.
 */
module Text {

  /** PCRE `\w` without Unicode mode: `[A-Za-z0-9_]`. */
  predicate IsWordChar(c: char)
  {
    ('a' <= c <= 'z') || ('A' <= c <= 'Z') || ('0' <= c <= '9') || c == '_'
  }

  /** PCRE `\s`: space, tab, line feed, vertical tab, form feed, carriage return. */
  predicate IsSpace(c: char)
  {
    c == ' ' || c == '\t' || c == '\n' || c == '\U{000B}' || c == '\U{000C}' || c == '\r'
  }

  predicate IsDigit(c: char)
  {
    '0' <= c <= '9'
  }

  /** `strtolower` on one character: ASCII upper case letters only. */
  function LowerChar(c: char): (d: char)
    ensures 'A' <= c <= 'Z' ==> 'a' <= d <= 'z'
    ensures !('A' <= c <= 'Z') ==> d == c
    ensures !('A' <= d <= 'Z')
  {
    if 'A' <= c <= 'Z' then (c as int - 'A' as int + 'a' as int) as char else c
  }

  /** `strtolower`. */
  function Lower(s: string): (r: string)
    ensures |r| == |s|
    ensures forall i :: 0 <= i < |s| ==> r[i] == LowerChar(s[i])
    decreases |s|
  {
    if s == [] then [] else [LowerChar(s[0])] + Lower(s[1..])
  }

  lemma {:induction false} LowerIdempotent(s: string)
    ensures Lower(Lower(s)) == Lower(s)
  {
    var l := Lower(s);
    assert forall i :: 0 <= i < |l| ==> Lower(l)[i] == LowerChar(l[i]) == l[i];
  }

  lemma {:induction false} LowerAppend(a: string, b: string)
    ensures Lower(a + b) == Lower(a) + Lower(b)
  {
    var l := Lower(a + b);
    assert forall i :: 0 <= i < |a| ==> l[i] == LowerChar((a + b)[i]) == LowerChar(a[i]);
    assert forall i :: |a| <= i < |a + b| ==> l[i] == LowerChar((a + b)[i]) == LowerChar(b[i - |a|]);
  }

  /** A text without upper-case ASCII letters is its own lower-case form. */
  lemma LowerOfNoUpper(s: string)
    requires forall c :: c in s ==> !('A' <= c <= 'Z')
    ensures Lower(s) == s
  {
    forall k | 0 <= k < |s| ensures Lower(s)[k] == s[k] {
      assert s[k] in s;
    }
  }

  /** `stripos($haystack, $needle) === 0`: `needle` is a case-insensitive prefix of `haystack`. */
  predicate StartsWithCI(haystack: string, needle: string)
  {
    |needle| <= |haystack| && Lower(haystack[..|needle|]) == Lower(needle)
  }

  /** A case-insensitive prefix is unaffected by appending to the haystack. */
  lemma StartsWithCIAppend(h: string, n: string, t: string)
    requires StartsWithCI(h, n)
    ensures StartsWithCI(h + t, n)
  {
    assert (h + t)[..|n|] == h[..|n|];
  }

  /** Every string is a case-insensitive prefix of itself and of its lower-case form. */
  lemma StartsWithCIReflexive(h: string)
    ensures StartsWithCI(h, h) && StartsWithCI(Lower(h), h) && StartsWithCI(h, Lower(h))
  {
    assert h[..|h|] == h;
    assert Lower(h)[..|h|] == Lower(h);
    LowerIdempotent(h);
  }

  /** `t` occurs in `s` starting at `i`. */
  predicate OccursAt(s: string, t: string, i: nat)
  {
    i + |t| <= |s| && s[i..i + |t|] == t
  }

  /** `t` occurs somewhere in `s`. */
  predicate Contains(s: string, t: string)
  {
    exists i: nat :: i <= |s| && OccursAt(s, t, i)
  }

  /**
   * `str_replace($from, $to, $s)` for one search string: scans from the left
   * and replaces non-overlapping occurrences; an empty search string leaves
   * the subject unchanged.
   */
  function ReplaceAll(s: string, from: string, to: string): string
    decreases |s|
  {
    if |from| == 0 || |s| < |from| then s
    else if s[..|from|] == from then to + ReplaceAll(s[|from|..], from, to)
    else [s[0]] + ReplaceAll(s[1..], from, to)
  }

  /** Replacing a string that does not occur changes nothing. */
  lemma {:induction false} ReplaceAllAbsent(s: string, from: string, to: string)
    requires !Contains(s, from)
    ensures ReplaceAll(s, from, to) == s
    decreases |s|
  {
    if |from| == 0 || |s| < |from| {
    } else {
      assert s[0..|from|] == s[..|from|];
      assert !OccursAt(s, from, 0);
      assert !Contains(s[1..], from) by {
        forall i: nat | OccursAt(s[1..], from, i) ensures false {
          assert s[1..][i..i + |from|] == s[i + 1..i + 1 + |from|];
          assert OccursAt(s, from, i + 1);
        }
      }
      ReplaceAllAbsent(s[1..], from, to);
    }
  }

  /** Replacing a character that does not occur changes nothing. */
  lemma {:induction false} ReplaceCharAbsent(s: string, c: char, to: string)
    requires c !in s
    ensures ReplaceAll(s, [c], to) == s
    decreases |s|
  {
    if s != [] {
      assert s[..1] == [s[0]];
      ReplaceCharAbsent(s[1..], c, to);
      assert s == [s[0]] + s[1..];
    }
  }

  /** With a one-character search string, replacement distributes over concatenation. */
  lemma {:induction false} ReplaceCharAppend(a: string, b: string, c: char, to: string)
    ensures ReplaceAll(a + b, [c], to) == ReplaceAll(a, [c], to) + ReplaceAll(b, [c], to)
    decreases |a|
  {
    if a == [] {
      assert a + b == b;
    } else {
      assert (a + b)[1..] == a[1..] + b;
      assert (a + b)[..1] == a[..1];
      ReplaceCharAppend(a[1..], b, c, to);
    }
  }

  /** A prefix that does not contain the first character of the search string is left alone. */
  lemma {:induction false} ReplaceAllSkipsPrefix(a: string, b: string, from: string, to: string)
    requires |from| > 0 && from[0] !in a
    ensures ReplaceAll(a + b, from, to) == a + ReplaceAll(b, from, to)
    decreases |a|
  {
    if a != [] {
      assert (a + b)[1..] == a[1..] + b;
      ReplaceAllSkipsPrefix(a[1..], b, from, to);
      assert a == [a[0]] + a[1..];
      if |a + b| >= |from| {
        assert (a + b)[..|from|][0] == a[0];
        assert (a + b)[..|from|] != from;
        assert ReplaceAll(a + b, from, to) == [a[0]] + ReplaceAll(a[1..] + b, from, to);
      } else {
        assert |b| < |from|;
      }
    } else {
      assert a + b == b;
    }
  }

  /** After replacing one character by characters other than it, it no longer occurs. */
  lemma {:induction false} ReplaceCharGone(s: string, c: char, to: string)
    requires c !in to
    ensures c !in ReplaceAll(s, [c], to)
    decreases |s|
  {
    if |s| >= 1 {
      ReplaceCharGone(s[1..], c, to);
    }
  }

  /** Replacing one character with one character keeps the length. */
  lemma {:induction false} ReplaceCharLength(s: string, c: char, d: char)
    ensures |ReplaceAll(s, [c], [d])| == |s|
    decreases |s|
  {
    if |s| >= 1 {
      ReplaceCharLength(s[1..], c, d);
    }
  }

  /** Replacing a character does not introduce a character that is in neither input. */
  lemma {:induction false} ReplaceCharIntroducesNothing(s: string, c: char, to: string, e: char)
    requires e !in s && e !in to
    ensures e !in ReplaceAll(s, [c], to)
    decreases |s|
  {
    if |s| >= 1 {
      ReplaceCharIntroducesNothing(s[1..], c, to, e);
    }
  }

  /** Deleting a string (replacing it by "") never adds a character. */
  lemma {:induction false} ReplaceByEmptyIntroducesNothing(s: string, from: string, e: char)
    requires e !in s
    ensures e !in ReplaceAll(s, from, "")
    decreases |s|
  {
    if |from| == 0 || |s| < |from| {
    } else if s[..|from|] == from {
      ReplaceByEmptyIntroducesNothing(s[|from|..], from, e);
    } else {
      ReplaceByEmptyIntroducesNothing(s[1..], from, e);
    }
  }

  /** Deletes every occurrence of one character (`preg_replace` of the pattern `[c]*` by the empty string). */
  function RemoveChar(s: string, c: char): (r: string)
    ensures c !in r
    ensures forall d :: d != c ==> (d in r <==> d in s)
    ensures |r| <= |s|
    decreases |s|
  {
    if s == [] then []
    else if s[0] == c then RemoveChar(s[1..], c)
    else [s[0]] + RemoveChar(s[1..], c)
  }

  lemma {:induction false} RemoveCharAppend(a: string, b: string, c: char)
    ensures RemoveChar(a + b, c) == RemoveChar(a, c) + RemoveChar(b, c)
    decreases |a|
  {
    if a == [] {
      assert a + b == b;
    } else {
      assert (a + b)[1..] == a[1..] + b;
      RemoveCharAppend(a[1..], b, c);
    }
  }

  /** Deleting a character that does not occur changes nothing. */
  lemma {:induction false} RemoveCharAbsent(s: string, c: char)
    requires c !in s
    ensures RemoveChar(s, c) == s
    decreases |s|
  {
    if s != [] {
      RemoveCharAbsent(s[1..], c);
    }
  }

  /** No two consecutive characters of `s` are both `c`. */
  predicate NoDoubled(s: string, c: char)
  {
    forall i :: 0 <= i < |s| - 1 ==> !(s[i] == c && s[i + 1] == c)
  }

  /**
   * `preg_replace('/c+/', 'c', s)` (equivalently `/c{2,}/`): every maximal
   * run of the character `c` shrinks to a single `c`.
   */
  function Squeeze(s: string, c: char): (r: string)
    ensures |r| <= |s|
    ensures |s| > 0 ==> |r| > 0 && r[0] == s[0]
    decreases |s|
  {
    if |s| <= 1 then s
    else if s[0] == c && s[1] == c then Squeeze(s[1..], c)
    else [s[0]] + Squeeze(s[1..], c)
  }

  /** After squeezing, `c` never occurs twice in a row. */
  lemma {:induction false} SqueezeNoDoubled(s: string, c: char)
    ensures NoDoubled(Squeeze(s, c), c)
    decreases |s|
  {
    if |s| > 1 {
      SqueezeNoDoubled(s[1..], c);
      var t := Squeeze(s[1..], c);
      if !(s[0] == c && s[1] == c) {
        var r := [s[0]] + t;
        assert t[0] == s[1];
        forall i | 0 <= i < |r| - 1 ensures !(r[i] == c && r[i + 1] == c) {
          if i > 0 {
            assert r[i] == t[i - 1] && r[i + 1] == t[i];
          }
        }
      }
    }
  }

  /** Squeezing a string in which `c` is never doubled changes nothing. */
  lemma {:induction false} SqueezeOfNoDoubled(s: string, c: char)
    requires NoDoubled(s, c)
    ensures Squeeze(s, c) == s
    decreases |s|
  {
    if |s| > 1 {
      assert s[0] == c ==> s[1] != c;
      assert NoDoubled(s[1..], c) by {
        forall i | 0 <= i < |s[1..]| - 1 ensures !(s[1..][i] == c && s[1..][i + 1] == c) {
          assert s[1..][i] == s[i + 1] && s[1..][i + 1] == s[i + 2];
        }
      }
      SqueezeOfNoDoubled(s[1..], c);
      assert s == [s[0]] + s[1..];
    }
  }

  /** Squeezing is idempotent. */
  lemma SqueezeIdempotent(s: string, c: char)
    ensures Squeeze(Squeeze(s, c), c) == Squeeze(s, c)
  {
    SqueezeNoDoubled(s, c);
    SqueezeOfNoDoubled(Squeeze(s, c), c);
  }

  /** Squeezing only drops copies of `c`: the other characters stay, in order. */
  lemma {:induction false} SqueezeKeepsOthers(s: string, c: char)
    ensures RemoveChar(Squeeze(s, c), c) == RemoveChar(s, c)
    decreases |s|
  {
    if |s| > 1 {
      SqueezeKeepsOthers(s[1..], c);
      if !(s[0] == c && s[1] == c) {
        assert ([s[0]] + Squeeze(s[1..], c))[1..] == Squeeze(s[1..], c);
      }
    }
  }

  /** Squeezing keeps `c` present exactly when it was present. */
  lemma {:induction false} SqueezeKeepsChar(s: string, c: char, d: char)
    ensures d in Squeeze(s, c) <==> d in s
    decreases |s|
  {
    if |s| > 1 {
      SqueezeKeepsChar(s[1..], c, d);
      assert s == [s[0]] + s[1..];
    }
  }

  /**
   * `explode($sep, $s)`: the pieces between the non-overlapping occurrences of
   * `sep`, scanning from the left. PHP rejects an empty separator.
   */
  function Explode(s: string, sep: string): (parts: seq<string>)
    requires |sep| > 0
    ensures |parts| >= 1
    decreases |s|
  {
    if |s| < |sep| then [s]
    else if s[..|sep|] == sep then [""] + Explode(s[|sep|..], sep)
    else
      var rest := Explode(s[1..], sep);
      [[s[0]] + rest[0]] + rest[1..]
  }

  /** `implode($sep, $parts)`. */
  function Implode(sep: string, parts: seq<string>): string
    decreases |parts|
  {
    if parts == [] then ""
    else if |parts| == 1 then parts[0]
    else parts[0] + sep + Implode(sep, parts[1..])
  }

  lemma ImplodeConsHead(sep: string, c: string, parts: seq<string>)
    requires |parts| >= 1
    ensures Implode(sep, [c + parts[0]] + parts[1..]) == c + Implode(sep, parts)
  {
    var ps := [c + parts[0]] + parts[1..];
    if |parts| > 1 {
      assert ps[1..] == parts[1..];
    }
  }

  lemma ImplodeEmptyHead(sep: string, parts: seq<string>)
    requires |parts| >= 1
    ensures Implode(sep, [""] + parts) == sep + Implode(sep, parts)
  {
    assert ([""] + parts)[1..] == parts;
  }

  /** `implode` undoes `explode`. */
  lemma {:induction false} ImplodeExplode(s: string, sep: string)
    requires |sep| > 0
    ensures Implode(sep, Explode(s, sep)) == s
    decreases |s|
  {
    if |s| < |sep| {
    } else if s[..|sep|] == sep {
      var rest := Explode(s[|sep|..], sep);
      ImplodeExplode(s[|sep|..], sep);
      ImplodeEmptyHead(sep, rest);
      assert s == s[..|sep|] + s[|sep|..];
    } else {
      var rest := Explode(s[1..], sep);
      ImplodeExplode(s[1..], sep);
      ImplodeConsHead(sep, [s[0]], rest);
      assert s == [s[0]] + s[1..];
    }
  }

  /** With a one-character separator, no piece contains the separator. */
  lemma {:induction false} ExplodeCharPieces(s: string, c: char)
    ensures forall k :: 0 <= k < |Explode(s, [c])| ==> c !in Explode(s, [c])[k]
    decreases |s|
  {
    if |s| >= 1 {
      ExplodeCharPieces(s[1..], c);
      var rest := Explode(s[1..], [c]);
      if s[..1] != [c] {
        assert s[0] != c;
        var parts := [[s[0]] + rest[0]] + rest[1..];
        forall k | 0 <= k < |parts| ensures c !in parts[k] {
          if k > 0 {
            assert parts[k] == rest[k];
          }
        }
      } else {
        var parts := [""] + rest;
        forall k | 0 <= k < |parts| ensures c !in parts[k] {
          if k > 0 {
            assert parts[k] == rest[k - 1];
          }
        }
      }
    }
  }

  /** A string without the separator explodes into itself alone. */
  lemma {:induction false} ExplodeAbsent(s: string, c: char)
    requires c !in s
    ensures Explode(s, [c]) == [s]
    decreases |s|
  {
    if |s| >= 1 {
      assert s[..1] == [s[0]];
      ExplodeAbsent(s[1..], c);
      assert s == [s[0]] + s[1..];
    }
  }

  /** A character absent from the subject is absent from every piece. */
  lemma {:induction false} ExplodeCharKeepsOut(s: string, c: char, d: char)
    requires d !in s
    ensures forall k :: 0 <= k < |Explode(s, [c])| ==> d !in Explode(s, [c])[k]
    decreases |s|
  {
    if |s| >= 1 {
      ExplodeCharKeepsOut(s[1..], c, d);
      var rest := Explode(s[1..], [c]);
      if s[..1] != [c] {
        var parts := [[s[0]] + rest[0]] + rest[1..];
        forall k | 0 <= k < |parts| ensures d !in parts[k] {
          if k > 0 {
            assert parts[k] == rest[k];
          }
        }
      } else {
        var parts := [""] + rest;
        forall k | 0 <= k < |parts| ensures d !in parts[k] {
          if k > 0 {
            assert parts[k] == rest[k - 1];
          }
        }
      }
    }
  }

  /** The first one-character separator ends the first piece. */
  lemma {:induction false} ExplodeCharSplit(a: string, b: string, c: char)
    requires c !in a
    ensures Explode(a + [c] + b, [c]) == [a] + Explode(b, [c])
    decreases |a|
  {
    var s := a + [c] + b;
    if a == [] {
      assert s[..1] == [c] && s[1..] == b;
    } else {
      assert s[..1] == [a[0]] && s[..1] != [c];
      assert s[1..] == a[1..] + [c] + b;
      ExplodeCharSplit(a[1..], b, c);
      assert [a[0]] + a[1..] == a;
    }
  }

  /** A subject in which the separator never occurs explodes into itself alone. */
  lemma {:induction false} ExplodeNoOccurrence(s: string, sep: string)
    requires |sep| > 0 && !Contains(s, sep)
    ensures Explode(s, sep) == [s]
    decreases |s|
  {
    if |s| >= |sep| {
      assert !OccursAt(s, sep, 0);
      var t := s[1..];
      if Contains(t, sep) {
        var i: nat :| i <= |t| && OccursAt(t, sep, i);
        assert t[i..i + |sep|] == s[i + 1..i + 1 + |sep|];
        assert OccursAt(s, sep, i + 1);
        assert false;
      }
      ExplodeNoOccurrence(t, sep);
      assert [s[0]] + t == s;
    }
  }

  /** The first piece ends at the first separator when no earlier position can start one. */
  lemma {:induction false} ExplodeHead(a: string, sep: string, b: string)
    requires |sep| > 0 && sep[0] !in a
    ensures Explode(a + sep + b, sep)[0] == a
    decreases |a|
  {
    var s := a + sep + b;
    if a == [] {
      assert s[..|sep|] == sep;
    } else {
      assert s[..|sep|][0] == a[0];
      assert s[1..] == a[1..] + sep + b;
      ExplodeHead(a[1..], sep, b);
      assert [a[0]] + a[1..] == a;
    }
  }

  /** Where a run of characters of `chars` starting at `i` ends. */
  function TrimStart(s: string, chars: set<char>, i: nat): (j: nat)
    requires i <= |s|
    ensures i <= j <= |s|
    ensures forall k :: i <= k < j ==> s[k] in chars
    ensures j < |s| ==> s[j] !in chars
    decreases |s| - i
  {
    if i < |s| && s[i] in chars then TrimStart(s, chars, i + 1) else i
  }

  /** Where a run of characters of `chars` ending before `j` starts. */
  function TrimEnd(s: string, chars: set<char>, j: nat): (i: nat)
    requires j <= |s|
    ensures i <= j
    ensures forall k :: i <= k < j ==> s[k] in chars
    ensures 0 < i ==> s[i - 1] !in chars
  {
    if 0 < j && s[j - 1] in chars then TrimEnd(s, chars, j - 1) else j
  }

  /** `ltrim($s, $chars)`. */
  function TrimLeft(s: string, chars: set<char>): string
  {
    s[TrimStart(s, chars, 0)..]
  }

  /** `rtrim($s, $chars)`. */
  function TrimRight(s: string, chars: set<char>): string
  {
    s[..TrimEnd(s, chars, |s|)]
  }

  /** `trim($s, $chars)`. */
  function Trim(s: string, chars: set<char>): string
  {
    TrimRight(TrimLeft(s, chars), chars)
  }

  /** `trim`'s default character list: space, tab, line feed, carriage return, NUL, vertical tab. */
  const Whitespace: set<char> := {' ', '\t', '\n', '\r', '\0', '\U{000B}'}

  /** `trim` removes exactly a prefix and a suffix made of `chars`, and stops at characters outside it. */
  lemma TrimSpec(s: string, chars: set<char>)
    ensures var r := Trim(s, chars);
      exists i, j :: 0 <= i <= j <= |s| && r == s[i..j]
        && (forall k :: 0 <= k < i ==> s[k] in chars)
        && (forall k :: j <= k < |s| ==> s[k] in chars)
        && (|r| > 0 ==> r[0] !in chars && r[|r| - 1] !in chars)
  {
    var i := TrimStart(s, chars, 0);
    var l := s[i..];
    var e := TrimEnd(l, chars, |l|);
    var j := i + e;
    var r := Trim(s, chars);
    assert r == l[..e] == s[i..j];
    forall k | j <= k < |s| ensures s[k] in chars {
      assert s[k] == l[k - i];
    }
    assert |r| > 0 ==> r[0] == s[i] && r[|r| - 1] == l[e - 1];
  }

  /** Trimming is idempotent. */
  lemma TrimIdempotent(s: string, chars: set<char>)
    ensures Trim(Trim(s, chars), chars) == Trim(s, chars)
  {
    var r := Trim(s, chars);
    TrimSpec(s, chars);
    if |r| > 0 {
      assert TrimLeft(r, chars) == r;
      assert TrimRight(r, chars) == r;
    }
  }

  /** A string none of whose characters are in `chars` is its own trim. */
  lemma TrimNothing(s: string, chars: set<char>)
    requires forall k :: 0 <= k < |s| ==> s[k] !in chars
    ensures Trim(s, chars) == s
  {
  }

  /** The strings PHP treats as false: `""` and `"0"`. */
  predicate Falsy(s: string)
  {
    s == "" || s == "0"
  }

  /** `array_filter($xs)` without a callback: drops the falsy strings, keeps the order. */
  function FilterTruthy(xs: seq<string>): (r: seq<string>)
    ensures forall x :: x in r <==> x in xs && !Falsy(x)
    ensures |r| <= |xs|
    decreases |xs|
  {
    if xs == [] then []
    else if Falsy(xs[0]) then FilterTruthy(xs[1..])
    else [xs[0]] + FilterTruthy(xs[1..])
  }

  lemma {:induction false} FilterTruthyAppend(xs: seq<string>, ys: seq<string>)
    ensures FilterTruthy(xs + ys) == FilterTruthy(xs) + FilterTruthy(ys)
    decreases |xs|
  {
    if xs == [] {
      assert xs + ys == ys;
    } else {
      assert (xs + ys)[1..] == xs[1..] + ys;
      FilterTruthyAppend(xs[1..], ys);
    }
  }

  /**
   * The end of the maximal run of characters satisfying `p` that starts at
   * `i`: what a greedy `[...]*` consumes.
   */
  function RunEnd(s: string, i: nat, p: char -> bool): (j: nat)
    requires i <= |s|
    ensures i <= j <= |s|
    ensures forall k :: i <= k < j ==> p(s[k])
    ensures j < |s| ==> !p(s[j])
    decreases |s| - i
  {
    if i < |s| && p(s[i]) then RunEnd(s, i + 1, p) else i
  }

  /** A maximal run does not depend on what follows it. */
  lemma RunEndUnique(s: string, i: nat, j: nat, p: char -> bool)
    requires i <= j <= |s|
    requires forall k :: i <= k < j ==> p(s[k])
    requires j < |s| ==> !p(s[j])
    ensures RunEnd(s, i, p) == j
  {
  }
}
