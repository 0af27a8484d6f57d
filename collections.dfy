/**
 * Ordered collections as PHP uses them: an array whose keys are inserted in
 * order and never repeated (`$set[$k] = true; array_keys($set)`), and
 * `array_unique`, which keeps the first occurrence of each value.
 */
module Collections {

  /** No element occurs twice. */
  predicate NoDup<T(==)>(s: seq<T>)
  {
    forall i, j :: 0 <= i < j < |s| ==> s[i] != s[j]
  }

  /** One insertion into an ordered key set: appended unless already present. */
  function AddUnique<T(==)>(acc: seq<T>, x: T): (r: seq<T>)
    ensures NoDup(acc) ==> NoDup(r)
    ensures forall y :: y in r ==> y in acc || y == x
    ensures forall y :: y in acc ==> y in r
    ensures x in r && |acc| <= |r| && r[..|acc|] == acc
  {
    if x in acc then acc else acc + [x]
  }

  /** Inserts every element of `xs`, in order, into the ordered key set `acc`. */
  function AddAll<T(==)>(acc: seq<T>, xs: seq<T>): seq<T>
    decreases |xs|
  {
    if xs == [] then acc else AddAll(AddUnique(acc, xs[0]), xs[1..])
  }

  /** `array_unique`: the distinct elements of `s` in order of first occurrence. */
  function Dedupe<T(==)>(s: seq<T>): seq<T>
  {
    AddAll([], s)
  }

  /** Concatenation of a list of lists (`array_merge(...$lists)`). */
  function Flatten<T>(xss: seq<seq<T>>): seq<T>
    decreases |xss|
  {
    if xss == [] then [] else xss[0] + Flatten(xss[1..])
  }

  /** Position of the first occurrence of `x` in `s`. */
  function IndexOf<T(==)>(s: seq<T>, x: T): (k: nat)
    requires x in s
    ensures k < |s| && s[k] == x && x !in s[..k]
  {
    if s[0] == x then 0 else
      assert s == [s[0]] + s[1..];
      1 + IndexOf(s[1..], x)
  }

  lemma {:induction false} AddAllNoDup<T>(acc: seq<T>, xs: seq<T>)
    requires NoDup(acc)
    ensures NoDup(AddAll(acc, xs))
    decreases |xs|
  {
    if xs != [] {
      AddAllNoDup(AddUnique(acc, xs[0]), xs[1..]);
    }
  }

  lemma {:induction false} AddAllMember<T>(acc: seq<T>, xs: seq<T>, y: T)
    ensures y in AddAll(acc, xs) <==> y in acc || y in xs
    decreases |xs|
  {
    if xs != [] {
      AddAllMember(AddUnique(acc, xs[0]), xs[1..], y);
      assert xs == [xs[0]] + xs[1..];
    }
  }

  /** The key set only grows: what was inserted earlier keeps its place. */
  lemma {:induction false} AddAllExtends<T>(acc: seq<T>, xs: seq<T>)
    ensures |acc| <= |AddAll(acc, xs)| && AddAll(acc, xs)[..|acc|] == acc
    decreases |xs|
  {
    if xs != [] {
      var a' := AddUnique(acc, xs[0]);
      AddAllExtends(a', xs[1..]);
      assert AddAll(acc, xs)[..|acc|] == AddAll(a', xs[1..])[..|a'|][..|acc|];
    }
  }

  /** Inserting elements that are all new and distinct appends them unchanged. */
  lemma {:induction false} AddAllFresh<T>(acc: seq<T>, xs: seq<T>)
    requires NoDup(acc + xs)
    ensures AddAll(acc, xs) == acc + xs
    decreases |xs|
  {
    if xs != [] {
      assert (acc + xs)[|acc|] == xs[0];
      assert xs[0] !in acc by {
        forall i | 0 <= i < |acc| ensures acc[i] != xs[0] {
          assert (acc + xs)[i] == acc[i];
        }
      }
      assert acc + xs == (acc + [xs[0]]) + xs[1..];
      AddAllFresh(acc + [xs[0]], xs[1..]);
    }
  }

  /** Inserting in two batches is inserting the concatenation. */
  lemma {:induction false} AddAllAppend<T>(acc: seq<T>, xs: seq<T>, ys: seq<T>)
    ensures AddAll(acc, xs + ys) == AddAll(AddAll(acc, xs), ys)
    decreases |xs|
  {
    if xs != [] {
      assert (xs + ys)[0] == xs[0] && (xs + ys)[1..] == xs[1..] + ys;
      AddAllAppend(AddUnique(acc, xs[0]), xs[1..], ys);
    } else {
      assert xs + ys == ys;
    }
  }

  /** `array_unique` yields each element once, and exactly the elements of its input. */
  lemma DedupeSpec<T>(s: seq<T>)
    ensures NoDup(Dedupe(s))
    ensures forall y :: y in Dedupe(s) <==> y in s
  {
    AddAllNoDup([], s);
    forall y ensures y in Dedupe(s) <==> y in s {
      AddAllMember([], s, y);
    }
  }

  /** `array_unique` leaves a list without duplicates unchanged. */
  lemma DedupeOfNoDup<T>(s: seq<T>)
    requires NoDup(s)
    ensures Dedupe(s) == s
  {
    assert [] + s == s;
    AddAllFresh([], s);
  }

  /** `array_unique` is idempotent. */
  lemma DedupeIdempotent<T>(s: seq<T>)
    ensures Dedupe(Dedupe(s)) == Dedupe(s)
  {
    DedupeSpec(s);
    DedupeOfNoDup(Dedupe(s));
  }

  /** In a list without duplicates, an element past position `n` is not among the first `n`. */
  lemma NotInPrefix<T>(r: seq<T>, n: nat, k: nat)
    requires NoDup(r) && n <= k < |r|
    ensures r[k] !in r[..n]
  {
    forall m | 0 <= m < n ensures r[..n][m] != r[k] {
      assert r[..n][m] == r[m];
    }
  }

  /**
   * First-occurrence order: of two elements the insertion added, the one met
   * first in the input comes first.
   */
  lemma {:induction false} AddAllOrder<T>(acc: seq<T>, xs: seq<T>, i: nat, j: nat)
    requires NoDup(acc)
    requires |acc| <= i < j < |AddAll(acc, xs)|
    ensures AddAll(acc, xs)[i] in xs && AddAll(acc, xs)[j] in xs
    ensures IndexOf(xs, AddAll(acc, xs)[i]) < IndexOf(xs, AddAll(acc, xs)[j])
    decreases |xs|
  {
    if xs == [] {
    } else {
      var a' := AddUnique(acc, xs[0]);
      OrderHead(acc, xs, i); OrderTail(acc, xs, i);
      OrderHead(acc, xs, j); OrderTail(acc, xs, j);
      if |a'| <= i {
        AddAllOrder(a', xs[1..], i, j);
        IndexOfTail(xs, AddAll(acc, xs)[i]);
        IndexOfTail(xs, AddAll(acc, xs)[j]);
      } else {
        IndexOfTail(xs, AddAll(acc, xs)[j]);
      }
    }
  }

  /** The first key the insertion adds is the first input element. */
  lemma OrderHead<T>(acc: seq<T>, xs: seq<T>, k: nat)
    requires NoDup(acc) && xs != []
    requires |acc| <= k < |AddAll(acc, xs)|
    ensures k < |AddUnique(acc, xs[0])| ==> AddAll(acc, xs)[k] == xs[0] && k == |acc|
  {
    var r := AddAll(acc, xs);
    var a' := AddUnique(acc, xs[0]);
    assert r == AddAll(a', xs[1..]);
    AddAllExtends(a', xs[1..]);
    if k < |a'| {
      assert r[..|a'|] == a';
      assert r[k] == a'[k];
    }
  }
  /** Keys the insertion adds after the first come from the rest of the input. */
  lemma OrderTail<T>(acc: seq<T>, xs: seq<T>, k: nat)
    requires NoDup(acc) && xs != []
    requires |acc| <= k < |AddAll(acc, xs)|
    ensures |AddUnique(acc, xs[0])| <= k ==> AddAll(acc, xs)[k] in xs[1..] && AddAll(acc, xs)[k] != xs[0]
  {
    var r := AddAll(acc, xs);
    var a' := AddUnique(acc, xs[0]);
    assert r == AddAll(a', xs[1..]);
    if |a'| <= k {
    AddAllExtends(a', xs[1..]);
    AddAllNoDup(a', xs[1..]);
      AddAllMember(a', xs[1..], r[k]);
      NotInPrefix(r, |a'|, k);
      assert r[..|a'|] == a';
      assert xs[0] in a';
      assert r[k] !in a';
      assert r[k] in xs[1..];
    }
  }
  lemma IndexOfTail<T>(xs: seq<T>, x: T)
    requires xs != [] && x in xs[1..] && x != xs[0]
    ensures x in xs && IndexOf(xs, x) == 1 + IndexOf(xs[1..], x)
  {
  }

  /** `array_unique` keeps first-occurrence order. */
  lemma DedupeOrder<T>(s: seq<T>, i: nat, j: nat)
    requires i < j < |Dedupe(s)|
    ensures Dedupe(s)[i] in s && Dedupe(s)[j] in s
    ensures IndexOf(s, Dedupe(s)[i]) < IndexOf(s, Dedupe(s)[j])
  {
    AddAllOrder([], s, i, j);
  }

  lemma {:induction false} FlattenMembers<T>(xss: seq<seq<T>>)
    ensures forall y :: y in Flatten(xss) <==> exists k :: 0 <= k < |xss| && y in xss[k]
    decreases |xss|
  {
    if xss != [] {
      FlattenMembers(xss[1..]);
      forall y ensures y in Flatten(xss) <==> exists k :: 0 <= k < |xss| && y in xss[k] {
        if y in xss[0] {
        } else if y in Flatten(xss[1..]) {
          var k :| 0 <= k < |xss[1..]| && y in xss[1..][k];
          assert y in xss[k + 1];
        } else {
          forall k | 1 <= k < |xss| ensures y !in xss[k] {
            assert xss[k] == xss[1..][k - 1];
          }
        }
      }
    }
  }

  lemma {:induction false} FlattenAppend<T>(xss: seq<seq<T>>, ys: seq<T>)
    ensures Flatten(xss + [ys]) == Flatten(xss) + ys
    decreases |xss|
  {
    if xss == [] {
      assert [] + [ys] == [ys];
    } else {
      assert (xss + [ys])[1..] == xss[1..] + [ys];
      FlattenAppend(xss[1..], ys);
    }
  }

  /** The prefix as long as the sequence is the sequence. */
  lemma TakeAll<T>(xs: seq<T>)
    ensures xs[..|xs|] == xs
  {
  }

  /** A prefix one longer is the prefix followed by the next element. */
  lemma TakeSnoc<T>(xs: seq<T>, k: nat)
    requires 0 < k <= |xs|
    ensures xs[..k - 1] + [xs[k - 1]] == xs[..k]
  {
  }

  /** The lists `f` gives for the elements of `xs`, concatenated in order. */
  function ConcatMap<A, B>(xs: seq<A>, f: A -> seq<B>): seq<B>
    decreases |xs|
  {
    if xs == [] then [] else ConcatMap(xs[..|xs| - 1], f) + f(xs[|xs| - 1])
  }

  lemma ConcatMapStep<A, B>(xs: seq<A>, f: A -> seq<B>, i: nat)
    requires i < |xs|
    ensures ConcatMap(xs[..i + 1], f) == ConcatMap(xs[..i], f) + f(xs[i])
  {
    assert xs[..i + 1][..i] == xs[..i];
  }

  lemma {:induction false} ConcatMapMembers<A, B>(xs: seq<A>, f: A -> seq<B>)
    ensures forall y :: y in ConcatMap(xs, f) <==> exists k :: 0 <= k < |xs| && y in f(xs[k])
    decreases |xs|
  {
    if xs != [] {
      var ys := xs[..|xs| - 1];
      ConcatMapMembers(ys, f);
      forall y ensures y in ConcatMap(xs, f) <==> exists k :: 0 <= k < |xs| && y in f(xs[k]) {
        if y in ConcatMap(ys, f) {
          var k :| 0 <= k < |ys| && y in f(ys[k]);
          assert xs[k] == ys[k];
        }
        if exists k :: 0 <= k < |xs| && y in f(xs[k]) {
          var k :| 0 <= k < |xs| && y in f(xs[k]);
          if k < |ys| {
            assert ys[k] == xs[k];
          }
        }
      }
    }
  }

  lemma {:induction false} ConcatMapEmpty<A, B>(xs: seq<A>, f: A -> seq<B>)
    requires forall k :: 0 <= k < |xs| ==> f(xs[k]) == []
    ensures ConcatMap(xs, f) == []
    decreases |xs|
  {
    if xs != [] {
      ConcatMapEmpty(xs[..|xs| - 1], f);
    }
  }

  /** `array_filter($xs, $p)` read in order: the elements satisfying `p`. */
  function Filter<T(!new)>(xs: seq<T>, p: T -> bool): (r: seq<T>)
    ensures |r| <= |xs|
    ensures forall y :: y in r <==> y in xs && p(y)
    decreases |xs|
  {
    if xs == [] then []
    else
      var init := xs[..|xs| - 1];
      assert xs == init + [xs[|xs| - 1]];
      Filter(init, p) + (if p(xs[|xs| - 1]) then [xs[|xs| - 1]] else [])
  }

  lemma FilterStep<T(!new)>(xs: seq<T>, p: T -> bool, i: nat)
    requires i < |xs|
    ensures Filter(xs[..i + 1], p) == Filter(xs[..i], p) + (if p(xs[i]) then [xs[i]] else [])
  {
    assert xs[..i + 1][..i] == xs[..i];
  }

  lemma {:induction false} FilterNoDup<T(!new)>(xs: seq<T>, p: T -> bool)
    requires NoDup(xs)
    ensures NoDup(Filter(xs, p))
    decreases |xs|
  {
    if xs != [] {
      var init := xs[..|xs| - 1];
      assert NoDup(init) by {
        forall i, j | 0 <= i < j < |init| ensures init[i] != init[j] {
          assert init[i] == xs[i] && init[j] == xs[j];
        }
      }
      FilterNoDup(init, p);
      forall k | 0 <= k < |init| ensures init[k] != xs[|xs| - 1] {
        assert init[k] == xs[k];
      }
    }
  }

  /** A filter every element passes keeps the whole list. */
  lemma {:induction false} FilterAll<T(!new)>(xs: seq<T>, p: T -> bool)
    requires forall k :: 0 <= k < |xs| ==> p(xs[k])
    ensures Filter(xs, p) == xs
    decreases |xs|
  {
    if xs != [] {
      var init := xs[..|xs| - 1];
      forall k | 0 <= k < |init| ensures p(init[k]) {
        assert init[k] == xs[k];
      }
      FilterAll(init, p);
      assert p(xs[|xs| - 1]) && xs == init + [xs[|xs| - 1]];
    }
  }

  /**
   * A loop that inserts, for each element of `xs` in turn, the keys `g`
   * gives for it into the ordered key set `acc`.
   */
  method CollectInto<T, U(==)>(acc: seq<U>, xs: seq<T>, g: T -> seq<U>) returns (r: seq<U>)
    ensures r == AddAll(acc, ConcatMap(xs, g))
  {
    r := acc;
    for j := 0 to |xs|
      invariant r == AddAll(acc, ConcatMap(xs[..j], g))
    {
      ConcatMapStep(xs, g, j);
      AddAllAppend(acc, ConcatMap(xs[..j], g), g(xs[j]));
      r := AddAll(r, g(xs[j]));
    }
    assert xs[..|xs|] == xs;
  }

  /** Inserting keys already present changes nothing. */
  lemma {:induction false} AddAllPresent<T>(acc: seq<T>, xs: seq<T>)
    requires forall k :: 0 <= k < |xs| ==> xs[k] in acc
    ensures AddAll(acc, xs) == acc
    decreases |xs|
  {
    if xs != [] {
      assert xs[0] in acc;
      forall k | 0 <= k < |xs[1..]| ensures xs[1..][k] in acc {
        assert xs[1..][k] == xs[k + 1];
      }
      AddAllPresent(acc, xs[1..]);
    }
  }

  /** One more element inserted is one more `AddUnique`. */
  lemma AddAllSnoc<T>(acc: seq<T>, xs: seq<T>, i: nat)
    requires i < |xs|
    ensures AddAll(acc, xs[..i + 1]) == AddUnique(AddAll(acc, xs[..i]), xs[i])
  {
    assert xs[..i + 1] == xs[..i] + [xs[i]];
    AddAllAppend(acc, xs[..i], [xs[i]]);
  }

  /** Filtering twice by the same test is filtering once. */
  lemma FilterIdempotent<T(!new)>(xs: seq<T>, p: T -> bool)
    ensures Filter(Filter(xs, p), p) == Filter(xs, p)
  {
    var r := Filter(xs, p);
    forall k | 0 <= k < |r| ensures p(r[k]) {
      assert r[k] in r;
    }
    FilterAll(r, p);
  }

  /** Filters that agree on the elements of `xs` keep the same elements. */
  lemma {:induction false} FilterCongruent<T(!new)>(xs: seq<T>, p: T -> bool, q: T -> bool)
    requires forall k :: 0 <= k < |xs| ==> p(xs[k]) == q(xs[k])
    ensures Filter(xs, p) == Filter(xs, q)
    decreases |xs|
  {
    if xs != [] {
      var init := xs[..|xs| - 1];
      forall k | 0 <= k < |init| ensures p(init[k]) == q(init[k]) {
        assert init[k] == xs[k];
      }
      FilterCongruent(init, p, q);
    }
  }

  /** Two updates of the same position keep the second. */
  lemma UpdateTwice<T>(s: seq<T>, i: nat, a: T, b: T)
    requires i < |s|
    ensures s[i := a][i := b] == s[i := b]
  {
  }

  /** `ConcatMap` looks at `f` only on the elements of `xs`. */
  lemma {:induction false} ConcatMapCongruent<A, B>(xs: seq<A>, f: A -> seq<B>, g: A -> seq<B>)
    requires forall k :: 0 <= k < |xs| ==> f(xs[k]) == g(xs[k])
    ensures ConcatMap(xs, f) == ConcatMap(xs, g)
    decreases |xs|
  {
    if xs != [] {
      var init := xs[..|xs| - 1];
      assert forall k :: 0 <= k < |init| ==> init[k] == xs[k];
      ConcatMapCongruent(init, f, g);
    }
  }

  /** Membership in a nested `ConcatMap`: `y` comes from some inner element of some outer element. */
  lemma ConcatMapNestedMember<A, B, C>(xs: seq<A>, f: A -> seq<C>, inner: A -> seq<B>, g: B -> seq<C>, y: C)
    requires forall k :: 0 <= k < |xs| ==> f(xs[k]) == ConcatMap(inner(xs[k]), g)
    ensures y in ConcatMap(xs, f) <==> exists x, z :: x in xs && z in inner(x) && y in g(z)
  {
    ConcatMapMembers(xs, f);
    if y in ConcatMap(xs, f) {
      var k :| 0 <= k < |xs| && y in f(xs[k]);
      ConcatMapMembers(inner(xs[k]), g);
      var j :| 0 <= j < |inner(xs[k])| && y in g(inner(xs[k])[j]);
      assert xs[k] in xs && inner(xs[k])[j] in inner(xs[k]);
    }
    if exists x, z :: x in xs && z in inner(x) && y in g(z) {
      var x, z :| x in xs && z in inner(x) && y in g(z);
      var k :| 0 <= k < |xs| && xs[k] == x;
      ConcatMapMembers(inner(x), g);
      var j :| 0 <= j < |inner(x)| && inner(x)[j] == z;
    }
  }

  /** Membership in a `ConcatMap`, element by element. */
  lemma ConcatMapMember<A, B>(xs: seq<A>, f: A -> seq<B>, y: B)
    ensures y in ConcatMap(xs, f) <==> exists x :: x in xs && y in f(x)
  {
    ConcatMapMembers(xs, f);
    if y in ConcatMap(xs, f) {
      var k :| 0 <= k < |xs| && y in f(xs[k]);
      assert xs[k] in xs;
    }
    if exists x :: x in xs && y in f(x) {
      var x :| x in xs && y in f(x);
      var k :| 0 <= k < |xs| && xs[k] == x;
    }
  }

  /** Some element satisfies `p` exactly when one before the last does or the last does. */
  lemma ExistsSnoc<T>(xs: seq<T>, init: seq<T>, p: T -> bool)
    requires xs != [] && init == xs[..|xs| - 1]
    ensures (exists k :: 0 <= k < |xs| && p(xs[k]))
      <==> (exists k :: 0 <= k < |init| && p(init[k])) || p(xs[|xs| - 1])
  {
    if exists k :: 0 <= k < |xs| && p(xs[k]) {
      var k :| 0 <= k < |xs| && p(xs[k]);
      if k < |init| {
        assert init[k] == xs[k];
      }
    }
    if exists k :: 0 <= k < |init| && p(init[k]) {
      var k :| 0 <= k < |init| && p(init[k]);
      assert xs[k] == init[k];
    }
  }

  /** A map giving one element per input yields one element per input, in order. */
  lemma {:induction false} ConcatMapSingletons<A, B>(xs: seq<A>, f: A -> seq<B>)
    requires forall k :: 0 <= k < |xs| ==> |f(xs[k])| == 1
    ensures |ConcatMap(xs, f)| == |xs|
    ensures forall k :: 0 <= k < |xs| ==> ConcatMap(xs, f)[k] == f(xs[k])[0]
    decreases |xs|
  {
    if xs != [] {
      var init := xs[..|xs| - 1];
      forall k | 0 <= k < |init| ensures |f(init[k])| == 1 {
        assert init[k] == xs[k];
      }
      ConcatMapSingletons(init, f);
      forall k | 0 <= k < |xs| ensures ConcatMap(xs, f)[k] == f(xs[k])[0] {
        if k < |init| {
          assert init[k] == xs[k];
        }
      }
    }
  }
}
