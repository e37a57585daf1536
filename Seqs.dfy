/** Ordered deduplication, filtering and mapping over sequences, with the
    facts the generators rely on: no repeats, nothing lost, first-appearance
    order kept, and independence from the order of the input. */
module Seqs {

  predicate Distinct<T(==)>(s: seq<T>)
  {
    forall i, j :: 0 <= i < j < |s| ==> s[i] != s[j]
  }

  /** Index of the first occurrence of `x` in `s`. */
  function FirstIndex<T(==)>(s: seq<T>, x: T): (r: nat)
    requires x in s
    ensures r < |s| && s[r] == x
  {
    if s[0] == x then 0 else 1 + FirstIndex(s[1..], x)
  }

  lemma {:induction false} FirstIndexMinimal<T>(s: seq<T>, x: T, k: int)
    requires x in s && 0 <= k < |s| && s[k] == x
    ensures FirstIndex(s, x) <= k
  {
    if s[0] != x {
      FirstIndexMinimal(s[1..], x, k - 1);
    }
  }

  lemma FirstIndexPrefix<T>(s: seq<T>, n: nat, x: T)
    requires n <= |s| && x in s[..n]
    ensures x in s && FirstIndex(s, x) == FirstIndex(s[..n], x)
  {
    var p := FirstIndex(s[..n], x);
    assert s[..n][p] == s[p];
    FirstIndexMinimal(s, x, p);
    var q := FirstIndex(s, x);
    assert s[..n][q] == s[q];
    FirstIndexMinimal(s[..n], x, q);
  }

  /** `s` lists elements of `source` by increasing first appearance there. */
  predicate FirstAppearanceOrder<T(==)>(s: seq<T>, source: seq<T>)
  {
    (forall i :: 0 <= i < |s| ==> s[i] in source) &&
    forall i, j :: 0 <= i < j < |s| ==> FirstIndex(source, s[i]) < FirstIndex(source, s[j])
  }

  /** The elements of `s` in order of first appearance, each once: what adding
      them one by one to a JavaScript `Set` and reading it back gives. */
  function Dedupe<T(==)>(s: seq<T>): seq<T>
  {
    if s == [] then []
    else
      var d := Dedupe(s[..|s| - 1]);
      if s[|s| - 1] in d then d else d + [s[|s| - 1]]
  }

  /** The distinct elements of `s` other than `x`. */
  function Others<T(==)>(s: seq<T>, x: T): set<T>
  {
    set y | y in s && y != x
  }

  /** One more element read: what the loop that fills the `Set` does. */
  lemma DedupeStep<T>(s: seq<T>, i: int)
    requires 0 <= i < |s|
    ensures Dedupe(s[..i + 1]) == if s[i] in Dedupe(s[..i]) then Dedupe(s[..i]) else Dedupe(s[..i]) + [s[i]]
  {
    assert s[..i + 1][..i] == s[..i];
  }

  /** `s` without the occurrences of `x`, the rest in order. */
  function Without<T(==)>(s: seq<T>, x: T): seq<T>
  {
    if s == [] then []
    else
      var rest := Without(s[..|s| - 1], x);
      if s[|s| - 1] == x then rest else rest + [s[|s| - 1]]
  }

  lemma {:induction false} DedupeMembers<T>(s: seq<T>)
    ensures forall x :: x in Dedupe(s) <==> x in s
    decreases |s|
  {
    if s != [] {
      DedupeMembers(s[..|s| - 1]);
      assert s == s[..|s| - 1] + [s[|s| - 1]];
    }
  }

  lemma {:induction false} DedupeDistinct<T>(s: seq<T>)
    ensures Distinct(Dedupe(s))
    decreases |s|
  {
    if s != [] {
      DedupeDistinct(s[..|s| - 1]);
    }
  }

  lemma {:induction false} DedupeOrder<T>(s: seq<T>)
    ensures FirstAppearanceOrder(Dedupe(s), s)
    decreases |s|
  {
    DedupeMembers(s);
    if s != [] {
      var n := |s|;
      var init := s[..n - 1];
      var x := s[n - 1];
      var d := Dedupe(init);
      DedupeOrder(init);
      DedupeMembers(init);
      var r := Dedupe(s);
      forall i, j | 0 <= i < j < |r| ensures FirstIndex(s, r[i]) < FirstIndex(s, r[j]) {
        assert r[i] == d[i];
        FirstIndexPrefix(s, n - 1, r[i]);
        if j < |d| {
          assert r[j] == d[j];
          FirstIndexPrefix(s, n - 1, r[j]);
        } else {
          assert r[j] == x && x !in init;
        }
      }
    }
  }

  /** Deduplication keeps each element once, drops nothing, and keeps the order
      of first appearance. */
  lemma DedupeSpec<T>(s: seq<T>)
    ensures forall x :: x in Dedupe(s) <==> x in s
    ensures Distinct(Dedupe(s))
    ensures FirstAppearanceOrder(Dedupe(s), s)
  {
    DedupeMembers(s);
    DedupeDistinct(s);
    DedupeOrder(s);
  }

  lemma {:induction false} WithoutMembers<T>(s: seq<T>, x: T)
    ensures forall y :: y in Without(s, x) <==> y in s && y != x
    decreases |s|
  {
    if s != [] {
      WithoutMembers(s[..|s| - 1], x);
      assert s == s[..|s| - 1] + [s[|s| - 1]];
    }
  }

  lemma {:induction false} WithoutDistinct<T>(s: seq<T>, x: T)
    requires Distinct(s)
    ensures Distinct(Without(s, x))
    decreases |s|
  {
    if s != [] {
      var n := |s|;
      var init := s[..n - 1];
      WithoutDistinct(init, x);
      WithoutMembers(init, x);
      assert forall k :: 0 <= k < n - 1 ==> init[k] == s[k];
      assert s[n - 1] !in init;
    }
  }

  lemma {:induction false} WithoutOrder<T>(s: seq<T>, x: T, source: seq<T>)
    requires FirstAppearanceOrder(s, source)
    ensures FirstAppearanceOrder(Without(s, x), source)
    decreases |s|
  {
    if s != [] {
      var n := |s|;
      var init := s[..n - 1];
      WithoutOrder(init, x, source);
      WithoutMembers(init, x);
      var rest := Without(init, x);
      if s[n - 1] != x {
        var r := rest + [s[n - 1]];
        forall i, j | 0 <= i < j < |r| ensures FirstIndex(source, r[i]) < FirstIndex(source, r[j]) {
          if j < |rest| {
            assert r[i] == rest[i] && r[j] == rest[j];
          } else {
            assert r[i] == rest[i] && rest[i] in init;
            var k :| 0 <= k < n - 1 && init[k] == r[i];
            assert s[k] == r[i];
          }
        }
      }
    }
  }

  /** Without repeats, one element survives per distinct element other than `x`. */
  lemma {:induction false} WithoutCount<T>(s: seq<T>, x: T)
    requires Distinct(s)
    ensures |Without(s, x)| == |Others(s, x)|
    decreases |s|
  {
    if s != [] {
      var n := |s|;
      var init := s[..n - 1];
      var last := s[n - 1];
      WithoutCount(init, x);
      var before := Others(init, x);
      var after := Others(s, x);
      assert s == init + [last];
      if last == x {
        assert after == before;
      } else {
        assert after == before + {last};
      }
    }
  }

  // Proof steps the solver does not always take unaided; they state no
  // property of the modelled code.

  lemma AppendAssociative<T>(a: seq<T>, b: seq<T>, c: seq<T>)
    ensures a + b + c == a + (b + c)
  {
  }

  lemma AppendEmpty<T>(a: seq<T>)
    ensures a + [] == a && [] + a == a
  {
  }

  /** `Array.prototype.filter(p)`: the elements satisfying `p`, in order. */
  function Filter<T>(p: T -> bool, s: seq<T>): seq<T>
  {
    if s == [] then []
    else Filter(p, s[..|s| - 1]) + if p(s[|s| - 1]) then [s[|s| - 1]] else []
  }

  /** `Array.prototype.map(f)`. */
  function Map<T, U>(f: T -> U, s: seq<T>): (r: seq<U>)
    ensures |r| == |s|
  {
    if s == [] then [] else Map(f, s[..|s| - 1]) + [f(s[|s| - 1])]
  }

  lemma {:induction false} FilterAppend<T>(p: T -> bool, a: seq<T>, b: seq<T>)
    ensures Filter(p, a + b) == Filter(p, a) + Filter(p, b)
    decreases |b|
  {
    if b == [] {
      assert a + b == a;
    } else {
      var n := |b|;
      assert (a + b)[..|a + b| - 1] == a + b[..n - 1];
      FilterAppend(p, a, b[..n - 1]);
    }
  }

  lemma {:induction false} MapIndex<T, U>(f: T -> U, s: seq<T>)
    ensures forall i :: 0 <= i < |s| ==> Map(f, s)[i] == f(s[i])
    decreases |s|
  {
    if s != [] {
      MapIndex(f, s[..|s| - 1]);
    }
  }

  /** Proof step: the map of a prefix is a prefix of the map. */
  lemma MapPrefix<T, U>(f: T -> U, s: seq<T>)
    requires s != []
    ensures Map(f, s[..|s| - 1]) == Map(f, s)[..|s| - 1]
  {
  }

  lemma MapAppend<T, U>(f: T -> U, a: seq<T>, b: seq<T>)
    ensures Map(f, a + b) == Map(f, a) + Map(f, b)
  {
    var r := Map(f, a + b);
    MapIndex(f, a + b);
    MapIndex(f, a);
    MapIndex(f, b);
    forall i | 0 <= i < |r| ensures r[i] == (Map(f, a) + Map(f, b))[i] {
      if i >= |a| {
        assert (a + b)[i] == b[i - |a|];
      }
    }
  }

  /** How often `x` survives the filter: as often as in `s` if it passes, else
      never. */
  lemma {:induction false} FilterCount<T>(p: T -> bool, s: seq<T>, x: T)
    ensures multiset(Filter(p, s))[x] == if p(x) then multiset(s)[x] else 0
    decreases |s|
  {
    if s != [] {
      var n := |s|;
      FilterCount(p, s[..n - 1], x);
      assert s == s[..n - 1] + [s[n - 1]];
    }
  }

  lemma FilterMembers<T>(p: T -> bool, s: seq<T>, x: T)
    ensures x in Filter(p, s) <==> x in s && p(x)
  {
    FilterCount(p, s, x);
  }

  /** Proof step: multisets agreeing on every count are equal. */
  lemma MultisetExtensional<T>(a: multiset<T>, b: multiset<T>)
    requires forall x :: a[x] == b[x]
    ensures a == b
  {
  }

  /** Filtering two orderings of the same elements gives two orderings of the
      same elements. */
  lemma FilterPermutation<T>(p: T -> bool, a: seq<T>, b: seq<T>)
    requires multiset(a) == multiset(b)
    ensures multiset(Filter(p, a)) == multiset(Filter(p, b))
  {
    var fa, fb := multiset(Filter(p, a)), multiset(Filter(p, b));
    forall x ensures fa[x] == fb[x] {
      FilterCount(p, a, x);
      FilterCount(p, b, x);
    }
    MultisetExtensional(fa, fb);
  }

  /** Mapping two orderings of the same elements gives two orderings of the
      same images. */
  lemma {:induction false} MapPermutation<T, U>(f: T -> U, a: seq<T>, b: seq<T>)
    requires multiset(a) == multiset(b)
    ensures multiset(Map(f, a)) == multiset(Map(f, b))
    decreases |a|
  {
    if a != [] {
      var n := |a|;
      var x := a[n - 1];
      assert a == a[..n - 1] + [x];
      assert x in multiset(b);
      var i :| 0 <= i < |b| && b[i] == x;
      var rest := b[..i] + b[i + 1..];
      assert b == b[..i] + [x] + b[i + 1..];
      var ma, mb, mr := multiset(a[..n - 1]), multiset(b), multiset(rest);
      assert multiset(a) == ma + multiset{x};
      assert mb == multiset(b[..i]) + multiset{x} + multiset(b[i + 1..]);
      assert mr == multiset(b[..i]) + multiset(b[i + 1..]);
      forall y ensures ma[y] == mr[y] {
        assert ma[y] + multiset{x}[y] == mb[y];
      }
      MultisetExtensional(ma, mr);
      MapPermutation(f, a[..n - 1], rest);
      MapAppend(f, b[..i], b[i + 1..]);
      MapAppend(f, b[..i] + [x], b[i + 1..]);
      MapAppend(f, b[..i], [x]);
    }
  }
}
