/**
 * The orders the dashboards sort by: `sorted(...)` over years (integers) and over
 * category labels (Python strings, compared code point by code point), and the
 * `sorted(x.unique())` idiom that turns a column into a duplicate-free menu.
 */
module Ordering {

  /** `lt` is irreflexive, transitive and relates any two distinct values. */
  ghost predicate IsStrictTotalOrder<T(!new)>(lt: (T, T) -> bool) {
    && (forall a :: !lt(a, a))
    && (forall a, b, c :: lt(a, b) && lt(b, c) ==> lt(a, c))
    && (forall a, b :: a != b ==> lt(a, b) || lt(b, a))
  }

  predicate StrictlyIncreasing<T>(s: seq<T>, lt: (T, T) -> bool) {
    forall i, j :: 0 <= i < j < |s| ==> lt(s[i], s[j])
  }

  predicate Distinct<T(==)>(s: seq<T>) {
    forall i, j :: 0 <= i < j < |s| ==> s[i] != s[j]
  }

  /** Python's `<` on integers. */
  predicate IntLess(a: int, b: int) {
    a < b
  }

  /** Python's `<` on strings: lexicographic by code point, a proper prefix first. */
  predicate StrLess(a: string, b: string) {
    if a == [] then b != []
    else if b == [] then false
    else if a[0] == b[0] then StrLess(a[1..], b[1..])
    else a[0] < b[0]
  }

  lemma {:induction false} StrLessIrreflexive(a: string)
    ensures !StrLess(a, a)
  {
    if a != [] {
      StrLessIrreflexive(a[1..]);
    }
  }

  lemma {:induction false} StrLessTransitive(a: string, b: string, c: string)
    requires StrLess(a, b) && StrLess(b, c)
    ensures StrLess(a, c)
  {
    if a != [] && a[0] == b[0] && b[0] == c[0] {
      StrLessTransitive(a[1..], b[1..], c[1..]);
    }
  }

  lemma {:induction false} StrLessTotal(a: string, b: string)
    requires a != b
    ensures StrLess(a, b) || StrLess(b, a)
  {
    if a != [] && b != [] && a[0] == b[0] {
      assert a == [a[0]] + a[1..] && b == [b[0]] + b[1..];
      StrLessTotal(a[1..], b[1..]);
    }
  }

  lemma IntLessIsStrictTotalOrder()
    ensures IsStrictTotalOrder(IntLess)
  {
  }

  /** String comparison is a strict total order, so `sorted` on labels is well defined. */
  lemma StrLessIsStrictTotalOrder()
    ensures IsStrictTotalOrder(StrLess)
  {
    forall a | true ensures !StrLess(a, a) {
      StrLessIrreflexive(a);
    }
    forall a, b, c | StrLess(a, b) && StrLess(b, c) ensures StrLess(a, c) {
      StrLessTransitive(a, b, c);
    }
    forall a, b | a != b ensures StrLess(a, b) || StrLess(b, a) {
      StrLessTotal(a, b);
    }
  }

  lemma StrictlyIncreasingIsDistinct<T(!new)>(s: seq<T>, lt: (T, T) -> bool)
    requires IsStrictTotalOrder(lt) && StrictlyIncreasing(s, lt)
    ensures Distinct(s)
  {
  }

  /** Adds `x` to a strictly increasing sequence, keeping it strictly increasing. */
  function Insert<T(==,!new)>(x: T, s: seq<T>, lt: (T, T) -> bool): (r: seq<T>)
    requires IsStrictTotalOrder(lt) && StrictlyIncreasing(s, lt)
    ensures StrictlyIncreasing(r, lt)
    ensures forall y :: y in r <==> y == x || y in s
  {
    if s == [] then [x]
    else if x == s[0] then s
    else if lt(x, s[0]) then
      assert forall k :: 0 <= k < |s| ==> lt(x, s[k]);
      [x] + s
    else
      var tail := Insert(x, s[1..], lt);
      assert forall y :: y in tail ==> lt(s[0], y);
      [s[0]] + tail
  }

  /**
   * `sorted(xs.unique())`: the values of `xs`, each once, in increasing order.
   */
  function SortedUnique<T(==,!new)>(xs: seq<T>, lt: (T, T) -> bool): (r: seq<T>)
    requires IsStrictTotalOrder(lt)
    ensures StrictlyIncreasing(r, lt)
    ensures forall y :: y in r <==> y in xs
  {
    if xs == [] then []
    else Insert(xs[|xs| - 1], SortedUnique(xs[..|xs| - 1], lt), lt)
  }

  /**
   * A strictly increasing sequence is determined by its elements: whatever order the
   * values are met in, the menu built from them is the same.
   */
  lemma {:induction false} StrictlyIncreasingIsCanonical<T(!new)>(r1: seq<T>, r2: seq<T>, lt: (T, T) -> bool)
    requires IsStrictTotalOrder(lt)
    requires StrictlyIncreasing(r1, lt) && StrictlyIncreasing(r2, lt)
    requires forall y :: y in r1 <==> y in r2
    ensures r1 == r2
  {
    assert |r1| > 0 ==> r1[0] in r2;
    assert |r2| > 0 ==> r2[0] in r1;
    if r1 != [] && r2 != [] {
      var k :| 0 <= k < |r1| && r1[k] == r2[0];
      var m :| 0 <= m < |r2| && r2[m] == r1[0];
      assert lt(r1[0], r1[k]) || r1[0] == r1[k];
      assert lt(r2[0], r2[m]) || r2[0] == r2[m];
      assert r1[0] == r2[0];
      forall y ensures y in r1[1..] <==> y in r2[1..] {
        if y in r1[1..] {
          var i :| 1 <= i < |r1| && r1[i] == y;
          assert lt(r1[0], r1[i]) && y in r1;
          var j :| 0 <= j < |r2| && r2[j] == y;
          assert j != 0;
          assert r2[1..][j - 1] == y;
        }
        if y in r2[1..] {
          var j :| 1 <= j < |r2| && r2[j] == y;
          assert lt(r2[0], r2[j]) && y in r2;
          var i :| 0 <= i < |r1| && r1[i] == y;
          assert i != 0;
          assert r1[1..][i - 1] == y;
        }
      }
      StrictlyIncreasingIsCanonical(r1[1..], r2[1..], lt);
      assert r1 == [r1[0]] + r1[1..] && r2 == [r2[0]] + r2[1..];
    }
  }

  /** `sorted(xs.unique())` is the only strictly increasing sequence holding exactly the values of `xs`. */
  lemma SortedUniqueIsCanonical<T(!new)>(xs: seq<T>, lt: (T, T) -> bool, r: seq<T>)
    requires IsStrictTotalOrder(lt)
    requires StrictlyIncreasing(r, lt) && forall y :: y in r <==> y in xs
    ensures SortedUnique(xs, lt) == r
  {
    StrictlyIncreasingIsCanonical(SortedUnique(xs, lt), r, lt);
  }

  /** `a` can be read off `b` by deleting elements, keeping order. */
  predicate IsSubsequence<T(==)>(a: seq<T>, b: seq<T>)
    decreases |b|
  {
    if a == [] then true
    else if b == [] then false
    else if a[0] == b[0] then IsSubsequence(a[1..], b[1..])
    else IsSubsequence(a, b[1..])
  }

  lemma {:induction false} SubsequenceDropHead<T>(a: seq<T>, b: seq<T>)
    requires a != [] && IsSubsequence(a, b)
    ensures IsSubsequence(a[1..], b)
    decreases |b|
  {
    if a[0] == b[0] {
      SubsequenceOfTail(a[1..], b);
    } else {
      SubsequenceDropHead(a, b[1..]);
      SubsequenceOfTail(a[1..], b);
    }
  }

  lemma {:induction false} SubsequenceOfTail<T>(a: seq<T>, b: seq<T>)
    requires b != [] && IsSubsequence(a, b[1..])
    ensures IsSubsequence(a, b)
    decreases |b|, 0
  {
    if a != [] && a[0] == b[0] {
      SubsequenceDropHead(a, b[1..]);
    }
  }

  lemma {:induction false} SubsequenceMembers<T>(a: seq<T>, b: seq<T>)
    requires IsSubsequence(a, b)
    ensures forall y :: y in a ==> y in b
    decreases |b|
  {
    if a != [] && b != [] {
      if a[0] == b[0] {
        SubsequenceMembers(a[1..], b[1..]);
        assert forall y :: y in a ==> y == a[0] || y in a[1..];
      } else {
        SubsequenceMembers(a, b[1..]);
      }
    }
  }

  /** Deleting elements from a strictly increasing sequence leaves one. */
  lemma {:induction false} SubsequenceKeepsOrder<T(!new)>(a: seq<T>, b: seq<T>, lt: (T, T) -> bool)
    requires IsSubsequence(a, b) && StrictlyIncreasing(b, lt)
    ensures StrictlyIncreasing(a, lt)
    decreases |b|
  {
    if a != [] && b != [] {
      if a[0] == b[0] {
        SubsequenceKeepsOrder(a[1..], b[1..], lt);
        SubsequenceMembers(a[1..], b[1..]);
        forall j | 0 < j < |a| ensures lt(a[0], a[j]) {
          assert a[j] in a[1..];
          var k :| 0 <= k < |b| - 1 && b[1..][k] == a[j];
          assert b[k + 1] == a[j];
        }
      } else {
        SubsequenceKeepsOrder(a, b[1..], lt);
      }
    }
  }

  /** Deleting elements from a duplicate-free sequence leaves one. */
  lemma {:induction false} SubsequenceKeepsDistinct<T>(a: seq<T>, b: seq<T>)
    requires IsSubsequence(a, b) && Distinct(b)
    ensures Distinct(a)
    decreases |b|
  {
    if a != [] && b != [] {
      if a[0] == b[0] {
        SubsequenceKeepsDistinct(a[1..], b[1..]);
        SubsequenceMembers(a[1..], b[1..]);
        forall j | 0 < j < |a| ensures a[0] != a[j] {
          assert a[j] in a[1..];
          var k :| 0 <= k < |b| - 1 && b[1..][k] == a[j];
          assert b[k + 1] == a[j];
        }
      } else {
        SubsequenceKeepsDistinct(a, b[1..]);
      }
    }
  }
}
