/**
 * Insertion-ordered distinct values.  Both halves of the plugin build one:
 * PHP keys an associative array by category (arrays keep their keys in
 * insertion order), and the slider script spreads a Set into an array.
 */
module Seqs {

  predicate NoDuplicates<T(==)>(xs: seq<T>) {
    forall i, j :: 0 <= i < j < |xs| ==> xs[i] != xs[j]
  }

  /** Index of the first occurrence of `x` in `xs`. */
  function FirstIndex<T(==,!new)>(xs: seq<T>, x: T): (i: nat)
    requires x in xs
    ensures i < |xs| && xs[i] == x
    ensures forall k :: 0 <= k < i ==> xs[k] != x
  {
    if xs[0] == x then 0 else 1 + FirstIndex(xs[1..], x)
  }

  /** A value that occurs in a prefix has the same first index in the whole sequence. */
  lemma {:induction false} FirstIndexPrefix<T(!new)>(xs: seq<T>, n: nat, x: T)
    requires n <= |xs| && x in xs[..n]
    ensures x in xs && FirstIndex(xs, x) == FirstIndex(xs[..n], x)
  {
    assert xs[..n][0] == xs[0];
    if xs[0] != x {
      assert xs[1..][..n - 1] == xs[..n][1..];
      FirstIndexPrefix(xs[1..], n - 1, x);
    }
  }

  /**
   * The distinct values of `xs`, each where it first appears.  Built the
   * way the source builds it: walk `xs`, adding a value only if it is not
   * there yet.
   */
  function Distinct<T(==,!new)>(xs: seq<T>): (r: seq<T>)
    ensures NoDuplicates(r)
    ensures forall x :: x in r <==> x in xs
    ensures |r| <= |xs|
  {
    if xs == [] then []
    else
      var init := xs[..|xs| - 1];
      var last := xs[|xs| - 1];
      var r := Distinct(init);
      assert forall x :: x in xs <==> x in init || x == last by {
        assert xs == init + [last];
      }
      if last in r then r else r + [last]
  }

  /** Distinct keeps first-appearance order: earlier in the result means appearing earlier in the input. */
  lemma {:induction false} DistinctOrder<T(!new)>(xs: seq<T>, i: nat, j: nat)
    requires i < j < |Distinct(xs)|
    ensures FirstIndex(xs, Distinct(xs)[i]) < FirstIndex(xs, Distinct(xs)[j])
  {
    var n := |xs| - 1;
    var init := xs[..n];
    var r := Distinct(init);
    var d := Distinct(xs);
    assert xs == init + [xs[n]];
    if xs[n] in r {
      assert d == r;
      DistinctOrder(init, i, j);
      FirstIndexPrefix(xs, n, d[i]);
      FirstIndexPrefix(xs, n, d[j]);
    } else {
      assert d == r + [xs[n]];
      FirstIndexPrefix(xs, n, d[i]);
      if j < |r| {
        DistinctOrder(init, i, j);
        FirstIndexPrefix(xs, n, d[j]);
      } else {
        assert d[j] == xs[n] && d[j] !in init;
        assert FirstIndex(xs, d[j]) == n;
      }
    }
  }

  /** The elements of `xs` that satisfy `p`, in order (PHP array_filter, JavaScript Array.prototype.filter). */
  function Filter<T>(xs: seq<T>, p: T -> bool): seq<T> {
    if xs == [] then [] else (if p(xs[0]) then [xs[0]] else []) + Filter(xs[1..], p)
  }

  /** Exactly the elements that satisfy `p` are kept, and the result is no longer than the input. */
  lemma {:induction false} FilterSpec<T>(xs: seq<T>, p: T -> bool)
    ensures forall x :: x in Filter(xs, p) <==> x in xs && p(x)
    ensures |Filter(xs, p)| <= |xs|
  {
    if xs != [] {
      FilterSpec(xs[1..], p);
      assert xs == [xs[0]] + xs[1..];
    }
  }

  /** Every element of the result is an element of the input that satisfies `p`. */
  lemma {:induction false} FilterElement<T>(xs: seq<T>, p: T -> bool, i: nat)
    requires i < |Filter(xs, p)|
    ensures Filter(xs, p)[i] in xs && p(Filter(xs, p)[i])
  {
    var t := Filter(xs[1..], p);
    if p(xs[0]) {
      if i > 0 {
        assert Filter(xs, p)[i] == t[i - 1];
        FilterElement(xs[1..], p, i - 1);
      }
    } else {
      FilterElement(xs[1..], p, i);
    }
  }

  /** Filtering a sequence extended at the end. */
  lemma {:induction false} FilterSnoc<T>(xs: seq<T>, x: T, p: T -> bool)
    ensures Filter(xs + [x], p) == Filter(xs, p) + (if p(x) then [x] else [])
  {
    if xs != [] {
      assert (xs + [x])[1..] == xs[1..] + [x];
      FilterSnoc(xs[1..], x, p);
    } else {
      assert Filter([x], p) == (if p(x) then [x] else []) + Filter([], p);
    }
  }

  /** Two tests that agree on the elements keep the same elements. */
  lemma {:induction false} FilterCongruent<T>(xs: seq<T>, p: T -> bool, q: T -> bool)
    requires forall x :: x in xs ==> p(x) == q(x)
    ensures Filter(xs, p) == Filter(xs, q)
  {
    if xs != [] {
      assert forall x :: x in xs[1..] ==> x in xs;
      FilterCongruent(xs[1..], p, q);
    }
  }

  /** Filtering keeps a sequence free of duplicates. */
  lemma {:induction false} FilterNoDuplicates<T>(xs: seq<T>, p: T -> bool)
    requires NoDuplicates(xs)
    ensures NoDuplicates(Filter(xs, p))
  {
    if xs != [] {
      var t := Filter(xs[1..], p);
      FilterNoDuplicates(xs[1..], p);
      FilterSpec(xs[1..], p);
      if p(xs[0]) {
        assert xs[0] !in xs[1..];
        var w := [xs[0]] + t;
        forall i, j | 0 <= i < j < |w|
          ensures w[i] != w[j]
        {
          assert w[j] == t[j - 1];
          if i > 0 {
            assert w[i] == t[i - 1];
          }
        }
      }
    }
  }

  /** Filtering keeps the relative order of what it keeps: a subsequence, position by position. */
  lemma {:induction false} FilterOrder<T>(xs: seq<T>, p: T -> bool, i: nat, j: nat)
    requires i < j < |Filter(xs, p)|
    ensures exists a, b :: 0 <= a < b < |xs| && xs[a] == Filter(xs, p)[i] && xs[b] == Filter(xs, p)[j]
  {
    var w := Filter(xs, p);
    var t := Filter(xs[1..], p);
    FilterSpec(xs[1..], p);
    if !p(xs[0]) {
      assert w == t;
      FilterOrder(xs[1..], p, i, j);
      var a, b :| 0 <= a < b < |xs[1..]| && xs[1..][a] == t[i] && xs[1..][b] == t[j];
      assert xs[a + 1] == w[i] && xs[b + 1] == w[j];
    } else if i == 0 {
      assert w[0] == xs[0] && w[j] == t[j - 1];
      FilterElement(xs[1..], p, j - 1);
      var b :| 0 <= b < |xs[1..]| && xs[1..][b] == w[j];
      assert xs[b + 1] == w[j];
    } else {
      assert w[i] == t[i - 1] && w[j] == t[j - 1];
      FilterOrder(xs[1..], p, i - 1, j - 1);
      var a, b :| 0 <= a < b < |xs[1..]| && xs[1..][a] == t[i - 1] && xs[1..][b] == t[j - 1];
      assert xs[a + 1] == w[i] && xs[b + 1] == w[j];
    }
  }

  /** The first `n` elements, or all of them when there are fewer (array_slice($a, 0, n), Array.prototype.slice(0, n)). */
  function Take<T>(xs: seq<T>, n: nat): (r: seq<T>)
    ensures |r| <= n && r <= xs
    ensures |r| < n ==> r == xs
  {
    if |xs| <= n then xs else xs[..n]
  }
}
