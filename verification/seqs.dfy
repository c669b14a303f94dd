/** Order-preserving selection (`Array.prototype.filter`) and the subsequence
    relation it establishes. */
module Seqs {

  /** `xs.filter(p)`. */
  function Keep<T>(xs: seq<T>, p: T -> bool): seq<T>
    decreases |xs|
  {
    if |xs| == 0 then [] else (if p(xs[0]) then [xs[0]] else []) + Keep(xs[1..], p)
  }

  /** `a` is obtained from `b` by deleting elements, without reordering. */
  predicate IsSubseq<T(==)>(a: seq<T>, b: seq<T>)
    decreases |b|
  {
    |a| == 0 || (|b| > 0 && ((a[0] == b[0] && IsSubseq(a[1..], b[1..])) || IsSubseq(a, b[1..])))
  }

  /** `filter` keeps exactly the elements satisfying `p`, in their original order. */
  lemma {:induction false} KeepSpec<T>(xs: seq<T>, p: T -> bool)
    ensures forall x :: x in Keep(xs, p) <==> x in xs && p(x)
    ensures IsSubseq(Keep(xs, p), xs)
    ensures |Keep(xs, p)| <= |xs|
    decreases |xs|
  {
    if |xs| > 0 {
      KeepSpec(xs[1..], p);
      var r := Keep(xs, p);
      var rest := Keep(xs[1..], p);
      forall x ensures x in r <==> x in xs && p(x) {
        assert x in xs <==> x == xs[0] || x in xs[1..];
      }
      if p(xs[0]) {
        assert r[0] == xs[0] && r[1..] == rest;
      } else {
        assert r == rest;
      }
    }
  }

  /** Keeping with a stronger predicate selects a subsequence of what the weaker one keeps. */
  lemma {:induction false} KeepStronger<T>(xs: seq<T>, p: T -> bool, q: T -> bool)
    requires forall x :: x in xs && q(x) ==> p(x)
    ensures IsSubseq(Keep(xs, q), Keep(xs, p))
    decreases |xs|
  {
    if |xs| > 0 {
      KeepStronger(xs[1..], p, q);
      var a := Keep(xs[1..], q);
      var b := Keep(xs[1..], p);
      if q(xs[0]) {
        assert Keep(xs, q) == [xs[0]] + a && Keep(xs, p) == [xs[0]] + b;
        assert ([xs[0]] + a)[1..] == a && ([xs[0]] + b)[1..] == b;
      } else if p(xs[0]) {
        assert Keep(xs, q) == a && Keep(xs, p) == [xs[0]] + b;
        assert ([xs[0]] + b)[1..] == b;
      } else {
        assert Keep(xs, q) == a && Keep(xs, p) == b;
      }
    }
  }

  /** Keeping with a predicate that holds everywhere returns the input unchanged. */
  lemma {:induction false} KeepAll<T>(xs: seq<T>, p: T -> bool)
    requires forall x :: x in xs ==> p(x)
    ensures Keep(xs, p) == xs
    decreases |xs|
  {
    if |xs| > 0 {
      KeepAll(xs[1..], p);
      assert xs == [xs[0]] + xs[1..];
    }
  }

  /** Two predicates that agree on every element select the same elements. */
  lemma {:induction false} KeepCongruent<T>(xs: seq<T>, p: T -> bool, q: T -> bool)
    requires forall x :: x in xs ==> p(x) == q(x)
    ensures Keep(xs, p) == Keep(xs, q)
    decreases |xs|
  {
    if |xs| > 0 {
      KeepCongruent(xs[1..], p, q);
    }
  }

  /** Every element of a list with no repeated element is at a single index. */
  predicate NoDuplicates<T(==)>(xs: seq<T>) {
    forall i, j :: 0 <= i < j < |xs| ==> xs[i] != xs[j]
  }

  /** Concatenation of a list of lists, `xss.flat()`. */
  function Flatten<T>(xss: seq<seq<T>>): seq<T>
    decreases |xss|
  {
    if |xss| == 0 then [] else xss[0] + Flatten(xss[1..])
  }

  lemma {:induction false} FlattenMember<T>(xss: seq<seq<T>>, x: T)
    ensures x in Flatten(xss) <==> exists i :: 0 <= i < |xss| && x in xss[i]
    decreases |xss|
  {
    if |xss| > 0 {
      FlattenMember(xss[1..], x);
      if x in xss[0] {
        assert 0 < |xss| && x in xss[0];
      }
      if exists i :: 0 <= i < |xss| && x in xss[i] {
        var i :| 0 <= i < |xss| && x in xss[i];
        if i > 0 {
          assert x in xss[1..][i - 1];
        }
      }
      if exists i :: 0 <= i < |xss| - 1 && x in xss[1..][i] {
        var i :| 0 <= i < |xss| - 1 && x in xss[1..][i];
        assert x in xss[i + 1];
      }
    }
  }
}
