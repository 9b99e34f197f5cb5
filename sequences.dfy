/**
 * Order-preserving filtering of a sequence and the "subsequence of" relation,
 * with the facts the format-list reconciliation is proved from.
 */
module Sequences {

  /** The elements of `s` that satisfy `keep`, in the order of `s`. */
  function Filter<T>(s: seq<T>, keep: T -> bool): seq<T>
  {
    if s == [] then [] else (if keep(s[0]) then [s[0]] else []) + Filter(s[1..], keep)
  }

  /** No element occurs twice. */
  ghost predicate Distinct<T>(s: seq<T>)
  {
    forall i, j :: 0 <= i < j < |s| ==> s[i] != s[j]
  }

  /** `r` is obtained from `s` by deleting elements: its elements occur in `s` in the same order. */
  ghost predicate IsSubsequence<T>(r: seq<T>, s: seq<T>)
    decreases |s|
  {
    if r == [] then true
    else if s == [] then false
    else (r[0] == s[0] && IsSubsequence(r[1..], s[1..])) || IsSubsequence(r, s[1..])
  }

  /** An element is kept exactly when it is in `s` and satisfies `keep`. */
  lemma {:induction false} FilterMembers<T>(s: seq<T>, keep: T -> bool, x: T)
    ensures x in Filter(s, keep) <==> x in s && keep(x)
    decreases |s|
  {
    if s != [] {
      FilterMembers(s[1..], keep, x);
      assert s == [s[0]] + s[1..];
    }
  }

  /** Filtering a sequence extended by one element decides on that element last. */
  lemma {:induction false} FilterSnoc<T>(s: seq<T>, keep: T -> bool, x: T)
    ensures Filter(s + [x], keep) == Filter(s, keep) + (if keep(x) then [x] else [])
    decreases |s|
  {
    if s == [] {
      assert [] + [x] == [x] && [x][1..] == [];
    } else {
      var t := s + [x];
      assert t != [] && t[0] == s[0] && t[1..] == s[1..] + [x];
      FilterSnoc(s[1..], keep, x);
      assert Filter(t, keep) == (if keep(s[0]) then [s[0]] else []) + Filter(s[1..] + [x], keep);
    }
  }

  /** Two filters that agree on every element of `s` select the same sequence. */
  lemma {:induction false} FilterCongruent<T>(s: seq<T>, keep1: T -> bool, keep2: T -> bool)
    requires forall i :: 0 <= i < |s| ==> keep1(s[i]) == keep2(s[i])
    ensures Filter(s, keep1) == Filter(s, keep2)
    decreases |s|
  {
    if s != [] {
      assert keep1(s[0]) == keep2(s[0]);
      FilterCongruent(s[1..], keep1, keep2);
    }
  }

  /** A filter keeps the order of its input. */
  lemma {:induction false} FilterIsSubsequence<T>(s: seq<T>, keep: T -> bool)
    ensures IsSubsequence(Filter(s, keep), s)
    decreases |s|
  {
    if s != [] {
      FilterIsSubsequence(s[1..], keep);
      var r := Filter(s, keep);
      if keep(s[0]) {
        assert r[0] == s[0] && r[1..] == Filter(s[1..], keep);
      } else {
        assert r == Filter(s[1..], keep);
        if r != [] {
          assert IsSubsequence(r, s[1..]);
        }
      }
    }
  }

  /** Every element of a subsequence is an element of the sequence. */
  lemma {:induction false} SubsequenceMembers<T>(r: seq<T>, s: seq<T>, x: T)
    requires IsSubsequence(r, s)
    requires x in r
    ensures x in s
    decreases |s|
  {
    if r[0] == s[0] && IsSubsequence(r[1..], s[1..]) {
      if x != r[0] {
        assert x in r[1..] by { assert r == [r[0]] + r[1..]; }
        SubsequenceMembers(r[1..], s[1..], x);
      }
    } else {
      SubsequenceMembers(r, s[1..], x);
    }
  }

  /** A subsequence of a sequence without repeats has no repeats. */
  lemma {:induction false} SubsequenceDistinct<T>(r: seq<T>, s: seq<T>)
    requires IsSubsequence(r, s)
    requires Distinct(s)
    ensures Distinct(r)
    decreases |s|
  {
    if r != [] {
      assert Distinct(s[1..]);
      if r[0] == s[0] && IsSubsequence(r[1..], s[1..]) {
        SubsequenceDistinct(r[1..], s[1..]);
        forall j | 0 < j < |r|
          ensures r[0] != r[j]
        {
          assert r[j] in r[1..];
          SubsequenceMembers(r[1..], s[1..], r[j]);
        }
      } else {
        SubsequenceDistinct(r, s[1..]);
      }
    }
  }

  /** If the head of a sequence without repeats occurs in a subsequence, the
      subsequence starts with it; otherwise the subsequence avoids the head. */
  lemma SubsequenceHead<T>(r: seq<T>, s: seq<T>)
    requires IsSubsequence(r, s)
    requires Distinct(s)
    requires s != []
    ensures s[0] in r ==> r[0] == s[0] && IsSubsequence(r[1..], s[1..])
    ensures s[0] !in r ==> IsSubsequence(r, s[1..])
  {
    assert s[0] !in s[1..];
    if s[0] in r && !(r[0] == s[0] && IsSubsequence(r[1..], s[1..])) {
      SubsequenceMembers(r, s[1..], s[0]);
    }
  }

  /** Over a sequence without repeats, a subsequence is determined by its elements:
      there is one way to list a given set of elements in the order of `s`. */
  lemma {:induction false} SubsequenceUnique<T>(a: seq<T>, b: seq<T>, s: seq<T>)
    requires Distinct(s)
    requires IsSubsequence(a, s) && IsSubsequence(b, s)
    requires forall x :: x in a <==> x in b
    ensures a == b
    decreases |s|
  {
    if s == [] {
      assert a == [] && b == [];
    } else {
      assert Distinct(s[1..]);
      SubsequenceHead(a, s);
      SubsequenceHead(b, s);
      if s[0] in a {
        forall x
          ensures x in a[1..] <==> x in b[1..]
        {
          assert s[0] !in s[1..];
          if x in a[1..] { SubsequenceMembers(a[1..], s[1..], x); }
          if x in b[1..] { SubsequenceMembers(b[1..], s[1..], x); }
          if x != s[0] {
            assert x in a[1..] <==> x in a by { assert a == [a[0]] + a[1..]; }
            assert x in b[1..] <==> x in b by { assert b == [b[0]] + b[1..]; }
          }
        }
        SubsequenceUnique(a[1..], b[1..], s[1..]);
        assert a == [a[0]] + a[1..] && b == [b[0]] + b[1..];
      } else {
        SubsequenceUnique(a, b, s[1..]);
      }
    }
  }
}
