/**
 * ORDER BY as the model evaluates it: a stable insertion sort by a
 * total preorder. PostgreSQL leaves the order of rows with equal keys
 * unspecified; the model fixes it to the input order.
 */
module Sorting {

  ghost predicate Total<T(!new)>(leq: (T, T) -> bool)
  {
    forall a, b :: leq(a, b) || leq(b, a)
  }

  ghost predicate Transitive<T(!new)>(leq: (T, T) -> bool)
  {
    forall a, b, c :: leq(a, b) && leq(b, c) ==> leq(a, c)
  }

  /** Every element is `leq` its successor. */
  predicate SortedBy<T>(s: seq<T>, leq: (T, T) -> bool)
  {
    forall i :: 0 <= i < |s| - 1 ==> leq(s[i], s[i + 1])
  }

  /** Puts `x` in front of the first element it is `leq`. */
  function Insert<T(==)>(x: T, s: seq<T>, leq: (T, T) -> bool): (r: seq<T>)
    ensures multiset(r) == multiset(s) + multiset{x}
    ensures |r| == |s| + 1
  {
    if s == [] then [x]
    else if leq(x, s[0]) then [x] + s
    else
      assert s == [s[0]] + s[1..];
      [s[0]] + Insert(x, s[1..], leq)
  }

  function SortBy<T(==)>(s: seq<T>, leq: (T, T) -> bool): (r: seq<T>)
    ensures multiset(r) == multiset(s)
    ensures |r| == |s|
  {
    if s == [] then []
    else
      assert s == [s[0]] + s[1..];
      Insert(s[0], SortBy(s[1..], leq), leq)
  }

  lemma {:induction false} InsertSorted<T(!new)>(x: T, s: seq<T>, leq: (T, T) -> bool)
    requires Total(leq) && SortedBy(s, leq)
    ensures SortedBy(Insert(x, s, leq), leq)
    ensures s != [] ==> Insert(x, s, leq)[0] == x || Insert(x, s, leq)[0] == s[0]
  {
    if s != [] && !leq(x, s[0]) {
      assert leq(s[0], x);
      InsertSorted(x, s[1..], leq);
      var r := Insert(x, s[1..], leq);
      assert Insert(x, s, leq) == [s[0]] + r;
      if s[1..] != [] {
        assert leq(s[0], s[1]);
      }
    }
  }

  /** The result of SortBy is ordered whenever the order is total. */
  lemma {:induction false} SortBySorted<T(!new)>(s: seq<T>, leq: (T, T) -> bool)
    requires Total(leq)
    ensures SortedBy(SortBy(s, leq), leq)
  {
    if s != [] {
      SortBySorted(s[1..], leq);
      InsertSorted(s[0], SortBy(s[1..], leq), leq);
    }
  }

  /** In a sequence sorted by a total preorder, every element is `leq` the last one. */
  lemma {:induction false} LastIsMaximum<T(!new)>(s: seq<T>, leq: (T, T) -> bool)
    requires Total(leq) && Transitive(leq) && SortedBy(s, leq) && |s| > 0
    ensures forall i :: 0 <= i < |s| ==> leq(s[i], s[|s| - 1])
  {
    if |s| > 1 {
      LastIsMaximum(s[1..], leq);
      assert forall i :: 1 <= i < |s| ==> leq(s[i], s[|s| - 1]) by {
        forall i | 1 <= i < |s| ensures leq(s[i], s[|s| - 1]) {
          assert s[1..][i - 1] == s[i];
        }
      }
      assert leq(s[0], s[1]);
    } else {
      assert leq(s[0], s[0]);
    }
  }

  /** In a sequence sorted by a total preorder, the first element is `leq` every element. */
  lemma {:induction false} FirstIsMinimum<T(!new)>(s: seq<T>, leq: (T, T) -> bool)
    requires Total(leq) && Transitive(leq) && SortedBy(s, leq) && |s| > 0
    ensures forall i :: 0 <= i < |s| ==> leq(s[0], s[i])
  {
    if |s| > 1 {
      FirstIsMinimum(s[1..], leq);
      forall i | 1 <= i < |s| ensures leq(s[0], s[i]) {
        assert s[1..][i - 1] == s[i];
        assert leq(s[0], s[1]) && leq(s[1], s[i]);
      }
    }
    assert leq(s[0], s[0]);
  }

  /** In a sequence sorted by a total preorder, every element is `leq` every later one. */
  lemma SortedPairs<T(!new)>(s: seq<T>, leq: (T, T) -> bool)
    requires Total(leq) && Transitive(leq) && SortedBy(s, leq)
    ensures forall i, j :: 0 <= i <= j < |s| ==> leq(s[i], s[j])
  {
    forall i, j | 0 <= i <= j < |s| ensures leq(s[i], s[j]) {
      var t := s[i..];
      assert SortedBy(t, leq) by {
        forall k | 0 <= k < |t| - 1 ensures leq(t[k], t[k + 1]) {
          assert t[k] == s[i + k] && t[k + 1] == s[i + k + 1];
        }
      }
      FirstIsMinimum(t, leq);
      assert t[0] == s[i] && t[j - i] == s[j];
    }
  }

  /** A prefix of a sorted sequence is sorted. */
  lemma PrefixSorted<T>(s: seq<T>, n: nat, leq: (T, T) -> bool)
    requires SortedBy(s, leq) && n <= |s|
    ensures SortedBy(s[..n], leq)
  {
  }

  /** The first `limit` elements, or all of them when there are fewer: SQL LIMIT. */
  function Take<T>(s: seq<T>, limit: nat): (r: seq<T>)
    ensures |r| <= limit && |r| <= |s|
    ensures |s| <= limit ==> r == s
    ensures |s| > limit ==> |r| == limit
    ensures r == s[..|r|]
  {
    if |s| <= limit then s else s[..limit]
  }
}
