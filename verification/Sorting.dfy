// Stable sorting by a comparison, as the standard library's sorts behave.
module Sorting {

  function Insert<T>(less: (T, T) -> bool, s: seq<T>, x: T): (r: seq<T>)
    ensures |r| == |s| + 1
  {
    if s == [] || !less(x, s[|s| - 1]) then s + [x]
    else Insert(less, s[..|s| - 1], x) + [s[|s| - 1]]
  }

  function Sort<T>(less: (T, T) -> bool, s: seq<T>): (r: seq<T>)
    ensures |r| == |s|
  {
    if s == [] then [] else Insert(less, Sort(less, s[..|s| - 1]), s[|s| - 1])
  }

  // A strict weak order.
  ghost predicate Order<T(!new)>(less: (T, T) -> bool) {
    && (forall a, b :: less(a, b) ==> !less(b, a))
    && (forall a, b, c :: !less(b, a) && !less(c, b) ==> !less(c, a))
  }

  ghost predicate Sorted<T>(less: (T, T) -> bool, s: seq<T>) {
    forall i, j | 0 <= i < j < |s| :: !less(s[j], s[i])
  }

  ghost predicate StrictlySorted<T>(less: (T, T) -> bool, s: seq<T>) {
    forall i, j | 0 <= i < j < |s| :: less(s[i], s[j])
  }

  lemma {:induction false} InsertPermutes<T>(less: (T, T) -> bool, s: seq<T>, x: T)
    ensures multiset(Insert(less, s, x)) == multiset(s) + multiset{x}
  {
    if s != [] && less(x, s[|s| - 1]) {
      InsertPermutes(less, s[..|s| - 1], x);
      assert s == s[..|s| - 1] + [s[|s| - 1]];
    }
  }

  lemma {:induction false} SortPermutes<T>(less: (T, T) -> bool, s: seq<T>)
    ensures multiset(Sort(less, s)) == multiset(s)
  {
    if s != [] {
      SortPermutes(less, s[..|s| - 1]);
      InsertPermutes(less, Sort(less, s[..|s| - 1]), s[|s| - 1]);
      assert s == s[..|s| - 1] + [s[|s| - 1]];
    }
  }

  lemma PermutationMembers<T>(s: seq<T>, t: seq<T>)
    requires multiset(s) == multiset(t)
    ensures forall x :: x in s <==> x in t
  {
    forall x ensures x in s <==> x in t {
      assert x in multiset(s) <==> x in multiset(t);
    }
  }

  lemma AllUnderPermutation<T>(p: T -> bool, s: seq<T>, t: seq<T>)
    requires multiset(s) == multiset(t)
    ensures (forall i | 0 <= i < |s| :: p(s[i])) <==> (forall i | 0 <= i < |t| :: p(t[i]))
  {
    PermutationMembers(s, t);
    if forall i | 0 <= i < |s| :: p(s[i]) {
      forall i | 0 <= i < |t| ensures p(t[i]) {
        assert t[i] in s;
      }
    }
    if forall i | 0 <= i < |t| :: p(t[i]) {
      forall i | 0 <= i < |s| ensures p(s[i]) {
        assert s[i] in t;
      }
    }
  }

  lemma {:induction false} InsertSorts<T(!new)>(less: (T, T) -> bool, s: seq<T>, x: T)
    requires Order(less) && Sorted(less, s)
    ensures Sorted(less, Insert(less, s, x))
  {
    if s != [] && less(x, s[|s| - 1]) {
      var front, last := s[..|s| - 1], s[|s| - 1];
      InsertSorts(less, front, x);
      var r := Insert(less, front, x);
      InsertPermutes(less, front, x);
      forall i | 0 <= i < |r| ensures !less(last, r[i]) {
        assert r[i] in multiset(r);
        if r[i] in multiset(front) {
          assert r[i] in front;
        }
      }
    }
  }

  lemma {:induction false} SortSorts<T(!new)>(less: (T, T) -> bool, s: seq<T>)
    requires Order(less)
    ensures Sorted(less, Sort(less, s))
  {
    if s != [] {
      SortSorts(less, s[..|s| - 1]);
      InsertSorts(less, Sort(less, s[..|s| - 1]), s[|s| - 1]);
    }
  }

  lemma {:induction false} SortKeepsSorted<T>(less: (T, T) -> bool, s: seq<T>)
    requires Sorted(less, s)
    ensures Sort(less, s) == s
  {
    if s != [] {
      SortKeepsSorted(less, s[..|s| - 1]);
      assert s == s[..|s| - 1] + [s[|s| - 1]];
    }
  }

  // Elements that are pairwise comparable end up strictly sorted.
  lemma SortStrictly<T(!new)>(less: (T, T) -> bool, s: seq<T>)
    requires Order(less)
    requires forall i, j | 0 <= i < j < |s| :: less(s[i], s[j]) || less(s[j], s[i])
    ensures StrictlySorted(less, Sort(less, s))
  {
    var r := Sort(less, s);
    SortSorts(less, s);
    SortPermutes(less, s);
    PairwiseUnderPermutation(less, s, r);
  }

  lemma {:induction false} PairwiseUnderPermutation<T(!new)>(less: (T, T) -> bool, s: seq<T>, r: seq<T>)
    requires Order(less) && multiset(s) == multiset(r)
    requires forall i, j | 0 <= i < j < |s| :: less(s[i], s[j]) || less(s[j], s[i])
    ensures forall i, j | 0 <= i < j < |r| :: less(r[i], r[j]) || less(r[j], r[i])
  {
    PermutationMembers(s, r);
    forall i, j | 0 <= i < j < |r| ensures less(r[i], r[j]) || less(r[j], r[i]) {
      assert r[i] in s && r[j] in s;
      var p :| 0 <= p < |s| && s[p] == r[i];
      var q :| 0 <= q < |s| && s[q] == r[j];
      if p == q {
        AtMostOnce(less, s, p);
        TwiceMeansTwo(r, i, j);
        assert false;
      }
    }
  }

  lemma AtMostOnce<T(!new)>(less: (T, T) -> bool, s: seq<T>, p: nat)
    requires Order(less) && p < |s|
    requires forall i, j | 0 <= i < j < |s| :: less(s[i], s[j]) || less(s[j], s[i])
    ensures multiset(s)[s[p]] == 1
  {
    assert s == s[..p] + [s[p]] + s[p + 1..];
    assert s[p] !in s[..p] && s[p] !in s[p + 1..];
  }

  lemma TwiceMeansTwo<T>(r: seq<T>, i: nat, j: nat)
    requires i < j < |r| && r[i] == r[j]
    ensures multiset(r)[r[i]] >= 2
  {
    assert r == r[..j] + [r[j]] + r[j + 1..];
    assert r[i] in r[..j];
  }
}
