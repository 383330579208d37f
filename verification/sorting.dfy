/**
 * `Array.prototype.sort` with a comparator, as the page uses it.
 *
 * JavaScript's sort is stable (ECMAScript 2019 onwards) and puts `a` before
 * `b` when `cmp(a, b) < 0`. Both comparators on the page order elements by a
 * key: the model gives every element a `Rank` (a pair compared
 * lexicographically) and proves, next to each comparator, that the
 * comparator's sign agrees with the rank order. For such a comparator there
 * is exactly one stable sorted permutation of an array, so the stable
 * insertion sort below yields what the engine yields, whatever algorithm the
 * engine runs.
 */
module Sorting {
  import Seqs

  /** A sort key, compared first by `major`, then by `minor`. */
  datatype Rank = Rank(major: int, minor: int)

  /** `a` may come before `b`. */
  predicate RankLe(a: Rank, b: Rank) {
    a.major < b.major || (a.major == b.major && a.minor <= b.minor)
  }

  /** Every element is ranked no higher than the ones after it. */
  ghost predicate Sorted<T>(s: seq<T>, key: T -> Rank) {
    forall i, j :: 0 <= i < j < |s| ==> RankLe(key(s[i]), key(s[j]))
  }

  /** No two elements share a rank. */
  ghost predicate DistinctRanks<T>(s: seq<T>, key: T -> Rank) {
    forall i, j :: 0 <= i < j < |s| ==> key(s[i]) != key(s[j])
  }

  /** Inserts `x` into sorted `s`, after every element ranked no higher than `x`. */
  function Insert<T(!new)>(x: T, s: seq<T>, key: T -> Rank): (r: seq<T>)
    ensures |r| == |s| + 1
    ensures multiset(r) == multiset(s) + multiset{x}
    ensures forall y :: y in r <==> y == x || y in s
    decreases |s|
  {
    if |s| == 0 then [x]
    else if !RankLe(key(s[0]), key(x)) then [x] + s
    else
      assert s == [s[0]] + s[1..];
      [s[0]] + Insert(x, s[1..], key)
  }

  /** Inserting into a sorted sequence keeps it sorted. */
  lemma {:induction false} InsertKeepsSorted<T(!new)>(x: T, s: seq<T>, key: T -> Rank)
    requires Sorted(s, key)
    ensures Sorted(Insert(x, s, key), key)
    decreases |s|
  {
    if |s| > 0 && RankLe(key(s[0]), key(x)) {
      var rest := Insert(x, s[1..], key);
      InsertKeepsSorted(x, s[1..], key);
      assert Insert(x, s, key) == [s[0]] + rest;
      forall j | 0 <= j < |rest|
        ensures RankLe(key(s[0]), key(rest[j]))
      {
        assert rest[j] in rest;
        if rest[j] != x {
          var k :| 0 <= k < |s[1..]| && s[1..][k] == rest[j];
          assert rest[j] == s[k + 1];
        }
      }
    }
  }

  /** The stable sort of `s` by `key`. */
  function Sort<T(!new)>(s: seq<T>, key: T -> Rank): (r: seq<T>)
    ensures |r| == |s|
    ensures multiset(r) == multiset(s)
    ensures Sorted(r, key)
    decreases |s|
  {
    if |s| == 0 then []
    else
      assert s == s[..|s| - 1] + [s[|s| - 1]];
      InsertKeepsSorted(s[|s| - 1], Sort(s[..|s| - 1], key), key);
      Insert(s[|s| - 1], Sort(s[..|s| - 1], key), key)
  }

  /** Inserting an element whose rank is new keeps the ranks distinct. */
  lemma {:induction false} InsertKeepsRanksDistinct<T(!new)>(x: T, s: seq<T>, key: T -> Rank)
    requires Sorted(s, key) && DistinctRanks(s, key)
    requires forall i :: 0 <= i < |s| ==> key(s[i]) != key(x)
    ensures DistinctRanks(Insert(x, s, key), key)
    decreases |s|
  {
    if |s| > 0 && RankLe(key(s[0]), key(x)) {
      var tail := s[1..];
      var rest := Insert(x, tail, key);
      InsertKeepsRanksDistinct(x, tail, key);
      assert Insert(x, s, key) == [s[0]] + rest;
      forall j | 0 <= j < |rest|
        ensures key(rest[j]) != key(s[0])
      {
        assert rest[j] in rest;
        if rest[j] != x {
          var k :| 0 <= k < |tail| && tail[k] == rest[j];
          assert rest[j] == s[k + 1];
        }
      }
    }
  }

  /** Sorting elements of distinct ranks leaves their ranks distinct. */
  lemma {:induction false} SortKeepsRanksDistinct<T(!new)>(s: seq<T>, key: T -> Rank)
    requires DistinctRanks(s, key)
    ensures DistinctRanks(Sort(s, key), key)
    decreases |s|
  {
    if |s| > 0 {
      var init := s[..|s| - 1];
      var last := s[|s| - 1];
      var sorted := Sort(init, key);
      SortKeepsRanksDistinct(init, key);
      forall i | 0 <= i < |sorted|
        ensures key(sorted[i]) != key(last)
      {
        assert sorted[i] in multiset(init);
        var k :| 0 <= k < |init| && init[k] == sorted[i];
      }
      InsertKeepsRanksDistinct(last, sorted, key);
    }
  }

  /** Inserting `x` puts it after every element of the same rank. */
  lemma {:induction false} InsertAfterEqualRanks<T(!new)>(x: T, s: seq<T>, key: T -> Rank, p: T -> bool)
    requires Sorted(s, key)
    requires forall y :: p(y) ==> key(y) == key(x)
    ensures Seqs.Filter(Insert(x, s, key), p) == Seqs.Filter(s, p) + Seqs.Filter([x], p)
    decreases |s|
  {
    if |s| == 0 {
      assert Insert(x, s, key) == [x];
    } else if !RankLe(key(s[0]), key(x)) {
      assert Insert(x, s, key) == [x] + s;
      Seqs.FilterConcat([x], s, p);
      NoneOfRankBelow(x, s, key, p);
    } else {
      var tail := s[1..];
      assert s == [s[0]] + tail;
      assert Sorted(tail, key);
      InsertAfterEqualRanks(x, tail, key, p);
      FilterAfterHead(s[0], Insert(x, tail, key), tail, [x], p);
    }
  }

  /** An equation between filtered sequences survives putting the same head in front. */
  lemma FilterAfterHead<T(!new)>(h: T, a: seq<T>, b: seq<T>, c: seq<T>, p: T -> bool)
    requires Seqs.Filter(a, p) == Seqs.Filter(b, p) + Seqs.Filter(c, p)
    ensures Seqs.Filter([h] + a, p) == Seqs.Filter([h] + b, p) + Seqs.Filter(c, p)
  {
    Seqs.FilterConcat([h], a, p);
    Seqs.FilterConcat([h], b, p);
    ConcatAssoc(Seqs.Filter([h], p), Seqs.Filter(b, p), Seqs.Filter(c, p));
  }

  lemma ConcatAssoc<T>(a: seq<T>, b: seq<T>, c: seq<T>)
    ensures a + (b + c) == (a + b) + c
  {
  }

  /** When `x` ranks below the head of sorted `s`, no element of `s` shares its rank. */
  lemma NoneOfRankBelow<T(!new)>(x: T, s: seq<T>, key: T -> Rank, p: T -> bool)
    requires Sorted(s, key) && |s| > 0 && !RankLe(key(s[0]), key(x))
    requires forall y :: p(y) ==> key(y) == key(x)
    ensures Seqs.Filter(s, p) == []
  {
    forall j | 0 <= j < |s|
      ensures !p(s[j])
    {
      assert RankLe(key(s[0]), key(s[j]));
    }
    Seqs.FilterNone(s, p);
  }

  /**
   * Stability: the elements of any one rank (those `p` selects) appear in the sorted result in
   * the order they had in the input.
   */
  lemma {:induction false} SortIsStable<T(!new)>(s: seq<T>, key: T -> Rank, k: Rank, p: T -> bool)
    requires forall x :: p(x) == (key(x) == k)
    ensures Seqs.Filter(Sort(s, key), p) == Seqs.Filter(s, p)
    decreases |s|
  {
    if |s| > 0 {
      var init := s[..|s| - 1];
      var last := s[|s| - 1];
      assert s == init + [last];
      var sorted := Sort(init, key);
      assert Sort(s, key) == Insert(last, sorted, key);
      SortIsStable(init, key, k, p);
      if p(last) {
        InsertAfterEqualRanks(last, sorted, key, p);
      } else {
        InsertOutsideClass(last, sorted, key, p);
        assert Seqs.Filter([last], p) == [];
      }
      Seqs.FilterConcat(init, [last], p);
    }
  }

  /** Inserting an element that `p` rejects leaves the `p`-elements as they were. */
  lemma {:induction false} InsertOutsideClass<T(!new)>(x: T, s: seq<T>, key: T -> Rank, p: T -> bool)
    requires !p(x)
    ensures Seqs.Filter(Insert(x, s, key), p) == Seqs.Filter(s, p)
    decreases |s|
  {
    if |s| == 0 {
      assert Insert(x, s, key) == [x];
    } else if !RankLe(key(s[0]), key(x)) {
      assert Insert(x, s, key) == [x] + s;
      Seqs.FilterConcat([x], s, p);
    } else {
      var tail := s[1..];
      assert s == [s[0]] + tail;
      InsertOutsideClass(x, tail, key, p);
      FilterAfterHead(s[0], Insert(x, tail, key), tail, [], p);
    }
  }

  /** A sequence that is already sorted is left as it is. */
  lemma {:induction false} SortKeepsSorted<T(!new)>(s: seq<T>, key: T -> Rank)
    requires Sorted(s, key)
    ensures Sort(s, key) == s
    decreases |s|
  {
    if |s| > 0 {
      var init := s[..|s| - 1];
      var last := s[|s| - 1];
      assert s == init + [last];
      assert Sorted(init, key);
      SortKeepsSorted(init, key);
      assert Sort(s, key) == Insert(last, init, key);
      InsertAtEnd(last, init, key);
    }
  }

  /** Inserting an element ranked no lower than all of `s` appends it. */
  lemma {:induction false} InsertAtEnd<T(!new)>(x: T, s: seq<T>, key: T -> Rank)
    requires Sorted(s, key)
    requires forall i :: 0 <= i < |s| ==> RankLe(key(s[i]), key(x))
    ensures Insert(x, s, key) == s + [x]
    decreases |s|
  {
    if |s| > 0 {
      InsertAtEnd(x, s[1..], key);
      assert s == [s[0]] + s[1..];
    }
  }
}
