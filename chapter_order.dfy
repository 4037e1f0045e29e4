/** `chapters.sort((a, b) => a.order - b.order)`: a stable sort by `order`, as
    ECMAScript 2019 requires of `Array.prototype.sort`. It is modelled as an
    insertion sort that places each chapter after every earlier chapter whose
    order is not greater. */
module ChapterOrder {
  import opened Seqs
  import opened Records

  ghost predicate Sorted(s: seq<Chapter>) {
    forall i, j :: 0 <= i < j < |s| ==> s[i].order <= s[j].order
  }

  /** Every chapter of `s` has order at most `k`. */
  ghost predicate AtMost(s: seq<Chapter>, k: int) {
    forall i :: 0 <= i < |s| ==> s[i].order <= k
  }

  lemma SortedSnoc(s: seq<Chapter>, c: Chapter)
    requires Sorted(s) && AtMost(s, c.order)
    ensures Sorted(s + [c])
  {
  }

  lemma SortedFront(t: seq<Chapter>)
    requires Sorted(t) && t != []
    ensures Sorted(t[..|t| - 1]) && AtMost(t, t[|t| - 1].order) && AtMost(t[..|t| - 1], t[|t| - 1].order)
  {
  }

  lemma {:induction false} AtMostPermutation(r: seq<Chapter>, front: seq<Chapter>, x: Chapter, k: int)
    requires multiset(r) == multiset(front) + multiset{x}
    requires AtMost(front, k) && x.order <= k
    ensures AtMost(r, k)
  {
    forall i | 0 <= i < |r| ensures r[i].order <= k {
      assert r[i] in multiset(r);
      if r[i] != x {
        assert r[i] in multiset(front);
        var j :| 0 <= j < |front| && front[j] == r[i];
      }
    }
  }

  /** Inserts `x` after the last chapter of `t` whose order is at most `x.order`
      (scanning from the end, as an insertion sort does). */
  function Insert(t: seq<Chapter>, x: Chapter): (r: seq<Chapter>)
    ensures multiset(r) == multiset(t) + multiset{x}
    ensures |r| == |t| + 1
  {
    if t == [] then [x]
    else if t[|t| - 1].order <= x.order then t + [x]
    else
      assert t == t[..|t| - 1] + [t[|t| - 1]];
      Insert(t[..|t| - 1], x) + [t[|t| - 1]]
  }

  /** Insertion into a sorted list gives a sorted list. */
  lemma {:induction false} InsertSorted(t: seq<Chapter>, x: Chapter)
    requires Sorted(t)
    ensures Sorted(Insert(t, x))
  {
    if t == [] {
    } else if t[|t| - 1].order <= x.order {
      SortedFront(t);
      SortedSnoc(t, x);
    } else {
      var front, last := t[..|t| - 1], t[|t| - 1];
      assert t == front + [last];
      SortedFront(t);
      InsertSorted(front, x);
      var r := Insert(front, x);
      AtMostPermutation(r, front, x, last.order);
      SortedSnoc(r, last);
    }
  }

  function SortByOrder(s: seq<Chapter>): (r: seq<Chapter>)
    ensures Sorted(r)
    ensures multiset(r) == multiset(s)
    ensures |r| == |s|
  {
    if s == [] then []
    else
      assert s == s[..|s| - 1] + [s[|s| - 1]];
      InsertSorted(SortByOrder(s[..|s| - 1]), s[|s| - 1]);
      Insert(SortByOrder(s[..|s| - 1]), s[|s| - 1])
  }

  function HasOrder(k: int): Chapter -> bool {
    (c: Chapter) => c.order == k
  }

  /** Insertion keeps the chapters of each order in their relative order, and puts `x`
      after those of its own order. */
  lemma {:induction false} InsertStable(t: seq<Chapter>, x: Chapter, k: int)
    ensures Filter(Insert(t, x), HasOrder(k)) == Filter(t, HasOrder(k)) + Filter([x], HasOrder(k))
  {
    if t == [] {
    } else if t[|t| - 1].order <= x.order {
      FilterConcat(t, [x], HasOrder(k));
    } else {
      var front, last := t[..|t| - 1], t[|t| - 1];
      assert t == front + [last];
      var a := Insert(front, x);
      assert Insert(t, x) == a + [last];
      InsertStable(front, x, k);
      StableStep(a, front, x, last, k);
    }
  }

  /** Appending a chapter of an order above `x`'s keeps the filtered decomposition. */
  lemma StableStep(a: seq<Chapter>, front: seq<Chapter>, x: Chapter, last: Chapter, k: int)
    requires Filter(a, HasOrder(k)) == Filter(front, HasOrder(k)) + Filter([x], HasOrder(k))
    requires x.order < last.order
    ensures Filter(a + [last], HasOrder(k)) == Filter(front + [last], HasOrder(k)) + Filter([x], HasOrder(k))
  {
    assert !(HasOrder(k)(x) && HasOrder(k)(last));
    FilterSwapLast(a, front, x, last, HasOrder(k));
  }

  lemma {:induction false} SortStable(s: seq<Chapter>, k: int)
    ensures Filter(SortByOrder(s), HasOrder(k)) == Filter(s, HasOrder(k))
  {
    if s != [] {
      var front, last := s[..|s| - 1], s[|s| - 1];
      assert s == front + [last];
      SortStable(front, k);
      InsertStable(SortByOrder(front), last, k);
      FilterConcat(front, [last], HasOrder(k));
    }
  }

  /** Sorting a list that is already sorted leaves it as it is. */
  lemma {:induction false} SortSorted(s: seq<Chapter>)
    requires Sorted(s)
    ensures SortByOrder(s) == s
  {
    if s != [] {
      var front := s[..|s| - 1];
      assert s == front + [s[|s| - 1]];
      SortSorted(front);
    }
  }

  /** Filtering a sorted list leaves it sorted. */
  lemma {:induction false} FilterSorted(s: seq<Chapter>, p: Chapter -> bool)
    requires Sorted(s)
    ensures Sorted(Filter(s, p))
  {
    if s != [] {
      FilterSorted(s[1..], p);
      var rest := Filter(s[1..], p);
      forall c | c in rest ensures s[0].order <= c.order {
        var i :| 0 <= i < |s[1..]| && s[1..][i] == c;
        assert s[i + 1] == c;
      }
    }
  }

  lemma {:induction false} InsertKeepsUniqueIds(t: seq<Chapter>, x: Chapter)
    requires UniqueIds(t, ChapterId) && IdFree(t, ChapterId, x.id)
    ensures UniqueIds(Insert(t, x), ChapterId)
  {
    if t == [] {
      UniqueSnoc([], x, ChapterId);
      assert [] + [x] == [x];
    } else if t[|t| - 1].order <= x.order {
      UniqueSnoc(t, x, ChapterId);
    } else {
      var front, last := t[..|t| - 1], t[|t| - 1];
      assert t == front + [last];
      UniqueSnoc(front, last, ChapterId);
      assert IdFree(front, ChapterId, x.id);
      InsertKeepsUniqueIds(front, x);
      var r := Insert(front, x);
      forall y | y in r ensures y.id != last.id {
        assert y in multiset(r);
        if y != x {
          assert y in multiset(front);
        }
      }
      UniqueSnoc(r, last, ChapterId);
    }
  }

  /** Sorting keeps ids unique. */
  lemma {:induction false} SortKeepsUniqueIds(s: seq<Chapter>)
    requires UniqueIds(s, ChapterId)
    ensures UniqueIds(SortByOrder(s), ChapterId)
  {
    if s != [] {
      var front, last := s[..|s| - 1], s[|s| - 1];
      assert s == front + [last];
      UniqueSnoc(front, last, ChapterId);
      SortKeepsUniqueIds(front);
      forall y | y in SortByOrder(front) ensures y.id != last.id {
        assert y in multiset(SortByOrder(front));
      }
      InsertKeepsUniqueIds(SortByOrder(front), last);
    }
  }
}
