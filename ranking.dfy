/**
 * Ranking by a real-valued score: the stable descending sort that
 * `array.sort((a, b) => b.score - a.score)` performs, and `slice(0, k)`.
 *
 * `Array.prototype.sort` is stable, so the order it produces is fully
 * determined: descending by score, and within one score, input order.
 * `SortDesc` is that order, written as an insertion sort; `SortedUnique`
 * shows that no other sequence has both properties.
 */
module Ranking {

  /** Scores never increase from left to right. */
  predicate SortedDesc<T>(s: seq<T>, score: T -> real) {
    forall i, j :: 0 <= i < j < |s| ==> score(s[i]) >= score(s[j])
  }

  /** The elements of `s` whose score is exactly `v`, in their order in `s`. */
  function WithScore<T>(s: seq<T>, score: T -> real, v: real): (r: seq<T>)
    ensures |r| <= |s|
    ensures forall i :: 0 <= i < |r| ==> r[i] in s && score(r[i]) == v
  {
    if |s| == 0 then [] else (if score(s[0]) == v then [s[0]] else []) + WithScore(s[1..], score, v)
  }

  lemma {:induction false} WithScoreAppend<T>(a: seq<T>, b: seq<T>, score: T -> real, v: real)
    ensures WithScore(a + b, score, v) == WithScore(a, score, v) + WithScore(b, score, v)
  {
    if |a| == 0 {
      assert a + b == b;
    } else {
      assert (a + b)[1..] == a[1..] + b;
      WithScoreAppend(a[1..], b, score, v);
    }
  }

  /** Puts `x` after every element of `t` whose score is at least its own. */
  function Insert<T>(t: seq<T>, x: T, score: T -> real): (r: seq<T>)
    ensures |r| == |t| + 1
    decreases |t|
  {
    if |t| == 0 || score(t[|t| - 1]) >= score(x) then t + [x]
    else Insert(t[..|t| - 1], x, score) + [t[|t| - 1]]
  }

  lemma {:induction false} InsertPerm<T>(t: seq<T>, x: T, score: T -> real)
    ensures multiset(Insert(t, x, score)) == multiset(t) + multiset{x}
    decreases |t|
  {
    if |t| > 0 && score(t[|t| - 1]) < score(x) {
      var init := t[..|t| - 1];
      assert t == init + [t[|t| - 1]];
      InsertPerm(init, x, score);
    }
  }

  /** The stable descending sort of `s` by `score`. */
  function SortDesc<T>(s: seq<T>, score: T -> real): (r: seq<T>)
    ensures |r| == |s|
    decreases |s|
  {
    if |s| == 0 then []
    else Insert(SortDesc(s[..|s| - 1], score), s[|s| - 1], score)
  }

  /** The sort's result is a permutation of its input. */
  lemma {:induction false} SortDescPerm<T>(s: seq<T>, score: T -> real)
    ensures multiset(SortDesc(s, score)) == multiset(s)
    decreases |s|
  {
    if |s| > 0 {
      var init := s[..|s| - 1];
      assert s == init + [s[|s| - 1]];
      SortDescPerm(init, score);
      InsertPerm(SortDesc(init, score), s[|s| - 1], score);
    }
  }

  lemma {:induction false} InsertSorted<T>(t: seq<T>, x: T, score: T -> real)
    requires SortedDesc(t, score)
    ensures SortedDesc(Insert(t, x, score), score)
    decreases |t|
  {
    if |t| > 0 && score(t[|t| - 1]) < score(x) {
      var init := t[..|t| - 1];
      var last := t[|t| - 1];
      var u := Insert(init, x, score);
      InsertSorted(init, x, score);
      InsertPerm(init, x, score);
      forall i | 0 <= i < |u| ensures score(u[i]) >= score(last) {
        assert u[i] in multiset(u);
        if u[i] != x {
          assert u[i] in init;
        }
      }
    }
  }

  /** The sort's result is in non-increasing score order. */
  lemma {:induction false} SortDescSorted<T>(s: seq<T>, score: T -> real)
    ensures SortedDesc(SortDesc(s, score), score)
    decreases |s|
  {
    if |s| > 0 {
      SortDescSorted(s[..|s| - 1], score);
      InsertSorted(SortDesc(s[..|s| - 1], score), s[|s| - 1], score);
    }
  }

  /** `[x]` when `x` scores `v`, otherwise empty. */
  function Only<T>(x: T, score: T -> real, v: real): seq<T> {
    if score(x) == v then [x] else []
  }

  lemma {:induction false} InsertWithScore<T>(t: seq<T>, x: T, score: T -> real, v: real)
    ensures WithScore(Insert(t, x, score), score, v) == WithScore(t, score, v) + Only(x, score, v)
    decreases |t|
  {
    if |t| == 0 || score(t[|t| - 1]) >= score(x) {
      WithScoreAppend(t, [x], score, v);
    } else {
      var init := t[..|t| - 1];
      var last := t[|t| - 1];
      assert t == init + [last];
      var u := Insert(init, x, score);
      assert Insert(t, x, score) == u + [last];
      InsertWithScore(init, x, score, v);
      WithScoreAppend(u, [last], score, v);
      WithScoreAppend(init, [last], score, v);
      assert WithScore([last], score, v) == Only(last, score, v);
      assert WithScore([x], score, v) == Only(x, score, v);
      assert Only(x, score, v) == [] || Only(last, score, v) == [];
    }
  }

  /** Stability: among elements of equal score, the sort keeps their input order. */
  lemma {:induction false} SortDescStable<T>(s: seq<T>, score: T -> real, v: real)
    ensures WithScore(SortDesc(s, score), score, v) == WithScore(s, score, v)
    decreases |s|
  {
    if |s| > 0 {
      var init := s[..|s| - 1];
      var last := s[|s| - 1];
      calc {
        WithScore(SortDesc(s, score), score, v);
        WithScore(Insert(SortDesc(init, score), last, score), score, v);
        { InsertWithScore(SortDesc(init, score), last, score, v); }
        WithScore(SortDesc(init, score), score, v) + Only(last, score, v);
        { SortDescStable(init, score, v); }
        WithScore(init, score, v) + Only(last, score, v);
        { WithScoreLast(s, score, v); }
        WithScore(s, score, v);
      }
    }
  }

  lemma WithScoreLast<T>(s: seq<T>, score: T -> real, v: real)
    requires |s| > 0
    ensures WithScore(s, score, v) == WithScore(s[..|s| - 1], score, v) + Only(s[|s| - 1], score, v)
  {
    var init, last := s[..|s| - 1], s[|s| - 1];
    assert s == init + [last];
    WithScoreAppend(init, [last], score, v);
    assert WithScore([last], score, v) == Only(last, score, v);
  }

  lemma WithScoreHead<T>(s: seq<T>, score: T -> real)
    ensures |s| > 0 ==> WithScore(s, score, score(s[0])) == [s[0]] + WithScore(s[1..], score, score(s[0]))
  {
  }

  /** In a sorted sequence, no score above the first one occurs. */
  lemma FirstIsMax<T>(s: seq<T>, score: T -> real, v: real)
    requires SortedDesc(s, score)
    ensures |WithScore(s, score, v)| > 0 ==> |s| > 0 && v <= score(s[0])
  {
    var w := WithScore(s, score, v);
    if |w| > 0 {
      assert w[0] in s && score(w[0]) == v;
      var j :| 0 <= j < |s| && s[j] == w[0];
      assert j == 0 || score(s[0]) >= score(s[j]);
    }
  }

  /** Two sorted sequences with the same elements of every score, in the same order, are equal. */
  lemma {:induction false} SortedUnique<T>(a: seq<T>, b: seq<T>, score: T -> real)
    requires SortedDesc(a, score) && SortedDesc(b, score)
    requires forall v :: WithScore(a, score, v) == WithScore(b, score, v)
    ensures a == b
    decreases |a|
  {
    WithScoreHead(a, score);
    WithScoreHead(b, score);
    if |a| > 0 && |b| > 0 {
      var va, vb := score(a[0]), score(b[0]);
      FirstIsMax(b, score, va);
      FirstIsMax(a, score, vb);
      assert va == vb;
      assert a[0] == WithScore(a, score, va)[0] == WithScore(b, score, va)[0] == b[0];
      forall v ensures WithScore(a[1..], score, v) == WithScore(b[1..], score, v) {
        var head := Only(a[0], score, v);
        assert WithScore(a, score, v) == head + WithScore(a[1..], score, v);
        assert WithScore(b, score, v) == head + WithScore(b[1..], score, v);
        assert WithScore(a[1..], score, v) == WithScore(a, score, v)[|head|..];
        assert WithScore(b[1..], score, v) == WithScore(b, score, v)[|head|..];
      }
      SortedUnique(a[1..], b[1..], score);
      assert a == [a[0]] + a[1..] && b == [b[0]] + b[1..];
    }
  }

  /** Any sequence that is sorted by score and keeps the input order within each score is `SortDesc`. */
  lemma StableSortIsSortDesc<T>(s: seq<T>, r: seq<T>, score: T -> real)
    requires SortedDesc(r, score)
    requires forall v :: WithScore(r, score, v) == WithScore(s, score, v)
    ensures r == SortDesc(s, score)
  {
    SortDescSorted(s, score);
    forall v ensures WithScore(r, score, v) == WithScore(SortDesc(s, score), score, v) {
      SortDescStable(s, score, v);
    }
    SortedUnique(r, SortDesc(s, score), score);
  }

  /** The end index `array.slice(0, k)` uses on an array of length `n`. */
  function SliceEnd(k: int, n: nat): (m: nat)
    ensures m <= n
    ensures 0 <= k ==> m == if k < n then k else n
    ensures k < 0 ==> m == if n + k < 0 then 0 else n + k
  {
    if k < 0 then (if n + k < 0 then 0 else n + k)
    else if k < n then k else n
  }

  /** `s.sort(byScoreDesc).slice(0, k)`. */
  function TopK<T>(s: seq<T>, score: T -> real, k: int): seq<T>
  {
    SortDesc(s, score)[..SliceEnd(k, |s|)]
  }

  /** For `k >= 0` the top-k list has `min(k, |s|)` elements, in non-increasing score order,
    * and every element left out scores no higher than every element kept. */
  lemma TopKProperties<T>(s: seq<T>, score: T -> real, k: int)
    ensures 0 <= k ==> |TopK(s, score, k)| == if k < |s| then k else |s|
    ensures SortedDesc(TopK(s, score, k), score)
    ensures multiset(TopK(s, score, k)) <= multiset(s)
    ensures forall i, j :: 0 <= i < |TopK(s, score, k)| <= j < |s| ==>
              score(TopK(s, score, k)[i]) >= score(SortDesc(s, score)[j])
  {
    var r := SortDesc(s, score);
    SortDescSorted(s, score);
    SortDescPerm(s, score);
    SortedPrefix(r, SliceEnd(k, |s|), score);
  }

  /** A prefix of a sorted sequence is sorted, is part of it, and scores no lower than the rest. */
  lemma SortedPrefix<T>(r: seq<T>, m: nat, score: T -> real)
    requires m <= |r| && SortedDesc(r, score)
    ensures SortedDesc(r[..m], score)
    ensures multiset(r[..m]) <= multiset(r)
    ensures forall i, j :: 0 <= i < m <= j < |r| ==> score(r[..m][i]) >= score(r[j])
  {
    assert r == r[..m] + r[m..];
    assert multiset(r) == multiset(r[..m]) + multiset(r[m..]);
  }

  /** Within the top-k list, equal scores keep their input order. */
  lemma TopKStable<T>(s: seq<T>, score: T -> real, k: int, v: real)
    ensures WithScore(TopK(s, score, k), score, v) + WithScore(SortDesc(s, score)[SliceEnd(k, |s|)..], score, v)
            == WithScore(s, score, v)
  {
    var r := SortDesc(s, score);
    var m := SliceEnd(k, |s|);
    assert r == r[..m] + r[m..];
    WithScoreAppend(r[..m], r[m..], score, v);
    SortDescStable(s, score, v);
  }

  lemma SortDescNext<T>(s: seq<T>, i: nat, score: T -> real)
    requires i < |s|
    ensures SortDesc(s[..i + 1], score) == Insert(SortDesc(s[..i], score), s[i], score)
  {
    assert s[..i + 1][..i] == s[..i];
  }

  lemma InsertShift<T>(t: seq<T>, x: T, j: nat, score: T -> real)
    requires 0 < j <= |t| && score(t[j - 1]) < score(x)
    ensures Insert(t[..j], x, score) + t[j..] == Insert(t[..j - 1], x, score) + t[j - 1..]
  {
    assert t[..j][..j - 1] == t[..j - 1];
    assert t[j - 1..] == [t[j - 1]] + t[j..];
  }

  lemma InsertStop<T>(t: seq<T>, x: T, j: nat, score: T -> real)
    requires j <= |t| && (j == 0 || score(t[j - 1]) >= score(x))
    ensures Insert(t[..j], x, score) + t[j..] == t[..j] + [x] + t[j..]
  {
  }

  /** The array during the shift: `t[..j]`, a free slot at `j`, then the rest of `t` one place
    * to the right, then the untouched `rest`. */
  ghost predicate Shifting<T>(cur: seq<T>, t: seq<T>, rest: seq<T>, j: nat) {
    j <= |t| && |cur| == |t| + 1 + |rest| &&
    cur[..j] == t[..j] && cur[j + 1..|t| + 1] == t[j..] && cur[|t| + 1..] == rest
  }

  lemma ShiftingStep<T>(cur: seq<T>, t: seq<T>, rest: seq<T>, j: nat)
    requires Shifting(cur, t, rest, j) && 0 < j
    ensures cur[j - 1] == t[j - 1]
    ensures Shifting(cur[j := cur[j - 1]], t, rest, j - 1)
  {
    assert cur[j - 1] == cur[..j][j - 1];
    var next := cur[j := cur[j - 1]];
    assert next[..j - 1] == cur[..j - 1] == t[..j - 1];
    assert next[j..|t| + 1] == [t[j - 1]] + cur[j + 1..|t| + 1];
    assert t[j - 1..] == [t[j - 1]] + t[j..];
    assert next[|t| + 1..] == cur[|t| + 1..];
  }

  lemma ShiftingDone<T>(cur: seq<T>, t: seq<T>, rest: seq<T>, j: nat, x: T)
    requires Shifting(cur, t, rest, j)
    ensures cur[j := x][..|t| + 1] == t[..j] + [x] + t[j..]
    ensures cur[j := x][|t| + 1..] == rest
  {
    var next := cur[j := x];
    assert next[..|t| + 1] == cur[..j] + [x] + cur[j + 1..|t| + 1];
    assert next[|t| + 1..] == cur[|t| + 1..];
  }

  /**
   * Moves `a[i]` left past the elements of `a[..i]` that score strictly less,
   * which turns a sorted `a[..i]` into `Insert(a[..i], a[i])`.
   */
  method InsertInPlace<T>(a: array<T>, i: nat, score: T -> real)
    requires i < a.Length
    modifies a
    ensures a[..i + 1] == Insert(old(a[..i]), old(a[i]), score)
    ensures a[i + 1..] == old(a[i + 1..])
  {
    var x := a[i];
    ghost var t := a[..i];
    ghost var rest := a[i + 1..];
    var j := i;
    assert t[..j] == t && t[j..] == [];
    assert Shifting(a[..], t, rest, j);
    while j > 0 && score(a[j - 1]) < score(x)
      invariant 0 <= j <= i
      invariant Shifting(a[..], t, rest, j)
      invariant Insert(t, x, score) == Insert(t[..j], x, score) + t[j..]
    {
      ShiftingStep(a[..], t, rest, j);
      InsertShift(t, x, j, score);
      a[j] := a[j - 1];
      j := j - 1;
    }
    if j > 0 {
      ShiftingStep(a[..], t, rest, j);
    }
    InsertStop(t, x, j, score);
    ShiftingDone(a[..], t, rest, j, x);
    a[j] := x;
  }

  lemma SuffixStep<T>(x: seq<T>, y: seq<T>, i: nat)
    requires i < |x| == |y| && x[i..] == y[i..]
    ensures x[i + 1..] == y[i + 1..]
  {
    assert x[i + 1..] == x[i..][1..];
    assert y[i + 1..] == y[i..][1..];
  }

  /**
   * Sorts `a` in place into `SortDesc(old(a[..]))`: the stable, descending,
   * insertion-sort order by `score`.
   */
  method SortInPlace<T>(a: array<T>, score: T -> real)
    modifies a
    ensures a[..] == SortDesc(old(a[..]), score)
  {
    ghost var s := a[..];
    var i := 0;
    while i < a.Length
      invariant 0 <= i <= a.Length
      invariant a[..i] == SortDesc(s[..i], score)
      invariant a[i..] == s[i..]
    {
      SortDescNext(s, i, score);
      assert a[i] == s[i];
      ghost var before := a[..];
      SuffixStep(before, s, i);
      InsertInPlace(a, i, score);
      assert a[i + 1..] == before[i + 1..];
      i := i + 1;
    }
    assert a[..] == a[..a.Length] && s == s[..a.Length];
  }
}
