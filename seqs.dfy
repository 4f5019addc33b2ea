/** Sequence operations shared by the pipeline scripts. */
module Seqs {

  /** The elements of `s` that satisfy `p`, in their original order (`Array.prototype.filter`). */
  function Filter<T>(s: seq<T>, p: T -> bool): (r: seq<T>)
    ensures |r| <= |s|
    ensures forall i :: 0 <= i < |r| ==> r[i] in s && p(r[i])
    ensures forall i :: 0 <= i < |s| && p(s[i]) ==> s[i] in r
  {
    if |s| == 0 then []
    else (if p(s[0]) then [s[0]] else []) + Filter(s[1..], p)
  }

  lemma {:induction false} FilterAppend<T>(a: seq<T>, b: seq<T>, p: T -> bool)
    ensures Filter(a + b, p) == Filter(a, p) + Filter(b, p)
  {
    if |a| > 0 {
      assert (a + b)[1..] == a[1..] + b;
      FilterAppend(a[1..], b, p);
    } else {
      assert a + b == b;
    }
  }

  /** Filtering keeps everything exactly when every element passes. */
  lemma {:induction false} FilterAll<T>(s: seq<T>, p: T -> bool)
    ensures Filter(s, p) == s <==> forall i :: 0 <= i < |s| ==> p(s[i])
  {
    if |s| > 0 {
      FilterAll(s[1..], p);
      if !p(s[0]) {
        assert |Filter(s, p)| < |s|;
      }
    }
  }

  /** Nothing passes the filter exactly when no element satisfies the predicate. */
  lemma FilterNone<T>(s: seq<T>, p: T -> bool)
    ensures |Filter(s, p)| == 0 <==> forall i :: 0 <= i < |s| ==> !p(s[i])
  {
    if |Filter(s, p)| > 0 {
      var r := Filter(s, p);
      assert r[0] in s && p(r[0]);
    }
  }

  /** Filtering twice keeps nothing exactly when no element passes both tests. */
  lemma FilterTwiceNone<T>(s: seq<T>, p: T -> bool, q: T -> bool)
    ensures |Filter(Filter(s, p), q)| == 0 <==> forall i :: 0 <= i < |s| ==> !(p(s[i]) && q(s[i]))
  {
    var pq := (x: T) => p(x) && q(x);
    FilterFilter(s, p, q, pq);
    FilterNone(s, pq);
  }

  /** Filtering an already filtered sequence is the filter by the conjunction. */
  lemma {:induction false} FilterFilter<T>(s: seq<T>, p: T -> bool, q: T -> bool, pq: T -> bool)
    requires forall x :: pq(x) == (p(x) && q(x))
    ensures Filter(Filter(s, p), q) == Filter(s, pq)
  {
    if |s| > 0 {
      FilterFilter(s[1..], p, q, pq);
      FilterAppend(if p(s[0]) then [s[0]] else [], Filter(s[1..], p), q);
    }
  }

  /** `s.map(f)`. */
  function Map<T, U>(s: seq<T>, f: T -> U): (r: seq<U>)
    ensures |r| == |s|
    ensures forall i :: 0 <= i < |s| ==> r[i] == f(s[i])
  {
    if |s| == 0 then [] else [f(s[0])] + Map(s[1..], f)
  }

  lemma MapSingle<T, U>(x: T, f: T -> U)
    ensures Map([x], f) == [f(x)]
  {
  }

  lemma {:induction false} MapAppend<T, U>(a: seq<T>, b: seq<T>, f: T -> U)
    ensures Map(a + b, f) == Map(a, f) + Map(b, f)
  {
    assert |Map(a + b, f)| == |Map(a, f) + Map(b, f)|;
    forall i | 0 <= i < |a + b|
      ensures Map(a + b, f)[i] == (Map(a, f) + Map(b, f))[i]
    {
      if i < |a| {
        assert (a + b)[i] == a[i];
      } else {
        assert (a + b)[i] == b[i - |a|];
      }
    }
  }

  /** The concatenation of all pieces, in order. */
  function Flatten<T>(ss: seq<seq<T>>): seq<T>
  {
    if |ss| == 0 then [] else ss[0] + Flatten(ss[1..])
  }

  lemma {:induction false} FlattenAppend<T>(a: seq<seq<T>>, b: seq<seq<T>>)
    ensures Flatten(a + b) == Flatten(a) + Flatten(b)
  {
    if |a| > 0 {
      assert (a + b)[1..] == a[1..] + b;
      FlattenAppend(a[1..], b);
    } else {
      assert a + b == b;
    }
  }

  /** `s` cut into consecutive pieces of `size` elements, the last one possibly shorter. */
  function Groups<T>(s: seq<T>, size: nat): (r: seq<seq<T>>)
    requires size > 0
    ensures Flatten(r) == s
    ensures forall g :: 0 <= g < |r| ==> 0 < |r[g]| <= size
    ensures forall g :: 0 <= g < |r| - 1 ==> |r[g]| == size
    decreases |s|
  {
    if |s| == 0 then []
    else if |s| <= size then [s]
    else
      var rest := Groups(s[size..], size);
      assert ([s[..size]] + rest)[1..] == rest;
      [s[..size]] + rest
  }

  /** A full piece in front adds one group in front. */
  lemma GroupsCons<T>(head: seq<T>, tail: seq<T>, size: nat)
    requires size > 0 && |head| == size
    ensures Groups(head + tail, size) == [head] + Groups(tail, size)
  {
    var s := head + tail;
    if |tail| == 0 {
      assert s == head;
    } else {
      assert s[..size] == head;
      assert s[size..] == tail;
    }
  }

  lemma FlattenFront<T>(ss: seq<seq<T>>, t: seq<T>)
    requires |ss| > 0
    ensures Flatten(ss) + t == ss[0] + (Flatten(ss[1..]) + t)
  {
  }

  lemma ConsTail<T>(s: seq<T>, t: seq<T>)
    requires |s| > 0
    ensures [s[0]] + (s[1..] + t) == s + t
  {
    assert s == [s[0]] + s[1..];
  }

  /** Groups is the only way to cut `s` into full pieces followed by at most one shorter piece. */
  lemma {:induction false} GroupsUnique<T>(done: seq<seq<T>>, rest: seq<T>, size: nat)
    requires size > 0
    requires forall g :: 0 <= g < |done| ==> |done[g]| == size
    requires |rest| <= size
    ensures Groups(Flatten(done) + rest, size) == done + (if |rest| > 0 then [rest] else [])
  {
    var s := Flatten(done) + rest;
    if |done| == 0 {
      assert s == rest;
    } else {
      var tail := Flatten(done[1..]) + rest;
      GroupsUnique(done[1..], rest, size);
      FlattenFront(done, rest);
      GroupsCons(done[0], tail, size);
      ConsTail(done, if |rest| > 0 then [rest] else []);
    }
  }

  lemma MulStep(g: nat, size: nat)
    ensures (g + 1) * size == g * size + size
  {
  }

  /** The smaller of two naturals. */
  function Min(a: nat, b: nat): nat { if a < b then a else b }

  /** Piece `g` is the slice `[g*size, min((g+1)*size, |s|))` of `s`. */
  lemma GroupSlice<T>(s: seq<T>, size: nat, g: nat)
    requires size > 0
    requires g < |Groups(s, size)|
    ensures g * size < |s|
    ensures Groups(s, size)[g] == s[g * size .. Min((g + 1) * size, |s|)]
  {
    var r := Groups(s, size);
    GroupsPrefix(s, size, g);
    GroupsPrefix(s, size, g + 1);
    assert r[..g + 1] == r[..g] + [r[g]];
    FlattenAppend(r[..g], [r[g]]);
    FlattenSingle(r[g]);
    PieceBetweenPrefixes(s, Min(g * size, |s|), Min((g + 1) * size, |s|), r[g]);
  }

  lemma FlattenSingle<T>(x: seq<T>)
    ensures Flatten([x]) == x
  {
    assert [x][1..] == [];
  }

  /** What extends one prefix to a longer one is the slice between them. */
  lemma PieceBetweenPrefixes<T>(s: seq<T>, lo: nat, hi: nat, piece: seq<T>)
    requires lo <= |s| && hi <= |s| && |piece| > 0
    requires s[..lo] + piece == s[..hi]
    ensures lo < hi && piece == s[lo..hi]
  {
    assert |s[..lo] + piece| == hi;
    forall k | 0 <= k < |piece| ensures piece[k] == s[lo + k] {
      assert (s[..lo] + piece)[lo + k] == s[..hi][lo + k];
    }
  }

  /** The first `g` pieces together are the first `min(g*size, |s|)` elements. */
  lemma {:induction false} GroupsPrefix<T>(s: seq<T>, size: nat, g: nat)
    requires size > 0
    requires g <= |Groups(s, size)|
    ensures Flatten(Groups(s, size)[..g]) == s[..Min(g * size, |s|)]
    decreases |s|
  {
    var r := Groups(s, size);
    if g == 0 {
      assert r[..0] == [];
    } else if |s| <= size {
      assert r == [s] && g == 1;
      assert r[..1] == r;
    } else {
      assert r == [s[..size]] + Groups(s[size..], size);
      GroupsPrefix(s[size..], size, g - 1);
      GroupsPrefixStep(s, size, g, r, Groups(s[size..], size));
    }
  }

  /** The first `g` pieces are the first piece and the first `g - 1` pieces of the rest. */
  lemma GroupsPrefixStep<T>(s: seq<T>, size: nat, g: nat, r: seq<seq<T>>, rest: seq<seq<T>>)
    requires 0 < size < |s| && 0 < g <= |rest| + 1
    requires r == [s[..size]] + rest
    requires Flatten(rest[..g - 1]) == s[size..][..Min((g - 1) * size, |s[size..]|)]
    ensures Flatten(r[..g]) == s[..Min(g * size, |s|)]
  {
    FlattenPrefixCons(s[..size], rest, g);
    var m := Min((g - 1) * size, |s| - size);
    MinShift(g, size, |s|);
    assert s[..size] + s[size..][..m] == s[..m + size];
  }

  lemma FlattenPrefixCons<T>(head: seq<T>, rest: seq<seq<T>>, g: nat)
    requires 0 < g <= |rest| + 1
    ensures Flatten(([head] + rest)[..g]) == head + Flatten(rest[..g - 1])
  {
    var p := ([head] + rest)[..g];
    assert p[0] == head && p[1..] == rest[..g - 1];
  }

  lemma MinShift(g: nat, size: nat, n: nat)
    requires 0 < g && size < n
    ensures Min((g - 1) * size, n - size) + size == Min(g * size, n)
  {
    MulStep(g - 1, size);
  }

  /** The pieces `f(s[0]) + f(s[1]) + ...`, in order (a loop that pushes each item's results). */
  function FlatMap<T, U>(s: seq<T>, f: T -> seq<U>): seq<U>
  {
    if |s| == 0 then [] else FlatMap(s[..|s| - 1], f) + f(s[|s| - 1])
  }

  lemma {:induction false} FlatMapAppend<T, U>(a: seq<T>, b: seq<T>, f: T -> seq<U>)
    ensures FlatMap(a + b, f) == FlatMap(a, f) + FlatMap(b, f)
    decreases |b|
  {
    if |b| == 0 {
      assert a + b == a;
    } else {
      var b' := b[..|b| - 1];
      assert (a + b)[..|a + b| - 1] == a + b';
      assert (a + b)[|a + b| - 1] == b[|b| - 1];
      FlatMapAppend(a, b', f);
    }
  }

  /** Every element of the result comes from the pieces of some item. */
  lemma {:induction false} FlatMapMember<T, U>(s: seq<T>, f: T -> seq<U>, k: nat)
    requires k < |FlatMap(s, f)|
    ensures exists i :: 0 <= i < |s| && FlatMap(s, f)[k] in f(s[i])
    decreases |s|
  {
    var n := |s| - 1;
    var front := FlatMap(s[..n], f);
    if k < |front| {
      FlatMapMember(s[..n], f, k);
      var i :| 0 <= i < n && front[k] in f(s[..n][i]);
      assert s[..n][i] == s[i];
    } else {
      assert FlatMap(s, f)[k] == f(s[n])[k - |front|];
    }
  }

  /** Every element of the middle part is an element of the whole. */
  lemma MiddleMember<T>(a: seq<T>, b: seq<T>, c: seq<T>)
    ensures forall j :: 0 <= j < |b| ==> b[j] in a + b + c
  {
    forall j | 0 <= j < |b|
      ensures b[j] in a + b + c
    {
      assert (a + b + c)[|a| + j] == b[j];
    }
  }
}
