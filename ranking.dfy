/** The selection idiom both retrieval stages share: sort the indices of a
    score vector by descending score and keep the first `top_k`, that is
    `np.argsort(s)[::-1][:top_k]`. */
module Ranking {

  predicate Distinct(xs: seq<nat>) {
    forall i, j | 0 <= i < j < |xs| :: xs[i] != xs[j]
  }

  predicate InRange(xs: seq<nat>, n: nat) {
    forall i | 0 <= i < |xs| :: xs[i] < n
  }

  /** The indices `xs` list their scores from highest to lowest. */
  predicate Descending(s: seq<real>, xs: seq<nat>)
    requires InRange(xs, |s|)
  {
    forall i, j | 0 <= i < j < |xs| :: s[xs[i]] >= s[xs[j]]
  }

  /** Length of the Python slice `xs[:k]` of a sequence of length `n`; a
      negative `k` counts from the end. */
  function SliceLength(k: int, n: nat): (m: nat)
    ensures m <= n
    ensures 0 <= k ==> m <= k
  {
    if 0 <= k then (if k < n then k else n)
    else if n + k < 0 then 0 else n + k
  }

  /** What `np.argsort(s)[::-1][:k]` promises whatever order it gives to
      equal scores: as many indices as the slice keeps, no index twice, all
      in range, scores from highest to lowest, and no index left out scores
      higher than one taken. */
  ghost predicate IsTopK(s: seq<real>, k: int, idx: seq<nat>) {
    |idx| == SliceLength(k, |s|) && Distinct(idx) && InRange(idx, |s|)
    && Descending(s, idx)
    && forall i, j | 0 <= i < |idx| && 0 <= j < |s| && j !in idx :: s[j] <= s[idx[i]]
  }

  /** The indices 0 .. n-1 in order. */
  function Range(n: nat): (r: seq<nat>)
    ensures |r| == n && Distinct(r) && InRange(r, n)
    ensures forall j | 0 <= j < n :: j in r
  {
    if n == 0 then [] else Range(n - 1) + [n - 1]
  }

  /** Putting in front an index that scores at least as high as every index
      of a descending list keeps it descending. */
  lemma DescendingCons(s: seq<real>, y: nat, ys: seq<nat>)
    requires y < |s| && InRange(ys, |s|) && Descending(s, ys)
    requires forall z | z in ys :: s[y] >= s[z]
    ensures InRange([y] + ys, |s|) && Descending(s, [y] + ys)
  {
    var r := [y] + ys;
    forall i, j | 0 <= i < j < |r| ensures s[r[i]] >= s[r[j]] {
      assert r[j] == ys[j - 1];
      if i > 0 {
        assert r[i] == ys[i - 1];
      } else {
        assert ys[j - 1] in ys;
      }
    }
  }

  /** Putting in front an index absent from a duplicate-free list keeps it
      duplicate-free. */
  lemma DistinctCons(y: nat, ys: seq<nat>)
    ensures Distinct(ys) && y !in ys ==> Distinct([y] + ys)
  {
    if Distinct(ys) && y !in ys {
      var r := [y] + ys;
      forall i, j | 0 <= i < j < |r| ensures r[i] != r[j] {
        assert r[j] == ys[j - 1];
        if i > 0 {
          assert r[i] == ys[i - 1];
        } else {
          assert ys[j - 1] in ys;
        }
      }
    }
  }

  /** The tail of a duplicate-free list is duplicate-free and lacks its head. */
  lemma DistinctTail(xs: seq<nat>)
    requires xs != []
    ensures Distinct(xs) ==> Distinct(xs[1..]) && xs[0] !in xs[1..]
  {
    if Distinct(xs) {
      var tail := xs[1..];
      forall i, j | 0 <= i < j < |tail| ensures tail[i] != tail[j] {
        assert tail[i] == xs[i + 1] && tail[j] == xs[j + 1];
      }
    }
  }

  /** Puts index `x` into the descending list `xs`, in front of the first
      index that does not score higher. */
  function Insert(s: seq<real>, x: nat, xs: seq<nat>): (r: seq<nat>)
    requires x < |s| && InRange(xs, |s|) && Descending(s, xs)
    ensures |r| == |xs| + 1
    ensures forall y :: y in r <==> y == x || y in xs
    ensures InRange(r, |s|) && Descending(s, r)
    ensures Distinct(xs) && x !in xs ==> Distinct(r)
  {
    if xs == [] || s[x] >= s[xs[0]] then
      InsertInFront(s, x, xs);
      [x] + xs
    else
      DescendingTail(s, xs);
      var rest := Insert(s, x, xs[1..]);
      InsertBehind(s, x, xs, rest);
      [xs[0]] + rest
  }

  /** An index scoring at least as high as the head of a descending list may
      go in front of it. */
  lemma InsertInFront(s: seq<real>, x: nat, xs: seq<nat>)
    requires x < |s| && InRange(xs, |s|) && Descending(s, xs)
    requires xs == [] || s[x] >= s[xs[0]]
    ensures InRange([x] + xs, |s|) && Descending(s, [x] + xs)
    ensures Distinct(xs) && x !in xs ==> Distinct([x] + xs)
  {
    forall z | z in xs ensures s[x] >= s[z] {
      var j :| 0 <= j < |xs| && xs[j] == z;
      assert j == 0 || s[xs[0]] >= s[xs[j]];
    }
    DescendingCons(s, x, xs);
    DistinctCons(x, xs);
  }

  /** The tail of a descending list is descending. */
  lemma DescendingTail(s: seq<real>, xs: seq<nat>)
    requires xs != [] && InRange(xs, |s|) && Descending(s, xs)
    ensures InRange(xs[1..], |s|) && Descending(s, xs[1..])
  {
    var tail := xs[1..];
    forall i, j | 0 <= i < j < |tail| ensures s[tail[i]] >= s[tail[j]] {
      assert tail[i] == xs[i + 1] && tail[j] == xs[j + 1];
    }
  }

  /** An index scoring below the head of a descending list goes behind it:
      the head stays in front of the tail with the index inserted. */
  lemma InsertBehind(s: seq<real>, x: nat, xs: seq<nat>, rest: seq<nat>)
    requires x < |s| && xs != [] && InRange(xs, |s|) && Descending(s, xs) && s[x] < s[xs[0]]
    requires InRange(rest, |s|) && Descending(s, rest)
    requires forall y :: y in rest <==> y == x || y in xs[1..]
    requires Distinct(xs[1..]) && x !in xs[1..] ==> Distinct(rest)
    ensures forall y :: y in [xs[0]] + rest <==> y == x || y in xs
    ensures InRange([xs[0]] + rest, |s|) && Descending(s, [xs[0]] + rest)
    ensures Distinct(xs) && x !in xs ==> Distinct([xs[0]] + rest)
  {
    var tail := xs[1..];
    forall z | z in rest ensures s[xs[0]] >= s[z] {
      if z != x {
        var j :| 0 <= j < |tail| && tail[j] == z;
        assert z == xs[j + 1];
      }
    }
    DescendingCons(s, xs[0], rest);
    DistinctTail(xs);
    DistinctCons(xs[0], rest);
    assert xs == [xs[0]] + tail;
  }

  /** The indices `ids`, rearranged by descending score. */
  function SortByScore(s: seq<real>, ids: seq<nat>): (r: seq<nat>)
    requires InRange(ids, |s|)
    ensures |r| == |ids|
    ensures forall y :: y in r <==> y in ids
    ensures InRange(r, |s|) && Descending(s, r)
    ensures Distinct(ids) ==> Distinct(r)
  {
    if ids == [] then []
    else Insert(s, ids[0], SortByScore(s, ids[1..]))
  }

  /** `np.argsort(s)[::-1]`: every index of `s` once, by descending score.
      Equal scores come out in one fixed order; numpy's order among them is
      not specified, and nothing below depends on it. */
  function RankByScore(s: seq<real>): (r: seq<nat>)
    ensures |r| == |s| && Distinct(r) && InRange(r, |s|) && Descending(s, r)
    ensures forall j | 0 <= j < |s| :: j in r
  {
    SortByScore(s, Range(|s|))
  }

  /** `np.argsort(s)[::-1][:k]`. */
  function TopK(s: seq<real>, k: int): (idx: seq<nat>)
    ensures IsTopK(s, k, idx)
  {
    var full := RankByScore(s);
    PrefixIsTopK(s, k, full);
    full[..SliceLength(k, |s|)]
  }

  /** Any prefix of a complete descending ranking is a top-k selection. */
  lemma PrefixIsTopK(s: seq<real>, k: int, full: seq<nat>)
    requires |full| == |s| && Distinct(full) && InRange(full, |s|) && Descending(s, full)
    requires forall j | 0 <= j < |s| :: j in full
    ensures IsTopK(s, k, full[..SliceLength(k, |s|)])
  {
    var m := SliceLength(k, |s|);
    var idx := full[..m];
    forall i, j | 0 <= i < m && 0 <= j < |s| && j !in idx ensures s[j] <= s[idx[i]] {
      assert j in full;
      var p :| 0 <= p < |full| && full[p] == j;
      assert p >= m;
    }
  }

  /** The elements of `xs` as a set. */
  function Elems(xs: seq<nat>): (e: set<nat>)
    ensures forall x :: x in e <==> x in xs
  {
    if xs == [] then {} else {xs[0]} + Elems(xs[1..])
  }

  lemma {:induction false} ElemsCard(xs: seq<nat>)
    ensures |Elems(xs)| <= |xs|
    ensures Distinct(xs) ==> |Elems(xs)| == |xs|
  {
    if xs != [] {
      ElemsCard(xs[1..]);
      DistinctTail(xs);
      if xs[0] in Elems(xs[1..]) {
        assert Elems(xs) == Elems(xs[1..]);
      } else {
        assert |Elems(xs)| == |Elems(xs[1..])| + 1;
      }
    }
  }

  /** A set of indices below `n` has at most `n` members, and only the full
      range has exactly `n`. */
  lemma {:induction false} BoundedSetCard(e: set<nat>, n: nat)
    requires forall x | x in e :: x < n
    ensures |e| <= n
    ensures |e| == n ==> forall j | 0 <= j < n :: j in e
  {
    if n > 0 {
      var rest := e - {n - 1};
      BoundedSetCard(rest, n - 1);
      if |e| == n {
        assert n - 1 in e;
        assert |rest| == n - 1;
      }
    }
  }

  /** An index is certainly taken into a top-k selection when fewer than `k`
      other indices score at least as high. */
  lemma ShortlistContains(s: seq<real>, k: int, idx: seq<nat>, j: nat)
    requires IsTopK(s, k, idx) && j < |s|
    requires |set i: nat | i < |s| && i != j && s[i] >= s[j]| < k
    ensures j in idx
  {
    var rivals := set i: nat | i < |s| && i != j && s[i] >= s[j];
    if j !in idx {
      // every index taken is a rival of j, so fewer than k were taken: the
      // slice kept all of s, j included
      ElemsCard(idx);
      assert Elems(idx) <= rivals;
      SubsetCard(Elems(idx), rivals);
      BoundedSetCard(Elems(idx), |s|);
      assert false;
    }
  }

  lemma SubsetCard(a: set<nat>, b: set<nat>)
    requires a <= b
    ensures |a| <= |b|
  {
    assert b == a + (b - a);
  }

  /** The first index of a non-empty selection scores highest of all. */
  lemma HeadIsMaximum(s: seq<real>, k: int, idx: seq<nat>)
    requires IsTopK(s, k, idx) && |idx| > 0
    ensures forall x | 0 <= x < |s| :: s[x] <= s[idx[0]]
  {
    forall x | 0 <= x < |s| ensures s[x] <= s[idx[0]] {
      if x in idx {
        var t :| 0 <= t < |idx| && idx[t] == x;
        if t > 0 { assert s[idx[0]] >= s[idx[t]]; }
      }
    }
  }

  /** An index whose score beats every other one heads every non-empty
      selection. */
  lemma StrictMaximumFirst(s: seq<real>, k: int, idx: seq<nat>, p: nat)
    requires IsTopK(s, k, idx) && |idx| > 0 && p < |s|
    requires forall q | 0 <= q < |s| && q != p :: s[q] < s[p]
    ensures idx[0] == p
  {
    HeadIsMaximum(s, k, idx);
    assert s[p] <= s[idx[0]] && idx[0] < |s|;
  }

  /** An index that beats position `i` of a selection stands before it. */
  lemma BeatsOnlyEarlier(s: seq<real>, k: int, b: seq<nat>, i: nat, x: nat)
    requires IsTopK(s, k, b) && i < |b| && x < |s| && s[x] > s[b[i]]
    ensures x in b[..i]
  {
    assert x in b;
    var p :| 0 <= p < |b| && b[p] == x;
    assert p < i;
    assert b[..i][p] == x;
  }

  /** A duplicate-free list whose elements all occur in another list is no
      longer than it. */
  lemma DistinctWithin(xs: seq<nat>, ys: seq<nat>)
    requires Distinct(xs) && Elems(xs) <= Elems(ys)
    ensures |xs| <= |ys|
  {
    ElemsCard(xs);
    ElemsCard(ys);
    SubsetCard(Elems(xs), Elems(ys));
  }

  /** When position `i` of `a` beats position `i` of `b`, every index among
      the first i + 1 of `a` stands among the first i of `b`. */
  lemma PrefixInsidePrefix(s: seq<real>, k: int, a: seq<nat>, b: seq<nat>, i: nat)
    requires IsTopK(s, k, a) && IsTopK(s, k, b) && i < |a| && i < |b|
    requires s[a[i]] > s[b[i]]
    ensures Distinct(a[..i + 1]) && Elems(a[..i + 1]) <= Elems(b[..i])
  {
    var front := a[..i + 1];
    assert forall x, y | 0 <= x < y < |front| :: front[x] == a[x] && front[y] == a[y];
    forall x | x in Elems(front) ensures x in Elems(b[..i]) {
      var t :| 0 <= t < |front| && front[t] == x;
      assert a[t] == x;
      assert t == i || s[a[t]] >= s[a[i]];
      BeatsOnlyEarlier(s, k, b, i, x);
    }
  }

  /** The score at position `i` of one selection is at most the score at the
      same position of another, when all earlier positions agree. */
  lemma NotHigherThanOther(s: seq<real>, k: int, a: seq<nat>, b: seq<nat>, i: nat)
    requires IsTopK(s, k, a) && IsTopK(s, k, b) && i < |a|
    requires forall t | 0 <= t < i :: s[a[t]] == s[b[t]]
    ensures s[a[i]] <= s[b[i]]
  {
    if s[a[i]] > s[b[i]] {
      // the i + 1 indices a[0..i] all score at least s[a[i]], yet only the i
      // indices b[0..i-1] can beat b[i]
      PrefixInsidePrefix(s, k, a, b, i);
      DistinctWithin(a[..i + 1], b[..i]);
      assert false;
    }
  }

  /** Positions 0 .. n-1 of `a` and `b` carry equal scores. */
  ghost predicate AgreeBelow(s: seq<real>, a: seq<nat>, b: seq<nat>, n: nat)
    requires n <= |a| && n <= |b| && InRange(a, |s|) && InRange(b, |s|)
  {
    forall t | 0 <= t < n :: s[a[t]] == s[b[t]]
  }

  lemma PositionAgrees(s: seq<real>, k: int, a: seq<nat>, b: seq<nat>, i: nat)
    requires IsTopK(s, k, a) && IsTopK(s, k, b) && i < |a|
    requires AgreeBelow(s, a, b, i)
    ensures s[a[i]] == s[b[i]]
  {
    NotHigherThanOther(s, k, a, b, i);
    NotHigherThanOther(s, k, b, a, i);
  }

  lemma {:induction false} ScoresAgreeBelow(s: seq<real>, a: seq<nat>, b: seq<nat>, n: nat)
    requires |a| == |b| && n <= |a| && InRange(a, |s|) && InRange(b, |s|)
    requires forall i | 0 <= i < |a| && AgreeBelow(s, a, b, i) :: s[a[i]] == s[b[i]]
    ensures AgreeBelow(s, a, b, n)
  {
    if n > 0 {
      ScoresAgreeBelow(s, a, b, n - 1);
    }
  }

  /** Any two valid selections, whatever order they give to ties, report the
      same scores position by position. */
  lemma TopKScoresDetermined(s: seq<real>, k: int, a: seq<nat>, b: seq<nat>)
    requires IsTopK(s, k, a) && IsTopK(s, k, b)
    ensures |a| == |b|
    ensures forall t | 0 <= t < |a| :: s[a[t]] == s[b[t]]
  {
    forall i | 0 <= i < |a| && AgreeBelow(s, a, b, i) ensures s[a[i]] == s[b[i]] {
      PositionAgrees(s, k, a, b, i);
    }
    ScoresAgreeBelow(s, a, b, |a|);
  }
}
