/** Order statistics of the interval ring (src/result_batcher.cpp, update_adaptive_locked). */
module Medians {
  predicate Sorted(s: seq<nat>) {
    forall i, j :: 0 <= i < j < |s| ==> s[i] <= s[j]
  }

  function Insert(x: nat, s: seq<nat>): seq<nat> {
    if s == [] || x <= s[0] then [x] + s else [s[0]] + Insert(x, s[1..])
  }

  function Sort(s: seq<nat>): seq<nat> {
    if s == [] then [] else Insert(s[0], Sort(s[1..]))
  }

  lemma {:induction false} InsertAdds(x: nat, s: seq<nat>)
    ensures multiset(Insert(x, s)) == multiset{x} + multiset(s)
    decreases |s|
  {
    if s != [] && x > s[0] {
      InsertAdds(x, s[1..]);
      assert s == [s[0]] + s[1..];
    }
  }

  lemma {:induction false} InsertSorted(x: nat, s: seq<nat>)
    requires Sorted(s)
    ensures Sorted(Insert(x, s))
    decreases |s|
  {
    if s == [] || x <= s[0] {
      Prepend(x, s);
    } else {
      SortedTail(s);
      InsertSorted(x, s[1..]);
      InsertAdds(x, s[1..]);
      var t := Insert(x, s[1..]);
      forall y | y in t ensures s[0] <= y {
        assert y in multiset(t);
        assert y == x || y in s[1..];
      }
      hide Sorted, Insert;
      Prepend(s[0], t);
    }
  }

  lemma Prepend(x: nat, s: seq<nat>)
    requires Sorted(s) && forall y :: y in s ==> x <= y
    ensures Sorted([x] + s)
  {
    var t := [x] + s;
    forall i, j | 0 <= i < j < |t| ensures t[i] <= t[j] {
      assert t[j] == s[j - 1] && s[j - 1] in s;
      if i > 0 { assert t[i] == s[i - 1]; }
    }
  }

  lemma Glue(lo: seq<nat>, x: nat, hi: seq<nat>)
    requires Sorted(lo) && Sorted(hi)
    requires (forall y :: y in lo ==> y <= x) && (forall y :: y in hi ==> x <= y)
    ensures Sorted(lo + [x] + hi)
  {
    var all, n := lo + [x] + hi, |lo|;
    forall i, j | 0 <= i < j < |all| ensures all[i] <= all[j] {
      if i < n { assert all[i] == lo[i] && lo[i] in lo; }
      if i > n { assert all[i] == hi[i - n - 1]; }
      if j < n { assert all[j] == lo[j]; }
      if j > n { assert all[j] == hi[j - n - 1] && hi[j - n - 1] in hi; }
    }
  }

  lemma {:induction false} SortSorts(s: seq<nat>)
    ensures Sorted(Sort(s)) && multiset(Sort(s)) == multiset(s)
    decreases |s|
  {
    if s != [] {
      SortSorts(s[1..]);
      InsertSorted(s[0], Sort(s[1..]));
      InsertAdds(s[0], Sort(s[1..]));
      assert s == [s[0]] + s[1..];
    }
  }

  /** A multiset of numbers has one sorted arrangement. */
  lemma {:induction false} SortedIsUnique(a: seq<nat>, b: seq<nat>)
    requires Sorted(a) && Sorted(b) && multiset(a) == multiset(b)
    ensures a == b
    decreases |a|
  {
    assert |a| == |multiset(a)| == |multiset(b)| == |b|;
    if a != [] {
      SameLeast(a, b);
      hide Sorted;
      SortedTail(a);
      SortedTail(b);
      assert a == [a[0]] + a[1..] && b == [b[0]] + b[1..];
      assert multiset(a[1..]) == multiset(a) - multiset{a[0]};
      assert multiset(b[1..]) == multiset(b) - multiset{b[0]};
      SortedIsUnique(a[1..], b[1..]);
    }
  }

  lemma SameLeast(a: seq<nat>, b: seq<nat>)
    requires Sorted(a) && Sorted(b) && multiset(a) == multiset(b) && a != [] && b != []
    ensures a[0] == b[0]
  {
    assert a[0] in multiset(b) && b[0] in multiset(a);
  }

  lemma SortedTail(a: seq<nat>)
    requires Sorted(a) && a != []
    ensures Sorted(a[1..])
  {
  }

  /** The true median: the middle element in sorted order, or the floored mean of the middle two. */
  function Median(s: seq<nat>): nat
    requires s != []
  {
    SortLength(s);
    var n := |s|;
    if n % 2 == 1 then Sort(s)[n / 2] else (Sort(s)[n / 2 - 1] + Sort(s)[n / 2]) / 2
  }

  lemma MedianOfPermutation(s: seq<nat>, t: seq<nat>)
    requires s != [] && multiset(s) == multiset(t)
    ensures |t| == |s| && Median(s) == Median(t)
  {
    assert |s| == |multiset(s)| == |multiset(t)| == |t|;
    SortSorts(s);
    SortSorts(t);
    SortedIsUnique(Sort(s), Sort(t));
  }

  /** The median in terms of any sorted arrangement of the samples: the middle one, or the mean of the
      middle two rounded down. */
  lemma MedianIsMiddle(s: seq<nat>, t: seq<nat>)
    requires s != [] && Sorted(t) && multiset(t) == multiset(s)
    ensures |t| == |s|
    ensures |s| % 2 == 1 ==> Median(s) == t[|s| / 2]
    ensures |s| % 2 == 0 ==> 2 * Median(s) <= t[|s| / 2 - 1] + t[|s| / 2] <= 2 * Median(s) + 1
  {
    assert |t| == |multiset(t)| == |multiset(s)| == |s|;
    SortSorts(s);
    SortedIsUnique(Sort(s), t);
  }

  lemma MedianAtMost(s: seq<nat>, bound: nat)
    requires s != [] && forall y :: y in s ==> y <= bound
    ensures Median(s) <= bound
  {
    hide Sort;
    SortMembers(s);
    SortLength(s);
    var n := |s|;
    assert Sort(s)[n / 2] in s;
    if n % 2 == 0 {
      assert Sort(s)[n / 2 - 1] in s;
    }
  }

  /** What std::nth_element promises: position k splits the range. */
  predicate SplitAt(p: seq<nat>, k: nat)
    requires k < |p|
  {
    && (forall i :: 0 <= i < k ==> p[i] <= p[k])
    && (forall j :: k <= j < |p| ==> p[k] <= p[j])
  }

  /** A split sequence is sorted by sorting both sides. */
  lemma SortAroundSplit(p: seq<nat>, k: nat)
    requires k < |p| && SplitAt(p, k)
    ensures Sort(p) == Sort(p[..k]) + [p[k]] + Sort(p[k + 1..])
    ensures |Sort(p[..k])| == k
  {
    hide Sort, Sorted;
    var left, right := p[..k], p[k + 1..];
    var lo, hi := Sort(left), Sort(right);
    SortSorts(p);
    SortSorts(left);
    SortSorts(right);
    SortMembers(left);
    SortMembers(right);
    assert p == left + [p[k]] + right;
    assert |lo| == |multiset(lo)| == |multiset(left)| == k;
    Glue(lo, p[k], hi);
    SortedIsUnique(Sort(p), lo + [p[k]] + hi);
  }

  lemma SortMembers(s: seq<nat>)
    ensures forall y :: y in Sort(s) ==> y in s
  {
    hide Sort;
    SortSorts(s);
    forall y | y in Sort(s) ensures y in s { assert y in multiset(Sort(s)); }
  }

  /** At the split stands the k-th order statistic, and the largest element before it is the
      (k-1)-th. */
  lemma SplitIsOrderStatistic(p: seq<nat>, k: nat, m: nat)
    requires k < |p| && SplitAt(p, k)
    requires k > 0 ==> m in p[..k] && forall i :: 0 <= i < k ==> p[i] <= m
    ensures |Sort(p)| == |p| && Sort(p)[k] == p[k] && (k > 0 ==> Sort(p)[k - 1] == m)
  {
    SortAroundSplit(p, k);
    SortLength(p);
    if k > 0 {
      LastIsLargest(p[..k], m);
    }
    hide Sort, SplitAt;
  }

  lemma SortLength(s: seq<nat>)
    ensures |Sort(s)| == |s|
  {
    SortSorts(s);
    assert |Sort(s)| == |multiset(Sort(s))| == |multiset(s)| == |s|;
  }

  lemma LastIsLargest(s: seq<nat>, m: nat)
    requires m in s && forall i :: 0 <= i < |s| ==> s[i] <= m
    ensures |Sort(s)| == |s| && Sort(s)[|s| - 1] == m
  {
    SortSorts(s);
    var t := Sort(s);
    assert |t| == |multiset(t)| == |multiset(s)| == |s|;
    assert m in multiset(t);
    var i :| 0 <= i < |t| && t[i] == m;
    assert t[|s| - 1] in multiset(s);
    assert t[|s| - 1] in s;
  }

  // ------------------------------------------------------------------ the algorithms on arrays

  method Swap(a: array<nat>, i: nat, j: nat)
    requires i < a.Length && j < a.Length
    modifies a
    ensures a[..] == old(a[..])[i := old(a[j])][j := old(a[i])]
    ensures multiset(a[..]) == multiset(old(a[..]))
  {
    a[i], a[j] := a[j], a[i];
  }

  /** std::nth_element(a, a + k, a + n): any arrangement that splits at k. Here the k + 1 smallest
      elements are selected in turn. */
  method NthElement(a: array<nat>, k: nat, n: nat)
    requires k < n <= a.Length
    modifies a
    ensures SplitAt(a[..n], k) && multiset(a[..n]) == multiset(old(a[..n]))
  {
    for i := 0 to k + 1
      invariant forall p, q :: 0 <= p < i && p <= q < n ==> a[p] <= a[q]
      invariant a[n..] == old(a[n..]) && multiset(a[..]) == multiset(old(a[..]))
    {
      SelectLeast(a, i, n);
    }
    FrontPermuted(a[..], old(a[..]), n);
  }

  /** Bring a least element of a[i..n] to position i. */
  method SelectLeast(a: array<nat>, i: nat, n: nat)
    requires i < n <= a.Length
    requires forall p, q :: 0 <= p < i && p <= q < n ==> a[p] <= a[q]
    modifies a
    ensures forall p, q :: 0 <= p <= i && p <= q < n ==> a[p] <= a[q]
    ensures a[n..] == old(a[n..]) && multiset(a[..]) == multiset(old(a[..]))
  {
    var least := i;
    for j := i + 1 to n
      invariant i <= least < n
      invariant forall q :: i <= q < j ==> a[least] <= a[q]
    {
      if a[j] < a[least] { least := j; }
    }
    Swap(a, i, least);
  }

  lemma FrontPermuted(x: seq<nat>, y: seq<nat>, n: nat)
    requires n <= |x| == |y| && x[n..] == y[n..] && multiset(x) == multiset(y)
    ensures multiset(x[..n]) == multiset(y[..n])
  {
    assert x == x[..n] + x[n..] && y == y[..n] + y[n..];
    assert multiset(x[..n]) == multiset(x) - multiset(x[n..]);
    assert multiset(y[..n]) == multiset(y) - multiset(y[n..]);
  }

  /** std::max_element(a, a + k). */
  method MaxElement(a: array<nat>, k: nat) returns (m: nat)
    requires 0 < k <= a.Length
    ensures m in a[..k] && forall i :: 0 <= i < k ==> a[i] <= m
  {
    m := a[0];
    for j := 1 to k
      invariant m in a[..j] && forall i :: 0 <= i < j ==> a[i] <= m
    {
      if a[j] > m { m := a[j]; }
      assert a[..j + 1] == a[..j] + [a[j]];
    }
  }

  /** The selection computes the true median of the first n ring entries. */
  method MedianBySelection(ring: array<nat>, n: nat) returns (median: nat)
    requires 0 < n <= ring.Length
    ensures median == Median(ring[..n])
  {
    var sorted := new nat[ring.Length];
    for i := 0 to n
      invariant sorted[..i] == ring[..i]
      modifies sorted
    {
      sorted[i] := ring[i];
    }
    var mid := n / 2;
    ghost var before := sorted[..n];
    NthElement(sorted, mid, n);
    ghost var p := sorted[..n];
    MedianOfPermutation(before, p);
    median := sorted[mid];
    if n % 2 == 0 && n > 1 {
      var m := MaxElement(sorted, mid);
      assert p[..mid] == sorted[..mid];
      SplitIsOrderStatistic(p, mid, m);
      median := (median + m) / 2;
    } else {
      SplitMiddle(p, mid);
    }
  }

  lemma SplitMiddle(p: seq<nat>, k: nat)
    requires k < |p| && SplitAt(p, k)
    ensures |Sort(p)| == |p| && Sort(p)[k] == p[k]
  {
    if k == 0 {
      SplitIsOrderStatistic(p, 0, 0);
    } else {
      var m := MaxOf(p[..k]);
      SplitIsOrderStatistic(p, k, m);
    }
  }

  lemma MaxOf(s: seq<nat>) returns (m: nat)
    requires s != []
    ensures m in s && forall i :: 0 <= i < |s| ==> s[i] <= m
  {
    m := s[0];
    for j := 1 to |s|
      invariant m in s && forall i :: 0 <= i < j ==> s[i] <= m
    {
      if s[j] > m { m := s[j]; }
    }
  }
}
