/** Merge sort through a temporary array, with its number of comparisons. */
module MergeSort {
  import opened SortSpec
  import opened Powers

  /** The two-way merge; on equal keys the left run goes first. */
  function Merge(l: seq<Elem>, r: seq<Elem>): (m: seq<Elem>)
    ensures |m| == |l| + |r|
  {
    if l == [] then r
    else if r == [] then l
    else if l[0].key <= r[0].key then [l[0]] + Merge(l[1..], r)
    else [r[0]] + Merge(l, r[1..])
  }

  predicate LeftFirst(l: seq<Elem>, r: seq<Elem>) {
    l != [] && (r == [] || l[0].key <= r[0].key)
  }

  lemma MergeStep(l: seq<Elem>, r: seq<Elem>)
    requires l != [] || r != []
    ensures Merge(l, r)[0] == if LeftFirst(l, r) then l[0] else r[0]
    ensures Merge(l, r)[1..] == if LeftFirst(l, r) then Merge(l[1..], r) else Merge(l, r[1..])
  {
    var e, rest := if LeftFirst(l, r) then l[0] else r[0],
                   if LeftFirst(l, r) then Merge(l[1..], r) else Merge(l, r[1..]);
    assert ([e] + rest)[1..] == rest;
    if l == [] {
      assert r == [r[0]] + r[1..];
    } else if r == [] {
      assert l == [l[0]] + l[1..];
    }
  }

  lemma {:induction false} MergeMembers(l: seq<Elem>, r: seq<Elem>, e: Elem)
    requires e in Merge(l, r)
    ensures e in l || e in r
    decreases |l| + |r|
  {
    if l != [] && r != [] {
      if l[0].key <= r[0].key {
        if e != l[0] { MergeMembers(l[1..], r, e); }
      } else {
        if e != r[0] { MergeMembers(l, r[1..], e); }
      }
    }
  }

  lemma PrependSorted(e: Elem, s: seq<Elem>)
    requires Sorted(s) && forall x :: x in s ==> e.key <= x.key
    ensures Sorted([e] + s)
  {
  }

  lemma {:induction false} MergeSorted(l: seq<Elem>, r: seq<Elem>)
    requires Sorted(l) && Sorted(r)
    ensures Sorted(Merge(l, r))
    decreases |l| + |r|
  {
    if l != [] && r != [] {
      var e, rest := if l[0].key <= r[0].key then l[0] else r[0],
                     if l[0].key <= r[0].key then Merge(l[1..], r) else Merge(l, r[1..]);
      if l[0].key <= r[0].key {
        MergeSorted(l[1..], r);
      } else {
        MergeSorted(l, r[1..]);
      }
      forall x | x in rest
        ensures e.key <= x.key
      {
        if l[0].key <= r[0].key { MergeMembers(l[1..], r, x); } else { MergeMembers(l, r[1..], x); }
      }
      PrependSorted(e, rest);
    }
  }

  /** Merging is stable: equal keys keep their order, the left run's before the right run's. */
  lemma {:induction false} MergeSelect(l: seq<Elem>, r: seq<Elem>, k: int)
    requires Sorted(l) && Sorted(r)
    ensures Select(Merge(l, r), k) == Select(l, k) + Select(r, k)
    decreases |l| + |r|
  {
    if l != [] && r != [] {
      MergeStep(l, r);
      if LeftFirst(l, r) {
        MergeSelect(l[1..], r, k);
      } else {
        MergeSelect(l, r[1..], k);
        if r[0].key == k {
          SelectNone(l, k);
        }
      }
    }
  }

  /** Merging stable sorts of two halves gives the stable sort of the whole. */
  lemma MergeStable(l: seq<Elem>, r: seq<Elem>, wasL: seq<Elem>, wasR: seq<Elem>)
    requires IsStableSort(l, wasL) && IsStableSort(r, wasR)
    ensures IsStableSort(Merge(l, r), wasL + wasR)
  {
    MergeSorted(l, r);
    forall k
      ensures Select(Merge(l, r), k) == Select(wasL + wasR, k)
    {
      MergeSelect(l, r, k);
      SelectConcat(wasL, wasR, k);
      assert Select(l, k) == Select(wasL, k) && Select(r, k) == Select(wasR, k);
    }
  }

  // ---------- the comparison bound ----------

  /** The base-2 logarithm of `n`, rounded up. */
  function CeilLog2(n: nat): nat {
    if n <= 1 then 0 else 1 + CeilLog2((n + 1) / 2)
  }

  /** `CeilLog2(n)` is the least k with n <= 2^k. */
  lemma {:induction false} CeilLog2Is(n: nat)
    requires n >= 1
    ensures n <= Pow2(CeilLog2(n))
    ensures n >= 2 ==> Pow2(CeilLog2(n) - 1) < n
  {
    if n >= 2 {
      CeilLog2Is((n + 1) / 2);
      if n == 2 {
        assert Pow2(0) == 1;
      }
    }
  }

  lemma {:induction false} CeilLog2Monotone(m: nat, n: nat)
    requires m <= n
    ensures CeilLog2(m) <= CeilLog2(n)
  {
    if m > 1 {
      CeilLog2Monotone((m + 1) / 2, (n + 1) / 2);
    }
  }

  lemma TimesMonotone(n: nat, x: nat, y: nat)
    requires x <= y
    ensures n * x <= n * y
  {
  }

  lemma TimesSum(m: nat, n: nat, d: nat)
    ensures m * d + n * d == (m + n) * d
    ensures (m + n) * (d + 1) == (m + n) * d + (m + n)
  {
  }

  /** `k`, n times. */
  function Repeated(n: nat, k: nat): nat { if n == 0 then 0 else k + Repeated(n - 1, k) }

  lemma {:induction false} RepeatedIs(n: nat, k: nat)
    ensures Repeated(n, k) == n * k
  {
    if n > 0 {
      RepeatedIs(n - 1, k);
    }
  }

  /** n * ceil(log2 n) */
  function CostBound(n: nat): nat { Repeated(n, CeilLog2(n)) }

  /** The recurrence of the uneven split: ceil(n/2) and floor(n/2), then at most n - 1. */
  lemma SplitCost(left: nat, right: nat, costL: nat, costR: nat, costMerge: nat)
    requires right >= 1 && right <= left <= right + 1
    requires costL <= CostBound(left) && costR <= CostBound(right) && costMerge < left + right
    ensures costL + costR + costMerge <= CostBound(left + right)
  {
    RepeatedIs(left, CeilLog2(left));
    RepeatedIs(right, CeilLog2(right));
    RepeatedIs(left + right, CeilLog2(left + right));
    CeilLog2Monotone(right, left);
    TimesMonotone(right, CeilLog2(right), CeilLog2(left));
    TimesSum(left, right, CeilLog2(left));
    assert (left + right + 1) / 2 == left;
  }

  // ---------- the program ----------

  /** `s` with the adjacent runs s[lo..m] and s[m..h] merged. */
  function Merged(s: seq<Elem>, lo: nat, m: nat, h: nat): (r: seq<Elem>)
    requires lo <= m <= h <= |s|
    ensures |r| == |s|
  {
    s[..lo] + Merge(s[lo..m], s[m..h]) + s[h..]
  }

  /** From position `k` on, `target` continues with the merge of t[i..m] and t[j..h]. */
  ghost predicate Continues(target: seq<Elem>, k: nat, t: seq<Elem>, i: nat, m: nat, j: nat, h: nat)
    decreases (m - i) + (h - j)
  {
    && i <= m <= j <= h <= |t| && h <= |target| && k + (m - i) + (h - j) == h
    && if i < m && (j == h || t[i].key <= t[j].key)
       then target[k] == t[i] && Continues(target, k + 1, t, i + 1, m, j, h)
       else j == h || (target[k] == t[j] && Continues(target, k + 1, t, i, m, j + 1, h))
  }

  lemma SliceSplits(s: seq<Elem>, i: nat, h: nat)
    requires i < h <= |s|
    ensures s[i..h] != [] && s[i..h][0] == s[i] && s[i..h][1..] == s[i + 1..h]
  {
  }

  /** The first cell of the merge, and the merge of what remains. */
  lemma MergeSlices(t: seq<Elem>, i: nat, m: nat, j: nat, h: nat)
    requires i <= m <= j <= h <= |t| && (i < m || j < h)
    ensures var rest := Merge(t[i..m], t[j..h]);
      if i < m && (j == h || t[i].key <= t[j].key) then rest == [t[i]] + Merge(t[i + 1..m], t[j..h])
      else j < h && rest == [t[j]] + Merge(t[i..m], t[j + 1..h])
  {
    if i < m {
      SliceSplits(t, i, m);
    }
    if j < h {
      SliceSplits(t, j, h);
    }
    MergeStep(t[i..m], t[j..h]);
  }

  /** The merge of the runs t[i..m] and t[j..h], by positions. */
  function MergeFrom(t: seq<Elem>, i: nat, m: nat, j: nat, h: nat): (r: seq<Elem>)
    requires i <= m <= j <= h <= |t|
    ensures |r| == (m - i) + (h - j)
    decreases (m - i) + (h - j)
  {
    if i < m && (j == h || t[i].key <= t[j].key) then [t[i]] + MergeFrom(t, i + 1, m, j, h)
    else if j < h then [t[j]] + MergeFrom(t, i, m, j + 1, h)
    else []
  }

  lemma {:induction false} MergeFromIs(t: seq<Elem>, i: nat, m: nat, j: nat, h: nat)
    requires i <= m <= j <= h <= |t|
    ensures MergeFrom(t, i, m, j, h) == Merge(t[i..m], t[j..h])
    decreases (m - i) + (h - j)
  {
    if i < m || j < h {
      MergeSlices(t, i, m, j, h);
      if i < m && (j == h || t[i].key <= t[j].key) {
        MergeFromIs(t, i + 1, m, j, h);
      } else {
        MergeFromIs(t, i, m, j + 1, h);
      }
    }
  }

  lemma MoveFirst(done: seq<Elem>, e: Elem, rest: seq<Elem>, after: seq<Elem>)
    ensures var s := done + ([e] + rest) + after;
      s == (done + [e]) + rest + after && s[|done|] == e
  {
  }

  /** What the loops write from position `k` on is the merge of what remains of the runs. */
  lemma {:induction false} MergeContinues(done: seq<Elem>, t: seq<Elem>, i: nat, m: nat, j: nat, h: nat, after: seq<Elem>)
    requires i <= m <= j <= h <= |t| && |done| + (m - i) + (h - j) == h
    ensures Continues(done + MergeFrom(t, i, m, j, h) + after, |done|, t, i, m, j, h)
    decreases (m - i) + (h - j)
  {
    if i < m && (j == h || t[i].key <= t[j].key) {
      MoveFirst(done, t[i], MergeFrom(t, i + 1, m, j, h), after);
      MergeContinues(done + [t[i]], t, i + 1, m, j, h, after);
    } else if j < h {
      MoveFirst(done, t[j], MergeFrom(t, i, m, j + 1, h), after);
      MergeContinues(done + [t[j]], t, i, m, j + 1, h, after);
    }
  }

  lemma MergedContinues(t: seq<Elem>, lo: nat, m: nat, h: nat)
    requires lo <= m <= h <= |t|
    ensures var target := Merged(t, lo, m, h);
      Continues(target, lo, t, lo, m, m, h) && forall x :: 0 <= x < lo || h <= x < |t| ==> target[x] == t[x]
  {
    var target := Merged(t, lo, m, h);
    MergeFromIs(t, lo, m, m, h);
    MergeContinues(t[..lo], t, lo, m, m, h, t[h..]);
  }

  /** The state of the loops of `merge`: `tmp` holds the runs of `t`, `a` agrees with `target`
      except for the cells from `k` to `hi`, and those are to hold the rest of the merge. */
  ghost predicate Merging(a: array<Elem>, tmp: array<Elem>, t: seq<Elem>, target: seq<Elem>,
                          lo: nat, m: nat, h: nat, i: nat, j: nat, k: nat)
    reads a, tmp
  {
    && lo <= i <= m <= j <= h <= a.Length == tmp.Length == |t| == |target|
    && Continues(target, k, t, i, m, j, h)
    && (forall x :: lo <= x < h ==> tmp[x] == t[x])
    && (forall x :: 0 <= x < k || h <= x < a.Length ==> a[x] == target[x])
  }

  /** The comparing loop: it stops when one run is used up. */
  method CompareLoop(a: array<Elem>, lo: nat, mid: nat, hi: nat, tmp: array<Elem>, ghost t: seq<Elem>, ghost target: seq<Elem>)
    returns (i: nat, j: nat, ghost comparisons: nat)
    requires a != tmp && lo <= mid < hi && Merging(a, tmp, t, target, lo, mid + 1, hi + 1, lo, mid + 1, lo)
    modifies a
    ensures lo <= i <= mid + 1 <= j <= hi + 1 && (i == mid + 1 || j == hi + 1)
    ensures comparisons == (i - lo) + (j - mid - 1) <= hi - lo
    ensures Merging(a, tmp, t, target, lo, mid + 1, hi + 1, i, j, lo + comparisons)
  {
    var k := lo;
    i, j, comparisons := lo, mid + 1, 0;
    while i <= mid && j <= hi
      invariant i <= mid + 1 <= j <= hi + 1 && comparisons == k - lo == (i - lo) + (j - mid - 1) <= hi - lo
      invariant Merging(a, tmp, t, target, lo, mid + 1, hi + 1, i, j, k)
    {
      comparisons := comparisons + 1;
      if tmp[i].key <= tmp[j].key {
        a[k] := tmp[i];
        i := i + 1;
      } else {
        a[k] := tmp[j];
        j := j + 1;
      }
      k := k + 1;
    }
  }

  /** The two copying loops: at most one of them finds something left. */
  method CopyLoops(a: array<Elem>, lo: nat, mid: nat, hi: nat, tmp: array<Elem>, i0: nat, j0: nat, k0: nat,
                   ghost t: seq<Elem>, ghost target: seq<Elem>)
    requires a != tmp && Merging(a, tmp, t, target, lo, mid + 1, hi + 1, i0, j0, k0)
    requires i0 == mid + 1 || j0 == hi + 1
    modifies a
    ensures a[..] == target
  {
    var i, j, k := i0, j0, k0;
    while i <= mid
      invariant i <= mid + 1 && 0 <= k && (i <= mid ==> j == hi + 1)
      invariant Merging(a, tmp, t, target, lo, mid + 1, hi + 1, i, j, k)
    {
      a[k] := tmp[i];
      i := i + 1;
      k := k + 1;
    }
    while j <= hi
      invariant i == mid + 1 && j <= hi + 1 && 0 <= k
      invariant Merging(a, tmp, t, target, lo, mid + 1, hi + 1, i, j, k)
    {
      a[k] := tmp[j];
      j := j + 1;
      k := k + 1;
    }
  }

  method MergeRuns(a: array<Elem>, lo: nat, mid: nat, hi: nat, tmp: array<Elem>) returns (ghost comparisons: nat)
    requires lo <= mid < hi < a.Length && tmp.Length == a.Length && tmp != a
    modifies a, tmp
    ensures a[..] == Merged(old(a[..]), lo, mid + 1, hi + 1)
    ensures comparisons <= hi - lo
  {
    ghost var t := a[..];
    var k := lo;
    while k <= hi
      invariant lo <= k <= hi + 1 && a[..] == t
      invariant forall x :: lo <= x < k ==> tmp[x] == t[x]
    {
      tmp[k] := a[k];
      k := k + 1;
    }
    ghost var target := Merged(t, lo, mid + 1, hi + 1);
    MergedContinues(t, lo, mid + 1, hi + 1);
    var i, j;
    i, j, comparisons := CompareLoop(a, lo, mid, hi, tmp, t, target);
    CopyLoops(a, lo, mid, hi, tmp, i, j, lo + (i - lo) + (j - mid - 1), t, target);
  }

  /** `s` is `was` with the cells from `lo` to `h` (exclusive) stably sorted. */
  ghost predicate StablySortedAt(s: seq<Elem>, was: seq<Elem>, lo: nat, h: nat) {
    && lo <= h <= |s| == |was|
    && (forall x {:trigger s[x]} :: 0 <= x < lo || h <= x < |s| ==> s[x] == was[x])
    && IsStableSort(s[lo..h], was[lo..h])
  }

  ghost predicate WithinBound(comparisons: nat, n: nat) {
    comparisons <= CostBound(n)
  }

  lemma HalvesCost(lo: nat, hi: nat, mid: nat, left: nat, right: nat, merge: nat)
    requires lo < hi && mid == lo + (hi - lo) / 2 && merge <= hi - lo
    requires WithinBound(left, mid - lo + 1) && WithinBound(right, hi - (mid + 1) + 1)
    ensures WithinBound(left + right + merge, hi - lo + 1)
  {
    SplitCost(mid - lo + 1, hi - mid, left, right, merge);
  }

  /** How the three calls fit together: left half sorted, right half sorted, halves merged. */
  lemma HalvesMerged(was: seq<Elem>, half: seq<Elem>, halves: seq<Elem>, lo: nat, mid: nat, h: nat)
    requires StablySortedAt(half, was, lo, mid) && StablySortedAt(halves, half, mid, h)
    ensures StablySortedAt(Merged(halves, lo, mid, h), was, lo, h)
  {
    assert halves[lo..mid] == half[lo..mid];
    assert half[mid..h] == was[mid..h];
    assert was[lo..h] == was[lo..mid] + was[mid..h];
    MergeStable(halves[lo..mid], halves[mid..h], was[lo..mid], was[mid..h]);
    var s := Merged(halves, lo, mid, h);
    assert s[lo..h] == Merge(halves[lo..mid], halves[mid..h]);
  }

  lemma AtMostOneSorted(s: seq<Elem>, lo: nat, h: nat)
    requires lo <= h <= |s| && h - lo <= 1
    ensures StablySortedAt(s, s, lo, h)
  {
  }

  /** The merge of the two sorted halves: the range is sorted. */
  method MergeHalves(a: array<Elem>, lo: nat, mid: nat, hi: nat, tmp: array<Elem>, ghost was: seq<Elem>, ghost half: seq<Elem>)
    returns (ghost comparisons: nat)
    requires lo <= mid < hi < a.Length && tmp.Length == a.Length && tmp != a
    requires StablySortedAt(half, was, lo, mid + 1) && StablySortedAt(a[..], half, mid + 1, hi + 1)
    modifies a, tmp
    ensures StablySortedAt(a[..], was, lo, hi + 1) && comparisons <= hi - lo
  {
    HalvesMerged(was, half, a[..], lo, mid + 1, hi + 1);
    comparisons := MergeRuns(a, lo, mid, hi, tmp);
  }

  method MergeSortRec(a: array<Elem>, lo: nat, hi: int, tmp: array<Elem>) returns (ghost comparisons: nat)
    requires lo <= hi + 1 <= a.Length && tmp.Length == a.Length && tmp != a
    modifies a, tmp
    ensures StablySortedAt(a[..], old(a[..]), lo, hi + 1)
    ensures WithinBound(comparisons, hi - lo + 1)
    decreases hi - lo + 1
  {
    if lo >= hi {
      AtMostOneSorted(a[..], lo, hi + 1);
      return 0;
    }
    var mid := lo + (hi - lo) / 2;
    ghost var was := a[..];
    ghost var left := MergeSortRec(a, lo, mid, tmp);
    ghost var half := a[..];
    ghost var right := MergeSortRec(a, mid + 1, hi, tmp);
    ghost var merge := MergeHalves(a, lo, mid, hi, tmp, was, half);
    comparisons := left + right + merge;
    HalvesCost(lo, hi, mid, left, right, merge);
  }

  /** Stable, and at most n * ceil(log2 n) comparisons on every array. */
  method MergeSort(a: array<Elem>) returns (ghost comparisons: nat)
    modifies a
    ensures IsStableSort(a[..], old(a[..]))
    ensures comparisons <= a.Length * CeilLog2(a.Length)
  {
    var tmp := new Elem[a.Length](_ => Elem(0, 0));
    comparisons := MergeSortRec(a, 0, a.Length - 1, tmp);
    RepeatedIs(a.Length, CeilLog2(a.Length));
    assert a[..][0..a.Length] == a[..] && old(a[..])[0..a.Length] == old(a[..]);
  }
}
