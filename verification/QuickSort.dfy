/** Quicksort with median-of-three and the unguarded inner scans, in place. */
module QuickSort {
  import opened SortSpec

  function Copies(s: seq<Elem>, e: Elem): nat { multiset(s)[e] }

  /** Equal multisets, element by element. */
  ghost predicate SameElements(s: seq<Elem>, was: seq<Elem>) {
    forall e {:trigger Copies(s, e)} :: Copies(s, e) == Copies(was, e)
  }

  lemma SameElementsIff(s: seq<Elem>, was: seq<Elem>)
    ensures SameElements(s, was) <==> multiset(s) == multiset(was)
  {
    if SameElements(s, was) {
      forall e
        ensures multiset(s)[e] == multiset(was)[e]
      {
        assert Copies(s, e) == Copies(was, e);
      }
    }
  }

  /** `s` is `was` with the cells from `lo` to `h` (exclusive) permuted. */
  ghost predicate PermutedAt(s: seq<Elem>, was: seq<Elem>, lo: int, h: int) {
    && |s| == |was| && SameElements(s, was)
    && forall x {:trigger s[x]} :: 0 <= x < |s| && !(lo <= x < h) ==> s[x] == was[x]
  }

  ghost predicate SortedAt(s: seq<Elem>, lo: int, h: int) {
    forall x, y :: 0 <= lo <= x < y < h <= |s| ==> s[x].key <= s[y].key
  }

  ghost predicate AtMost(s: seq<Elem>, lo: int, h: int, k: int) {
    forall x :: 0 <= lo <= x < h <= |s| ==> s[x].key <= k
  }

  ghost predicate AtLeast(s: seq<Elem>, lo: int, h: int, k: int) {
    forall x :: 0 <= lo <= x < h <= |s| ==> s[x].key >= k
  }

  lemma ExchangePermutes(s: seq<Elem>, was: seq<Elem>, i: nat, j: nat, lo: int, h: int)
    requires PermutedAt(s, was, lo, h) && lo <= i < h && lo <= j < h && i < |s| && j < |s|
    ensures PermutedAt(Exchanged(s, i, j), was, lo, h)
  {
    ExchangedPermutes(s, i, j);
    SameElementsIff(s, was);
    SameElementsIff(Exchanged(s, i, j), was);
  }

  lemma ThreeParts(s: seq<Elem>, lo: nat, h: nat)
    requires lo <= h <= |s|
    ensures multiset(s[lo..h]) == multiset(s) - multiset(s[..lo]) - multiset(s[h..])
  {
    assert s == s[..lo] + s[lo..h] + s[h..];
  }

  lemma PermutedSlice(s: seq<Elem>, was: seq<Elem>, lo: nat, h: nat)
    requires PermutedAt(s, was, lo, h) && lo <= h <= |s|
    ensures multiset(s[lo..h]) == multiset(was[lo..h])
  {
    SameElementsIff(s, was);
    ThreeParts(s, lo, h);
    ThreeParts(was, lo, h);
    assert s[..lo] == was[..lo] && s[h..] == was[h..];
  }

  /** Permuting a range keeps every bound on it. */
  lemma PermutedBounds(s: seq<Elem>, was: seq<Elem>, lo: nat, h: nat, k: int)
    requires PermutedAt(s, was, lo, h) && lo <= h <= |s|
    ensures AtMost(was, lo, h, k) ==> AtMost(s, lo, h, k)
    ensures AtLeast(was, lo, h, k) ==> AtLeast(s, lo, h, k)
  {
    PermutedSlice(s, was, lo, h);
    forall x | lo <= x < h
      ensures exists y :: lo <= y < h && was[y] == s[x]
    {
      assert s[lo..h][x - lo] in multiset(s[lo..h]);
      assert s[x] in was[lo..h];
      var z :| 0 <= z < h - lo && was[lo..h][z] == s[x];
      assert was[lo + z] == s[x];
    }
  }

  lemma PermutedThen(s: seq<Elem>, mid: seq<Elem>, was: seq<Elem>, lo: int, h: int, l: int, r: int)
    requires PermutedAt(mid, was, lo, h) && PermutedAt(s, mid, l, r) && lo <= l && r <= h
    ensures PermutedAt(s, was, lo, h)
  {
  }

  /** How many cells from `lo` to `h` (exclusive) have the key `k`. */
  function Occurrences(s: seq<Elem>, lo: nat, h: nat, k: int): nat
    requires lo <= h <= |s|
  {
    multiset(Keys(s[lo..h]))[k]
  }

  lemma PermutedOccurrences(s: seq<Elem>, was: seq<Elem>, lo: nat, h: nat, k: int)
    requires PermutedAt(s, was, lo, h) && lo <= h <= |s|
    ensures Occurrences(s, lo, h, k) == Occurrences(was, lo, h, k)
  {
    PermutedSlice(s, was, lo, h);
    PermutedKeys(s[lo..h], was[lo..h]);
  }

  // ---------- partition ----------

  function Ordered(s: seq<Elem>, i: nat, j: nat): (r: seq<Elem>)
    requires i < |s| && j < |s|
    ensures |r| == |s|
  {
    if s[i].key > s[j].key then Exchanged(s, i, j) else s
  }

  /** One comparison, and an exchange if it shows the wrong order. */
  method Order(a: array<Elem>, i: nat, j: nat) returns (ghost comparisons: nat)
    requires i < a.Length && j < a.Length
    modifies a
    ensures a[..] == Ordered(old(a[..]), i, j) && comparisons == 1
  {
    comparisons := 1;
    if a[i].key > a[j].key {
      Exchange(a, i, j);
    }
  }

  lemma OrderedPermutes(s: seq<Elem>, was: seq<Elem>, i: nat, j: nat, lo: int, h: int)
    requires PermutedAt(s, was, lo, h) && lo <= i < h && lo <= j < h && i < |s| && j < |s|
    ensures PermutedAt(Ordered(s, i, j), was, lo, h)
  {
    ExchangePermutes(s, was, i, j, lo, h);
  }

  function MedianPlaced(s: seq<Elem>, lo: nat, mid: nat, hi: nat): (r: seq<Elem>)
    requires lo <= mid < hi < |s|
    ensures |r| == |s|
  {
    Exchanged(Ordered(Ordered(Ordered(s, lo, mid), lo, hi), mid, hi), mid, hi - 1)
  }

  /** The key that is neither the least nor the greatest of the three. */
  function MedianKey(x: int, y: int, z: int): (m: int)
    ensures m == x || m == y || m == z
    ensures (m >= x && m >= y) || (m >= x && m >= z) || (m >= y && m >= z)
    ensures (m <= x && m <= y) || (m <= x && m <= z) || (m <= y && m <= z)
  {
    if x <= y then (if y <= z then y else if x <= z then z else x)
    else (if x <= z then x else if y <= z then z else y)
  }

  /** The key that `partition` separates the range by: the lesser of two, or the median. */
  function PivotKey(s: seq<Elem>, lo: nat, hi: nat): int
    requires lo < hi < |s|
  {
    if hi - lo < 2 then (if s[lo].key <= s[hi].key then s[lo].key else s[hi].key)
    else MedianKey(s[lo].key, s[lo + (hi - lo) / 2].key, s[hi].key)
  }

  /** The cells that decide: both of two, or the first, middle and last. */
  lemma PivotIs(s: seq<Elem>, lo: nat, hi: nat)
    requires lo < hi < |s|
    ensures hi == lo + 1 ==> PivotKey(s, lo, hi) <= s[lo].key && PivotKey(s, lo, hi) <= s[hi].key
    ensures hi == lo + 1 ==> PivotKey(s, lo, hi) == s[lo].key || PivotKey(s, lo, hi) == s[hi].key
    ensures hi > lo + 1 ==> PivotKey(s, lo, hi) == MedianKey(s[lo].key, s[(lo + hi) / 2].key, s[hi].key)
  {
  }

  lemma MedianOrder(s: seq<Elem>, lo: nat, mid: nat, hi: nat)
    requires lo < mid < hi < |s|
    ensures var r := MedianPlaced(s, lo, mid, hi);
      r[lo].key <= r[hi - 1].key <= r[hi].key
      && r[hi - 1].key == MedianKey(s[lo].key, s[mid].key, s[hi].key)
  {
    var s1 := Ordered(s, lo, mid);
    var s2 := Ordered(s1, lo, hi);
    var s3 := Ordered(s2, mid, hi);
    assert s1[lo].key <= s1[mid].key;
    assert s2[lo].key <= s2[mid].key && s2[lo].key <= s2[hi].key;
    assert s3[lo].key <= s3[mid].key <= s3[hi].key;
  }

  lemma OrderedOncePermutes(s2: seq<Elem>, s: seq<Elem>, lo: nat, mid: nat, hi: nat)
    requires lo < mid < hi < |s| && PermutedAt(s2, s, lo, hi + 1)
    ensures PermutedAt(Exchanged(Ordered(s2, mid, hi), mid, hi - 1), s, lo, hi + 1)
  {
    OrderedPermutes(s2, s, mid, hi, lo, hi + 1);
    ExchangePermutes(Ordered(s2, mid, hi), s, mid, hi - 1, lo, hi + 1);
  }

  lemma OrderedTwicePermutes(s1: seq<Elem>, s: seq<Elem>, lo: nat, mid: nat, hi: nat)
    requires lo < mid < hi < |s| && PermutedAt(s1, s, lo, hi + 1)
    ensures PermutedAt(Exchanged(Ordered(Ordered(s1, lo, hi), mid, hi), mid, hi - 1), s, lo, hi + 1)
  {
    var s2 := Ordered(s1, lo, hi);
    OrderedPermutes(s1, s, lo, hi, lo, hi + 1);
    OrderedOncePermutes(s2, s, lo, mid, hi);
  }

  lemma MedianPermutes(s: seq<Elem>, lo: nat, mid: nat, hi: nat)
    requires lo < mid < hi < |s|
    ensures PermutedAt(MedianPlaced(s, lo, mid, hi), s, lo, hi + 1)
  {
    var s1 := Ordered(s, lo, mid);
    OrderedPermutes(s, s, lo, mid, lo, hi + 1);
    OrderedTwicePermutes(s1, s, lo, mid, hi);
  }

  method PlaceMedian(a: array<Elem>, lo: nat, hi: nat) returns (ghost comparisons: nat)
    requires lo + 2 <= hi < a.Length
    modifies a
    ensures a[..] == MedianPlaced(old(a[..]), lo, lo + (hi - lo) / 2, hi) && comparisons == 3
  {
    var mid := lo + (hi - lo) / 2;
    ghost var c0 := Order(a, lo, mid);
    ghost var c1 := Order(a, lo, hi);
    ghost var c2 := Order(a, mid, hi);
    comparisons := c0 + c1 + c2;
    Exchange(a, mid, hi - 1);
  }

  /** Orders the first, middle and last cell and moves the median next to the last: these two
      cells end the unguarded scans. */
  method MedianOfThree(a: array<Elem>, lo: nat, hi: nat) returns (p: nat, ghost comparisons: nat)
    requires lo + 2 <= hi < a.Length
    modifies a
    ensures p == hi - 1 && PermutedAt(a[..], old(a[..]), lo, hi + 1)
    ensures a[..][lo].key <= a[..][p].key <= a[..][hi].key
    ensures a[..][p].key == PivotKey(old(a[..]), lo, hi)
    ensures a[..] == MedianPlaced(old(a[..]), lo, lo + (hi - lo) / 2, hi) && comparisons == 3
  {
    MedianOrder(a[..], lo, lo + (hi - lo) / 2, hi);
    MedianPermutes(a[..], lo, lo + (hi - lo) / 2, hi);
    comparisons := PlaceMedian(a, lo, hi);
    p := hi - 1;
  }

  /** The upward scan: no bound is tested, the cell at `stop` ends it. */
  method ScanUp(a: array<Elem>, i: nat, pivot: int, ghost stop: nat) returns (k: nat, ghost comparisons: nat)
    requires i < stop < a.Length && a[stop].key >= pivot
    ensures i < k <= stop && a[k].key >= pivot
    ensures forall x :: i < x < k ==> a[x].key < pivot
    ensures comparisons == k - i
  {
    k, comparisons := i + 1, 1;
    while a[k].key < pivot
      invariant i < k <= stop && comparisons == k - i
      invariant forall x :: i < x < k ==> a[x].key < pivot
      decreases stop - k
    {
      k := k + 1;
      comparisons := comparisons + 1;
    }
  }

  /** The downward scan, ended by the cell at `stop`. */
  method ScanDown(a: array<Elem>, j: nat, pivot: int, ghost stop: nat) returns (k: nat, ghost comparisons: nat)
    requires stop < j < a.Length && a[stop].key <= pivot
    ensures stop <= k < j && a[k].key <= pivot
    ensures forall x :: k < x < j ==> a[x].key > pivot
    ensures comparisons == j - k
  {
    k, comparisons := j - 1, 1;
    while a[k].key > pivot
      invariant stop <= k < j && comparisons == j - k
      invariant forall x :: k < x < j ==> a[x].key > pivot
      decreases k
    {
      k := k - 1;
      comparisons := comparisons + 1;
    }
  }

  /** `p` separates the range: nothing left of it is larger, nothing right of it is smaller. */
  ghost predicate Separated(s: seq<Elem>, lo: nat, p: nat, hi: nat) {
    && lo <= p <= hi < |s|
    && AtMost(s, lo, p + 1, s[p].key) && AtLeast(s, p, hi + 1, s[p].key)
  }

  /** The separation without equal keys: smaller on the left, larger on the right. */
  ghost predicate StrictlySeparated(s: seq<Elem>, lo: nat, p: nat, hi: nat) {
    && lo <= p <= hi < |s|
    && (forall x :: lo <= x < p ==> s[x].key < s[p].key)
    && (forall x :: p < x <= hi ==> s[x].key > s[p].key)
  }

  /** A separation is strict exactly if the key at `p` occurs only there. */
  lemma StrictIff(s: seq<Elem>, lo: nat, p: nat, hi: nat)
    requires Separated(s, lo, p, hi)
    ensures StrictlySeparated(s, lo, p, hi) <==> Occurrences(s, lo, hi + 1, s[p].key) == 1
  {
    var ks, k := Keys(s[lo..hi + 1]), s[p].key;
    assert ks[p - lo] == k;
    CountOthers(ks, p - lo);
    assert forall x :: lo <= x <= hi ==> s[x].key == ks[x - lo];
    assert forall x :: 0 <= x < |ks| ==> ks[x] == s[lo + x].key;
  }

  /** Everything up to `i` is at most the pivot, everything from `j` on is at least it, and the
      pivot waits next to the last cell. */
  ghost predicate Parting(s: seq<Elem>, lo: nat, hi: nat, i: nat, j: nat, pivot: int) {
    && lo <= i <= hi < |s| && lo <= j && lo + 2 <= hi
    && AtMost(s, lo, i + 1, pivot) && AtLeast(s, j, hi + 1, pivot) && s[hi - 1].key == pivot
  }

  lemma PartingSwap(s: seq<Elem>, lo: nat, hi: nat, i: nat, j: nat, k: nat, m: nat, pivot: int)
    requires Parting(s, lo, hi, i, j, pivot) && i < k < m < j <= hi - 1
    requires s[k].key >= pivot >= s[m].key
    requires forall x :: i < x < k ==> s[x].key < pivot
    requires forall x :: m < x < j ==> s[x].key > pivot
    ensures Parting(Exchanged(s, k, m), lo, hi, k, m, pivot)
  {
  }

  /** The last exchange puts the pivot between the two sides. */
  lemma PartingEnd(s: seq<Elem>, lo: nat, hi: nat, i: nat, j: nat, k: nat, m: nat, pivot: int)
    requires Parting(s, lo, hi, i, j, pivot) && i < j <= hi - 1 && m <= k && i < k <= hi - 1 && lo <= m
    requires s[k].key >= pivot
    requires forall x :: i < x < k ==> s[x].key < pivot
    requires forall x :: m < x < j ==> s[x].key > pivot
    ensures Separated(Exchanged(s, k, hi - 1), lo, k, hi)
  {
  }

  /** The scans overlap by one cell at most. */
  lemma ScansMeet(s: seq<Elem>, i: nat, j: nat, k: nat, m: nat, pivot: int)
    requires i <= m < j <= |s| && i < k <= j
    requires forall x :: i < x < k ==> s[x].key < pivot
    requires forall x :: m < x < j ==> s[x].key > pivot
    ensures k <= m + 1
  {
    var last := k - 1;
    assert last > i ==> s[last].key < pivot;
  }

  /** The outer loop: the scans approach each other and exchange what is on the wrong side.  They
      overlap by one cell at most, so there are at most `hi - lo` comparisons. */
  method PartitionLoop(a: array<Elem>, lo: nat, hi: nat, pivot: int) returns (k: nat, ghost comparisons: nat)
    requires lo + 2 <= hi && Parting(a[..], lo, hi, lo, hi - 1, pivot)
    modifies a
    ensures lo < k < hi && PermutedAt(a[..], old(a[..]), lo, hi - 1)
    ensures Separated(Exchanged(a[..], k, hi - 1), lo, k, hi)
    ensures comparisons <= hi - lo
    ensures hi == lo + 2 ==> k == lo + 1 && a[..] == old(a[..])
  {
    var i, j := lo, hi - 1;
    ghost var s := a[..];
    comparisons := 0;
    while true
      invariant lo <= i < j <= hi - 1 && s == a[..]
      invariant PermutedAt(s, old(a[..]), lo, hi - 1) && Parting(s, lo, hi, i, j, pivot)
      invariant comparisons == (i - lo) + (hi - 1 - j)
      invariant hi == lo + 2 ==> s == old(a[..])
      decreases j - i
    {
      ghost var c, d;
      var m;
      k, c := ScanUp(a, i, pivot, j);
      m, d := ScanDown(a, j, pivot, i);
      comparisons := comparisons + c + d;
      if k >= m {
        ScansMeet(s, i, j, k, m, pivot);
        PartingEnd(s, lo, hi, i, j, k, m, pivot);
        return;
      }
      PartingSwap(s, lo, hi, i, j, k, m, pivot);
      ExchangePermutes(s, old(a[..]), k, m, lo, hi - 1);
      Exchange(a, k, m);
      s := Exchanged(s, k, m);
      i, j := k, m;
    }
  }

  /** `r` is `was` partitioned at `p`: separated by the lesser of two cells or by the median of
      three; and three cells are just put in order. */
  ghost predicate Partitioned(r: seq<Elem>, was: seq<Elem>, lo: nat, p: nat, hi: nat) {
    && lo < hi < |was| && PermutedAt(r, was, lo, hi + 1) && Separated(r, lo, p, hi)
    && r[p].key == PivotKey(was, lo, hi)
    && (hi >= lo + 2 ==> lo < p < hi)
    && (hi == lo + 2 ==> r == MedianPlaced(was, lo, lo + 1, hi))
  }

  lemma PairPartitioned(s: seq<Elem>, lo: nat)
    requires lo + 1 < |s|
    ensures Partitioned(Ordered(s, lo, lo + 1), s, lo, lo, lo + 1)
  {
    OrderedPermutes(s, s, lo, lo + 1, lo, lo + 2);
  }

  /** `r` is `s` separated around the key next to the last cell. */
  ghost predicate Around(r: seq<Elem>, s: seq<Elem>, lo: nat, p: nat, hi: nat) {
    && lo < p < hi < |s| && PermutedAt(r, s, lo, hi + 1) && Separated(r, lo, p, hi)
    && r[p] == s[hi - 1] && (hi == lo + 2 ==> r == s)
  }

  lemma LastPermutes(s: seq<Elem>, t: seq<Elem>, lo: nat, p: nat, hi: nat)
    requires lo < p < hi < |s| && PermutedAt(t, s, lo, hi - 1)
    ensures PermutedAt(Exchanged(t, p, hi - 1), s, lo, hi + 1)
  {
    PermutedThen(t, s, s, lo, hi + 1, lo, hi - 1);
    ExchangePermutes(t, s, p, hi - 1, lo, hi + 1);
  }

  lemma LastPlaced(s: seq<Elem>, t: seq<Elem>, lo: nat, p: nat, hi: nat)
    requires lo < p < hi < |s| && PermutedAt(t, s, lo, hi - 1) && (hi == lo + 2 ==> t == s)
    ensures Exchanged(t, p, hi - 1)[p] == s[hi - 1]
    ensures hi == lo + 2 ==> Exchanged(t, p, hi - 1) == s
  {
    ExchangedSelf(t, hi - 1);
  }

  /** The loop, and the exchange that puts the pivot back. */
  method PartitionAround(a: array<Elem>, lo: nat, hi: nat) returns (p: nat, ghost comparisons: nat)
    requires lo + 2 <= hi < a.Length && a[lo].key <= a[hi - 1].key <= a[hi].key
    modifies a
    ensures Around(a[..], old(a[..]), lo, p, hi) && comparisons <= hi - lo
  {
    ghost var s := a[..];
    p, comparisons := PartitionLoop(a, lo, hi, a[hi - 1].key);
    LastPermutes(s, a[..], lo, p, hi);
    LastPlaced(s, a[..], lo, p, hi);
    Exchange(a, p, hi - 1);
  }

  lemma LongPartitioned(was: seq<Elem>, s: seq<Elem>, r: seq<Elem>, lo: nat, p: nat, hi: nat)
    requires lo < p < hi < |was| && Around(r, s, lo, p, hi)
    requires PermutedAt(s, was, lo, hi + 1) && s[hi - 1].key == PivotKey(was, lo, hi)
    requires s == MedianPlaced(was, lo, lo + (hi - lo) / 2, hi)
    ensures Partitioned(r, was, lo, p, hi)
  {
    PermutedThen(r, s, was, lo, hi + 1, lo, hi + 1);
  }

  /** `partition` on three cells or more. */
  method PartitionLong(a: array<Elem>, lo: nat, hi: nat) returns (p: nat, ghost comparisons: nat)
    requires lo + 2 <= hi < a.Length
    modifies a
    ensures Partitioned(a[..], old(a[..]), lo, p, hi) && comparisons <= hi - lo + 3
  {
    ghost var was := a[..];
    ghost var c, d;
    p, c := MedianOfThree(a, lo, hi);
    ghost var s := a[..];
    p, d := PartitionAround(a, lo, hi);
    LongPartitioned(was, s, a[..], lo, p, hi);
    comparisons := c + d;
  }

  lemma PartitionedStrictly(r: seq<Elem>, was: seq<Elem>, lo: nat, p: nat, hi: nat)
    requires Partitioned(r, was, lo, p, hi)
    ensures StrictlySeparated(r, lo, p, hi) <==> Occurrences(was, lo, hi + 1, PivotKey(was, lo, hi)) == 1
  {
    StrictIff(r, lo, p, hi);
    PermutedOccurrences(r, was, lo, hi + 1, r[p].key);
  }

  /** The separation is strict exactly if the pivot key occurs once in the range before the call. */
  method Partition(a: array<Elem>, lo: nat, hi: nat) returns (p: nat, ghost comparisons: nat)
    requires lo < hi < a.Length
    modifies a
    ensures Partitioned(a[..], old(a[..]), lo, p, hi)
    ensures StrictlySeparated(a[..], lo, p, hi) <==>
            Occurrences(old(a[..]), lo, hi + 1, PivotKey(old(a[..]), lo, hi)) == 1
    ensures comparisons <= if hi - lo < 2 then 1 else hi - lo + 3
  {
    ghost var was := a[..];
    if hi - lo < 2 {
      PairPartitioned(was, lo);
      comparisons := Order(a, lo, hi);
      p := lo;
    } else {
      p, comparisons := PartitionLong(a, lo, hi);
    }
    PartitionedStrictly(a[..], was, lo, p, hi);
  }

  /** An input with equal keys: no outcome of `Partition` on 2, 1, 2 is strictly separated. */
  lemma EqualKeysAreNotSeparated(s: seq<Elem>, r: seq<Elem>, p: nat)
    requires Keys(s) == [2, 1, 2] && Partitioned(r, s, 0, p, 2)
    ensures !StrictlySeparated(r, 0, p, 2)
  {
    assert s[0].key == Keys(s)[0] && s[1].key == Keys(s)[1] && s[2].key == Keys(s)[2];
    PartitionedStrictly(r, s, 0, p, 2);
    assert s[0..3] == s;
  }

  // ---------- the sort ----------

  /** Two sorted sides around the pivot are sorted together. */
  lemma SidesSorted(split: seq<Elem>, left: seq<Elem>, s: seq<Elem>, lo: nat, p: nat, h: nat)
    requires h > 0 && Separated(split, lo, p, h - 1)
    requires PermutedAt(left, split, lo, p) && SortedAt(left, lo, p)
    requires PermutedAt(s, left, p + 1, h) && SortedAt(s, p + 1, h)
    ensures SortedAt(s, lo, h)
  {
    PermutedBounds(left, split, lo, p, split[p].key);
    PermutedBounds(s, left, p + 1, h, split[p].key);
  }

  /** The comparisons of n cells when every pivot splits off just one cell: of three cells or more,
      each side of the pivot gets at least one. */
  function WorstCase(n: int): nat {
    if n <= 1 then 0 else if n == 2 then 1 else n + 2 + WorstCase(n - 2)
  }

  lemma {:induction false} WorstCaseGrows(n: nat)
    requires n >= 1
    ensures WorstCase(n) + 1 <= WorstCase(n + 1)
  {
    if n >= 3 {
      WorstCaseGrows(n - 2);
    } else if n == 2 {
      assert WorstCase(3) == 5 + WorstCase(1);
    }
  }

  /** No other split costs more. */
  lemma {:induction false} SplitsCost(l: nat, r: nat)
    requires l >= 1 && r >= 1
    ensures WorstCase(l) + WorstCase(r) <= WorstCase(l + r - 1)
  {
    if l >= 3 {
      SplitsCost(l - 2, r);
    } else if l == 2 {
      WorstCaseGrows(r);
    }
  }

  lemma {:induction false} WorstCaseIsQuadratic(n: nat)
    requires n >= 1
    ensures 4 * WorstCase(n) <= (n - 1) * (n + 7)
  {
    if n > 2 {
      WorstCaseIsQuadratic(n - 2);
      assert (n - 1) * (n + 7) == (n - 3) * (n + 5) + 4 * (n + 2);
    }
  }

  lemma SidesCost(n: nat, l: nat, r: nat, c: nat)
    requires n >= 2 && l + r == n - 1
    requires if n == 2 then c <= 1 else l >= 1 && r >= 1 && c <= n + 2
    ensures c + WorstCase(l) + WorstCase(r) <= WorstCase(n)
  {
    if n > 2 {
      SplitsCost(l, r);
    }
  }

  /** `s` is `was` with the cells from `lo` to `hi` sorted; three cells are put in order by the
      median-of-three exchanges alone. */
  ghost predicate QuickSorted(s: seq<Elem>, was: seq<Elem>, lo: nat, hi: int) {
    && lo <= hi + 1 <= |was| && PermutedAt(s, was, lo, hi + 1) && SortedAt(s, lo, hi + 1)
    && (lo >= hi ==> s == was)
    && (hi == lo + 2 ==> s == MedianPlaced(was, lo, lo + 1, hi))
  }

  lemma SidesQuickSorted(was: seq<Elem>, split: seq<Elem>, left: seq<Elem>, s: seq<Elem>, lo: nat, p: nat, hi: nat)
    requires Partitioned(split, was, lo, p, hi)
    requires QuickSorted(left, split, lo, p - 1) && QuickSorted(s, left, p + 1, hi)
    ensures QuickSorted(s, was, lo, hi)
  {
    SidesSorted(split, left, s, lo, p, hi + 1);
    PermutedThen(left, split, was, lo, hi + 1, lo, p);
    PermutedThen(s, left, was, lo, hi + 1, p + 1, hi + 1);
  }

  method QuickSortRec(a: array<Elem>, lo: nat, hi: int) returns (ghost comparisons: nat)
    requires lo <= hi + 1 <= a.Length
    modifies a
    ensures QuickSorted(a[..], old(a[..]), lo, hi)
    ensures comparisons <= WorstCase(hi - lo + 1)
    decreases hi - lo + 1
  {
    if lo >= hi {
      return 0;
    }
    ghost var was := a[..];
    ghost var c, d, e;
    var p;
    p, c := Partition(a, lo, hi);
    ghost var split := a[..];
    d := QuickSortRec(a, lo, p as int - 1);
    ghost var left := a[..];
    e := QuickSortRec(a, p + 1, hi);
    SidesQuickSorted(was, split, left, a[..], lo, p, hi);
    SidesCost(hi - lo + 1, p - lo, hi - p, c);
    comparisons := c + d + e;
  }

  /** Sorted, with at most (n - 1)(n + 7) / 4 comparisons.  Three cells are put in order by the
      median-of-three exchanges alone. */
  method QuickSort(a: array<Elem>) returns (ghost comparisons: nat)
    modifies a
    ensures Sorted(a[..]) && multiset(a[..]) == multiset(old(a[..]))
    ensures comparisons <= WorstCase(a.Length)
    ensures a.Length > 0 ==> 4 * comparisons <= (a.Length - 1) * (a.Length + 7)
    ensures a.Length == 3 ==> a[..] == MedianPlaced(old(a[..]), 0, 1, 2)
  {
    if a.Length < 2 {
      return 0;
    }
    ghost var was := a[..];
    comparisons := QuickSortRec(a, 0, a.Length - 1);
    WorstCaseIsQuadratic(a.Length);
    SameElementsIff(a[..], was);
  }

  /** The table at the head of the file: quicksort is not stable, on 2, 2, 1. */
  lemma QuickSortIsUnstable()
    ensures exists s :: |s| == 3 && !SameOrder(MedianPlaced(s, 0, 1, 2), s)
  {
    var s := [Elem(2, 0), Elem(2, 1), Elem(1, 2)];
    var t := [Elem(1, 2), Elem(2, 1), Elem(2, 0)];
    var s1 := Ordered(s, 0, 1);
    var s2 := Ordered(s1, 0, 2);
    assert s1 == s && s2 == t && Ordered(s2, 1, 2) == t;
    ExchangedSelf(t, 1);
    FirstSelected(s, 0, 2);
    FirstSelected(t, 1, 2);
  }
}
