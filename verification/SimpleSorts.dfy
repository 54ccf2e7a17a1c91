/** Bubble, insertion and selection sort in place.  Ghost counters record the swaps, shifts and
    comparisons that the C loops make. */
module SimpleSorts {
  import opened SortSpec

  /** `s` is reached from `was` by `n` swaps, each of which removed one inversion. */
  ghost predicate Reached(s: seq<Elem>, was: seq<Elem>, n: nat) {
    SameOrder(s, was) && n + Inversions(s) == Inversions(was)
  }

  lemma ReachedSwap(s: seq<Elem>, was: seq<Elem>, n: nat, j: nat)
    requires j + 1 < |s| && s[j].key > s[j + 1].key && Reached(s, was, n)
    ensures Reached(Swap(s, j), was, n + 1)
  {
    SwapKeepsOrder(s, j);
    SwapInversions(s, j);
  }

  lemma ReachedSorted(s: seq<Elem>, was: seq<Elem>, n: nat)
    requires Sorted(s) && Reached(s, was, n)
    ensures IsStableSort(s, was) && n == Inversions(was)
  {
    SortedHasNoInversions(s);
  }

  // ---------- bubble sort ----------

  /** From position `from` on the elements are final. */
  ghost predicate SettledFrom(s: seq<Elem>, from: int) {
    forall p, q :: 0 <= p < q < |s| && from <= q ==> s[p].key <= s[q].key
  }

  /** After `j` comparisons of a pass: s[j] is the largest so far; without a swap s[..j+1] is sorted. */
  ghost predicate InPass(s: seq<Elem>, j: nat, swapped: bool) {
    && j < |s|
    && (forall p :: 0 <= p < j ==> s[p].key <= s[j].key)
    && (!swapped ==> Sorted(s[..j + 1]))
  }

  lemma PassStep(s: seq<Elem>, from: nat, j: nat, swapped: bool)
    requires SettledFrom(s, from) && InPass(s, j, swapped) && j + 1 < from <= |s|
    ensures s[j].key > s[j + 1].key ==> SettledFrom(Swap(s, j), from) && InPass(Swap(s, j), j + 1, true)
    ensures s[j].key <= s[j + 1].key ==> InPass(s, j + 1, swapped)
  {
  }

  lemma PassEnd(s: seq<Elem>, from: nat, swapped: bool)
    requires 0 < from <= |s| && SettledFrom(s, from) && InPass(s, from - 1, swapped)
    ensures SettledFrom(s, from - 1)
    ensures !swapped ==> Sorted(s)
  {
    if !swapped {
      forall p, q | 0 <= p < q < |s|
        ensures s[p].key <= s[q].key
      {
        if q < from {
          assert s[..from][p].key <= s[..from][q].key;
        }
      }
    }
  }

  /** The inner loop: one pass over the first `from` cells. */
  method BubblePass(a: array<Elem>, from: nat, ghost was: seq<Elem>, ghost before: nat)
    returns (swapped: bool, ghost swaps: nat, ghost comparisons: nat)
    requires 1 <= from <= a.Length
    requires SettledFrom(a[..], from) && Reached(a[..], was, before)
    modifies a
    ensures Reached(a[..], was, swaps) && SettledFrom(a[..], from - 1)
    ensures comparisons == from - 1
    ensures !swapped ==> Sorted(a[..])
    ensures Sorted(old(a[..])) ==> !swapped && a[..] == old(a[..])
  {
    ghost var s := a[..];
    swapped, swaps, comparisons := false, before, 0;
    var j := 0;
    while j < from - 1
      invariant 0 <= j <= from - 1 && comparisons == j && s == a[..]
      invariant Reached(s, was, swaps)
      invariant SettledFrom(s, from) && InPass(s, j, swapped)
      invariant Sorted(old(a[..])) ==> !swapped && s == old(a[..])
    {
      PassStep(s, from, j, swapped);
      comparisons := comparisons + 1;
      if a[j].key > a[j + 1].key {
        ReachedSwap(s, was, swaps, j);
        Exchange(a, j, j + 1);
        swapped := true;
        s := Swap(s, j);
        swaps := swaps + 1;
      }
      j := j + 1;
    }
    PassEnd(s, from, swapped);
  }

  /** The number of pairs of n cells, n(n - 1)/2. */
  function Pairs(n: nat): nat { if n == 0 then 0 else Pairs(n - 1) + n - 1 }

  lemma {:induction false} PairsIs(n: nat)
    ensures 2 * Pairs(n) == n * (n - 1)
  {
    if n > 0 {
      PairsIs(n - 1);
      assert n * (n - 1) == (n - 1) * (n - 2) + 2 * (n - 1);
    }
  }

  method BubbleSort(a: array<Elem>) returns (ghost swaps: nat, ghost comparisons: nat)
    modifies a
    ensures IsStableSort(a[..], old(a[..]))
    ensures swaps == Inversions(old(a[..]))
    ensures Sorted(old(a[..])) && a.Length > 0 ==> comparisons == a.Length - 1
    ensures comparisons <= Pairs(a.Length)
  {
    swaps, comparisons := 0, 0;
    ghost var was := a[..];
    var n := a.Length;
    var i := 0;
    var swapped := true;
    while i < n - 1
      invariant 0 <= i && (n > 0 ==> i <= n - 1)
      invariant Reached(a[..], was, swaps) && SettledFrom(a[..], n - i)
      invariant Sorted(was) ==> i == 0 && comparisons == 0 && a[..] == was
      invariant i <= n && comparisons + Pairs(n - i) == Pairs(n)
    {
      ghost var made;
      swapped, swaps, made := BubblePass(a, n - i, was, swaps);
      comparisons := comparisons + made;
      if !swapped {
        break;
      }
      i := i + 1;
    }
    assert Sorted(a[..]);
    ReachedSorted(a[..], was, swaps);
  }

  // ---------- insertion sort ----------

  /** `filled` is the array with the held key put into the gap at `g`: sorted up to `i`
      except that the key may still be too small for its place. */
  ghost predicate Inserting(filled: seq<Elem>, g: nat, i: nat) {
    && g <= i < |filled|
    && (forall p, q :: 0 <= p < q <= i && p != g && q != g ==> filled[p].key <= filled[q].key)
    && (forall q :: g < q <= i ==> filled[g].key < filled[q].key)
  }

  lemma InsertStep(filled: seq<Elem>, g: nat, i: nat)
    requires Inserting(filled, g, i) && g > 0 && filled[g - 1].key > filled[g].key
    ensures Inserting(Swap(filled, g - 1), g - 1, i)
  {
  }

  lemma InsertEnd(filled: seq<Elem>, g: nat, i: nat)
    requires Inserting(filled, g, i) && (g == 0 || filled[g - 1].key <= filled[g].key)
    ensures Sorted(filled[..i + 1])
  {
    forall p | 0 <= p < g
      ensures filled[p].key <= filled[g].key
    {
      assert p < g - 1 ==> filled[p].key <= filled[g - 1].key;
    }
  }

  lemma ShiftIsSwap(t: seq<Elem>, key: Elem, j: nat)
    requires j + 1 < |t|
    ensures Swap(t[j + 1 := key], j) == t[j + 1 := t[j]][j := key]
  {
  }

  /** What one shift does for the proof. */
  lemma ShiftStep(t: seq<Elem>, key: Elem, j: nat, i: nat, was: seq<Elem>, shifts: nat)
    requires j + 1 < |t| && t[j].key > key.key
    requires Inserting(t[j + 1 := key], j + 1, i) && Reached(t[j + 1 := key], was, shifts)
    ensures Inserting(t[j + 1 := t[j]][j := key], j, i) && Reached(t[j + 1 := t[j]][j := key], was, shifts + 1)
  {
    ShiftIsSwap(t, key, j);
    InsertStep(t[j + 1 := key], j + 1, i);
    ReachedSwap(t[j + 1 := key], was, shifts, j);
  }

  lemma InsertBegin(s: seq<Elem>, i: nat)
    requires i < |s| && Sorted(s[..i])
    ensures Inserting(s, i, i)
  {
    assert forall p :: 0 <= p < i ==> s[p] == s[..i][p];
  }

  /** The body of the outer loop: a[i] moves down into the sorted cells before it. */
  method InsertCell(a: array<Elem>, i: nat, ghost was: seq<Elem>, ghost before: nat)
    returns (ghost shifts: nat, ghost comparisons: nat)
    requires 1 <= i < a.Length && Sorted(a[..][..i]) && Reached(a[..], was, before)
    modifies a
    ensures Reached(a[..], was, shifts) && Sorted(a[..][..i + 1])
    ensures before <= shifts && comparisons <= shifts - before + 1
  {
    shifts, comparisons := before, 0;
    ghost var s := a[..];                // the array, with `key` put into the gap
    var key := a[i];
    var j := i - 1;
    InsertBegin(s, i);
    while j >= 0 && a[j].key > key.key
      invariant -1 <= j < i < a.Length
      invariant s == a[..][j + 1 := key]
      invariant Reached(s, was, shifts)
      invariant Inserting(s, j + 1, i)
      invariant comparisons == shifts - before
    {
      comparisons := comparisons + 1;
      ghost var t := a[..];
      ShiftStep(t, key, j, i, was, shifts);
      a[j + 1] := a[j];
      s := t[j + 1 := t[j]][j := key];
      shifts := shifts + 1;
      j := j - 1;
    }
    if j >= 0 {
      comparisons := comparisons + 1;
    }
    InsertEnd(s, j + 1, i);
    a[j + 1] := key;
  }

  method InsertionSort(a: array<Elem>) returns (ghost shifts: nat, ghost comparisons: nat)
    modifies a
    ensures IsStableSort(a[..], old(a[..]))
    ensures shifts == Inversions(old(a[..]))
    ensures comparisons <= shifts + if a.Length == 0 then 0 else a.Length - 1
  {
    shifts, comparisons := 0, 0;
    ghost var was := a[..];
    var i := 1;
    while i < a.Length
      invariant 1 <= i <= if a.Length == 0 then 1 else a.Length
      invariant Reached(a[..], was, shifts)
      invariant i <= a.Length ==> Sorted(a[..][..i])
      invariant comparisons <= shifts + i - 1
    {
      ghost var made;
      shifts, made := InsertCell(a, i, was, shifts);
      comparisons := comparisons + made;
      i := i + 1;
    }
    assert a.Length > 0 ==> i == a.Length && a[..][..i] == a[..];
    ReachedSorted(a[..], was, shifts);
  }

  // ---------- selection sort ----------

  /** The first position from `i` on that holds the smallest key found there. */
  ghost predicate IsFirstLeast(s: seq<Elem>, i: nat, upto: nat, m: nat) {
    && i <= m < upto <= |s|
    && (forall p :: i <= p < upto ==> s[m].key <= s[p].key)
    && (forall p :: i <= p < m ==> s[m].key < s[p].key)
  }

  function FirstLeast(s: seq<Elem>, i: nat): (m: nat)
    requires i < |s|
    ensures IsFirstLeast(s, i, |s|, m)
    decreases |s| - i
  {
    if i + 1 == |s| then i
    else
      var m := FirstLeast(s, i + 1);
      if s[m].key < s[i].key then m else i
  }

  lemma FirstLeastUnique(s: seq<Elem>, i: nat, m: nat)
    requires IsFirstLeast(s, i, |s|, m)
    ensures m == FirstLeast(s, i)
  {
  }

  /** The exchanges of selection sort from position `i` on. */
  function Selection(s: seq<Elem>, i: nat): seq<Elem>
    decreases |s| - i
  {
    if i + 1 >= |s| then s else Selection(Exchanged(s, i, FirstLeast(s, i)), i + 1)
  }

  ghost predicate SettledUpto(s: seq<Elem>, i: nat) {
    forall p, q :: 0 <= p < q < |s| && p < i ==> s[p].key <= s[q].key
  }

  lemma SettleNext(s: seq<Elem>, i: nat)
    requires SettledUpto(s, i) && i < |s|
    ensures SettledUpto(Exchanged(s, i, FirstLeast(s, i)), i + 1)
  {
  }

  lemma {:induction false} SelectionPermutes(s: seq<Elem>, i: nat)
    ensures multiset(Selection(s, i)) == multiset(s)
    decreases |s| - i
  {
    if i + 1 < |s| {
      ExchangedPermutes(s, i, FirstLeast(s, i));
      SelectionPermutes(Exchanged(s, i, FirstLeast(s, i)), i + 1);
    }
  }

  lemma {:induction false} SelectionSorts(s: seq<Elem>, i: nat)
    requires SettledUpto(s, i)
    ensures Sorted(Selection(s, i))
    decreases |s| - i
  {
    if i + 1 < |s| {
      SettleNext(s, i);
      SelectionSorts(Exchanged(s, i, FirstLeast(s, i)), i + 1);
    }
  }

  lemma SelectionStep(s: seq<Elem>, i: nat, m: nat)
    requires i + 1 < |s| && IsFirstLeast(s, i, |s|, m)
    ensures Selection(s, i) == Selection(Exchanged(s, i, m), i + 1)
  {
    FirstLeastUnique(s, i, m);
  }

  /** From position `i` on, no exchange carries its element past one with the same key. */
  ghost predicate PassesNone(s: seq<Elem>, i: nat)
    decreases |s| - i
  {
    i + 1 < |s| ==>
      var m := FirstLeast(s, i);
      (forall x :: i < x < m ==> s[x].key != s[i].key) && PassesNone(Exchanged(s, i, m), i + 1)
  }

  /** Selection sort is stable where its exchanges pass no equal keys.  The converse is false: see
      PassingMayStillBeStable. */
  lemma {:induction false} SelectionStable(s: seq<Elem>, i: nat)
    requires PassesNone(s, i)
    ensures SameOrder(Selection(s, i), s)
    decreases |s| - i
  {
    if i + 1 < |s| {
      var m := FirstLeast(s, i);
      if m == i {
        ExchangedSelf(s, i);
      } else {
        ExchangeKeepsOrder(s, i, m);
      }
      SelectionStable(Exchanged(s, i, m), i + 1);
    }
  }

  lemma {:induction false} DistinctKeysPassNone(s: seq<Elem>, i: nat)
    requires forall x, y :: 0 <= x < y < |s| ==> s[x].key != s[y].key
    ensures PassesNone(s, i)
    decreases |s| - i
  {
    if i + 1 < |s| {
      DistinctKeysPassNone(Exchanged(s, i, FirstLeast(s, i)), i + 1);
    }
  }

  lemma HalvesSelect(a: seq<Elem>, b: seq<Elem>, k: int)
    requires Select(a, k) == [] || Select(b, k) == []
    ensures Select(b + a, k) == Select(a + b, k)
  {
    SelectConcat(a, b, k);
    SelectConcat(b, a, k);
  }

  lemma HalvesSwapped(a: seq<Elem>, b: seq<Elem>)
    requires forall x, y :: 0 <= x < |a| && 0 <= y < |b| ==> a[x].key != b[y].key
    ensures SameOrder(b + a, a + b)
  {
    forall k
      ensures Select(b + a, k) == Select(a + b, k)
    {
      if x :| 0 <= x < |a| && a[x].key == k {
        SelectNone(b, k);
      } else {
        SelectNone(a, k);
      }
      HalvesSelect(a, b, k);
    }
  }

  lemma TwoExchanges(s: seq<Elem>)
    requires s == [Elem(2, 0), Elem(2, 1), Elem(1, 2), Elem(1, 3)]
    ensures Selection(s, 0) == s[2..] + s[..2]
  {
    var t := [Elem(1, 2), Elem(2, 1), Elem(2, 0), Elem(1, 3)];
    var u := s[2..] + s[..2];
    SelectionStep(s, 0, 2);
    assert Exchanged(s, 0, 2) == t;
    SelectionStep(t, 1, 3);
    assert Exchanged(t, 1, 3) == u;
    SelectionStep(u, 2, 2);
    ExchangedSelf(u, 2);
    assert Selection(u, 3) == u;
  }

  /** Two exchanges that pass equal keys can restore the order: 2, 2, 1, 1. */
  lemma PassingMayStillBeStable(s: seq<Elem>)
    requires s == [Elem(2, 0), Elem(2, 1), Elem(1, 2), Elem(1, 3)]
    ensures !PassesNone(s, 0) && SameOrder(Selection(s, 0), s)
  {
    TwoExchanges(s);
    HalvesSwapped(s[..2], s[2..]);
    assert s == s[..2] + s[2..];
    FirstLeastUnique(s, 0, 2);
    assert s[1].key == s[0].key;
  }

  /** The inner loop: the position of the minimum of the unsorted part. */
  method MinimumFrom(a: array<Elem>, i: nat) returns (least: nat, ghost comparisons: nat)
    requires i < a.Length
    ensures IsFirstLeast(a[..], i, a.Length, least) && comparisons == a.Length - 1 - i
  {
    least, comparisons := i, 0;
    var j := i + 1;
    while j < a.Length
      invariant i < j <= a.Length && IsFirstLeast(a[..], i, j, least) && comparisons == j - 1 - i
    {
      comparisons := comparisons + 1;
      if a[j].key < a[least].key {
        least := j;
      }
      j := j + 1;
    }
  }

  /** The body of the outer loop. */
  method SelectNext(a: array<Elem>, i: nat) returns (ghost comparisons: nat)
    requires i + 1 < a.Length
    modifies a
    ensures Selection(a[..], i + 1) == Selection(old(a[..]), i) && comparisons == a.Length - 1 - i
  {
    var least;
    least, comparisons := MinimumFrom(a, i);
    SelectionStep(a[..], i, least);
    ExchangedSelf(a[..], i);
    if least != i {
      Exchange(a, i, least);
    }
  }

  /** The comparisons are always the same. */
  method SelectionSort(a: array<Elem>) returns (ghost comparisons: nat)
    modifies a
    ensures comparisons == Pairs(a.Length)
    ensures a[..] == Selection(old(a[..]), 0)
    ensures Sorted(a[..]) && multiset(a[..]) == multiset(old(a[..]))
  {
    var n := a.Length;
    ghost var was := a[..];
    ghost var target := Selection(was, 0);
    comparisons := 0;
    var i := 0;
    while i < n - 1
      invariant 0 <= i <= n && (n > 0 ==> i <= n - 1)
      invariant comparisons + Pairs(n - i) == Pairs(n)
      invariant Selection(a[..], i) == target
    {
      ghost var made := SelectNext(a, i);
      comparisons := comparisons + made;
      i := i + 1;
    }
    assert a[..] == target;
    SelectionSorts(was, 0);
    SelectionPermutes(was, 0);
  }

  lemma OneExchange(s: seq<Elem>)
    requires s == [Elem(2, 0), Elem(2, 1), Elem(1, 2)]
    ensures Selection(s, 0) == [s[2], s[1], s[0]]
  {
    var t := [s[2], s[1], s[0]];
    SelectionStep(s, 0, 2);
    assert Exchanged(s, 0, 2) == t;
    SelectionStep(t, 1, 1);
    ExchangedSelf(t, 1);
  }

  /** The table at the head of the file: selection sort is not stable, on 2, 2, 1. */
  lemma SelectionSortIsUnstable()
    ensures exists s :: !SameOrder(Selection(s, 0), s)
  {
    var s := [Elem(2, 0), Elem(2, 1), Elem(1, 2)];
    OneExchange(s);
    FirstSelected(s, 0, 2);
    FirstSelected([s[2], s[1], s[0]], 1, 2);
    assert Select(Selection(s, 0), 2) != Select(s, 2);
  }
}
