/** The driver that sorts a copy of the same array with each of the five sorts. */
module AllSorts {
  import opened Sequences
  import opened SortSpec
  import SimpleSorts
  import MergeSort
  import QuickSort

  lemma StableIsPermutation(r: seq<Elem>, s: seq<Elem>)
    requires IsStableSort(r, s)
    ensures Sorted(r) && multiset(r) == multiset(s)
  {
    SameOrderPermutes(r, s);
  }

  lemma StableSortsAgree(r: seq<Elem>, q: seq<Elem>, s: seq<Elem>)
    requires IsStableSort(r, s) && IsStableSort(q, s)
    ensures r == q
  {
    forall k
      ensures Select(r, k) == Select(q, k)
    {
      assert Select(r, k) == Select(s, k);
    }
    StableSortUnique(r, q);
  }

  lemma AllAgree(bubble: seq<Elem>, insertion: seq<Elem>, selection: seq<Elem>, merge: seq<Elem>, quick: seq<Elem>, s: seq<Elem>)
    requires IsStableSort(bubble, s) && IsStableSort(insertion, s) && IsStableSort(merge, s)
    requires Sorted(selection) && multiset(selection) == multiset(s)
    requires Sorted(quick) && multiset(quick) == multiset(s)
    ensures bubble == insertion == merge && Keys(bubble) == Keys(selection) == Keys(quick)
    ensures Distinct(Keys(s)) ==> bubble == selection == quick
  {
    StableSortsAgree(bubble, insertion, s);
    StableSortsAgree(bubble, merge, s);
    StableIsPermutation(bubble, s);
    SortsAgreeOnKeys(bubble, selection, s);
    SortsAgreeOnKeys(bubble, quick, s);
    if Distinct(Keys(s)) {
      DistinctKeysKeepOrder(selection, s);
      DistinctKeysKeepOrder(quick, s);
      StableSortsAgree(bubble, selection, s);
      StableSortsAgree(bubble, quick, s);
    }
  }

  method CopyArray(src: array<Elem>) returns (dst: array<Elem>)
    ensures fresh(dst) && dst[..] == src[..]
  {
    dst := new Elem[src.Length](i requires 0 <= i < src.Length reads src => src[i]);
  }

  /** `original` in the order that a stable sort gives. */
  method StableCopies(original: array<Elem>) returns (bubble: array<Elem>, insertion: array<Elem>, merge: array<Elem>)
    ensures fresh(bubble) && IsStableSort(bubble[..], original[..])
    ensures fresh(insertion) && IsStableSort(insertion[..], original[..])
    ensures fresh(merge) && IsStableSort(merge[..], original[..])
  {
    ghost var c0, c1, c2;
    bubble := CopyArray(original);
    c0, c1 := SimpleSorts.BubbleSort(bubble);
    ghost var bubbled := bubble[..];
    insertion := CopyArray(original);
    c0, c1 := SimpleSorts.InsertionSort(insertion);
    ghost var inserted := insertion[..];
    merge := CopyArray(original);
    c2 := MergeSort.MergeSort(merge);
    assert bubble[..] == bubbled && insertion[..] == inserted;
  }

  method UnstableCopies(original: array<Elem>) returns (selection: array<Elem>, quick: array<Elem>)
    ensures fresh(selection) && Sorted(selection[..]) && multiset(selection[..]) == multiset(original[..])
    ensures fresh(quick) && Sorted(quick[..]) && multiset(quick[..]) == multiset(original[..])
  {
    selection := CopyArray(original);
    ghost var d := SimpleSorts.SelectionSort(selection);
    ghost var selected := selection[..];
    quick := CopyArray(original);
    ghost var c := QuickSort.QuickSort(quick);
    assert selection[..] == selected;
  }

  /** Bubble, insertion and merge sort return the same array, element by element, and selection
      sort and quicksort return the same keys, so the same array where all keys are different.
      Only the copies are modified. */
  method SortEachWay(original: array<Elem>)
    returns (bubble: array<Elem>, insertion: array<Elem>, selection: array<Elem>, merge: array<Elem>, quick: array<Elem>)
    ensures IsStableSort(bubble[..], original[..])
    ensures bubble[..] == insertion[..] == merge[..]
    ensures Keys(bubble[..]) == Keys(selection[..]) == Keys(quick[..])
    ensures Distinct(Keys(original[..])) ==> bubble[..] == selection[..] == quick[..]
  {
    ghost var s := original[..];
    bubble, insertion, merge := StableCopies(original);
    ghost var b, i, m := bubble[..], insertion[..], merge[..];
    selection, quick := UnstableCopies(original);
    assert bubble[..] == b && insertion[..] == i && merge[..] == m;
    AllAgree(b, i, selection[..], m, quick[..], s);
  }
}
