/** What the sorts of exercise 17 promise.  The sorts compare `int` keys; here each key carries a
    tag that no sort looks at, so that stability can be stated. */
module SortSpec {
  import opened Sequences

  datatype Elem = Elem(key: int, tag: int)

  ghost predicate Sorted(s: seq<Elem>) {
    forall i, j :: 0 <= i < j < |s| ==> s[i].key <= s[j].key
  }

  /** The elements with key `k`, in their order in `s`. */
  function Select(s: seq<Elem>, k: int): (r: seq<Elem>)
    ensures forall e :: e in r ==> e.key == k && e in s
  {
    if s == [] then [] else (if s[0].key == k then [s[0]] else []) + Select(s[1..], k)
  }

  /** Equal keys appear in the same order in both; in particular each permutes the other. */
  ghost predicate SameOrder(r: seq<Elem>, s: seq<Elem>) {
    forall k :: Select(r, k) == Select(s, k)
  }

  ghost predicate IsStableSort(r: seq<Elem>, s: seq<Elem>) {
    Sorted(r) && SameOrder(r, s)
  }

  lemma {:induction false} SelectConcat(a: seq<Elem>, b: seq<Elem>, k: int)
    ensures Select(a + b, k) == Select(a, k) + Select(b, k)
  {
    if a == [] {
      assert a + b == b;
    } else {
      assert (a + b)[1..] == a[1..] + b;
      SelectConcat(a[1..], b, k);
    }
  }

  lemma {:induction false} SelectNone(s: seq<Elem>, k: int)
    requires forall i :: 0 <= i < |s| ==> s[i].key != k
    ensures Select(s, k) == []
  {
    if s != [] {
      SelectNone(s[1..], k);
    }
  }

  // ---------- the stable arrangement is unique ----------

  lemma {:induction false} FirstSelected(s: seq<Elem>, i: nat, k: int)
    requires i < |s| && s[i].key == k && forall p :: 0 <= p < i ==> s[p].key != k
    ensures Select(s, k) != [] && Select(s, k)[0] == s[i]
  {
    if i > 0 {
      FirstSelected(s[1..], i - 1, k);
    }
  }

  lemma SmallestKeyFirst(r: seq<Elem>, q: seq<Elem>)
    requires r != [] && Sorted(q) && SameOrder(r, q)
    ensures q != [] && q[0].key <= r[0].key
  {
    assert r[0] in Select(r, r[0].key);
    assert r[0] in Select(q, r[0].key);
    assert r[0] in q;
  }

  lemma SameOrderTail(r: seq<Elem>, q: seq<Elem>)
    requires r != [] && q != [] && r[0] == q[0] && SameOrder(r, q)
    ensures SameOrder(r[1..], q[1..])
  {
    forall k
      ensures Select(r[1..], k) == Select(q[1..], k)
    {
      assert Select(r, k) == Select(q, k);
      var head := if r[0].key == k then [r[0]] else [];
      assert (head + Select(r[1..], k))[|head|..] == Select(r[1..], k);
      assert (head + Select(q[1..], k))[|head|..] == Select(q[1..], k);
    }
  }

  /** Any two stable sorts of the same input agree element by element. */
  lemma {:induction false} StableSortUnique(r: seq<Elem>, q: seq<Elem>)
    requires Sorted(r) && Sorted(q) && SameOrder(r, q)
    ensures r == q
    decreases |r|
  {
    if r == [] {
      if q != [] {
        SmallestKeyFirst(q, r);
      }
    } else {
      SmallestKeyFirst(r, q);
      SmallestKeyFirst(q, r);
      var k := r[0].key;
      assert Select(r, k) == Select(q, k);
      assert Select(r, k)[0] == r[0] && Select(q, k)[0] == q[0];
      SameOrderTail(r, q);
      StableSortUnique(r[1..], q[1..]);
      assert r == [r[0]] + r[1..] && q == [q[0]] + q[1..];
    }
  }

  lemma {:induction false} SelectCount(s: seq<Elem>, e: Elem)
    ensures multiset(Select(s, e.key))[e] == multiset(s)[e]
  {
    if s != [] {
      assert s == [s[0]] + s[1..];
      SelectCount(s[1..], e);
    }
  }

  lemma SameOrderPermutes(r: seq<Elem>, s: seq<Elem>)
    requires SameOrder(r, s)
    ensures multiset(r) == multiset(s)
  {
    forall e: Elem
      ensures multiset(r)[e] == multiset(s)[e]
    {
      SelectCount(r, e);
      SelectCount(s, e);
      assert Select(r, e.key) == Select(s, e.key);
    }
  }

  // ---------- agreement of all sorts on the keys ----------

  function Keys(s: seq<Elem>): (ks: seq<int>)
    ensures |ks| == |s|
  {
    seq(|s|, i requires 0 <= i < |s| => s[i].key)
  }

  ghost predicate Ascending(ks: seq<int>) {
    forall i, j :: 0 <= i < j < |ks| ==> ks[i] <= ks[j]
  }

  lemma HeadIsLeast(ks: seq<int>, other: seq<int>)
    requires other != [] && Ascending(ks) && multiset(ks) == multiset(other)
    ensures ks != [] && ks[0] <= other[0]
  {
    assert other[0] in multiset(ks);
    assert other[0] in ks;
  }

  lemma MultisetWithout<T>(s: seq<T>, i: nat)
    requires i < |s|
    ensures multiset(s[..i] + s[i + 1..]) == multiset(s) - multiset{s[i]}
  {
    assert s == s[..i] + [s[i]] + s[i + 1..];
  }

  lemma MultisetTail<T>(s: seq<T>)
    requires s != []
    ensures multiset(s[1..]) == multiset(s) - multiset{s[0]}
  {
    assert s == [s[0]] + s[1..];
  }

  lemma {:induction false} AscendingUnique(r: seq<int>, q: seq<int>)
    requires Ascending(r) && Ascending(q) && multiset(r) == multiset(q)
    ensures r == q
    decreases |r|
  {
    if r == [] || q == [] {
      assert |multiset(q)| == 0;
    } else {
      HeadIsLeast(r, q);
      HeadIsLeast(q, r);
      MultisetTail(r);
      MultisetTail(q);
      AscendingUnique(r[1..], q[1..]);
      assert r == [r[0]] + r[1..] && q == [q[0]] + q[1..];
    }
  }

  lemma {:induction false} PermutedKeys(r: seq<Elem>, s: seq<Elem>)
    requires multiset(r) == multiset(s)
    ensures multiset(Keys(r)) == multiset(Keys(s))
    decreases |r|
  {
    if r == [] {
      assert |multiset(s)| == 0;
    } else {
      assert r[0] in multiset(s);
      var i :| 0 <= i < |s| && s[i] == r[0];
      var rest := s[..i] + s[i + 1..];
      MultisetWithout(s, i);
      MultisetTail(r);
      PermutedKeys(r[1..], rest);
      assert Keys(s) == Keys(s[..i]) + [r[0].key] + Keys(s[i + 1..]);
      assert Keys(rest) == Keys(s[..i]) + Keys(s[i + 1..]);
      assert Keys(r) == [r[0].key] + Keys(r[1..]);
    }
  }

  /** Whatever sorts the same input returns the same keys. */
  lemma SortsAgreeOnKeys(r: seq<Elem>, q: seq<Elem>, s: seq<Elem>)
    requires Sorted(r) && Sorted(q) && multiset(r) == multiset(s) == multiset(q)
    ensures Keys(r) == Keys(q)
  {
    PermutedKeys(r, q);
    AscendingUnique(Keys(r), Keys(q));
  }

  lemma CountOthers(ks: seq<int>, p: nat)
    requires p < |ks|
    ensures multiset(ks)[ks[p]] == 1 <==> forall x :: 0 <= x < |ks| && x != p ==> ks[x] != ks[p]
  {
    var k, before, after := ks[p], ks[..p], ks[p + 1..];
    assert ks == before + [k] + after;
    assert multiset(ks)[k] == multiset(before)[k] + 1 + multiset(after)[k];
    if multiset(ks)[k] == 1 {
      forall x | 0 <= x < |ks| && x != p
        ensures ks[x] != k
      {
        assert x < p ==> ks[x] == before[x];
        assert x > p ==> ks[x] == after[x - p - 1];
      }
    }
  }

  function One(e: Elem, k: int): seq<Elem> { if e.key == k then [e] else [] }

  lemma SelectOne(e: Elem, k: int)
    ensures Select([e], k) == One(e, k)
  {
  }

  lemma SelectTwice(a: seq<Elem>, x: Elem, b: seq<Elem>, k: int)
    ensures Select(a + [x] + b, k) == Select(a, k) + One(x, k) + Select(b, k)
  {
    SelectConcat(a + [x], b, k);
    SelectConcat(a, [x], k);
    SelectOne(x, k);
  }

  lemma NothingAround(before: seq<Elem>, e: Elem, after: seq<Elem>)
    requires before == [] && after == []
    ensures before + [e] + after == [e]
  {
  }

  lemma SelectBetween(before: seq<Elem>, e: Elem, after: seq<Elem>)
    requires forall x :: 0 <= x < |before| ==> before[x].key != e.key
    requires forall x :: 0 <= x < |after| ==> after[x].key != e.key
    ensures Select(before + [e] + after, e.key) == [e]
  {
    var k := e.key;
    SelectNone(before, k);
    SelectNone(after, k);
    SelectTwice(before, e, after, k);
    NothingAround(Select(before, k), e, Select(after, k));
  }

  lemma SelectOnly(s: seq<Elem>, p: nat)
    requires p < |s| && forall x :: 0 <= x < |s| && x != p ==> s[x].key != s[p].key
    ensures Select(s, s[p].key) == [s[p]]
  {
    SelectBetween(s[..p], s[p], s[p + 1..]);
    assert s == s[..p] + [s[p]] + s[p + 1..];
  }

  lemma SelectKey(s: seq<Elem>, r: seq<Elem>, p: nat)
    requires p < |s| && multiset(r) == multiset(s) && Distinct(Keys(s))
    ensures Select(r, s[p].key) == Select(s, s[p].key)
  {
    var ks := Keys(s);
    assert forall x :: 0 <= x < |s| ==> ks[x] == s[x].key;
    CountOthers(ks, p);
    SelectOnly(s, p);
    PermutedKeys(r, s);
    assert s[p] in multiset(r);
    var q :| 0 <= q < |r| && r[q] == s[p];
    var kr := Keys(r);
    assert forall x :: 0 <= x < |r| ==> kr[x] == r[x].key;
    CountOthers(kr, q);
    SelectOnly(r, q);
  }

  /** Where all keys are different, every permutation keeps the order of equal keys. */
  lemma DistinctKeysKeepOrder(r: seq<Elem>, s: seq<Elem>)
    requires multiset(r) == multiset(s) && Distinct(Keys(s))
    ensures SameOrder(r, s)
  {
    forall k
      ensures Select(r, k) == Select(s, k)
    {
      if p :| 0 <= p < |s| && s[p].key == k {
        SelectKey(s, r, p);
      } else {
        SelectNone(s, k);
        forall q | 0 <= q < |r|
          ensures r[q].key != k
        {
          assert r[q] in multiset(s);
        }
        SelectNone(r, k);
      }
    }
  }

  // ---------- exchanges ----------

  function Exchanged(s: seq<Elem>, i: nat, j: nat): (r: seq<Elem>)
    requires i < |s| && j < |s|
    ensures |r| == |s|
  {
    s[i := s[j]][j := s[i]]
  }

  /** `swap_int` on two cells of an array. */
  method Exchange(a: array<Elem>, i: nat, j: nat)
    requires i < a.Length && j < a.Length
    modifies a
    ensures a[..] == Exchanged(old(a[..]), i, j)
  {
    a[i], a[j] := a[j], a[i];
  }

  lemma ExchangedPermutes(s: seq<Elem>, i: nat, j: nat)
    requires i < |s| && j < |s|
    ensures multiset(Exchanged(s, i, j)) == multiset(s)
  {
  }

  lemma ExchangedSelf(s: seq<Elem>, i: nat)
    requires i < |s|
    ensures Exchanged(s, i, i) == s
  {
    assert s[i := s[i]] == s;
  }

  lemma AroundNothing(a: seq<Elem>, x: seq<Elem>, b: seq<Elem>, y: seq<Elem>, c: seq<Elem>)
    requires x == [] || y == []
    requires x != [] || y != [] ==> b == []
    ensures a + y + b + x + c == a + x + b + y + c
  {
  }

  lemma SelectAround(a: seq<Elem>, x: Elem, b: seq<Elem>, y: Elem, c: seq<Elem>, k: int)
    ensures Select(a + [x] + b + [y] + c, k) == Select(a, k) + One(x, k) + Select(b, k) + One(y, k) + Select(c, k)
  {
    SelectTwice(a + [x] + b, y, c, k);
    SelectTwice(a, x, b, k);
  }

  lemma SelectExchanged(a: seq<Elem>, x: Elem, b: seq<Elem>, y: Elem, c: seq<Elem>, k: int)
    requires x.key != y.key && forall p :: 0 <= p < |b| ==> b[p].key != x.key && b[p].key != y.key
    ensures Select(a + [y] + b + [x] + c, k) == Select(a + [x] + b + [y] + c, k)
  {
    SelectAround(a, x, b, y, c, k);
    SelectAround(a, y, b, x, c, k);
    if k == x.key || k == y.key {
      SelectNone(b, k);
    }
    AroundNothing(Select(a, k), One(x, k), Select(b, k), One(y, k), Select(c, k));
  }

  lemma ExchangedParts(s: seq<Elem>, i: nat, m: nat)
    requires i < m < |s|
    ensures s == s[..i] + [s[i]] + s[i + 1..m] + [s[m]] + s[m + 1..]
    ensures Exchanged(s, i, m) == s[..i] + [s[m]] + s[i + 1..m] + [s[i]] + s[m + 1..]
  {
  }

  /** An exchange keeps equal keys in order if neither element passes one. */
  lemma ExchangeKeepsOrder(s: seq<Elem>, i: nat, m: nat)
    requires i < m < |s| && s[i].key != s[m].key
    requires forall x :: i < x < m ==> s[x].key != s[i].key && s[x].key != s[m].key
    ensures SameOrder(Exchanged(s, i, m), s)
  {
    ExchangedParts(s, i, m);
    forall k
      ensures Select(Exchanged(s, i, m), k) == Select(s, k)
    {
      SelectExchanged(s[..i], s[i], s[i + 1..m], s[m], s[m + 1..], k);
    }
  }

  function Swap(s: seq<Elem>, i: nat): seq<Elem>
    requires i + 1 < |s|
  {
    Exchanged(s, i, i + 1)
  }

  lemma {:induction false} SwapSelect(s: seq<Elem>, i: nat, k: int)
    requires i + 1 < |s| && s[i].key != s[i + 1].key
    ensures Select(Swap(s, i), k) == Select(s, k)
  {
    if i == 0 {
      assert Swap(s, 0)[1..][1..] == s[1..][1..];
    } else {
      assert Swap(s, i)[1..] == Swap(s[1..], i - 1);
      SwapSelect(s[1..], i - 1, k);
    }
  }

  /** Swapping neighbours with different keys keeps equal keys in order. */
  lemma SwapKeepsOrder(s: seq<Elem>, i: nat)
    requires i + 1 < |s| && s[i].key != s[i + 1].key
    ensures SameOrder(Swap(s, i), s)
  {
    forall k
      ensures Select(Swap(s, i), k) == Select(s, k)
    {
      SwapSelect(s, i, k);
    }
  }

  // ---------- inversions ----------

  function CountBelow(s: seq<Elem>, k: int): nat {
    if s == [] then 0 else (if s[0].key < k then 1 else 0) + CountBelow(s[1..], k)
  }

  /** The number of pairs that stand in the wrong order. */
  function Inversions(s: seq<Elem>): nat {
    if s == [] then 0 else CountBelow(s[1..], s[0].key) + Inversions(s[1..])
  }

  lemma {:induction false} SwapCountBelow(s: seq<Elem>, i: nat, k: int)
    requires i + 1 < |s|
    ensures CountBelow(Swap(s, i), k) == CountBelow(s, k)
  {
    if i == 0 {
      assert Swap(s, 0)[1..][1..] == s[1..][1..];
    } else {
      assert Swap(s, i)[1..] == Swap(s[1..], i - 1);
      SwapCountBelow(s[1..], i - 1, k);
    }
  }

  /** Swapping an inverted pair of neighbours removes exactly one inversion. */
  lemma {:induction false} SwapInversions(s: seq<Elem>, i: nat)
    requires i + 1 < |s| && s[i].key > s[i + 1].key
    ensures Inversions(Swap(s, i)) == Inversions(s) - 1
  {
    if i == 0 {
      var t := Swap(s, 0);
      assert t[1..][1..] == s[1..][1..];
      assert t[1..][0] == s[0] && s[1..][0] == s[1];
    } else {
      assert Swap(s, i)[1..] == Swap(s[1..], i - 1);
      SwapInversions(s[1..], i - 1);
      SwapCountBelow(s[1..], i - 1, s[0].key);
    }
  }

  lemma {:induction false} CountBelowNone(s: seq<Elem>, k: int)
    requires forall i :: 0 <= i < |s| ==> s[i].key >= k
    ensures CountBelow(s, k) == 0
  {
    if s != [] {
      CountBelowNone(s[1..], k);
    }
  }

  lemma {:induction false} SortedHasNoInversions(s: seq<Elem>)
    requires Sorted(s)
    ensures Inversions(s) == 0
  {
    if s != [] {
      CountBelowNone(s[1..], s[0].key);
      SortedHasNoInversions(s[1..]);
    }
  }

  /** The reference meaning of `Inversions`: the size of the set of inverted index pairs. */
  ghost function InvertedPairs(s: seq<Elem>): set<(nat, nat)> {
    set i: nat, j: nat | i < j < |s| && s[i].key > s[j].key :: (i, j)
  }

  ghost function Below(s: seq<Elem>, k: int): set<nat> {
    set j: nat | j < |s| && s[j].key < k
  }

  ghost function Image<A(!new), B>(a: set<A>, f: A -> B): set<B> {
    set x | x in a :: f(x)
  }

  lemma {:induction false} InjectiveImage<A(!new), B>(a: set<A>, f: A -> B)
    requires forall x, y :: x in a && y in a && x != y ==> f(x) != f(y)
    ensures |Image(a, f)| == |a|
  {
    if a != {} {
      var x :| x in a;
      InjectiveImage(a - {x}, f);
      assert Image(a, f) == Image(a - {x}, f) + {f(x)};
    }
  }

  function Succ(j: nat): nat { j + 1 }
  function Up(p: (nat, nat)): (nat, nat) { (p.0 + 1, p.1 + 1) }
  function FirstRow(j: nat): (nat, nat) { (0, j + 1) }

  lemma BelowSplit(s: seq<Elem>, k: int)
    requires s != []
    ensures Below(s, k) == Image(Below(s[1..], k), Succ) + if s[0].key < k then {0} else {}
  {
    forall j | j in Below(s, k) && j > 0
      ensures j in Image(Below(s[1..], k), Succ)
    {
      assert j - 1 in Below(s[1..], k) && Succ(j - 1) == j;
    }
  }

  lemma {:induction false} CountBelowIs(s: seq<Elem>, k: int)
    ensures CountBelow(s, k) == |Below(s, k)|
  {
    if s == [] {
      assert Below(s, k) == {};
    } else {
      CountBelowIs(s[1..], k);
      InjectiveImage(Below(s[1..], k), Succ);
      BelowSplit(s, k);
      assert 0 !in Image(Below(s[1..], k), Succ);
    }
  }

  /** The inverted pairs are those with first index 0, and those of the rest moved up by one. */
  lemma InvertedPairsSplit(s: seq<Elem>)
    requires s != []
    ensures InvertedPairs(s) == Image(Below(s[1..], s[0].key), FirstRow) + Image(InvertedPairs(s[1..]), Up)
  {
    var t := s[1..];
    forall p | p in InvertedPairs(s)
      ensures p in Image(Below(t, s[0].key), FirstRow) + Image(InvertedPairs(t), Up)
    {
      if p.0 == 0 {
        assert p.1 - 1 in Below(t, s[0].key) && FirstRow(p.1 - 1) == p;
      } else {
        assert (p.0 - 1, p.1 - 1) in InvertedPairs(t) && Up((p.0 - 1, p.1 - 1)) == p;
      }
    }
  }

  lemma {:induction false} InversionsCountsPairs(s: seq<Elem>)
    ensures Inversions(s) == |InvertedPairs(s)|
  {
    if s == [] {
      assert InvertedPairs(s) == {};
    } else {
      var row := Below(s[1..], s[0].key);
      var rows := InvertedPairs(s[1..]);
      InversionsCountsPairs(s[1..]);
      CountBelowIs(s[1..], s[0].key);
      InjectiveImage(rows, Up);
      InjectiveImage(row, FirstRow);
      InvertedPairsSplit(s);
      assert Image(row, FirstRow) !! Image(rows, Up);
    }
  }
}
