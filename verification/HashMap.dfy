/** The chained hash map of exercise 18: buckets and chain links are updated in place, and the
    map it stands for, its load and its rehashing cost are tracked beside it. */
module HashChains {
  import opened Sequences

  class Entry {
    const key: string
    var value: int
    var next: Entry?

    constructor (key: string, value: int)
      ensures this.key == key && this.value == value && next == null
    {
      this.key, this.value, next := key, value, null;
    }
  }

  // ---------- chains ----------

  /** Following `next` from `head` visits exactly the entries of `chain`. */
  ghost predicate Linked(head: Entry?, chain: seq<Entry>)
    reads (set e | e in chain)`next
  {
    && head == (if chain == [] then null else chain[0])
    && forall t {:trigger chain[t].next} :: 0 <= t < |chain| ==> chain[t].next == if t + 1 < |chain| then chain[t + 1] else null
  }

  ghost function Entries(chains: seq<seq<Entry>>): set<Entry> {
    set b, t | 0 <= b < |chains| && 0 <= t < |chains[b]| :: chains[b][t]
  }

  ghost predicate AllLinked(heads: array<Entry?>, chains: seq<seq<Entry>>)
    reads heads, Entries(chains)`next
  {
    |chains| == heads.Length && forall b :: 0 <= b < |chains| ==> Linked(heads[b], chains[b])
  }

  /** Put `e` in front of the chain of bucket `idx`. */
  method LinkFront(heads: array<Entry?>, idx: nat, e: Entry, ghost chains: seq<seq<Entry>>)
    requires idx < heads.Length && AllLinked(heads, chains) && e !in Entries(chains)
    modifies heads, e`next
    ensures AllLinked(heads, chains[idx := [e] + chains[idx]])
  {
    ghost var chain := chains[idx];
    assert Linked(heads[idx], chain);
    e.next := heads[idx];
    assert forall t :: 0 <= t < |chain| ==> chain[t] != e;
    heads[idx] := e;
    assert Linked(e, [e] + chain);
    forall b | 0 <= b < |chains| && b != idx
      ensures Linked(heads[b], chains[b])
    {
      assert old(Linked(heads[b], chains[b]));
      assert forall t :: 0 <= t < |chains[b]| ==> chains[b][t] != e;
    }
  }

  ghost predicate LinkedFrom(heads: array<Entry?>, chains: seq<seq<Entry>>, from: nat)
    reads heads, Entries(chains)`next
  {
    |chains| == heads.Length && forall b :: from <= b < |chains| ==> Linked(heads[b], chains[b])
  }

  /** One round of the rehash loop: `cur` leaves its old chain, of which `rest` remains, and
      becomes the front of bucket `idx` of the new array. */
  method Relink(heads: array<Entry?>, idx: nat, cur: Entry, ghost chains: seq<seq<Entry>>,
                oldHeads: array<Entry?>, ghost oldChains: seq<seq<Entry>>, ghost from: nat, ghost rest: seq<Entry>)
    returns (next: Entry?)
    requires idx < heads.Length && heads != oldHeads
    requires AllLinked(heads, chains) && cur !in Entries(chains)
    requires Linked(cur, [cur] + rest) && cur !in rest
    requires LinkedFrom(oldHeads, oldChains, from)
    requires forall b :: from <= b < |oldChains| ==> cur !in oldChains[b]
    modifies heads, cur`next
    ensures AllLinked(heads, chains[idx := [cur] + chains[idx]])
    ensures Linked(next, rest) && LinkedFrom(oldHeads, oldChains, from)
  {
    next := cur.next;
    assert Linked(next, rest) by {
      assert ([cur] + rest)[0].next == next;
      forall t | 0 <= t < |rest|
        ensures rest[t].next == if t + 1 < |rest| then rest[t + 1] else null
      {
        assert ([cur] + rest)[t + 1].next == if t + 1 < |rest| then rest[t + 1] else null;
      }
    }
    LinkFront(heads, idx, cur, chains);
    forall b | from <= b < |oldChains|
      ensures Linked(oldHeads[b], oldChains[b])
    {
      assert old(Linked(oldHeads[b], oldChains[b]));
      assert forall t :: 0 <= t < |oldChains[b]| ==> oldChains[b][t] != cur;
    }
    assert forall t :: 0 <= t < |rest| ==> rest[t] != cur;
  }

  /** The chain without its entry `t`. */
  function Without(chain: seq<Entry>, t: nat): seq<Entry>
    requires t < |chain|
  {
    chain[..t] + chain[t + 1..]
  }

  /** Take entry `t` out of the chain of bucket `idx`; `prev` is the entry before it, if any. */
  method Unlink(heads: array<Entry?>, idx: nat, cur: Entry, prev: Entry?, ghost chains: seq<seq<Entry>>, ghost t: nat)
    requires idx < heads.Length && AllLinked(heads, chains)
    requires t < |chains[idx]| && chains[idx][t] == cur && prev == (if t == 0 then null else chains[idx][t - 1])
    requires Distinct(chains[idx])
    requires forall b :: 0 <= b < |chains| && b != idx ==> prev == null || prev !in chains[b]
    modifies heads, (if prev == null then {} else {prev})`next
    ensures AllLinked(heads, chains[idx := Without(chains[idx], t)])
  {
    ghost var chain := chains[idx];
    ghost var now := Without(chain, t);
    assert Linked(heads[idx], chain);
    if prev != null {
      prev.next := cur.next;
    } else {
      heads[idx] := cur.next;
    }
    forall u | 0 <= u < |now|
      ensures now[u].next == if u + 1 < |now| then now[u + 1] else null
    {
      var v := if u < t then u else u + 1;
      assert now[u] == chain[v];
      assert old(chain[v].next) == if v + 1 < |chain| then chain[v + 1] else null;
      assert old(chain[t].next) == if t + 1 < |chain| then chain[t + 1] else null;
    }
    forall b | 0 <= b < |chains| && b != idx
      ensures Linked(heads[b], chains[b])
    {
      assert old(Linked(heads[b], chains[b]));
    }
  }

  // ---------- placement ----------

  /** `bucket_index`, for the hash function `h`. */
  function Index(h: string -> nat, key: string, cap: nat): (b: nat)
    requires cap > 0
    ensures b < cap
  {
    h(key) % cap
  }

  ghost predicate HasHome(h: string -> nat, chains: seq<seq<Entry>>, at: map<string, Entry>, k: string) {
    |chains| > 0 && k in at && at[k] in chains[Index(h, k, |chains|)]
  }

  ghost predicate Belongs(h: string -> nat, e: Entry, b: nat, cap: nat, at: map<string, Entry>) {
    cap > 0 && e.key in at && at[e.key] == e && Index(h, e.key, cap) == b
  }

  /** Every key's entry is in the chain its key hashes to, once, and nothing else is in the
      chains.  Keys never change, so this does not depend on the heap. */
  ghost predicate Placed(h: string -> nat, chains: seq<seq<Entry>>, at: map<string, Entry>) {
    && |chains| > 0
    && (forall k :: k in at ==> at[k].key == k)
    && (forall k {:trigger HasHome(h, chains, at, k)} :: k in at ==> HasHome(h, chains, at, k))
    && (forall b :: 0 <= b < |chains| ==> Distinct(chains[b]))
    && (forall b, t :: 0 <= b < |chains| && 0 <= t < |chains[b]| ==> Belongs(h, chains[b][t], b, |chains|, at))
  }

  lemma PlacedPrepend(h: string -> nat, chains: seq<seq<Entry>>, at: map<string, Entry>, e: Entry, idx: nat)
    requires Placed(h, chains, at) && e.key !in at && idx == Index(h, e.key, |chains|)
    ensures Placed(h, chains[idx := [e] + chains[idx]], at[e.key := e])
    ensures e !in Entries(chains)
  {
    var chains' := chains[idx := [e] + chains[idx]];
    var at' := at[e.key := e];
    forall b, t | 0 <= b < |chains| && 0 <= t < |chains[b]|
      ensures chains[b][t] != e
    {
      assert Belongs(h, chains[b][t], b, |chains|, at);
    }
    forall b, t | 0 <= b < |chains'| && 0 <= t < |chains'[b]|
      ensures Belongs(h, chains'[b][t], b, |chains'|, at')
    {
      if b == idx && t > 0 {
        assert chains'[b][t] == chains[b][t - 1];
        assert Belongs(h, chains[b][t - 1], b, |chains|, at);
      } else if b != idx {
        assert Belongs(h, chains[b][t], b, |chains|, at);
      }
    }
    forall k | k in at'
      ensures HasHome(h, chains', at', k)
    {
      if k != e.key {
        assert HasHome(h, chains, at, k);
      } else {
        assert chains'[idx][0] == e;
      }
    }
  }

  lemma PlacedRemove(h: string -> nat, chains: seq<seq<Entry>>, at: map<string, Entry>, idx: nat, t: nat)
    requires Placed(h, chains, at) && idx < |chains| && t < |chains[idx]|
    ensures Placed(h, chains[idx := Without(chains[idx], t)], at - {chains[idx][t].key})
  {
    var e, was := chains[idx][t], chains[idx];
    var now := Without(was, t);
    var chains' := chains[idx := now];
    var at' := at - {e.key};
    assert Belongs(h, e, idx, |chains|, at);
    forall b, u | 0 <= b < |chains'| && 0 <= u < |chains'[b]|
      ensures Belongs(h, chains'[b][u], b, |chains'|, at')
    {
      var v := if b == idx && u >= t then u + 1 else u;
      assert chains'[b][u] == chains[b][v];
      assert Belongs(h, chains[b][v], b, |chains|, at);
    }
    forall k | k in at'
      ensures HasHome(h, chains', at', k)
    {
      var b := Index(h, k, |chains|);
      assert HasHome(h, chains, at, k);
      var u :| 0 <= u < |chains[b]| && chains[b][u] == at[k];
      if b == idx {
        assert now[if u < t then u else u - 1] == at[k];
      }
    }
  }

  /** The keys of the entries met so far by the rehash loops: all of the buckets before `i`, and
      the first `j` of bucket `i`. */
  ghost predicate Visited(chains: seq<seq<Entry>>, at: map<string, Entry>, moved: map<string, Entry>, i: nat, j: nat) {
    && (forall k :: k in moved ==> k in at && moved[k] == at[k])
    && (forall b, t :: 0 <= b < |chains| && 0 <= t < |chains[b]| ==>
          (chains[b][t].key in moved <==> b < i || (b == i && t < j)))
  }

  lemma VisitNext(h: string -> nat, chains: seq<seq<Entry>>, at: map<string, Entry>, moved: map<string, Entry>, i: nat, j: nat)
    requires Placed(h, chains, at) && Visited(chains, at, moved, i, j) && i < |chains| && j < |chains[i]|
    ensures var e := chains[i][j];
      && e.key !in moved && Visited(chains, at, moved[e.key := e], i, j + 1)
      && e !in chains[i][j + 1..]
      && forall b :: i < b < |chains| ==> e !in chains[b]
  {
    var e := chains[i][j];
    assert Belongs(h, e, i, |chains|, at);
    forall b, t | 0 <= b < |chains| && 0 <= t < |chains[b]| && chains[b][t].key == e.key
      ensures b == i && t == j
    {
      assert Belongs(h, chains[b][t], b, |chains|, at);
      assert Distinct(chains[i]);
    }
  }

  lemma VisitedAll(h: string -> nat, chains: seq<seq<Entry>>, at: map<string, Entry>, moved: map<string, Entry>)
    requires Placed(h, chains, at) && Visited(chains, at, moved, |chains|, 0)
    ensures moved == at
  {
    forall k | k in at
      ensures k in moved
    {
      assert HasHome(h, chains, at, k);
      var b := Index(h, k, |chains|);
      var t :| 0 <= t < |chains[b]| && chains[b][t] == at[k];
    }
  }

  lemma NextBucket(chains: seq<seq<Entry>>, at: map<string, Entry>, moved: map<string, Entry>, i: nat)
    requires i < |chains| && Visited(chains, at, moved, i, |chains[i]|)
    ensures Visited(chains, at, moved, i + 1, 0)
  {
  }

  /** What moving the next entry means for the bookkeeping. */
  lemma MoveNext(h: string -> nat, oldChains: seq<seq<Entry>>, at: map<string, Entry>, i: nat, j: nat,
                 chains: seq<seq<Entry>>, moved: map<string, Entry>)
    requires Placed(h, oldChains, at) && Visited(oldChains, at, moved, i, j) && i < |oldChains| && j < |oldChains[i]|
    requires Placed(h, chains, moved)
    ensures var e := oldChains[i][j];
      var idx := Index(h, e.key, |chains|);
      && e in at.Values && e !in Entries(chains)
      && Placed(h, chains[idx := [e] + chains[idx]], moved[e.key := e])
      && |moved[e.key := e]| == |moved| + 1
      && Visited(oldChains, at, moved[e.key := e], i, j + 1)
      && e !in oldChains[i][j + 1..] && (forall b :: i < b < |oldChains| ==> e !in oldChains[b])
      && oldChains[i][j..] == [e] + oldChains[i][j + 1..]
  {
    var e := oldChains[i][j];
    VisitNext(h, oldChains, at, moved, i, j);
    PlacedPrepend(h, chains, moved, e, Index(h, e.key, |chains|));
    assert Belongs(h, e, i, |oldChains|, at);
  }

  /** The inner loop of `rehash`: the entries of bucket `i` move to the new array. */
  method RelinkBucket(h: string -> nat, oldHeads: array<Entry?>, ghost oldChains: seq<seq<Entry>>, ghost at: map<string, Entry>,
                      i: nat, heads: array<Entry?>, ghost chains: seq<seq<Entry>>, ghost moved: map<string, Entry>, n: nat)
    returns (ghost chains': seq<seq<Entry>>, ghost moved': map<string, Entry>, n': nat)
    requires heads != oldHeads && i < oldHeads.Length && n == |moved|
    requires Placed(h, oldChains, at) && LinkedFrom(oldHeads, oldChains, i) && Visited(oldChains, at, moved, i, 0)
    requires AllLinked(heads, chains) && Placed(h, chains, moved)
    modifies heads, at.Values`next
    ensures LinkedFrom(oldHeads, oldChains, i + 1) && Visited(oldChains, at, moved', i + 1, 0)
    ensures AllLinked(heads, chains') && Placed(h, chains', moved') && n' == |moved'|
  {
    chains', moved', n' := chains, moved, n;
    var cur := oldHeads[i];
    ghost var chain := oldChains[i];
    ghost var j := 0;
    assert chain[0..] == chain;
    while cur != null
      invariant 0 <= j <= |chain| && Linked(cur, chain[j..])
      invariant LinkedFrom(oldHeads, oldChains, i + 1)
      invariant AllLinked(heads, chains') && Placed(h, chains', moved')
      invariant Visited(oldChains, at, moved', i, j)
      invariant n' == |moved'|
      decreases |chain| - j
    {
      ghost var e := chain[j];
      MoveNext(h, oldChains, at, i, j, chains', moved');
      var idx := Index(h, cur.key, heads.Length);
      cur := Relink(heads, idx, cur, chains', oldHeads, oldChains, i + 1, chain[j + 1..]);
      chains' := chains'[idx := [e] + chains'[idx]];
      moved' := moved'[e.key := e];
      n' := n' + 1;
      j := j + 1;
    }
    NextBucket(oldChains, at, moved', i);
  }

  ghost function NoChains(n: nat): (chains: seq<seq<Entry>>)
    ensures |chains| == n && forall b :: 0 <= b < n ==> chains[b] == []
  {
    seq(n, _ => [])
  }

  ghost predicate Stored(h: string -> nat, heads: array<Entry?>, chains: seq<seq<Entry>>, at: map<string, Entry>)
    reads heads, Entries(chains)`next
  {
    Placed(h, chains, at) && AllLinked(heads, chains)
  }

  /** A new bucket array stores nothing. */
  lemma StoredNothing(h: string -> nat, heads: array<Entry?>)
    requires heads.Length > 0 && forall b :: 0 <= b < heads.Length ==> heads[b] == null
    ensures Stored(h, heads, NoChains(heads.Length), map[])
  {
  }

  /** The loops of `rehash`: all entries move from the old array to the empty new one, and `n`
      counts them. */
  method RelinkBuckets(h: string -> nat, oldHeads: array<Entry?>, ghost oldChains: seq<seq<Entry>>, ghost at: map<string, Entry>,
                       heads: array<Entry?>)
    returns (ghost chains: seq<seq<Entry>>, n: nat)
    requires Stored(h, oldHeads, oldChains, at) && heads != oldHeads
    requires heads.Length > 0 && forall b :: 0 <= b < heads.Length ==> heads[b] == null
    modifies heads, at.Values`next
    ensures Stored(h, heads, chains, at) && n == |at|
  {
    ghost var moved: map<string, Entry> := map[];
    chains, n := NoChains(heads.Length), 0;
    StoredNothing(h, heads);
    for i := 0 to oldHeads.Length
      invariant LinkedFrom(oldHeads, oldChains, i)
      invariant Stored(h, heads, chains, moved)
      invariant Visited(oldChains, at, moved, i, 0) && n == |moved|
    {
      chains, moved, n := RelinkBucket(h, oldHeads, oldChains, at, i, heads, chains, moved, n);
    }
    VisitedAll(h, oldChains, at, moved);
  }
}

module HashMaps {
  import opened HashChains
  import opened Powers

  const INITIAL_CAPACITY: nat := 8
  const LOAD_MAX: real := 0.75

  // ---------- the model ----------

  /** `model` is the finite map that the entries stand for, and `count` its size. */
  ghost predicate Modelled(model: map<string, int>, at: map<string, Entry>, count: int)
    reads at.Values`value
  {
    && count == |at|
    && (forall k :: k in at <==> k in model)
    && (forall k :: k in at ==> model[k] == at[k].value)
  }

  lemma ModelInsert(model: map<string, int>, at: map<string, Entry>, count: int, key: string, e: Entry)
    requires Modelled(model, at, count) && key !in at
    ensures Modelled(model[key := e.value], at[key := e], count + 1)
  {
  }

  lemma ModelRemove(model: map<string, int>, at: map<string, Entry>, count: int, key: string)
    requires Modelled(model, at, count) && key in at
    ensures count > 0 && Modelled(model - {key}, at - {key}, count - 1)
  {
    var at' := at - {key};
    assert at == at'[key := at[key]];
  }

  // ---------- load and cost ----------

  lemma LoadTest(count: nat, capacity: nat)
    requires capacity > 0
    ensures (count + 1) as real / capacity as real > LOAD_MAX <==> 4 * (count + 1) > 3 * capacity
  {
    var q := (count + 1) as real / capacity as real;
    assert q * capacity as real == (count + 1) as real;
    if q > LOAD_MAX {
      assert q * capacity as real > LOAD_MAX * capacity as real;
    } else {
      assert q * capacity as real <= LOAD_MAX * capacity as real;
    }
  }

  /** The capacity is 8 * 2^doublings and the load at most 3/4.  The rehashes so far moved
      6, 12, 24, ... entries: each found the map exactly 3/4 full, and the puts of new keys
      before it pay for all of them. */
  ghost predicate Costed(capacity: nat, count: int, doublings: nat, inserts: nat, relinked: nat) {
    && capacity == 8 * Pow2(doublings)
    && 0 <= count <= inserts && 4 * count <= 3 * capacity
    && relinked + 6 == 6 * Pow2(doublings)
    && (doublings > 0 ==> 3 * capacity <= 8 * inserts)
  }

  lemma ThreeQuarters(p: nat, capacity: nat, count: nat)
    requires capacity == 8 * p && 4 * count <= 3 * capacity < 4 * (count + 1)
    ensures count == 6 * p && 4 * count == 3 * capacity
  {
  }

  lemma RehashCost(capacity: nat, count: nat, doublings: nat, inserts: nat, relinked: nat)
    requires Costed(capacity, count, doublings, inserts, relinked) && 4 * (count + 1) > 3 * capacity
    ensures 4 * count == 3 * capacity
    ensures Costed(2 * capacity, count, doublings + 1, inserts, relinked + count)
    ensures 4 * (count + 1) <= 3 * (2 * capacity)
  {
    ThreeQuarters(Pow2(doublings), capacity, count);
    Pow2Monotone(0, doublings);
    assert Pow2(doublings + 1) == 2 * Pow2(doublings);
  }

  /** The entries relinked by all rehashes total less than twice the number of new keys put. */
  lemma AmortizedCost(capacity: nat, count: nat, doublings: nat, inserts: nat, relinked: nat)
    requires Costed(capacity, count, doublings, inserts, relinked)
    ensures if inserts == 0 then relinked == 0 else relinked < 2 * inserts
  {
    if doublings == 0 {
      assert Pow2(0) == 1;
    }
  }

  class HashMap {
    const hash: string -> nat           // hash_djb2; the proofs hold for every function
    var buckets: array<Entry?>
    var capacity: nat
    var count: int

    ghost var chains: seq<seq<Entry>>   // the entries of each bucket, front first
    ghost var at: map<string, Entry>    // the entry of each key
    ghost var model: map<string, int>   // the finite map this hash map stands for
    ghost var doublings: nat            // rehashes so far
    ghost var inserts: nat              // puts of a new key so far
    ghost var relinked: nat             // entries moved by all rehashes so far

    ghost predicate Valid()
      reads this`buckets, this`capacity, this`count, this`chains, this`at, this`model, this`doublings,
            this`inserts, this`relinked, buckets, at.Values, Entries(chains)
    {
      && capacity == |chains| && Stored(hash, buckets, chains, at)
      && Modelled(model, at, count)
      && Costed(capacity, count, doublings, inserts, relinked)
    }

    constructor (hash: string -> nat)
      ensures Valid() && fresh(buckets) && capacity == 8 && model == map[] && at == map[] && inserts == 0
      ensures this.hash == hash
    {
      this.hash := hash;
      capacity, count := INITIAL_CAPACITY, 0;
      buckets := new Entry?[INITIAL_CAPACITY](_ => null);
      chains := NoChains(INITIAL_CAPACITY);
      at, model := map[], map[];
      doublings, inserts, relinked := 0, 0, 0;
      new;
      StoredNothing(hash, buckets);
    }

    /** Every entry of a chain hashes to its bucket, is the only entry of its key, and holds the
        value of the plain map; and every key of the plain map has one. */
    lemma EntriesAtHome()
      requires Valid()
      ensures forall b, t :: 0 <= b < capacity && 0 <= t < |chains[b]| ==>
        var e := chains[b][t];
        hash(e.key) % capacity == b && e.key in model && model[e.key] == e.value && at[e.key] == e
      ensures forall k :: k in model ==> at[k].key == k && at[k] in chains[hash(k) % capacity]
      ensures count == |model|
    {
      forall b, t | 0 <= b < capacity && 0 <= t < |chains[b]|
        ensures Belongs(hash, chains[b][t], b, capacity, at)
      {
      }
      forall k | k in model
        ensures HasHome(hash, chains, at, k)
      {
      }
      assert at.Keys == model.Keys;
      assert |at| == |at.Keys| && |model| == |model.Keys|;
    }

    /** The search loop of put, get and delete. */
    method Find(key: string) returns (cur: Entry?, prev: Entry?, ghost t: nat)
      requires Stored(hash, buckets, chains, at) && capacity == |chains|
      ensures cur == null <==> key !in at
      ensures var chain := chains[Index(hash, key, capacity)];
        cur != null ==> at[key] == cur && t < |chain| && chain[t] == cur
                        && prev == if t == 0 then null else chain[t - 1]
    {
      var idx := Index(hash, key, capacity);
      ghost var chain := chains[idx];
      cur, prev, t := buckets[idx], null, 0;
      while cur != null
        invariant Linked(buckets[idx], chain)
        invariant 0 <= t <= |chain| && cur == if t < |chain| then chain[t] else null
        invariant prev == if t == 0 then null else chain[t - 1]
        invariant forall u :: 0 <= u < t ==> chain[u].key != key
        decreases |chain| - t
      {
        assert Belongs(hash, chain[t], idx, |chains|, at);
        if cur.key == key {
          return;
        }
        prev := cur;
        cur := cur.next;
        t := t + 1;
      }
      assert key in at ==> HasHome(hash, chains, at, key);
    }

    /** `hmap_get`, and with the value ignored `hmap_contains` */
    method Get(key: string) returns (found: bool, out: int)
      requires Valid()
      ensures found == (key in model)
      ensures found ==> out == model[key]
    {
      ghost var t;
      var cur, prev;
      cur, prev, t := Find(key);
      if cur == null {
        return false, 0;
      }
      return true, cur.value;
    }

    /** A new entry in front of its chain. */
    method Attach(key: string, value: int) returns (e: Entry)
      requires Stored(hash, buckets, chains, at) && capacity == |chains| && key !in at
      modifies this`chains, this`at, buckets
      ensures Stored(hash, buckets, chains, at) && capacity == |chains|
      ensures fresh(e) && e.key == key && e.value == value && at == old(at)[key := e]
    {
      var idx := Index(hash, key, capacity);
      e := new Entry(key, value);
      PlacedPrepend(hash, chains, at, e, idx);
      LinkFront(buckets, idx, e, chains);
      chains := chains[idx := [e] + chains[idx]];
      at := at[key := e];
    }

    /** The entry `cur` out of its chain. */
    method Detach(cur: Entry, prev: Entry?, ghost t: nat)
      requires Stored(hash, buckets, chains, at) && capacity == |chains|
      requires var chain := chains[Index(hash, cur.key, capacity)];
        t < |chain| && chain[t] == cur && prev == if t == 0 then null else chain[t - 1]
      modifies this`chains, this`at, buckets, at.Values`next
      ensures Stored(hash, buckets, chains, at) && capacity == |chains|
      ensures at == old(at) - {cur.key}
    {
      var idx := Index(hash, cur.key, capacity);
      PlacedRemove(hash, chains, at, idx, t);
      forall b | 0 <= b < |chains| && b != idx && prev != null
        ensures prev !in chains[b]
      {
        forall u | 0 <= u < |chains[b]|
          ensures chains[b][u] != prev
        {
          assert Belongs(hash, chains[b][u], b, |chains|, at);
          assert Belongs(hash, chains[idx][t - 1], idx, |chains|, at);
        }
      }
      if prev != null {
        assert Belongs(hash, chains[idx][t - 1], idx, |chains|, at);
      }
      Unlink(buckets, idx, cur, prev, chains, t);
      chains := chains[idx := Without(chains[idx], t)];
      at := at - {cur.key};
    }

    /** All entries into a new array of twice the size, by relinking them. */
    method RelinkAll()
      requires Stored(hash, buckets, chains, at) && capacity == |chains|
      modifies this`buckets, this`capacity, this`count, this`chains, this`doublings, this`relinked, at.Values`next
      ensures Stored(hash, buckets, chains, at) && capacity == |chains|
      ensures fresh(buckets) && capacity == 2 * old(capacity) && count == |at|
      ensures doublings == old(doublings) + 1 && relinked == old(relinked) + count
    {
      var oldBkts := buckets;
      capacity := 2 * capacity;
      buckets := new Entry?[capacity](_ => null);
      chains, count := RelinkBuckets(hash, oldBkts, chains, at, buckets);
      doublings := doublings + 1;
      relinked := relinked + count;
    }

    /** `rehash`: it moves all 3/4 * capacity entries and changes no key or value. */
    method Rehash()
      requires Valid() && 4 * (count + 1) > 3 * capacity
      modifies this`buckets, this`capacity, this`count, this`chains, this`doublings, this`relinked, at.Values`next
      ensures Valid() && fresh(buckets) && count == old(count) && capacity == 2 * old(capacity)
      ensures 4 * old(count) == 3 * old(capacity) && relinked == old(relinked) + old(count)
      ensures 4 * (count + 1) <= 3 * capacity
    {
      RehashCost(capacity, count, doublings, inserts, relinked);
      RelinkAll();
    }

    /** The bookkeeping of an insertion. */
    method Learn(ghost was: map<string, Entry>, e: Entry)
      requires Modelled(model, was, count) && Costed(capacity, count, doublings, inserts, relinked)
      requires e.key !in was && 4 * (count + 1) <= 3 * capacity
      modifies this`count, this`model, this`inserts
      ensures Modelled(model, was[e.key := e], count) && Costed(capacity, count, doublings, inserts, relinked)
      ensures model == old(model)[e.key := e.value] && inserts == old(inserts) + 1
    {
      ModelInsert(model, was, count, e.key, e);
      count := count + 1;
      inserts := inserts + 1;
      model := model[e.key := e.value];
    }

    /** The end of `hmap_put`. */
    method Prepend(key: string, value: int)
      requires Valid() && key !in at && 4 * (count + 1) <= 3 * capacity
      modifies this`count, this`chains, this`at, this`model, this`inserts, buckets
      ensures Valid() && fresh(at.Values - old(at.Values))
      ensures model == old(model)[key := value]
      ensures inserts == old(inserts) + 1
    {
      ghost var was := at;
      var e := Attach(key, value);
      Learn(was, e);
    }

    /** The update branch of `hmap_put`. */
    method Update(cur: Entry, value: int)
      requires Valid() && cur.key in at && at[cur.key] == cur
      modifies this`model, cur`value
      ensures Valid() && model == old(model)[cur.key := value]
    {
      cur.value := value;
      model := model[cur.key := value];
    }

    /** The insert branch of `hmap_put`, with its rehash. */
    method Insert(key: string, value: int)
      requires Valid() && key !in at
      modifies this`buckets, this`capacity, this`count, this`chains, this`at, this`model, this`doublings,
               this`inserts, this`relinked, buckets, at.Values`next
      ensures Valid() && fresh(at.Values - old(at.Values)) && (buckets == old(buckets) || fresh(buckets))
      ensures model == old(model)[key := value] && inserts == old(inserts) + 1
    {
      LoadTest(count, capacity);
      if (count + 1) as real / capacity as real > LOAD_MAX {
        Rehash();
      }
      Prepend(key, value);
    }

    /** `hmap_put` */
    method Put(key: string, value: int)
      requires Valid()
      modifies this`buckets, this`capacity, this`count, this`chains, this`at, this`model, this`doublings,
               this`inserts, this`relinked, buckets, at.Values
      ensures Valid() && fresh(at.Values - old(at.Values)) && (buckets == old(buckets) || fresh(buckets))
      ensures model == old(model)[key := value]
      ensures inserts == old(inserts) + if key in old(model) then 0 else 1
    {
      ghost var t;
      var cur, prev;
      cur, prev, t := Find(key);
      if cur != null {
        Update(cur, value);
      } else {
        Insert(key, value);
      }
    }

    /** The bookkeeping of a deletion. */
    method Forget(key: string)
      requires Modelled(model, at, count) && Costed(capacity, count, doublings, inserts, relinked) && key in at
      modifies this`count, this`model
      ensures Modelled(model, at - {key}, count) && Costed(capacity, count, doublings, inserts, relinked)
      ensures model == old(model) - {key}
    {
      ModelRemove(model, at, count, key);
      count := count - 1;
      model := model - {key};
    }

    /** The unlinking branch of `hmap_delete`. */
    method Remove(cur: Entry, prev: Entry?, ghost t: nat)
      requires Valid() && cur.key in at
      requires var chain := chains[Index(hash, cur.key, capacity)];
        t < |chain| && chain[t] == cur && prev == if t == 0 then null else chain[t - 1]
      modifies this`count, this`chains, this`at, this`model, buckets, at.Values`next
      ensures Valid() && at == old(at) - {cur.key}
      ensures model == old(model) - {cur.key}
    {
      Forget(cur.key);
      Detach(cur, prev, t);
    }

    /** `hmap_delete` */
    method Delete(key: string) returns (deleted: bool)
      requires Valid()
      modifies this`count, this`chains, this`at, this`model, buckets, at.Values`next
      ensures Valid() && at == old(at) - {key}
      ensures deleted == (key in old(model)) && model == old(model) - {key}
    {
      ghost var t;
      var cur, prev;
      cur, prev, t := Find(key);
      deleted := cur != null;
      if cur == null {
        assert model - {key} == model && at - {key} == at;
      } else {
        Remove(cur, prev, t);
      }
    }
  }

  /** How often each word occurs. */
  ghost predicate Counts(model: map<string, int>, words: seq<string>) {
    && (forall w :: w in model <==> w in words)
    && (forall w :: w in model ==> model[w] == multiset(words)[w])
  }

  /** The counts of the first `i` words. */
  ghost predicate CountsFirst(model: map<string, int>, words: seq<string>, i: nat) {
    i <= |words| && Counts(model, words[..i])
  }

  function Bumped(model: map<string, int>, w: string): map<string, int> {
    model[w := if w in model then model[w] + 1 else 1]
  }

  lemma CountOneMore(model: map<string, int>, words: seq<string>, i: nat)
    requires i < |words| && CountsFirst(model, words, i)
    ensures CountsFirst(Bumped(model, words[i]), words, i + 1)
  {
    var seen := words[..i];
    assert words[..i + 1] == seen + [words[i]];
    assert words[i] !in seen ==> multiset(seen)[words[i]] == 0;
  }

  lemma CountedAll(model: map<string, int>, words: seq<string>)
    requires CountsFirst(model, words, |words|)
    ensures Counts(model, words)
  {
    assert words[..|words|] == words;
  }

  /** The map, its bucket array and its entries are among `objects`. */
  ghost predicate Within(freq: HashMap, objects: set<object>)
    reads freq`buckets, freq`at
  {
    freq in objects && freq.buckets in objects && forall k :: k in freq.at ==> freq.at[k] in objects
  }

  /** The count to put back: one more than the one found, or 1. */
  method NextCount(freq: HashMap, w: string) returns (count: int)
    requires freq.Valid()
    ensures freq.model[w := count] == Bumped(freq.model, w)
  {
    var found;
    found, count := freq.Get(w);
    count := if found then count + 1 else 1;
  }

  /** Look up, add one, put back. */
  method CountWord(freq: HashMap, w: string, ghost objects: set<object>) returns (ghost objects': set<object>)
    requires freq.Valid() && Within(freq, objects)
    modifies objects
    ensures freq.Valid() && Within(freq, objects') && fresh(objects' - objects)
    ensures freq.model == Bumped(old(freq.model), w)
  {
    var count := NextCount(freq, w);
    ghost var entries := freq.at.Values;
    freq.Put(w, count);
    objects' := objects + {freq.buckets} + (freq.at.Values - entries);
  }

  /** The word-frequency loop of the demo: it computes the multiset of the words. */
  method CountWords(h: string -> nat, words: seq<string>) returns (freq: HashMap)
    ensures freq.Valid() && Counts(freq.model, words)
  {
    freq := new HashMap(h);
    ghost var objects: set<object> := {freq, freq.buckets};
    for i := 0 to |words|
      invariant freq.Valid() && Within(freq, objects) && fresh(objects)
      invariant CountsFirst(freq.model, words, i)
    {
      CountOneMore(freq.model, words, i);
      objects := CountWord(freq, words[i], objects);
    }
    CountedAll(freq.model, words);
  }
}
