/** The ring buffer inside `BQueue`: its value, the queue it stands for, and the
    statements that update it while the mutex is held. */
module RingBuffer {

  /** The fields of `BQueue` that are data; the capacity is the length of `data`. */
  datatype Ring = Ring(data: seq<int>, head: nat, tail: nat, count: nat, closed: bool) {

    ghost predicate Valid() {
      && head < |data|
      && count <= |data|
      && tail == (head + count) % |data|
    }

    /** The queued values, oldest first: `count` cells starting at `head`, wrapping around. */
    ghost function Contents(): (q: seq<int>)
      requires Valid()
    {
      seq(count, k requires 0 <= k < count => data[(head + k) % |data|])
    }

    function Put(val: int): Ring
      requires tail < |data|
    {
      Ring(data[tail := val], head, (tail + 1) % |data|, count + 1, closed)
    }

    function Take(): Ring
      requires head < |data| && count > 0
    {
      Ring(data, (head + 1) % |data|, tail, count - 1, closed)
    }
  }

  /** On the range the queue uses, `% n` subtracts `n` at most once. */
  lemma ModWraps(i: nat, n: nat)
    requires i < 2 * n
    ensures i % n == if i < n then i else i - n
  {
    if i >= n {
      assert i == n * 1 + (i - n);
    }
  }

  /** Two cells fewer than `n` apart are different cells. */
  lemma CellsDiffer(head: nat, i: nat, j: nat, n: nat)
    requires head < n && i < j < n
    ensures (head + i) % n != (head + j) % n
  {
    ModWraps(head + i, n);
    ModWraps(head + j, n);
  }

  lemma ModAddOne(i: nat, n: nat)
    requires i + 1 < 2 * n
    ensures (i % n + 1) % n == (i + 1) % n
  {
    ModWraps(i, n);
    ModWraps(i + 1, n);
    ModWraps(i % n + 1, n);
  }

  /** A put on a ring that is not full appends at the back of the queue. */
  lemma PutAppends(r: Ring, val: int)
    requires r.Valid() && r.count < |r.data|
    ensures r.tail < |r.data| && r.Put(val).Valid()
    ensures r.Put(val).Contents() == r.Contents() + [val]
  {
    var n := |r.data|;
    ModWraps(r.head + r.count, n);
    var p := r.Put(val);
    ModAddOne(r.head + r.count, n);
    forall k | 0 <= k < r.count
      ensures p.Contents()[k] == r.Contents()[k]
    {
      CellsDiffer(r.head, k, r.count, n);
    }
    assert p.Contents()[r.count] == val;
  }

  lemma Rotate(head: nat, k: nat, n: nat)
    requires head < n && k < n
    ensures ((head + 1) % n + k) % n == (head + (k + 1)) % n
  {
    ModWraps(head + 1, n);
    ModWraps(k, n);
    ModWraps(head + (k + 1), n);
  }

  /** A take on a ring that is not empty removes exactly the oldest value. */
  lemma TakeRemovesFirst(r: Ring)
    requires r.Valid() && r.count > 0
    ensures r.Take().Valid()
    ensures r.Contents() == [r.data[r.head]] + r.Take().Contents()
  {
    var n := |r.data|;
    var t := r.Take();
    ModAddOne(r.head, n);
    ModWraps(r.head, n);
    Rotate(r.head, r.count - 1, n);
    forall k | 0 <= k < t.count
      ensures t.Contents()[k] == r.Contents()[k + 1]
    {
      Rotate(r.head, k, n);
    }
    assert r.Contents()[0] == r.data[r.head];
  }

  /** `BQueue` itself, with the array it updates in place.  The mutex and the two condition
      variables are the subject of module BoundedQueue, whose steps use `Ring.Put` and `Ring.Take`. */
  class BQueue {
    const data: array<int>
    var head: nat
    var tail: nat
    var count: nat
    var closed: bool

    ghost function View(): Ring
      reads this, data
    {
      Ring(data[..], head, tail, count, closed)
    }

    constructor (capacity: nat)
      requires 0 < capacity
      ensures fresh(data) && data.Length == capacity
      ensures View().Valid() && View().Contents() == [] && !closed
    {
      data := new int[capacity];
      head, tail, count, closed := 0, 0, 0, false;
    }

    /** The critical section of `bq_push`, after its wait loop. */
    method Put(val: int) returns (sizeNow: nat)
      requires View().Valid() && count < data.Length
      modifies this`tail, this`count, data
      ensures View() == old(View()).Put(val) && View().Valid()
      ensures View().Contents() == old(View().Contents()) + [val]
      ensures sizeNow == |View().Contents()| && 1 <= sizeNow <= data.Length
    {
      PutAppends(View(), val);
      data[tail] := val;
      tail := (tail + 1) % data.Length;
      count := count + 1;
      sizeNow := count;
    }

    /** The critical section of `bq_pop`, after its wait loop: nothing when the queue is empty. */
    method Take() returns (ok: bool, out: int)
      requires View().Valid()
      modifies this`head, this`count
      ensures ok == (old(count) > 0)
      ensures !ok ==> View() == old(View())
      ensures ok ==> View() == old(View()).Take() && View().Valid()
      ensures ok ==> old(View().Contents()) == [out] + View().Contents()
    {
      if count == 0 {
        return false, 0;
      }
      TakeRemovesFirst(View());
      out := data[head];
      head := (head + 1) % data.Length;
      count := count - 1;
      ok := true;
    }

    /** The critical section of `bq_close`, before its broadcast. */
    method Close()
      modifies this`closed
      ensures View() == old(View()).(closed := true)
    {
      closed := true;
    }
  }
}
