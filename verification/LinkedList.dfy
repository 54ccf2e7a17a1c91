/** The singly linked list of exercise 10, changed in place by rewriting `next` links. */
module ListNodes {

  class Node {
    const value: int
    var next: Node?

    /** `node_create` */
    constructor (value: int)
      ensures this.value == value && next == null
    {
      this.value, next := value, null;
    }
  }

  /** Following `next` from `head` visits exactly `nodes`. */
  ghost predicate Linked(head: Node?, nodes: seq<Node>)
    reads (set n | n in nodes)`next
  {
    && head == (if nodes == [] then null else nodes[0])
    && forall i {:trigger nodes[i].next} :: 0 <= i < |nodes| ==> nodes[i].next == if i + 1 < |nodes| then nodes[i + 1] else null
  }
}

module SequenceSurgery {

  /** Where `list_insert_at` inserts: the index clamped to 0..length. */
  function Clamp(index: int, length: nat): nat {
    if index <= 0 then 0 else if index <= length then index else length
  }

  function InsertedAt<T>(s: seq<T>, index: int, x: T): seq<T> {
    var k := Clamp(index, |s|);
    s[..k] + [x] + s[k..]
  }

  function DeletedAt<T>(s: seq<T>, index: int): seq<T> {
    if 0 <= index < |s| then s[..index] + s[index + 1..] else s
  }

  /** Cell by cell: what is before the clamped index stays, `x` is there, the rest moves up. */
  lemma InsertedCells<T>(s: seq<T>, index: int, x: T)
    ensures var t, k := InsertedAt(s, index, x), if index <= 0 then 0 else if index <= |s| then index else |s|;
      && |t| == |s| + 1 && t[k] == x
      && (forall i :: 0 <= i < k ==> t[i] == s[i])
      && (forall i {:trigger s[i]} :: k <= i < |s| ==> t[i + 1] == s[i])
  {
  }

  /** Cell by cell: what is before the index stays, the rest moves down; out of range nothing does. */
  lemma DeletedCells<T>(s: seq<T>, index: int)
    ensures var t := DeletedAt(s, index);
      if 0 <= index < |s| then
        && |t| == |s| - 1
        && (forall i :: 0 <= i < index ==> t[i] == s[i])
        && (forall i {:trigger t[i]} :: index <= i < |t| ==> t[i] == s[i + 1])
      else t == s
  {
  }

  /** Deleting at the index of an insertion undoes it exactly if that index was not clamped. */
  lemma DeleteUndoesInsert<T>(s: seq<T>, index: int, x: T)
    ensures DeletedAt(InsertedAt(s, index, x), index) == s <==> 0 <= index <= |s|
  {
    var t := InsertedAt(s, index, x);
    if 0 <= index <= |s| {
      assert DeletedAt(t, index) == s;
    } else {
      assert |DeletedAt(t, index)| == |s| + 1;
    }
  }
}

module LinkedLists {
  import opened ListNodes
  import opened SequenceSurgery
  import opened Sequences

  /** One round of the reversal: `cur` moves from the front of one chain to that of the other. */
  method Turn(cur: Node, prev: Node?, ghost rest: seq<Node>, ghost done: seq<Node>) returns (next: Node?, front: Node)
    requires Linked(cur, [cur] + rest) && Linked(prev, done) && cur !in rest && cur !in done
    modifies cur
    ensures front == cur && Linked(next, rest) && Linked(front, [cur] + done)
  {
    assert ([cur] + rest)[0].next == cur.next;
    assert forall i :: 0 <= i < |rest| ==> rest[i] == ([cur] + rest)[i + 1];
    next := cur.next;
    cur.next := prev;
    front := cur;
  }

  /** The first `i` nodes are reversed in `done`, and the others are still in `rest`. */
  ghost predicate Parted(nodes: seq<Node>, i: nat, done: seq<Node>, rest: seq<Node>) {
    i <= |nodes| && done == Reversed(nodes[..i]) && rest == nodes[i..]
  }

  lemma PartedStart(nodes: seq<Node>)
    ensures Parted(nodes, 0, [], nodes)
  {
  }

  lemma PartedNext(nodes: seq<Node>, i: nat, done: seq<Node>, rest: seq<Node>)
    requires Parted(nodes, i, done, rest) && rest != [] && Distinct(nodes)
    ensures var cur := rest[0];
      && Parted(nodes, i + 1, [cur] + done, rest[1..])
      && rest == [cur] + rest[1..] && cur in nodes && cur !in rest[1..] && cur !in done
  {
    ReversedPrefix(nodes, i);
  }

  lemma PartedEnd(nodes: seq<Node>, i: nat, done: seq<Node>)
    requires Parted(nodes, i, done, [])
    ensures done == Reversed(nodes)
  {
    assert nodes[..i] == nodes;
  }

  /** The loop of `list_reverse`. */
  method ReverseChain(head: Node?, ghost nodes: seq<Node>) returns (prev: Node?)
    requires Linked(head, nodes) && Distinct(nodes)
    modifies nodes
    ensures Linked(prev, Reversed(nodes))
  {
    prev := null;
    var cur := head;
    ghost var i: nat, done: seq<Node>, rest := 0, [], nodes;
    PartedStart(nodes);
    while cur != null
      invariant Parted(nodes, i, done, rest)
      invariant Linked(prev, done) && Linked(cur, rest)
      decreases |rest|
    {
      PartedNext(nodes, i, done, rest);
      ghost var others := rest[1..];
      cur, prev := Turn(cur, prev, others, done);
      i, done, rest := i + 1, [prev] + done, others;
    }
    PartedEnd(nodes, i, done);
  }

  class List {
    var head: Node?
    var size: int

    ghost var nodes: seq<Node>  // the list, front first

    /** The chain is acyclic, and `size` is its length. */
    ghost predicate Valid()
      reads this, nodes
    {
      size == |nodes| && Distinct(nodes) && Linked(head, nodes)
    }

    /** `list_create` */
    constructor ()
      ensures Valid() && nodes == []
    {
      head, size := null, 0;
      nodes := [];
    }

    /** `list_push_front` */
    method PushFront(value: int)
      requires Valid()
      modifies this
      ensures Valid() && |nodes| > 0 && fresh(nodes[0]) && nodes[0].value == value
      ensures nodes == [nodes[0]] + old(nodes)
    {
      var n := new Node(value);
      n.next := head;
      head := n;
      size := size + 1;
      nodes := [n] + nodes;
    }

    /** `list_push_back` */
    method PushBack(value: int)
      requires Valid()
      modifies this, nodes
      ensures Valid() && |nodes| > 0 && fresh(nodes[|nodes| - 1]) && nodes[|nodes| - 1].value == value
      ensures nodes == old(nodes) + [nodes[|nodes| - 1]]
    {
      var n := new Node(value);
      if head == null {
        head := n;
      } else {
        var cur := head;
        ghost var i := 0;
        while cur.next != null
          invariant 0 <= i < |nodes| && cur == nodes[i]
          decreases |nodes| - i
        {
          cur := cur.next;
          i := i + 1;
        }
        cur.next := n;
      }
      size := size + 1;
      nodes := nodes + [n];
    }

    /** A new node after node `i`, which is `cur`. */
    method InsertAfter(cur: Node, value: int, ghost i: nat) returns (n: Node)
      requires Valid() && i < |nodes| && cur == nodes[i]
      modifies this, cur
      ensures Valid() && fresh(n) && n.value == value
      ensures nodes == old(nodes[..i + 1] + [n] + nodes[i + 1..])
    {
      n := new Node(value);
      n.next := cur.next;
      cur.next := n;
      size := size + 1;
      ghost var was := nodes;
      nodes := nodes[..i + 1] + [n] + nodes[i + 1..];
      forall u | 0 <= u < |nodes|
        ensures nodes[u].next == if u + 1 < |nodes| then nodes[u + 1] else null
      {
        assert u <= i ==> nodes[u] == was[u];
        assert u > i + 1 ==> nodes[u] == was[u - 1];
      }
    }

    /** `list_insert_at` */
    method InsertAt(index: int, value: int) returns (ghost n: Node)
      requires Valid()
      modifies this, nodes
      ensures Valid() && fresh(n) && n.value == value
      ensures nodes == InsertedAt(old(nodes), index, n)
    {
      if index <= 0 || head == null {
        PushFront(value);
        return nodes[0];
      }
      var cur := head;
      var i := 0;
      while i < index - 1 && cur.next != null
        invariant 0 <= i <= index - 1 && i < |nodes| && cur == nodes[i]
        decreases |nodes| - i
      {
        cur := cur.next;
        i := i + 1;
      }
      assert i + 1 == Clamp(index, |nodes|);
      n := InsertAfter(cur, value, i);
    }

    /** `list_pop_front`; on an empty list the program stops (`ok` is false). */
    method PopFront() returns (ok: bool, val: int)
      requires Valid()
      modifies this
      ensures Valid() && ok == (old(nodes) != [])
      ensures nodes == DeletedAt(old(nodes), 0) && (ok ==> val == old(nodes[0]).value)
    {
      if head == null {
        return false, 0;
      }
      ok, val := true, head.value;
      head := head.next;
      size := size - 1;
      nodes := nodes[1..];
    }

    /** The node after node `i`, which is `prev`, leaves the list. */
    method RemoveAfter(prev: Node, ghost i: nat)
      requires Valid() && i + 1 < |nodes| && prev == nodes[i]
      modifies this, prev
      ensures Valid() && nodes == DeletedAt(old(nodes), i + 1)
    {
      var target := prev.next;
      prev.next := target.next;
      size := size - 1;
      nodes := nodes[..i + 1] + nodes[i + 2..];
    }

    /** `list_delete_value`: the first node with this value leaves the list, if there is one. */
    method DeleteValue(value: int) returns (ghost k: nat)
      requires Valid()
      modifies this, nodes
      ensures Valid() && k <= |old(nodes)| && nodes == DeletedAt(old(nodes), k)
      ensures forall i :: 0 <= i < k ==> old(nodes)[i].value != value
      ensures k < |old(nodes)| ==> old(nodes)[k].value == value
    {
      k := 0;
      if head == null {
        return;
      }
      if head.value == value {
        var _, _ := PopFront();
        return;
      }
      var prev := head;
      while prev.next != null && prev.next.value != value
        invariant k < |nodes| && prev == nodes[k]
        invariant forall i :: 0 <= i <= k ==> nodes[i].value != value
        decreases |nodes| - k
      {
        prev := prev.next;
        k := k + 1;
      }
      k := k + 1;
      if prev.next == null {
        return;
      }
      RemoveAfter(prev, k - 1);
    }

    /** `list_delete_at`: the node at the index leaves the list, if there is one. */
    method DeleteAt(index: int)
      requires Valid()
      modifies this, nodes
      ensures Valid() && nodes == DeletedAt(old(nodes), index)
    {
      if head == null || index < 0 {
        return;
      }
      if index == 0 {
        var _, _ := PopFront();
        return;
      }
      var prev := head;
      var i := 0;
      while i < index - 1 && prev.next != null
        invariant 0 <= i <= index - 1 && i < |nodes| && prev == nodes[i]
        decreases |nodes| - i
      {
        prev := prev.next;
        i := i + 1;
      }
      if prev.next == null {
        return;
      }
      RemoveAfter(prev, i);
    }

    /** `list_contains` */
    method Contains(value: int) returns (found: bool)
      requires Valid()
      ensures found <==> exists i :: 0 <= i < |nodes| && nodes[i].value == value
    {
      var cur := head;
      ghost var i := 0;
      while cur != null
        invariant 0 <= i <= |nodes| && cur == if i < |nodes| then nodes[i] else null
        invariant forall j :: 0 <= j < i ==> nodes[j].value != value
        decreases |nodes| - i
      {
        if cur.value == value {
          return true;
        }
        cur := cur.next;
        i := i + 1;
      }
      return false;
    }

    /** `list_get`; the program stops (`ok` is false) only beyond the end: a negative index reads
        the front. */
    method Get(index: int) returns (ok: bool, value: int)
      requires Valid()
      ensures var k := if index <= 0 then 0 else index;
        ok == (k < |nodes|) && (ok ==> value == nodes[k].value)
    {
      var cur := head;
      var i := 0;
      while i < index && cur != null
        invariant 0 <= i <= |nodes| && (i <= index || i == 0) && cur == if i < |nodes| then nodes[i] else null
        decreases |nodes| - i
      {
        cur := cur.next;
        i := i + 1;
      }
      if cur == null {
        return false, 0;
      }
      return true, cur.value;
    }

    /** `list_reverse`: the same nodes in the opposite order. */
    method Reverse()
      requires Valid()
      modifies this, nodes
      ensures Valid() && nodes == Reversed(old(nodes))
    {
      head := ReverseChain(head, nodes);
      nodes := Reversed(nodes);
    }
  }
}
