/** The linked queue of exercise 16, and the breadth-first numbering of a complete binary tree
    that it drives. */
module LinkedQueues {
  import opened ListNodes
  import opened Sequences

  class Queue {
    var head: Node?
    var tail: Node?
    var size: nat

    ghost var nodes: seq<Node>    // from head to tail
    ghost var contents: seq<int>  // their values
    ghost var repr: set<object>   // this object and the nodes

    ghost predicate Valid()
      reads this, repr
    {
      && this in repr && (forall i :: 0 <= i < |nodes| ==> nodes[i] in repr)
      && size == |nodes| == |contents|
      && Distinct(nodes) && Linked(head, nodes)
      && tail == (if size == 0 then null else nodes[size - 1])
      && (forall i :: 0 <= i < size ==> nodes[i].value == contents[i])
    }

    /** `queue_create` */
    constructor ()
      ensures Valid() && contents == [] && fresh(repr)
    {
      head, tail, size := null, null, 0;
      nodes, contents, repr := [], [], {this};
    }

    /** `queue_is_empty` */
    predicate IsEmpty()
      requires Valid()
      reads this, repr
      ensures IsEmpty() <==> contents == []
    {
      size == 0
    }

    /** `queue_enqueue` */
    method Enqueue(value: int)
      requires Valid()
      modifies repr
      ensures Valid() && contents == old(contents) + [value]
      ensures fresh(repr - old(repr))
    {
      var n := new Node(value);
      if tail != null {
        tail.next := n;
      } else {
        head := n;
      }
      tail := n;
      size := size + 1;
      nodes := nodes + [n];
      contents := contents + [value];
      repr := repr + {n};
    }

    /** `queue_dequeue`; on an empty queue the program stops (`ok` is false). */
    method Dequeue() returns (ok: bool, val: int)
      requires Valid()
      modifies this
      ensures Valid() && ok == (old(contents) != []) && repr <= old(repr)
      ensures ok ==> old(contents) == [val] + contents && nodes == old(nodes[1..]) && old(nodes[0]) !in repr
      ensures !ok ==> contents == [] && repr == old(repr)
    {
      if IsEmpty() {
        return false, 0;
      }
      ok, val := true, head.value;
      repr := repr - {head};
      head := head.next;
      if head == null {
        tail := null;
      }
      nodes := nodes[1..];
      contents := contents[1..];
      size := size - 1;
    }
  }
}

module BreadthFirst {
  import opened LinkedQueues
  import opened CInt
  import opened Powers

  /** The numbers from `lo` up to and excluding `hi`. */
  function Range(lo: int, hi: int): seq<int> {
    seq(if lo <= hi then hi - lo else 0, i => lo + i)
  }

  function Min(a: int, b: int): int { if a <= b then a else b }

  /** Level `k` of the complete binary tree with the nodes 1..m. */
  function Level(k: nat, m: int): seq<int> {
    Range(Pow2(k), Min(2 * Pow2(k), m + 1))
  }

  function Flatten(lines: seq<seq<int>>): seq<int> {
    if lines == [] then [] else Flatten(lines[..|lines| - 1]) + lines[|lines| - 1]
  }

  ghost predicate IsLevel(line: seq<int>, k: nat, m: int) {
    line == Level(k, m) && Pow2(k) <= m
  }

  /** The lines printed are the levels of the tree 1..m from the root down, none of them empty. */
  ghost predicate Levels(lines: seq<seq<int>>, m: int) {
    forall k :: 0 <= k < |lines| ==> IsLevel(lines[k], k, m)
  }

  /** All levels in a row are the nodes 1..m in increasing order, each once. */
  lemma {:induction false} LevelsFlatten(lines: seq<seq<int>>, m: int)
    requires Levels(lines, m) && 1 <= |lines|
    ensures Flatten(lines) == Range(1, Min(Pow2(|lines|), m + 1))
  {
    var k := |lines| - 1;
    var before := lines[..k];
    assert IsLevel(lines[k], k, m);
    assert Flatten(lines) == Flatten(before) + Level(k, m);
    if k > 0 {
      LevelsFlatten(before, m);
    } else {
      assert before == [] && Flatten(before) == [] && Pow2(1) == 2 * Pow2(0);
    }
  }

  /** A state of the loop of `bfs_order` for the tree 1..m: `done` nodes have been printed, on the
      full `lines` and the current `line`. */
  datatype Page = Page(m: int, done: nat, lines: seq<seq<int>>, line: seq<int>, inLevel: int, queue: seq<int>)

  /** The queue holds the nodes after those printed that have a printed parent. */
  ghost predicate Progress(p: Page) {
    var first := Pow2(|p.lines|);
    && p.done <= p.m && p.queue == Range(p.done + 1, Min(2 * p.done + 1, p.m) + 1)
    && first <= p.m && p.line == Range(first, p.done + 1) && |p.line| == p.done + 1 - first
    && p.inLevel == |Level(|p.lines|, p.m)| && |p.line| <= p.inLevel
    && (|p.line| == p.inLevel ==> p.done == p.m)
  }

  /** The loop invariant of `bfs_order`. */
  ghost predicate Printing(p: Page) {
    Progress(p) && Levels(p.lines, p.m)
  }

  /** The queue after the children of `node`, as far as the tree has them, have joined it. */
  function WithChildren(queue: seq<int>, node: int, n: int): seq<int> {
    var q := if 2 * node <= n then queue + [2 * node] else queue;
    if 2 * node + 1 <= n then q + [2 * node + 1] else q
  }

  /** The page after the next node and its children, with or without a line break. */
  ghost function Next(p: Page, n: int): Page
    requires p.queue != []
  {
    var line, queue := p.line + [p.queue[0]], WithChildren(p.queue[1..], p.queue[0], n);
    if |line| == p.inLevel && queue != [] then Page(p.m, p.done + 1, p.lines + [line], [], |queue|, queue)
    else Page(p.m, p.done + 1, p.lines, line, p.inLevel, queue)
  }

  lemma Start(m: int)
    requires m >= 1
    ensures Printing(Page(m, 0, [], [], 1, [1]))
  {
    assert Pow2(0) == 1;
  }

  /** The queue starts with the next node, and its children follow those already queued. */
  lemma NextNode(p: Page, n: int)
    requires Progress(p) && p.queue != [] && p.m == (if n >= 1 then n else 1)
    ensures p.done < p.m && p.queue[0] == p.done + 1
    ensures WithChildren(p.queue[1..], p.done + 1, n) == Range(p.done + 2, Min(2 * p.done + 3, p.m) + 1)
  {
  }

  lemma LevelsAppend(lines: seq<seq<int>>, line: seq<int>, m: int)
    requires Levels(lines, m) && IsLevel(line, |lines|, m)
    ensures Levels(lines + [line], m)
  {
  }

  lemma Round(p: Page, n: int)
    requires Printing(p) && p.queue != [] && p.m == (if n >= 1 then n else 1)
    ensures p.queue[0] == p.done + 1 <= p.m
    ensures Printing(Next(p, n))
  {
    NextNode(p, n);
    var next := Next(p, n);
    var line, first := p.line + [p.done + 1], Pow2(|p.lines|);
    assert Pow2(|p.lines| + 1) == 2 * first;
    assert line == Range(first, p.done + 2);
    if |line| == p.inLevel && next.queue != [] {
      assert p.done + 2 == 2 * first;
      assert Range(2 * first, 2 * first) == [];
      LevelsAppend(p.lines, line, p.m);
    }
  }

  /** What `bfs_order` prints for the tree 1..m: all levels, and all nodes in increasing order. */
  ghost predicate AllPrinted(m: int, lines: seq<seq<int>>) {
    |lines| > 0 && Levels(lines, m) && m < Pow2(|lines|) && Flatten(lines) == Range(1, m + 1)
  }

  /** Once all nodes are printed, the current line is the last level. */
  lemma Finish(p: Page)
    requires Printing(p) && p.queue == []
    ensures p.done == p.m && AllPrinted(p.m, p.lines + [p.line])
  {
    var all, first := p.lines + [p.line], Pow2(|p.lines|);
    assert Pow2(|all|) == 2 * first;
    LevelsAppend(p.lines, p.line, p.m);
    LevelsFlatten(all, p.m);
  }

  /** The next node, and its children into the queue. */
  method Visit(q: Queue, n: int) returns (overflow: bool, node: int)
    requires q.Valid() && q.contents != []
    modifies q.repr
    ensures node == old(q.contents[0]) && overflow == (2 * node + 1 > INT_MAX)
    ensures !overflow ==> q.Valid() && q.contents == WithChildren(old(q.contents[1..]), node, n)
    ensures !overflow ==> fresh(q.repr - old(q.repr))
  {
    var ok;
    ok, node := q.Dequeue();
    overflow := 2 * node + 1 > INT_MAX;
    if overflow {
      return;
    }
    var left := 2 * node;
    var right := 2 * node + 1;
    if left <= n {
      q.Enqueue(left);
    }
    if right <= n {
      q.Enqueue(right);
    }
  }

  /** The loop of `bfs_order`. */
  method PrintAll(q: Queue, n: int, ghost start: Page) returns (overflow: bool, lines: seq<seq<int>>)
    requires q.Valid() && start.m == (if n >= 1 then n else 1)
    requires start == Page(start.m, 0, [], [], 1, q.contents) && Printing(start)
    modifies q.repr
    ensures overflow <==> 2 * start.m + 1 > INT_MAX
    ensures !overflow ==> AllPrinted(start.m, lines)
  {
    var line, inLevel := [], 1;
    lines := [];
    ghost var page := start;
    while !q.IsEmpty()
      invariant q.Valid() && fresh(q.repr - old(q.repr))
      invariant page == Page(start.m, page.done, lines, line, inLevel, q.contents) && Printing(page)
      invariant page.done > 0 ==> 2 * page.done + 1 <= INT_MAX
      decreases start.m - page.done
    {
      Round(page, n);
      page := Next(page, n);
      var node;
      overflow, node := Visit(q, n);
      if overflow {
        return;
      }
      line := line + [node];
      if |line| == inLevel && !q.IsEmpty() {
        inLevel := q.size;
        lines := lines + [line];
        line := [];
      }
    }
    Finish(page);
    overflow, lines := false, lines + [line];
  }

  /** `bfs_order`: the lines it prints.  It overflows, which C leaves undefined, just when the
      right child of node `n` is no `int`; for n < 1 it still prints the root. */
  method BfsOrder(n: int) returns (overflow: bool, lines: seq<seq<int>>)
    requires n <= INT_MAX
    ensures overflow <==> 2 * n + 1 > INT_MAX
    ensures !overflow ==> AllPrinted(if n >= 1 then n else 1, lines)
  {
    ghost var m := if n >= 1 then n else 1;
    var q := new Queue();
    q.Enqueue(1);
    Start(m);
    overflow, lines := PrintAll(q, n, Page(m, 0, [], [], 1, q.contents));
  }
}
