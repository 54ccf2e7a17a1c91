/** The shapes that insertion, deletion and the traversals give: which value moves where, what the
    height measures, and in which order siblings are visited. */
module TreeShapes {
  import opened Trees

  // ---------- height ----------

  datatype Turn = Left | Right

  /** Following these turns from the root never leaves the tree. */
  ghost predicate Downward(t: Tree, turns: seq<Turn>)
    decreases |turns|
  {
    t.Branch? && (turns == [] || Downward(if turns[0] == Left then t.left else t.right, turns[1..]))
  }

  /** `h` is the number of nodes on a longest way down: some way visits as many, none more. */
  ghost predicate LongestWay(t: Tree, h: nat) {
    if t.Empty? then h == 0
    else
      && (exists turns :: Downward(t, turns) && |turns| + 1 == h)
      && (forall turns :: Downward(t, turns) ==> |turns| + 1 <= h)
  }

  lemma {:induction false} NoLongerWay(t: Tree, turns: seq<Turn>)
    requires Downward(t, turns)
    ensures |turns| + 1 <= Height(t)
    decreases |turns|
  {
    if turns != [] {
      NoLongerWay(if turns[0] == Left then t.left else t.right, turns[1..]);
    }
  }

  lemma {:induction false} AWayDown(t: Tree) returns (turns: seq<Turn>)
    requires t.Branch?
    ensures Downward(t, turns) && |turns| + 1 == Height(t)
  {
    if t.left.Empty? && t.right.Empty? {
      turns := [];
    } else {
      var turn := if Height(t.left) > Height(t.right) then Left else Right;
      var below := AWayDown(if turn == Left then t.left else t.right);
      turns := [turn] + below;
      assert turns[1..] == below;
    }
  }

  lemma HeightIsLongestWay(t: Tree)
    ensures LongestWay(t, Height(t))
  {
    if t.Branch? {
      var turns := AWayDown(t);
      forall ts | Downward(t, ts)
        ensures |ts| + 1 <= Height(t)
      {
        NoLongerWay(t, ts);
      }
    }
  }

  // ---------- sequences without repeats ----------

  /** `s` without the first `x`. */
  function Removed(s: seq<int>, x: int): seq<int> {
    if s == [] then [] else if s[0] == x then s[1..] else [s[0]] + Removed(s[1..], x)
  }

  /** `s` with `w` in place of `v`. */
  function Replaced(s: seq<int>, v: int, w: int): seq<int> {
    seq(|s|, i requires 0 <= i < |s| => if s[i] == v then w else s[i])
  }

  lemma {:induction false} RemovedConcat(a: seq<int>, b: seq<int>, x: int)
    ensures Removed(a + b, x) == if x in a then Removed(a, x) + b else a + Removed(b, x)
    decreases |a|
  {
    if a == [] {
      assert a + b == b;
    } else {
      assert (a + b)[1..] == a[1..] + b;
      RemovedConcat(a[1..], b, x);
    }
  }

  lemma {:induction false} RemovedMembers(s: seq<int>, x: int, y: int)
    ensures y in Removed(s, x) ==> y in s
    decreases |s|
  {
    if s != [] && s[0] != x {
      RemovedMembers(s[1..], x, y);
    }
  }

  lemma ReplacedNothing(s: seq<int>, v: int, w: int)
    requires v !in s
    ensures Replaced(s, v, w) == s
  {
  }

  /** What comes first, the left and the right part, after removing `x`. */
  lemma RemovedParts(n: int, l: seq<int>, r: seq<int>, x: int)
    ensures x == n ==> Removed([n] + l + r, x) == l + r
    ensures x != n && x in l ==> Removed([n] + l + r, x) == [n] + Removed(l, x) + r
    ensures x != n && x !in l ==> Removed([n] + l + r, x) == [n] + l + Removed(r, x)
  {
    assert [n] + l + r == [n] + (l + r);
    assert ([n] + (l + r))[1..] == l + r;
    RemovedConcat(l, r, x);
  }

  lemma ReplacedParts(n: int, l: seq<int>, r: seq<int>, v: int, w: int)
    ensures Replaced([n] + l + r, v, w) == [if n == v then w else n] + Replaced(l, v, w) + Replaced(r, v, w)
  {
  }

  // ---------- insertion and deletion ----------

  /** The subtree with `v` at its root, in an ordered tree. */
  function At(t: Tree, v: int): Tree {
    if t.Empty? || t.value == v then t else if v < t.value then At(t.left, v) else At(t.right, v)
  }

  /** A new value becomes a leaf, and the others keep their order in the preorder traversal, which
      determines an ordered tree. */
  lemma {:induction false} InsertAddsLeaf(t: Tree, v: int)
    requires Ordered(t) && v !in Values(t)
    ensures At(Insert(t, v), v) == Branch(Empty, v, Empty)
    ensures Removed(Preorder(Insert(t, v)), v) == Preorder(t)
  {
    if t.Branch? {
      var l, r := Preorder(t.left), Preorder(t.right);
      PreorderValues(t.left);
      PreorderValues(t.right);
      if v < t.value {
        InsertAddsLeaf(t.left, v);
        InsertAdds(t.left, v);
        PreorderValues(Insert(t.left, v));
        RemovedParts(t.value, Preorder(Insert(t.left, v)), r, v);
      } else {
        InsertAddsLeaf(t.right, v);
        RemovedParts(t.value, l, Preorder(Insert(t.right, v)), v);
      }
    } else {
      assert Preorder(Branch(Empty, v, Empty)) == [v];
    }
  }

  lemma {:induction false} InsertPresent(t: Tree, v: int)
    requires Ordered(t) && v in Values(t)
    ensures Insert(t, v) == t
  {
    if v < t.value {
      InsertPresent(t.left, v);
    } else if v > t.value {
      InsertPresent(t.right, v);
    }
  }

  /** `r` is `t` after inserting `v`. */
  ghost predicate Inserted(t: Tree, v: int, r: Tree) {
    && Ordered(r) && Values(r) == Values(t) + {v}
    && (v in Values(t) ==> r == t)
    && (v !in Values(t) ==> At(r, v) == Branch(Empty, v, Empty) && Removed(Preorder(r), v) == Preorder(t))
  }

  lemma InsertIs(t: Tree, v: int)
    requires Ordered(t)
    ensures Inserted(t, v, Insert(t, v))
  {
    InsertAdds(t, v);
    if v in Values(t) {
      InsertPresent(t, v);
    } else {
      InsertAddsLeaf(t, v);
    }
  }

  predicate TwoChildren(t: Tree, v: int) {
    var u := At(t, v);
    u.Branch? && u.left.Branch? && u.right.Branch?
  }

  /** `w` is the least value above `v`. */
  ghost predicate IsSuccessor(t: Tree, v: int, w: int) {
    w in Values(t) && w > v && forall x :: x in Values(t) && x > v ==> w <= x
  }

  /** The preorder traversal after deleting `v`: without `v`, or, if its node has two children, with
      the successor `w` in its place. */
  function Edited(t: Tree, v: int, w: int): seq<int> {
    if TwoChildren(t, v) then Replaced(Removed(Preorder(t), w), v, w) else Removed(Preorder(t), v)
  }

  lemma {:induction false} SomethingAbove(t: Tree, v: int)
    requires Ordered(t) && TwoChildren(t, v)
    ensures v in Values(t) && exists x :: x in Values(t) && x > v
  {
    if t.value == v {
      assert t.right.value in Values(t.right);
      assert t.right.value in Values(t);
    } else if v < t.value {
      SomethingAbove(t.left, v);
      var x :| x in Values(t.left) && x > v;
      assert x in Values(t);
    } else {
      SomethingAbove(t.right, v);
      var x :| x in Values(t.right) && x > v;
      assert x in Values(t);
    }
  }

  lemma Sides(t: Tree)
    requires Ordered(t) && t.Branch?
    ensures forall x :: x in Values(t) <==> x in Values(t.left) || x == t.value || x in Values(t.right)
    ensures forall x :: x in Values(t) && x < t.value ==> x in Values(t.left)
    ensures forall x :: x in Values(t) && x > t.value ==> x in Values(t.right)
  {
  }

  lemma SuccessorBelow(t: Tree, v: int, w: int)
    requires Ordered(t) && TwoChildren(t, v) && t.value != v && IsSuccessor(t, v, w)
    ensures v < t.value ==> IsSuccessor(t.left, v, w)
    ensures v > t.value ==> IsSuccessor(t.right, v, w)
  {
    Sides(t);
    if v < t.value {
      SomethingAbove(t.left, v);
      var x :| x in Values(t.left) && x > v;
      assert x in Values(t) && w <= x < t.value;
    }
  }

  lemma {:induction false} MinHasOneChild(t: Tree)
    requires Ordered(t) && t.Branch?
    ensures !TwoChildren(t, Min(t))
  {
    if t.left.Branch? {
      MinIsLeast(t.left);
      MinHasOneChild(t.left);
    }
  }

  lemma SuccessorIsMin(t: Tree, w: int)
    requires Ordered(t) && t.Branch? && t.right.Branch? && IsSuccessor(t, t.value, w)
    ensures w == Min(t.right)
  {
    Sides(t);
    MinIsLeast(t.right);
    assert Min(t.right) in Values(t);
  }

  lemma DeleteRootPreorder(t: Tree, w: int)
    requires Ordered(t) && t.Branch? && t.left.Branch? && t.right.Branch? && IsSuccessor(t, t.value, w)
    requires Preorder(Delete(t.right, w)) == Removed(Preorder(t.right), w)
    ensures Preorder(Delete(t, t.value)) == Edited(t, t.value, w)
  {
    var v, l, r := t.value, Preorder(t.left), Preorder(t.right);
    SuccessorIsMin(t, w);
    PreorderValues(t.left);
    PreorderValues(t.right);
    RemovedParts(v, l, r, w);
    ReplacedParts(v, l, Removed(r, w), v, w);
    RemovedMembers(r, w, v);
    ReplacedNothing(l, v, w);
    ReplacedNothing(Removed(r, w), v, w);
  }

  lemma DeleteLeftPreorder(t: Tree, v: int, w: int)
    requires Ordered(t) && t.Branch? && v < t.value && v in Values(t.left)
    requires TwoChildren(t, v) ==> IsSuccessor(t.left, v, w)
    requires Preorder(Delete(t.left, v)) == Edited(t.left, v, w)
    ensures Preorder(Delete(t, v)) == Edited(t, v, w)
  {
    var n, l, r := t.value, Preorder(t.left), Preorder(t.right);
    PreorderValues(t.left);
    PreorderValues(t.right);
    if TwoChildren(t, v) {
      RemovedParts(n, l, r, w);
      ReplacedParts(n, Removed(l, w), r, v, w);
      ReplacedNothing(r, v, w);
    } else {
      RemovedParts(n, l, r, v);
    }
  }

  lemma DeleteRightPreorder(t: Tree, v: int, w: int)
    requires Ordered(t) && t.Branch? && v > t.value && v in Values(t.right)
    requires TwoChildren(t, v) ==> IsSuccessor(t.right, v, w)
    requires Preorder(Delete(t.right, v)) == Edited(t.right, v, w)
    ensures Preorder(Delete(t, v)) == Edited(t, v, w)
  {
    var n, l, r := t.value, Preorder(t.left), Preorder(t.right);
    PreorderValues(t.left);
    PreorderValues(t.right);
    if TwoChildren(t, v) {
      RemovedParts(n, l, r, w);
      ReplacedParts(n, l, Removed(r, w), v, w);
      ReplacedNothing(l, v, w);
    } else {
      RemovedParts(n, l, r, v);
    }
  }

  /** Deletion edits the preorder traversal, and so the shape, in exactly one way: the node goes, or
      takes over the value of its inorder successor, whose node goes instead. */
  lemma {:induction false} DeletePreorder(t: Tree, v: int, w: int)
    requires Ordered(t) && v in Values(t) && (TwoChildren(t, v) ==> IsSuccessor(t, v, w))
    ensures Preorder(Delete(t, v)) == Edited(t, v, w)
    decreases t
  {
    if v < t.value {
      if TwoChildren(t, v) {
        SuccessorBelow(t, v, w);
      }
      DeletePreorder(t.left, v, w);
      DeleteLeftPreorder(t, v, w);
    } else if v > t.value {
      if TwoChildren(t, v) {
        SuccessorBelow(t, v, w);
      }
      DeletePreorder(t.right, v, w);
      DeleteRightPreorder(t, v, w);
    } else if TwoChildren(t, v) {
      SuccessorIsMin(t, w);
      MinIsLeast(t.right);
      MinHasOneChild(t.right);
      DeletePreorder(t.right, w, w);
      DeleteRootPreorder(t, w);
    } else {
      RemovedParts(v, Preorder(t.left), Preorder(t.right), v);
    }
  }

  lemma {:induction false} DeleteAbsent(t: Tree, v: int)
    requires v !in Values(t)
    ensures Delete(t, v) == t
  {
    if t.Branch? {
      if v < t.value {
        DeleteAbsent(t.left, v);
      } else {
        DeleteAbsent(t.right, v);
      }
    }
  }

  /** The root value is gone: its left subtree stays, and the least value of its right subtree has
      moved up. */
  ghost predicate MovedUp(t: Tree, r: Tree)
    requires t.Branch?
  {
    && r.Branch? && r.left == t.left
    && r.value in Values(t.right) && (forall x :: x in Values(t.right) ==> r.value <= x)
    && Values(r.right) == Values(t.right) - {r.value}
  }

  /** `r` is `t` after deleting `v`. */
  ghost predicate Deleted(t: Tree, v: int, r: Tree) {
    && Ordered(r) && Values(r) == Values(t) - {v}
    && (v !in Values(t) ==> r == t)
    && (v in Values(t) && !TwoChildren(t, v) ==> Preorder(r) == Removed(Preorder(t), v))
    && (TwoChildren(t, v) ==> forall w :: IsSuccessor(t, v, w) ==>
          Preorder(r) == Replaced(Removed(Preorder(t), w), v, w))
    && (TwoChildren(t, v) && v == t.value ==> MovedUp(t, r))
  }

  lemma DeleteIs(t: Tree, v: int)
    requires Ordered(t)
    ensures Deleted(t, v, Delete(t, v))
  {
    DeleteRemoves(t, v);
    if v !in Values(t) {
      DeleteAbsent(t, v);
      if TwoChildren(t, v) {
        SomethingAbove(t, v);
      }
    } else if TwoChildren(t, v) {
      forall w | IsSuccessor(t, v, w)
        ensures Preorder(Delete(t, v)) == Replaced(Removed(Preorder(t), w), v, w)
      {
        DeletePreorder(t, v, w);
      }
      if v == t.value {
        MinIsLeast(t.right);
        DeleteRemoves(t.right, Min(t.right));
      }
    } else {
      DeletePreorder(t, v, v);
    }
  }

  // ---------- the order of the visits ----------

  ghost predicate Before(s: seq<int>, x: int, y: int) {
    exists i, j :: 0 <= i < j < |s| && s[i] == x && s[j] == y
  }

  lemma BeforeWithin(a: seq<int>, s: seq<int>, b: seq<int>, x: int, y: int)
    requires Before(s, x, y)
    ensures Before(a + s + b, x, y)
  {
    var i, j :| 0 <= i < j < |s| && s[i] == x && s[j] == y;
    var whole := a + s + b;
    assert whole[|a| + i] == x && whole[|a| + j] == y;
  }

  lemma BeforeAcross(a: seq<int>, b: seq<int>, x: int, y: int)
    requires x in a && y in b
    ensures Before(a + b, x, y)
  {
    var i :| 0 <= i < |a| && a[i] == x;
    var j :| 0 <= j < |b| && b[j] == y;
    assert (a + b)[i] == x && (a + b)[|a| + j] == y;
  }

  ghost predicate SubtreeOf(u: Tree, t: Tree) {
    u == t || (t.Branch? && (SubtreeOf(u, t.left) || SubtreeOf(u, t.right)))
  }

  /** The order of the visits around the node of `u`: the node itself first, then its left and
      then its right subtree. */
  ghost predicate NodeLeftRight(s: seq<int>, u: Tree)
    requires u.Branch?
  {
    && (forall x :: x in Values(u.left) || x in Values(u.right) ==> Before(s, u.value, x))
    && (forall x, y :: x in Values(u.left) && y in Values(u.right) ==> Before(s, x, y))
  }

  /** The left subtree, then the right one, and then the node itself. */
  ghost predicate LeftRightNode(s: seq<int>, u: Tree)
    requires u.Branch?
  {
    && (forall x :: x in Values(u.left) || x in Values(u.right) ==> Before(s, x, u.value))
    && (forall x, y :: x in Values(u.left) && y in Values(u.right) ==> Before(s, x, y))
  }

  lemma VisitsWithin(a: seq<int>, s: seq<int>, b: seq<int>, u: Tree)
    requires u.Branch?
    ensures NodeLeftRight(s, u) ==> NodeLeftRight(a + s + b, u)
    ensures LeftRightNode(s, u) ==> LeftRightNode(a + s + b, u)
  {
    forall x, y | Before(s, x, y)
      ensures Before(a + s + b, x, y)
    {
      BeforeWithin(a, s, b, x, y);
    }
  }

  lemma PreorderAtRoot(t: Tree)
    requires t.Branch?
    ensures NodeLeftRight(Preorder(t), t)
  {
    var n, l, r := [t.value], Preorder(t.left), Preorder(t.right);
    PreorderValues(t.left);
    PreorderValues(t.right);
    assert n + l + r == n + (l + r);
    forall x | x in l || x in r
      ensures Before(Preorder(t), t.value, x)
    {
      BeforeAcross(n, l + r, t.value, x);
    }
    forall x, y | x in l && y in r
      ensures Before(Preorder(t), x, y)
    {
      BeforeAcross(n + l, r, x, y);
    }
  }

  /** Preorder visits every node before its left subtree and that before its right subtree. */
  lemma {:induction false} PreorderVisits(t: Tree, u: Tree)
    requires SubtreeOf(u, t) && u.Branch?
    ensures NodeLeftRight(Preorder(t), u)
  {
    var n, l, r := [t.value], Preorder(t.left), Preorder(t.right);
    if u == t {
      PreorderAtRoot(t);
    } else if SubtreeOf(u, t.left) {
      PreorderVisits(t.left, u);
      VisitsWithin(n, l, r, u);
    } else {
      PreorderVisits(t.right, u);
      VisitsWithin(n + l, r, [], u);
      assert n + l + r + [] == n + l + r;
    }
  }

  lemma {:induction false} PostorderValues(t: Tree)
    ensures forall x :: x in Postorder(t) <==> x in Values(t)
  {
    if t.Branch? {
      PostorderValues(t.left);
      PostorderValues(t.right);
    }
  }

  lemma PostorderAtRoot(t: Tree)
    requires t.Branch?
    ensures LeftRightNode(Postorder(t), t)
  {
    var l, r, n := Postorder(t.left), Postorder(t.right), [t.value];
    PostorderValues(t.left);
    PostorderValues(t.right);
    assert l + r + n == l + (r + n);
    forall x | x in l || x in r
      ensures Before(Postorder(t), x, t.value)
    {
      BeforeAcross(l + r, n, x, t.value);
    }
    forall x, y | x in l && y in r
      ensures Before(Postorder(t), x, y)
    {
      BeforeAcross(l, r + n, x, y);
    }
  }

  /** Postorder visits the left subtree of every node before its right subtree, and both before the
      node. */
  lemma {:induction false} PostorderVisits(t: Tree, u: Tree)
    requires SubtreeOf(u, t) && u.Branch?
    ensures LeftRightNode(Postorder(t), u)
  {
    var l, r, n := Postorder(t.left), Postorder(t.right), [t.value];
    if u == t {
      PostorderAtRoot(t);
    } else if SubtreeOf(u, t.left) {
      PostorderVisits(t.left, u);
      VisitsWithin([], l, r + n, u);
      assert [] + l + (r + n) == l + r + n;
    } else {
      PostorderVisits(t.right, u);
      VisitsWithin(l, r, n, u);
    }
  }
}
