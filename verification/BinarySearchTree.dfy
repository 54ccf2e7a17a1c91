/** The binary search tree of exercise 15: what its operations do to a tree, and the recursive
    procedures that do it by assigning the fields of unshared nodes. */
module Trees {
  import opened Powers
  import opened Sequences

  datatype Tree = Empty | Branch(left: Tree, value: int, right: Tree)

  function Values(t: Tree): set<int> {
    if t.Empty? then {} else Values(t.left) + {t.value} + Values(t.right)
  }

  ghost predicate Ordered(t: Tree) {
    t.Branch? ==>
      && Ordered(t.left) && Ordered(t.right)
      && (forall x :: x in Values(t.left) ==> x < t.value)
      && (forall x :: x in Values(t.right) ==> x > t.value)
  }

  function Inorder(t: Tree): seq<int> {
    if t.Empty? then [] else Inorder(t.left) + [t.value] + Inorder(t.right)
  }

  function Preorder(t: Tree): seq<int> {
    if t.Empty? then [] else [t.value] + Preorder(t.left) + Preorder(t.right)
  }

  function Postorder(t: Tree): seq<int> {
    if t.Empty? then [] else Postorder(t.left) + Postorder(t.right) + [t.value]
  }

  function Height(t: Tree): nat {
    if t.Empty? then 0 else 1 + if Height(t.left) > Height(t.right) then Height(t.left) else Height(t.right)
  }

  function Count(t: Tree): nat {
    if t.Empty? then 0 else 1 + Count(t.left) + Count(t.right)
  }

  function Min(t: Tree): int
    requires t.Branch?
  {
    if t.left.Empty? then t.value else Min(t.left)
  }

  function Max(t: Tree): int
    requires t.Branch?
  {
    if t.right.Empty? then t.value else Max(t.right)
  }

  function Insert(t: Tree, v: int): Tree {
    if t.Empty? then Branch(Empty, v, Empty)
    else if v < t.value then t.(left := Insert(t.left, v))
    else if v > t.value then t.(right := Insert(t.right, v))
    else t
  }

  function Delete(t: Tree, v: int): Tree {
    if t.Empty? then Empty
    else if v < t.value then t.(left := Delete(t.left, v))
    else if v > t.value then t.(right := Delete(t.right, v))
    else if t.left.Empty? then t.right
    else if t.right.Empty? then t.left
    else var successor := Min(t.right);
      Branch(t.left, successor, Delete(t.right, successor))
  }

  // ---------- sets ----------

  lemma {:induction false} MinIsLeast(t: Tree)
    requires Ordered(t) && t.Branch?
    ensures Min(t) in Values(t) && forall x :: x in Values(t) ==> Min(t) <= x
  {
    if t.left.Branch? {
      MinIsLeast(t.left);
    }
  }

  lemma {:induction false} MaxIsGreatest(t: Tree)
    requires Ordered(t) && t.Branch?
    ensures Max(t) in Values(t) && forall x :: x in Values(t) ==> x <= Max(t)
  {
    if t.right.Branch? {
      MaxIsGreatest(t.right);
    }
  }

  /** Inserting adds to the set and keeps the order. */
  lemma {:induction false} InsertAdds(t: Tree, v: int)
    requires Ordered(t)
    ensures Ordered(Insert(t, v)) && Values(Insert(t, v)) == Values(t) + {v}
  {
    if t.Branch? {
      if v < t.value {
        InsertAdds(t.left, v);
      } else if v > t.value {
        InsertAdds(t.right, v);
      }
    }
  }

  /** Inserting raises the height by at most one, and adds a node only for a new value. */
  lemma {:induction false} InsertGrows(t: Tree, v: int)
    requires Ordered(t)
    ensures Height(t) <= Height(Insert(t, v)) <= Height(t) + 1
    ensures Count(Insert(t, v)) == Count(t) + if v in Values(t) then 0 else 1
  {
    if t.Branch? {
      if v < t.value {
        InsertGrows(t.left, v);
      } else if v > t.value {
        InsertGrows(t.right, v);
      }
    }
  }

  /** Deleting removes from the set and keeps the order. */
  lemma {:induction false} DeleteRemoves(t: Tree, v: int)
    requires Ordered(t)
    ensures Ordered(Delete(t, v)) && Values(Delete(t, v)) == Values(t) - {v}
  {
    if t.Branch? {
      if v < t.value {
        DeleteRemoves(t.left, v);
      } else if v > t.value {
        DeleteRemoves(t.right, v);
      } else if t.left.Branch? && t.right.Branch? {
        MinIsLeast(t.right);
        DeleteRemoves(t.right, Min(t.right));
      }
    }
  }

  /** Deleting never raises the height, and takes a node away only for a value that is there. */
  lemma {:induction false} DeleteShrinks(t: Tree, v: int)
    requires Ordered(t)
    ensures Height(t) - 1 <= Height(Delete(t, v)) <= Height(t)
    ensures Count(Delete(t, v)) == Count(t) - if v in Values(t) then 1 else 0
  {
    if t.Branch? {
      if v < t.value {
        DeleteShrinks(t.left, v);
      } else if v > t.value {
        DeleteShrinks(t.right, v);
      } else if t.left.Branch? && t.right.Branch? {
        MinIsLeast(t.right);
        DeleteShrinks(t.right, Min(t.right));
      }
    }
  }

  /** Deleting what was just inserted restores the very shape of the tree. */
  lemma {:induction false} DeleteUndoesInsert(t: Tree, v: int)
    requires v !in Values(t)
    ensures Delete(Insert(t, v), v) == t
  {
    if t.Branch? {
      if v < t.value {
        DeleteUndoesInsert(t.left, v);
      } else {
        DeleteUndoesInsert(t.right, v);
      }
    }
  }

  // ---------- runs ----------

  datatype Op = Ins(value: int) | Del(value: int)

  function Run(t: Tree, ops: seq<Op>): Tree
    decreases |ops|
  {
    if ops == [] then t
    else Run(if ops[0].Ins? then Insert(t, ops[0].value) else Delete(t, ops[0].value), ops[1..])
  }

  function RunSet(s: set<int>, ops: seq<Op>): set<int>
    decreases |ops|
  {
    if ops == [] then s
    else RunSet(if ops[0].Ins? then s + {ops[0].value} else s - {ops[0].value}, ops[1..])
  }

  /** Every run of inserts and deletes keeps the order and does to the set of values what the
      same operations do to a plain set. */
  lemma {:induction false} RunRefinesSet(t: Tree, ops: seq<Op>)
    requires Ordered(t)
    ensures Ordered(Run(t, ops)) && Values(Run(t, ops)) == RunSet(Values(t), ops)
    ensures Height(Run(t, ops)) <= Height(t) + |ops|
    decreases |ops|
  {
    if ops != [] {
      var v := ops[0].value;
      if ops[0].Ins? {
        InsertAdds(t, v);
        InsertGrows(t, v);
        RunRefinesSet(Insert(t, v), ops[1..]);
      } else {
        DeleteRemoves(t, v);
        DeleteShrinks(t, v);
        RunRefinesSet(Delete(t, v), ops[1..]);
      }
    }
  }

  // ---------- traversals ----------

  ghost predicate Increasing(s: seq<int>) {
    forall i, j :: 0 <= i < j < |s| ==> s[i] < s[j]
  }

  /** The inorder traversal is the set of values in increasing order, each once. */
  lemma {:induction false} InorderSorts(t: Tree)
    requires Ordered(t)
    ensures Increasing(Inorder(t)) && |Inorder(t)| == Count(t)
    ensures forall x :: x in Inorder(t) <==> x in Values(t)
  {
    if t.Branch? {
      InorderSorts(t.left);
      InorderSorts(t.right);
      var l, r := Inorder(t.left), Inorder(t.right);
      assert forall i :: 0 <= i < |l| ==> l[i] in Values(t.left);
      assert forall i :: 0 <= i < |r| ==> r[i] in Values(t.right);
    }
  }

  function InsertAll(t: Tree, vs: seq<int>): Tree
    decreases |vs|
  {
    if vs == [] then t else InsertAll(Insert(t, vs[0]), vs[1..])
  }

  lemma {:induction false} InsertAllConcat(t: Tree, a: seq<int>, b: seq<int>)
    ensures InsertAll(t, a + b) == InsertAll(InsertAll(t, a), b)
    decreases |a|
  {
    if a == [] {
      assert a + b == b;
    } else {
      assert (a + b)[1..] == a[1..] + b;
      InsertAllConcat(Insert(t, a[0]), a[1..], b);
    }
  }

  lemma {:induction false} InsertAllLeft(t: Tree, vs: seq<int>)
    requires t.Branch? && forall x :: x in vs ==> x < t.value
    ensures InsertAll(t, vs) == t.(left := InsertAll(t.left, vs))
    decreases |vs|
  {
    if vs != [] {
      assert vs[0] in vs && vs[0] < t.value;
      assert forall x :: x in vs[1..] ==> x in vs;
      InsertAllLeft(Insert(t, vs[0]), vs[1..]);
    }
  }

  lemma {:induction false} InsertAllRight(t: Tree, vs: seq<int>)
    requires t.Branch? && forall x :: x in vs ==> x > t.value
    ensures InsertAll(t, vs) == t.(right := InsertAll(t.right, vs))
    decreases |vs|
  {
    if vs != [] {
      assert vs[0] in vs && vs[0] > t.value;
      assert forall x :: x in vs[1..] ==> x in vs;
      InsertAllRight(Insert(t, vs[0]), vs[1..]);
    }
  }

  lemma {:induction false} PreorderValues(t: Tree)
    ensures forall x :: x in Preorder(t) <==> x in Values(t)
  {
    if t.Branch? {
      PreorderValues(t.left);
      PreorderValues(t.right);
    }
  }

  /** Inserting the preorder traversal into an empty tree builds the same tree again. */
  lemma {:induction false} PreorderRebuilds(t: Tree)
    requires Ordered(t)
    ensures InsertAll(Empty, Preorder(t)) == t
  {
    if t.Branch? {
      var l, r, root := Preorder(t.left), Preorder(t.right), Branch(Empty, t.value, Empty);
      PreorderValues(t.left);
      PreorderValues(t.right);
      PreorderRebuilds(t.left);
      PreorderRebuilds(t.right);
      assert Preorder(t) == [t.value] + (l + r);
      assert ([t.value] + (l + r))[1..] == l + r;
      assert InsertAll(Empty, Preorder(t)) == InsertAll(root, l + r);
      InsertAllConcat(root, l, r);
      InsertAllLeft(root, l);
      InsertAllRight(root.(left := t.left), r);
    }
  }

  function Mirror(t: Tree): Tree {
    if t.Empty? then Empty else Branch(Mirror(t.right), t.value, Mirror(t.left))
  }

  lemma ReversedConcat(a: seq<int>, b: seq<int>, x: int)
    ensures Reversed([x] + a + b) == Reversed(b) + Reversed(a) + [x]
  {
  }

  /** The postorder traversal is the preorder traversal of the mirror image, backwards: a node
      comes after everything below it. */
  lemma {:induction false} PostorderIsReversedPreorder(t: Tree)
    ensures Postorder(t) == Reversed(Preorder(Mirror(t)))
  {
    if t.Branch? {
      PostorderIsReversedPreorder(t.left);
      PostorderIsReversedPreorder(t.right);
      var l, r := Preorder(Mirror(t.left)), Preorder(Mirror(t.right));
      ReversedConcat(r, l, t.value);
    }
  }

  // ---------- height ----------

  /** A tree of height h has between h and 2^h - 1 nodes. */
  lemma {:induction false} CountBounds(t: Tree)
    ensures Height(t) <= Count(t) <= Pow2(Height(t)) - 1
  {
    if t.Branch? {
      CountBounds(t.left);
      CountBounds(t.right);
      Pow2Monotone(Height(t.left), Height(t) - 1);
      Pow2Monotone(Height(t.right), Height(t) - 1);
    }
  }
}

module BinarySearchTrees {
  import opened Trees
  import opened TreeShapes

  class Node {
    var value: int
    var left: Node?
    var right: Node?

    ghost var tree: Tree        // the tree rooted here
    ghost var nodes: set<Node>  // its nodes

    ghost predicate Valid()
      reads this, nodes
      decreases nodes
    {
      && this in nodes
      && (left != null ==> left in nodes && left.nodes <= nodes && this !in left.nodes && left.Valid())
      && (right != null ==> right in nodes && right.nodes <= nodes && this !in right.nodes && right.Valid())
      && Nodes(left) !! Nodes(right)
      && nodes == {this} + Nodes(left) + Nodes(right)
      && tree == Branch(TreeOf(left), value, TreeOf(right))
    }

    /** `node_create` */
    constructor (value: int)
      ensures Valid() && fresh(nodes) && tree == Branch(Empty, value, Empty)
    {
      this.value, left, right := value, null, null;
      tree, nodes := Branch(Empty, value, Empty), {this};
    }

    /** Replace the value. */
    method SetValue(v: int)
      requires Valid()
      modifies this`value, this`tree
      ensures Valid() && value == v && tree == old(tree).(value := v)
    {
      Subtrees(this);
      value := v;
      tree := tree.(value := v);
    }

    /** Replace the left subtree. */
    method SetLeft(l: Node?)
      requires Apart(this, l, right)
      modifies this`left, this`tree, this`nodes
      ensures Valid() && left == l && nodes == old({this} + Nodes(l) + Nodes(right))
      ensures tree == old(Branch(TreeOf(l), value, TreeOf(right)))
    {
      left := l;
      nodes := {this} + Nodes(l) + Nodes(right);
      tree := Branch(TreeOf(l), value, TreeOf(right));
    }

    /** Replace the right subtree. */
    method SetRight(r: Node?)
      requires Apart(this, left, r)
      modifies this`right, this`tree, this`nodes
      ensures Valid() && right == r && nodes == old({this} + Nodes(left) + Nodes(r))
      ensures tree == old(Branch(TreeOf(left), value, TreeOf(r)))
    {
      right := r;
      nodes := {this} + Nodes(left) + Nodes(r);
      tree := Branch(TreeOf(left), value, TreeOf(r));
    }
  }

  /** `l` and `r` are unshared trees that can hang below `root`. */
  ghost predicate Apart(root: Node, l: Node?, r: Node?)
    reads l, r, Nodes(l), Nodes(r)
  {
    && Unshared(l) && Unshared(r)
    && root !in Nodes(l) && root !in Nodes(r) && Nodes(l) !! Nodes(r)
  }

  lemma Subtrees(root: Node)
    requires root.Valid()
    ensures Apart(root, root.left, root.right)
    ensures root.nodes == {root} + Nodes(root.left) + Nodes(root.right)
    ensures root.tree == Branch(TreeOf(root.left), root.value, TreeOf(root.right))
  {
  }

  ghost function Nodes(root: Node?): set<Node>
    reads root
  {
    if root == null then {} else root.nodes
  }

  ghost function TreeOf(root: Node?): Tree
    reads root
  {
    if root == null then Empty else root.tree
  }

  /** `root` points to a tree none of whose nodes is shared. */
  ghost predicate Unshared(root: Node?)
    reads root, Nodes(root)
  {
    root != null ==> root.Valid()
  }

  /** What joins one subtree joins the whole. */
  lemma AddedBelow(root: Node, sub: set<Node>, other: set<Node>, added: set<Node>)
    ensures {root} + (sub + added) + other == ({root} + sub + other) + added
    ensures {root} + other + (sub + added) == ({root} + other + sub) + added
  {
  }

  lemma InsertSides(t: Tree, v: int)
    requires t.Branch?
    ensures v < t.value ==> Insert(t, v) == Branch(Insert(t.left, v), t.value, t.right)
    ensures v > t.value ==> Insert(t, v) == Branch(t.left, t.value, Insert(t.right, v))
  {
  }

  /** `bst_insert`: in place, with one new node at most. */
  method BstInsert(root: Node?, value: int) returns (r: Node, ghost added: set<Node>)
    requires Unshared(root)
    modifies Nodes(root)
    ensures Unshared(r) && r.tree == Insert(old(TreeOf(root)), value)
    ensures fresh(added) && r.nodes == old(Nodes(root)) + added
    ensures |added| == Count(r.tree) - Count(old(TreeOf(root))) <= 1
    ensures root != null ==> r == root
    ensures Ordered(old(TreeOf(root))) ==> Inserted(old(TreeOf(root)), value, r.tree)
    decreases Count(TreeOf(root)), 2
  {
    if Ordered(TreeOf(root)) {
      InsertIs(TreeOf(root), value);
    }
    if root == null {
      r := new Node(value);
      added := {r};
    } else {
      r := root;
      added := InsertBelow(root, value);
    }
  }

  /** `bst_insert` on a tree that is not empty. */
  method InsertBelow(root: Node, value: int) returns (ghost added: set<Node>)
    requires root.Valid()
    modifies root.nodes
    ensures root.Valid() && root.tree == Insert(old(root.tree), value)
    ensures fresh(added) && root.nodes == old(root.nodes) + added
    ensures |added| == Count(root.tree) - Count(old(root.tree)) <= 1
    decreases Count(root.tree), 1
  {
    if value < root.value {
      added := InsertLeft(root, value);
    } else if value > root.value {
      added := InsertRight(root, value);
    } else {
      added := {};
    }
  }

  /** The assignment of the left subtree in `bst_insert`. */
  method InsertLeft(root: Node, value: int) returns (ghost added: set<Node>)
    requires root.Valid() && value < root.value
    modifies root.nodes
    ensures root.Valid() && root.tree == Insert(old(root.tree), value)
    ensures fresh(added) && root.nodes == old(root.nodes) + added
    ensures |added| == Count(root.tree) - Count(old(root.tree)) <= 1
    decreases Count(root.tree), 0
  {
    Subtrees(root);
    var l;
    ghost var sub, other, was := Nodes(root.left), Nodes(root.right), root.tree;
    l, added := BstInsert(root.left, value);
    assert Unshared(root.right);
    assert Nodes(l) == sub + added && Nodes(root.right) == other;
    assert TreeOf(l) == Insert(was.left, value) && TreeOf(root.right) == was.right && root.value == was.value;
    root.SetLeft(l);
    assert root.nodes == {root} + (sub + added) + other;
    AddedBelow(root, sub, other, added);
    InsertSides(was, value);
  }

  /** The assignment of the right subtree in `bst_insert`. */
  method InsertRight(root: Node, value: int) returns (ghost added: set<Node>)
    requires root.Valid() && value > root.value
    modifies root.nodes
    ensures root.Valid() && root.tree == Insert(old(root.tree), value)
    ensures fresh(added) && root.nodes == old(root.nodes) + added
    ensures |added| == Count(root.tree) - Count(old(root.tree)) <= 1
    decreases Count(root.tree), 0
  {
    Subtrees(root);
    var r;
    ghost var sub, other, was := Nodes(root.right), Nodes(root.left), root.tree;
    r, added := BstInsert(root.right, value);
    assert Unshared(root.left);
    assert Nodes(r) == sub + added && Nodes(root.left) == other;
    assert TreeOf(r) == Insert(was.right, value) && TreeOf(root.left) == was.left && root.value == was.value;
    root.SetRight(r);
    assert root.nodes == {root} + other + (sub + added);
    AddedBelow(root, sub, other, added);
    InsertSides(was, value);
  }

  /** `bst_search` */
  function BstSearch(root: Node?, value: int): (n: Node?)
    requires Unshared(root)
    reads root, Nodes(root)
    ensures n != null ==> n in Nodes(root) && n.value == value && value in Values(TreeOf(root))
    ensures n == null && Ordered(TreeOf(root)) ==> value !in Values(TreeOf(root))
    decreases TreeOf(root)
  {
    if root == null || root.value == value then root
    else if value < root.value then BstSearch(root.left, value)
    else BstSearch(root.right, value)
  }

  /** `bst_contains` */
  predicate BstContains(root: Node?, value: int)
    requires Unshared(root)
    reads root, Nodes(root)
    ensures Ordered(TreeOf(root)) ==> BstContains(root, value) == (value in Values(TreeOf(root)))
  {
    BstSearch(root, value) != null
  }

  /** `bst_min` */
  function BstMin(root: Node?): (n: Node?)
    requires Unshared(root)
    reads root, Nodes(root)
    ensures n == null <==> root == null
    ensures root != null ==> n in root.nodes && n.left == null && n.value == Min(root.tree)
    decreases TreeOf(root)
  {
    if root == null || root.left == null then root else BstMin(root.left)
  }

  /** `bst_max` */
  function BstMax(root: Node?): (n: Node?)
    requires Unshared(root)
    reads root, Nodes(root)
    ensures n == null <==> root == null
    ensures root != null ==> n in root.nodes && n.right == null && n.value == Max(root.tree)
    decreases TreeOf(root)
  {
    if root == null || root.right == null then root else BstMax(root.right)
  }

  /** What leaves one subtree leaves the whole. */
  lemma FreedBelow(root: Node, sub: set<Node>, other: set<Node>, freed: set<Node>)
    requires root !in sub && sub !! other && freed <= sub
    ensures {root} + (sub - freed) + other == ({root} + sub + other) - freed
    ensures {root} + other + (sub - freed) == ({root} + other + sub) - freed
  {
  }

  /** `bst_delete`: in place, with at most one node freed, which leaves the tree. */
  method BstDelete(root: Node?, value: int) returns (r: Node?, ghost freed: set<Node>)
    requires Unshared(root)
    modifies Nodes(root)
    ensures Unshared(r) && TreeOf(r) == Delete(old(TreeOf(root)), value)
    ensures freed <= old(Nodes(root)) && Nodes(r) == old(Nodes(root)) - freed
    ensures |freed| == Count(old(TreeOf(root))) - Count(TreeOf(r)) <= 1
    ensures Ordered(old(TreeOf(root))) ==> Deleted(old(TreeOf(root)), value, TreeOf(r))
    decreases Count(TreeOf(root)), 1
  {
    if Ordered(TreeOf(root)) {
      DeleteIs(TreeOf(root), value);
    }
    if root == null {
      return null, {};
    }
    r := root;
    if value < root.value {
      freed := DeleteLeft(root, value);
    } else if value > root.value {
      freed := DeleteRight(root, value);
    } else {
      Subtrees(root);
      if root.left == null {
        return root.right, {root};
      }
      if root.right == null {
        return root.left, {root};
      }
      var successor := BstMin(root.right);
      root.SetValue(successor.value);
      freed := DeleteRight(root, root.value);
    }
  }

  /** The assignment of the left subtree in `bst_delete`. */
  method DeleteLeft(root: Node, value: int) returns (ghost freed: set<Node>)
    requires root.Valid()
    modifies root.nodes
    ensures root.Valid() && root.tree == old(root.tree).(left := Delete(old(root.tree.left), value))
    ensures freed <= old(root.nodes) && root.nodes == old(root.nodes) - freed
    ensures |freed| == Count(old(root.tree)) - Count(root.tree) <= 1
    decreases Count(root.tree), 0
  {
    Subtrees(root);
    var l;
    ghost var sub, other, was := Nodes(root.left), Nodes(root.right), root.tree;
    l, freed := BstDelete(root.left, value);
    assert Nodes(l) == sub - freed && Nodes(root.right) == other;
    assert TreeOf(l) == Delete(was.left, value) && TreeOf(root.right) == was.right && root.value == was.value;
    root.SetLeft(l);
    assert root.nodes == {root} + (sub - freed) + other;
    FreedBelow(root, sub, other, freed);
  }

  /** The assignment of the right subtree in `bst_delete`. */
  method DeleteRight(root: Node, value: int) returns (ghost freed: set<Node>)
    requires root.Valid()
    modifies root.nodes
    ensures root.Valid() && root.tree == old(root.tree).(right := Delete(old(root.tree.right), value))
    ensures freed <= old(root.nodes) && root.nodes == old(root.nodes) - freed
    ensures |freed| == Count(old(root.tree)) - Count(root.tree) <= 1
    decreases Count(root.tree), 0
  {
    Subtrees(root);
    var r;
    ghost var sub, other, was := Nodes(root.right), Nodes(root.left), root.tree;
    r, freed := BstDelete(root.right, value);
    assert Nodes(r) == sub - freed && Nodes(root.left) == other;
    assert TreeOf(r) == Delete(was.right, value) && TreeOf(root.left) == was.left && root.value == was.value;
    root.SetRight(r);
    assert root.nodes == {root} + other + (sub - freed);
    FreedBelow(root, sub, other, freed);
  }

  /** `bst_inorder`: what it prints. */
  function BstInorder(root: Node?): (s: seq<int>)
    requires Unshared(root)
    reads root, Nodes(root)
    ensures s == Inorder(TreeOf(root))
    decreases TreeOf(root)
  {
    if root == null then [] else BstInorder(root.left) + [root.value] + BstInorder(root.right)
  }

  /** `bst_preorder`: what it prints. */
  function BstPreorder(root: Node?): (s: seq<int>)
    requires Unshared(root)
    reads root, Nodes(root)
    ensures s == Preorder(TreeOf(root))
    decreases TreeOf(root)
  {
    if root == null then [] else [root.value] + BstPreorder(root.left) + BstPreorder(root.right)
  }

  /** `bst_postorder`: what it prints. */
  function BstPostorder(root: Node?): (s: seq<int>)
    requires Unshared(root)
    reads root, Nodes(root)
    ensures s == Postorder(TreeOf(root))
    decreases TreeOf(root)
  {
    if root == null then [] else BstPostorder(root.left) + BstPostorder(root.right) + [root.value]
  }

  /** `bst_height`: the number of nodes on a longest way down. */
  function BstHeight(root: Node?): (h: nat)
    requires Unshared(root)
    reads root, Nodes(root)
    ensures h == Height(TreeOf(root)) && LongestWay(TreeOf(root), h)
    decreases TreeOf(root)
  {
    HeightIsLongestWay(TreeOf(root));
    if root == null then 0
    else var lh, rh := BstHeight(root.left), BstHeight(root.right);
      1 + if lh > rh then lh else rh
  }

  /** `bst_count`: the number of distinct nodes. */
  function BstCount(root: Node?): (n: nat)
    requires Unshared(root)
    reads root, Nodes(root)
    ensures n == Count(TreeOf(root)) == |Nodes(root)|
    decreases TreeOf(root)
  {
    if root == null then 0 else 1 + BstCount(root.left) + BstCount(root.right)
  }
}
