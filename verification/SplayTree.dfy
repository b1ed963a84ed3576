/** The splay tree operations of `tree.h` on heap nodes. */
module SplayTree {
  import opened Elements
  import opened SplayShape

  class SplayHead {
    var root: Node?
    ghost var tree: Tree

    ghost predicate Valid()
      reads this, Nodes(tree)
    {
      Rep(tree, Snap(Nodes(tree))) && root == Root(tree) && Sorted(InOrder(tree))
    }

    /** The elements in the order of their keys. */
    ghost function Contents(): seq<Node>
      reads this
    {
      InOrder(tree)
    }

    /** SPLAY_INIT. */
    constructor ()
      ensures Valid() && Contents() == []
    {
      root, tree := null, Leaf;
    }

    /** SPLAY_ROTATE_RIGHT. */
    method RotateRight(tmp: Node, ghost s: set<Node>, ghost l: Spine, ghost t: Tree, ghost r: Spine, ghost dummy: Node)
      requires Apart(l, t, r, dummy, Snap(s)) && root == Root(t) && t.Fork? && t.l.Fork? && tmp == t.l.x
      modifies `root, s
      ensures Apart(l, RotR(t), r, dummy, Snap(s)) && root == Root(RotR(t))
      ensures Whole(l, RotR(t), r) == Whole(l, t, r)
    {
      ghost var m := Snap(s);
      assert Rep(t.l, m);
      root.splay := root.splay.(left := tmp.splay.right);
      tmp.splay := tmp.splay.(right := root);
      root := tmp;
      RotatedRight(l, t, r, dummy, m, Snap(s));
    }

    /** SPLAY_ROTATE_LEFT. */
    method RotateLeft(tmp: Node, ghost s: set<Node>, ghost l: Spine, ghost t: Tree, ghost r: Spine, ghost dummy: Node)
      requires Apart(l, t, r, dummy, Snap(s)) && root == Root(t) && t.Fork? && t.r.Fork? && tmp == t.r.x
      modifies `root, s
      ensures Apart(l, RotL(t), r, dummy, Snap(s)) && root == Root(RotL(t))
      ensures Whole(l, RotL(t), r) == Whole(l, t, r)
    {
      ghost var m := Snap(s);
      assert Rep(t.r, m);
      root.splay := root.splay.(right := tmp.splay.left);
      tmp.splay := tmp.splay.(left := root);
      root := tmp;
      RotatedLeft(l, t, r, dummy, m, Snap(s));
    }

    /** SPLAY_LINKLEFT, on the hole of the right tree. */
    method LinkLeft(right0: Node, ghost s: set<Node>, ghost l: Spine, ghost t: Tree, ghost r: Spine, ghost dummy: Node)
      returns (right: Node)
      requires Apart(l, t, r, dummy, Snap(s)) && root == Root(t) && t.Fork? && right0 == Holder(r, dummy)
      modifies `root, s
      ensures Apart(l, t.l, Link(r, t.x, t.r), dummy, Snap(s)) && root == Root(t.l) && right == t.x
      ensures Whole(l, t.l, Link(r, t.x, t.r)) == Whole(l, t, r)
    {
      ghost var m := Snap(s);
      DummyApart(r, R, dummy, m);
      assert r.Link? ==> r.n in SpineNodes(r);
      right := right0;
      right.splay := right.splay.(left := root);
      right := root;
      root := root.splay.left;
      LinkedRight(l, t, r, dummy, m, Snap(s));
    }

    /** SPLAY_LINKRIGHT, on the hole of the left tree. */
    method LinkRight(left0: Node, ghost s: set<Node>, ghost l: Spine, ghost t: Tree, ghost r: Spine, ghost dummy: Node)
      returns (left: Node)
      requires Apart(l, t, r, dummy, Snap(s)) && root == Root(t) && t.Fork? && left0 == Holder(l, dummy)
      modifies `root, s
      ensures Apart(Link(l, t.x, t.l), t.r, r, dummy, Snap(s)) && root == Root(t.r) && left == t.x
      ensures Whole(Link(l, t.x, t.l), t.r, r) == Whole(l, t, r)
    {
      ghost var m := Snap(s);
      DummyApart(l, L, dummy, m);
      assert l.Link? ==> l.n in SpineNodes(l);
      left := left0;
      left.splay := left.splay.(right := root);
      left := root;
      root := root.splay.right;
      LinkedLeft(l, t, r, dummy, m, Snap(s));
    }

    /** SPLAY_ASSEMBLE. */
    method Assemble(node: Node, left: Node, right: Node, ghost s: set<Node>, ghost l: Spine, ghost t: Tree, ghost r: Spine)
      requires Apart(l, t, r, node, Snap(s)) && root == Root(t) && t.Fork?
      requires left == Holder(l, node) && right == Holder(r, node)
      modifies s
      ensures Rep(Assembled(l, t, r), Snap(s)) && root == Root(Assembled(l, t, r))
    {
      ghost var m := Snap(s);
      DummyApart(l, L, node, m);
      DummyApart(r, R, node, m);
      assert l.Link? ==> l.n in SpineNodes(l);
      assert r.Link? ==> r.n in SpineNodes(r);
      left.splay := left.splay.(right := root.splay.left);
      right.splay := right.splay.(left := root.splay.right);
      ghost var m1 := Snap(s);
      HolesFilled(l, t, r, node, m, m1);
      root.splay := root.splay.(left := node.splay.right);
      root.splay := root.splay.(right := node.splay.left);
      AssembledRep(l, t, r, node, m1, Snap(s));
    }

    /** One round of the SPLAY loop when the key is smaller than the root's; `done` reports a
        `break`. */
    method StepLeft(elm: Node, right0: Node, ghost s: set<Node>, ghost l: Spine, ghost t0: Tree, ghost r: Spine, ghost dummy: Node)
      returns (right: Node, done: bool, ghost t: Tree, ghost r': Spine)
      requires Apart(l, t0, r, dummy, Snap(s)) && root == Root(t0) && t0.Fork? && right0 == Holder(r, dummy)
      requires Sorted(Whole(l, t0, r)) && Narrowed(l, r, elm.key) && elm.key < t0.x.key
      modifies `root, s
      ensures Apart(l, t, r', dummy, Snap(s)) && root == Root(t) && t.Fork? && right == Holder(r', dummy)
      ensures Whole(l, t, r') == Whole(l, t0, r) && Narrowed(l, r', elm.key)
      ensures if done then elm.key < t.x.key && t.l == Leaf else t < t0
    {
      right, t, r' := right0, t0, r;
      assert Rep(t.l, Snap(s));
      var tmp := root.splay.left;
      if tmp == null {
        return right, true, t, r';
      }
      if elm.key < tmp.key {
        RotateRight(tmp, s, l, t, r, dummy);
        t := RotR(t);
        assert Rep(t.l, Snap(s));
        if root.splay.left == null {
          return right, true, t, r';
        }
      }
      NarrowStep(l, t, r, elm.key);
      right := LinkLeft(right, s, l, t, r, dummy);
      t, r', done := t.l, Link(r, t.x, t.r), false;
    }

    method StepRight(elm: Node, left0: Node, ghost s: set<Node>, ghost l: Spine, ghost t0: Tree, ghost r: Spine, ghost dummy: Node)
      returns (left: Node, done: bool, ghost t: Tree, ghost l': Spine)
      requires Apart(l, t0, r, dummy, Snap(s)) && root == Root(t0) && t0.Fork? && left0 == Holder(l, dummy)
      requires Sorted(Whole(l, t0, r)) && Narrowed(l, r, elm.key) && elm.key > t0.x.key
      modifies `root, s
      ensures Apart(l', t, r, dummy, Snap(s)) && root == Root(t) && t.Fork? && left == Holder(l', dummy)
      ensures Whole(l', t, r) == Whole(l, t0, r) && Narrowed(l', r, elm.key)
      ensures if done then elm.key > t.x.key && t.r == Leaf else t < t0
    {
      left, t, l' := left0, t0, l;
      assert Rep(t.r, Snap(s));
      var tmp := root.splay.right;
      if tmp == null {
        return left, true, t, l';
      }
      if elm.key > tmp.key {
        RotateLeft(tmp, s, l, t, r, dummy);
        t := RotL(t);
        assert Rep(t.r, Snap(s));
        if root.splay.right == null {
          return left, true, t, l';
        }
      }
      NarrowStep(l, t, r, elm.key);
      left := LinkRight(left, s, l, t, r, dummy);
      t, l', done := t.r, Link(l, t.x, t.l), false;
    }

    /** The loop of SPLAY. */
    method TakeApart(elm: Node, node: Node, ghost s: set<Node>, ghost t0: Tree)
      returns (left: Node, right: Node, ghost l: Spine, ghost t: Tree, ghost r: Spine)
      requires Apart(Nil, t0, Nil, node, Snap(s)) && root == Root(t0) && t0.Fork? && Sorted(InOrder(t0))
      modifies `root, s
      ensures Apart(l, t, r, node, Snap(s)) && root == Root(t) && t.Fork?
      ensures left == Holder(l, node) && right == Holder(r, node)
      ensures Whole(l, t, r) == InOrder(t0) && Near(Assembled(l, t, r), elm.key)
    {
      var done := false;
      left, right, l, t, r := node, node, Nil, t0, Nil;
      assert Whole(l, t, r) == InOrder(t0);
      while elm.key != root.key
        invariant Apart(l, t, r, node, Snap(s)) && root == Root(t) && t.Fork? && !done
        invariant left == Holder(l, node) && right == Holder(r, node)
        invariant Whole(l, t, r) == InOrder(t0) && Narrowed(l, r, elm.key)
        decreases t
      {
        if elm.key < root.key {
          right, done, t, r := StepLeft(elm, right, s, l, t, r, node);
        } else {
          left, done, t, l := StepRight(elm, left, s, l, t, r, node);
        }
        if done { break; }
      }
      AssembledNear(l, t, r, elm.key);
    }

    /** SPLAY, given its stack-allocated node. */
    method SplayWith(elm: Node, node: Node, ghost s: set<Node>, ghost t0: Tree) returns (ghost t': Tree)
      requires Apart(Nil, t0, Nil, node, Snap(s)) && root == Root(t0) && t0.Fork? && Sorted(InOrder(t0))
      modifies `root, s
      ensures Rep(t', Snap(s)) && root == Root(t') && t'.Fork? && Near(t', elm.key)
      ensures InOrder(t') == InOrder(t0) && Nodes(t') == Nodes(t0)
    {
      ghost var l, t, r;
      var left, right;
      left, right, l, t, r := TakeApart(elm, node, s, t0);
      Assemble(node, left, right, s, l, t, r);
      AssembledOrder(l, t, r);
      t' := Assembled(l, t, r);
      SameNodes(t', t0);
    }

    /** SPLAY: the elements and their order stay, and the key, or its predecessor or successor,
        comes to the root. */
    method Splay(elm: Node)
      requires Valid() && root != null
      modifies this, Nodes(tree)
      ensures Valid() && tree.Fork? && Near(tree, elm.key)
      ensures Contents() == old(Contents()) && Nodes(tree) == old(Nodes(tree))
    {
      ghost var t0, m0 := tree, Snap(Nodes(tree));
      assert allocated(Nodes(tree));
      var node := new Node(0);
      node.splay := SplayEntry(null, null);
      ghost var s := Nodes(t0) + {node};
      Begun(t0, node, m0, Snap(s));
      ghost var t' := SplayWith(elm, node, s, t0);
      RepFrame(t', Snap(s), Snap(Nodes(t')));
      tree := t';
    }

    /** SPLAY_FIND. */
    method Find(elm: Node) returns (r: Node?)
      requires Valid()
      modifies this, Nodes(tree)
      ensures Valid() && Contents() == old(Contents()) && Nodes(tree) == old(Nodes(tree))
      ensures r != null ==> r in Contents() && r.key == elm.key && root == r
      ensures r == null ==> forall n :: n in Contents() ==> n.key != elm.key
    {
      if root == null {
        return null;
      }
      Splay(elm);
      NearOnly(tree, elm.key);
      if elm.key == root.key {
        return root;
      }
      return null;
    }

    /** SPLAY_INSERT.  An element with the same key is returned and nothing is added; otherwise
        `elm` is placed between the smaller and the larger elements. */
    method Insert(elm: Node) returns (r: Node?, ghost before: seq<Node>, ghost after: seq<Node>)
      requires Valid()
      modifies this, Nodes(tree), elm
      ensures Valid()
      ensures r != null ==> r in Contents() && r.key == elm.key && Contents() == old(Contents()) && root == r
      ensures r != null && elm !in old(Nodes(tree)) ==> elm.splay == old(elm.splay)
      ensures r == null ==>
        && (forall n :: n in old(Contents()) ==> n.key != elm.key)
        && old(Contents()) == before + after && Contents() == before + [elm] + after
        && root == elm
    {
      before, after := [], [];
      if root == null {
        elm.splay := SplayEntry(null, null);
        root, tree := elm, Fork(Leaf, elm, Leaf);
        return null, before, after;
      }
      Splay(elm);
      NearOnly(tree, elm.key);
      InOrderNodes(tree);
      var comp := elm.key - root.key;
      if comp < 0 {
        before, after := SplitSmaller(elm);
      } else if comp > 0 {
        before, after := SplitLarger(elm);
      } else {
        return root, before, after;
      }
      r := null;
    }

    /** The first splitting branch of SPLAY_INSERT, and the new root. */
    method SplitSmaller(elm: Node) returns (ghost before: seq<Node>, ghost after: seq<Node>)
      requires Valid() && tree.Fork? && Near(tree, elm.key) && elm.key < tree.x.key && elm !in Nodes(tree)
      modifies this, tree.x, elm
      ensures Valid() && old(Contents()) == before + after && Contents() == before + [elm] + after && root == elm
    {
      ghost var t, m := tree, Snap(Nodes(tree));
      elm.splay := elm.splay.(left := root.splay.left);
      elm.splay := elm.splay.(right := root);
      root.splay := root.splay.(left := null);
      root := elm;
      SplitBeforeOk(t, elm, m, Snap(Nodes(t) + {elm}));
      tree, before, after := SplitBefore(t, elm), InOrder(t.l), [t.x] + InOrder(t.r);
    }

    /** The second one. */
    method SplitLarger(elm: Node) returns (ghost before: seq<Node>, ghost after: seq<Node>)
      requires Valid() && tree.Fork? && Near(tree, elm.key) && elm.key > tree.x.key && elm !in Nodes(tree)
      modifies this, tree.x, elm
      ensures Valid() && old(Contents()) == before + after && Contents() == before + [elm] + after && root == elm
    {
      ghost var t, m := tree, Snap(Nodes(tree));
      elm.splay := elm.splay.(right := root.splay.right);
      elm.splay := elm.splay.(left := root);
      root.splay := root.splay.(right := null);
      root := elm;
      SplitAfterOk(t, elm, m, Snap(Nodes(t) + {elm}));
      tree, before, after := SplitAfter(t, elm), InOrder(t.l) + [t.x], InOrder(t.r);
    }

    /** SPLAY_REMOVE: the element `gone` with the key of `elm` leaves; what is returned is the
        argument itself, which is the element that left exactly if it was in the tree. */
    method Remove(elm: Node) returns (r: Node?, ghost gone: Node, ghost before: seq<Node>, ghost after: seq<Node>)
      requires Valid()
      modifies this, Nodes(tree)
      ensures Valid()
      ensures r == null ==> Contents() == old(Contents()) && forall n :: n in Contents() ==> n.key != elm.key
      ensures r != null ==>
        && r == elm && gone.key == elm.key
        && old(Contents()) == before + [gone] + after && Contents() == before + after
        && (r == gone <==> elm in old(Contents()))
    {
      gone, before, after := elm, [], [];
      if root == null {
        return null, gone, before, after;
      }
      Splay(elm);
      NearOnly(tree, elm.key);
      if elm.key != root.key {
        return null, gone, before, after;
      }
      gone, before, after := tree.x, InOrder(tree.l), InOrder(tree.r);
      RemoveRoot(elm);
      r := elm;
    }

    /** The second splay of SPLAY_REMOVE, on the left part alone; `rest` is the right part. */
    method SplayPart(elm: Node, ghost rest: Tree)
      requires Valid() && root != null && Below(Contents(), elm.key)
      requires Rep(rest, Snap(Nodes(rest))) && Nodes(rest) !! Nodes(tree)
      modifies this, Nodes(tree)
      ensures Valid() && tree.Fork? && tree.r == Leaf
      ensures Contents() == old(Contents()) && Nodes(tree) == old(Nodes(tree))
      ensures Rep(rest, Snap(Nodes(rest)))
    {
      ghost var c := Contents();
      assert allocated(Nodes(rest));
      Splay(elm);
      LeftPartClosed(tree, c, elm.key);
    }

    /** The right part becomes the right subtree of the left part's root. */
    method Rejoin(tmp: Node?, ghost rest: Tree)
      requires Valid() && tree.Fork? && tree.r == Leaf
      requires Rep(rest, Snap(Nodes(rest))) && Nodes(rest) !! Nodes(tree) && tmp == Root(rest)
      requires Sorted(Contents() + InOrder(rest))
      modifies this, tree.x
      ensures Valid() && Contents() == old(Contents()) + InOrder(rest)
    {
      ghost var t, s := tree, Nodes(tree) + Nodes(rest);
      ghost var m := Snap(s);
      RepFrame(rest, Snap(Nodes(rest)), m);
      RepFrame(t, Snap(Nodes(t)), m);
      root.splay := root.splay.(right := tmp);
      Joined(t, rest, m, Snap(s));
      tree := Fork(t.l, t.x, rest);
      RepFrame(tree, Snap(s), Snap(Nodes(tree)));
    }

    /** SPLAY_REMOVE once the key is at the root.  The second splay leaves the left part's root
        without a right child, which is what makes the join lose nothing. */
    method RemoveRoot(elm: Node)
      requires Valid() && tree.Fork? && tree.x.key == elm.key
      modifies this, Nodes(tree)
      ensures Valid() && Contents() == InOrder(old(tree).l) + InOrder(old(tree).r)
    {
      ghost var t, m := tree, Snap(Nodes(tree));
      assert allocated(Nodes(t));
      RootOrder(t);
      if root.splay.left == null {
        root, tree := root.splay.right, t.r;
        RepFrame(t.r, m, Snap(Nodes(t.r)));
      } else {
        var tmp := root.splay.right;
        root, tree := root.splay.left, t.l;
        RepFrame(t.l, m, Snap(Nodes(t.l)));
        RepFrame(t.r, m, Snap(Nodes(t.r)));
        SplayPart(elm, t.r);
        Rejoin(tmp, t.r);
      }
    }

    /** SPLAY_NEXT, for an element of the tree. */
    method Next(elm0: Node) returns (r: Node?)
      requires Valid() && elm0 in Contents()
      modifies this, Nodes(tree)
      ensures Valid() && Contents() == old(Contents()) && Nodes(tree) == old(Nodes(tree))
      ensures IsNext(Contents(), elm0, r) && root == elm0
    {
      Splay(elm0);
      NearOnly(tree, elm0.key);
      var elm := elm0;
      NextIn(InOrder(tree.l), tree.x, InOrder(tree.r));
      if elm.splay.right != null {
        elm := elm.splay.right;
        assert allocated(Nodes(tree));
        r := Leftmost(elm, tree.r, Nodes(tree));
      } else {
        r := null;
      }
    }

    /** Its loop: down the left links. */
    method Leftmost(elm0: Node, ghost t0: Tree, ghost s: set<Node>) returns (elm: Node)
      requires Rep(t0, Snap(s)) && Nodes(t0) <= s && t0.Fork? && elm0 == t0.x
      ensures elm == InOrder(t0)[0]
    {
      elm := elm0;
      ghost var t, rest: seq<Node> := t0, [];
      while elm.splay.left != null
        invariant Rep(t, Snap(s)) && Nodes(t) <= s && t.Fork? && elm == t.x
        invariant InOrder(t) + rest == InOrder(t0)
        decreases t
      {
        rest := [t.x] + InOrder(t.r) + rest;
        t := t.l;
        elm := elm.splay.left;
      }
    }

    /** One round of the SPLAY_MINMAX loop towards the minimum. */
    method MinStep(right0: Node, ghost s: set<Node>, ghost t0: Tree, ghost r: Spine, ghost dummy: Node)
      returns (right: Node, done: bool, ghost t: Tree, ghost r': Spine)
      requires Apart(Nil, t0, r, dummy, Snap(s)) && root == Root(t0) && t0.Fork? && right0 == Holder(r, dummy)
      modifies `root, s
      ensures Apart(Nil, t, r', dummy, Snap(s)) && root == Root(t) && t.Fork? && right == Holder(r', dummy)
      ensures Whole(Nil, t, r') == Whole(Nil, t0, r)
      ensures if done then t.l == Leaf else t < t0
    {
      right, t, r' := right0, t0, r;
      assert Rep(t.l, Snap(s));
      var tmp := root.splay.left;
      if tmp == null {
        return right, true, t, r';
      }
      RotateRight(tmp, s, Nil, t, r, dummy);
      t := RotR(t);
      assert Rep(t.l, Snap(s));
      if root.splay.left == null {
        return right, true, t, r';
      }
      right := LinkLeft(right, s, Nil, t, r, dummy);
      t, r', done := t.l, Link(r, t.x, t.r), false;
    }

    /** The same towards the maximum. */
    method MaxStep(left0: Node, ghost s: set<Node>, ghost l: Spine, ghost t0: Tree, ghost dummy: Node)
      returns (left: Node, done: bool, ghost t: Tree, ghost l': Spine)
      requires Apart(l, t0, Nil, dummy, Snap(s)) && root == Root(t0) && t0.Fork? && left0 == Holder(l, dummy)
      modifies `root, s
      ensures Apart(l', t, Nil, dummy, Snap(s)) && root == Root(t) && t.Fork? && left == Holder(l', dummy)
      ensures Whole(l', t, Nil) == Whole(l, t0, Nil)
      ensures if done then t.r == Leaf else t < t0
    {
      left, t, l' := left0, t0, l;
      assert Rep(t.r, Snap(s));
      var tmp := root.splay.right;
      if tmp == null {
        return left, true, t, l';
      }
      RotateLeft(tmp, s, l, t, Nil, dummy);
      t := RotL(t);
      assert Rep(t.r, Snap(s));
      if root.splay.right == null {
        return left, true, t, l';
      }
      left := LinkRight(left, s, l, t, Nil, dummy);
      t, l', done := t.r, Link(l, t.x, t.l), false;
    }

    /** SPLAY_MINMAX, given its stack-allocated node.  With `comp == 0` the source never leaves
        its loop; its two callers pass -1 and 1. */
    method MinMaxWith(comp: int, node: Node, ghost s: set<Node>, ghost t0: Tree) returns (ghost t': Tree)
      requires Apart(Nil, t0, Nil, node, Snap(s)) && root == Root(t0) && t0.Fork? && comp != 0
      modifies `root, s
      ensures Rep(t', Snap(s)) && root == Root(t') && t'.Fork?
      ensures InOrder(t') == InOrder(t0) && Nodes(t') == Nodes(t0)
      ensures if comp < 0 then t'.l == Leaf else t'.r == Leaf
    {
      ghost var l, t, r := Nil, t0, Nil;
      var left, right, done := node, node, false;
      assert Whole(l, t, r) == InOrder(t0);
      while !done
        invariant Apart(l, t, r, node, Snap(s)) && root == Root(t) && t.Fork?
        invariant left == Holder(l, node) && right == Holder(r, node)
        invariant Whole(l, t, r) == InOrder(t0)
        invariant if comp < 0 then l == Nil && (done ==> t.l == Leaf) else r == Nil && (done ==> t.r == Leaf)
        decreases !done, t
      {
        if comp < 0 {
          right, done, t, r := MinStep(right, s, t, r, node);
        } else {
          left, done, t, l := MaxStep(left, s, l, t, node);
        }
      }
      Assemble(node, left, right, s, l, t, r);
      AssembledOrder(l, t, r);
      t' := Assembled(l, t, r);
      SameNodes(t', t0);
    }

    /** SPLAY_MINMAX. */
    method SplayOut(val: int)
      requires Valid() && root != null && val != 0
      modifies this, Nodes(tree)
      ensures Valid() && tree.Fork? && Contents() == old(Contents()) && Nodes(tree) == old(Nodes(tree))
      ensures if val < 0 then tree.l == Leaf else tree.r == Leaf
    {
      ghost var t0, m0 := tree, Snap(Nodes(tree));
      assert allocated(Nodes(tree));
      var node := new Node(0);
      node.splay := SplayEntry(null, null);
      ghost var s := Nodes(t0) + {node};
      Begun(t0, node, m0, Snap(s));
      ghost var t' := MinMaxWith(val, node, s, t0);
      RepFrame(t', Snap(s), Snap(Nodes(t')));
      tree := t';
    }

    /** SPLAY_MIN (for -1) and SPLAY_MAX (for 1). */
    method MinMax(val: int) returns (r: Node?)
      requires Valid() && val != 0
      modifies this, Nodes(tree)
      ensures Valid() && Contents() == old(Contents()) && Nodes(tree) == old(Nodes(tree))
      ensures r == null <==> Contents() == []
      ensures root == r
      ensures r != null && val < 0 ==> r == Contents()[0]
      ensures r != null && val > 0 ==> r == Contents()[|Contents()| - 1]
    {
      if root == null {
        return null;
      }
      SplayOut(val);
      OutermostRoot(tree);
      r := root;
    }

    /** SPLAY_FOREACH, collecting what it visits. */
    method Foreach() returns (visited: seq<Node>)
      requires Valid()
      modifies this, Nodes(tree)
      ensures Valid() && Contents() == old(Contents()) && visited == Contents()
    {
      ghost var c := Contents();
      visited := [];
      var x := MinMax(-1);
      while x != null
        invariant Valid() && Contents() == c && Nodes(tree) == old(Nodes(tree))
        invariant visited <= c && x == NodeAt(c, |visited|)
        decreases |c| - |visited|
      {
        ghost var i := |visited|;
        visited := visited + [x];
        var y := x;
        x := Next(y);
        assert IsNext(c, c[i], x);
      }
    }
  }

  /** An element removed by a twin: the twin is returned, though it was never in the tree. */
  method RemoveTwin(key: int) returns (x: Node, y: Node, r: Node?, ghost gone: Node)
    ensures fresh(x) && fresh(y) && x.key == y.key == key
    ensures gone == x && r == y && r != gone
  {
    x := new Node(key);
    y := new Node(key);
    var head := new SplayHead();
    ghost var before, after;
    r, before, after := head.Insert(x);
    assert head.Contents() == [x];
    InOrderNodes(head.tree);
    r, gone, before, after := head.Remove(y);
    assert [x] == before + [gone] + after;
    assert gone in [x];
  }
}
