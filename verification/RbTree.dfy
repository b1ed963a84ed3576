/** The red-black tree operations of `tree.h` on heap nodes, each proved against the functional
    tree and the zipper of `RbShape`. */
module RbTree {
  import opened Elements
  import opened RbShape
  import opened RbSteps
  import opened RbDelete

  /** What the focus and its parent look like in the link fields. */
  lemma Peek(k: Ctx, t: Tree, root: Node?, m: Links)
    requires At(k, t, root, m)
    ensures t.Fork? ==> t.x in m && t.x in Nodes(t) && m[t.x] == RbEntry(Root(t.l), Root(t.r), Parent(k), t.c)
    ensures k.Top? ==> root == Root(t)
    ensures !k.Top? ==>
      && k.x in m && k.x in CtxNodes(k) && k.x !in Nodes(t)
      && m[k.x] == (if k.LeftOf? then RbEntry(Root(t), Root(k.sib), Parent(k.up), k.c)
                    else RbEntry(Root(k.sib), Root(t), Parent(k.up), k.c))
      && (k.sib.Fork? ==> k.sib.x !in Nodes(t) && k.sib.x in Nodes(k.sib) && k.sib.x != k.x)
  {}

  lemma PeekChildren(k: Ctx, t: Tree, root: Node?, m: Links)
    requires At(k, t, root, m) && t.Fork?
    ensures t.x in m && m[t.x] == RbEntry(Root(t.l), Root(t.r), Parent(k), t.c)
    ensures t.l.Fork? ==> t.l.x in m && m[t.l.x].color == t.l.c
    ensures t.r.Fork? ==> t.r.x in m && m[t.r.x].color == t.r.c
  {
    assert Rep(t.l, t.x, m) && Rep(t.r, t.x, m);
  }

  /** What the parent of the focus and its sibling look like. */
  lemma PeekSibling(k: Ctx, t: Tree, root: Node?, m: Links)
    requires At(k, t, root, m) && !k.Top?
    ensures k.x in m && m[k.x] == if k.LeftOf? then RbEntry(Root(t), Root(k.sib), Parent(k.up), k.c)
                                  else RbEntry(Root(k.sib), Root(t), Parent(k.up), k.c)
    ensures k.sib.Fork? ==> k.sib.x in m && m[k.sib.x] == RbEntry(Root(k.sib.l), Root(k.sib.r), k.x, k.sib.c)
    ensures k.sib.Fork? && k.sib.l.Fork? ==> k.sib.l.x in m && m[k.sib.l.x].color == k.sib.l.c
    ensures k.sib.Fork? && k.sib.r.Fork? ==> k.sib.r.x in m && m[k.sib.r.x].color == k.sib.r.c
  {
    assert k.sib.Fork? ==> Rep(k.sib.l, k.sib.x, m) && Rep(k.sib.r, k.sib.x, m);
  }

  /** The head points to the focus exactly when the context is empty. */
  lemma WhereIsRoot(k: Ctx, t: Tree, root: Node?, m: Links)
    requires At(k, t, root, m)
    ensures Root(t) == root <==> k.Top?
    ensures t.Fork? ==> t.x in m && m[t.x].color == t.c
  {
    if !k.Top? {
      RootInCtx(k, Root(t), root, m);
      assert t.Fork? ==> t.x in Nodes(t);
    }
  }

  /** The link fields a left rotation reads: `x`, the child `y` that rises, the subtree root `b`
      that changes sides, and the parent `p`. */
  lemma PeekRotateLeft(k: Ctx, t: Tree, root: Node?, m: Links)
    requires t.Fork? && t.r.Fork? && At(k, t, root, m)
    ensures var x, y, p, b := t.x, t.r.x, Parent(k), Root(t.r.l);
      && x in m && y in m && x != y
      && m[x] == RbEntry(Root(t.l), t.r.x, Parent(k), t.c)
      && m[y] == RbEntry(Root(t.r.l), Root(t.r.r), x, t.r.c)
      && (b != null ==> b in m && b != x && b != y && b != p)
      && (p == null ==> root == x)
      && (p != null ==> p in m && p != x && p != y)
      && (p != null ==> if k.LeftOf? then m[p].left == x else m[p].left != x)
  {
    assert Rep(t.r, t.x, m);
    assert t.r.l.Fork? ==> t.r.l.x in Nodes(t.r.l) && Rep(t.r.l, t.r.x, m);
    assert !k.Top? ==> k.x in CtxNodes(k);
    assert !k.Top? && k.sib.Fork? ==> k.sib.x in Nodes(k.sib) && k.sib.x in CtxNodes(k);
  }

  lemma RotatedLeftFold(k: Ctx, t: Tree, root: Node?, root': Node?, m: Links, m': Links)
    requires t.Fork? && t.r.Fork? && At(k, t, root, m)
    requires Rep(t.l, t.x, m') && Rep(t.r.l, t.x, m') && Rep(t.r.r, t.r.x, m') && RepCtx(k, t.r.x, root', m')
    requires t.x in m' && m'[t.x] == RbEntry(Root(t.l), Root(t.r.l), t.r.x, t.c)
    requires t.r.x in m' && m'[t.r.x] == RbEntry(t.x, Root(t.r.r), Parent(k), t.r.c)
    ensures At(k, RotL(t), root', m')
  {
    assert Rep(t.r, t.x, m);
    assert Rep(RotL(t).l, t.r.x, m');
    assert Nodes(RotL(t)) == Nodes(t);
  }

  /** The effect of a left rotation on the link fields, for the rotated tree. */
  lemma RotatedLeft(k: Ctx, t: Tree, root: Node?, root': Node?, m: Links, m': Links)
    requires t.Fork? && t.r.Fork? && At(k, t, root, m)
    requires var x, y, p, b := t.x, t.r.x, Parent(k), Root(t.r.l);
      && x in m' && m'[x] == RbEntry(Root(t.l), b, y, t.c)
      && y in m' && m'[y] == RbEntry(x, Root(t.r.r), p, t.r.c)
      && (b != null ==> b in m && b in m' && m'[b] == m[b].(parent := x))
      && (if p == null then root' == y
          else root' == root && p in m && p in m' && m'[p] == if k.LeftOf? then m[p].(left := y) else m[p].(right := y))
      && forall n :: n in m && n != x && n != y && n != p && n != b ==> n in m' && m'[n] == m[n]
    ensures At(k, RotL(t), root', m')
  {
    var x, y := t.x, t.r.x;
    assert Rep(t.r, x, m);
    assert t.r.l.Fork? ==> t.r.l.x in Nodes(t.r.l);
    RepFrame(t.l, x, m, m');
    RepFrame(t.r.r, y, m, m');
    Reparent(t.r.l, y, x, m, m');
    Redirected(k, x, root, y, root', m, m');
    RotatedLeftFold(k, t, root, root', m, m');
  }

  /** The link fields a right rotation reads: `x`, the child `y` that rises, the subtree root `b`
      that changes sides, and the parent `p`. */
  lemma PeekRotateRight(k: Ctx, t: Tree, root: Node?, m: Links)
    requires t.Fork? && t.l.Fork? && At(k, t, root, m)
    ensures var x, y, p, b := t.x, t.l.x, Parent(k), Root(t.l.r);
      && x in m && y in m && x != y
      && m[x] == RbEntry(t.l.x, Root(t.r), Parent(k), t.c)
      && m[y] == RbEntry(Root(t.l.l), Root(t.l.r), x, t.l.c)
      && (b != null ==> b in m && b != x && b != y && b != p)
      && (p == null ==> root == x)
      && (p != null ==> p in m && p != x && p != y)
      && (p != null ==> if k.LeftOf? then m[p].left == x else m[p].left != x)
  {
    assert Rep(t.l, t.x, m);
    assert t.l.r.Fork? ==> t.l.r.x in Nodes(t.l.r) && Rep(t.l.r, t.l.x, m);
    assert !k.Top? ==> k.x in CtxNodes(k);
    assert !k.Top? && k.sib.Fork? ==> k.sib.x in Nodes(k.sib) && k.sib.x in CtxNodes(k);
  }

  lemma RotatedRightFold(k: Ctx, t: Tree, root: Node?, root': Node?, m: Links, m': Links)
    requires t.Fork? && t.l.Fork? && At(k, t, root, m)
    requires Rep(t.r, t.x, m') && Rep(t.l.r, t.x, m') && Rep(t.l.l, t.l.x, m') && RepCtx(k, t.l.x, root', m')
    requires t.x in m' && m'[t.x] == RbEntry(Root(t.l.r), Root(t.r), t.l.x, t.c)
    requires t.l.x in m' && m'[t.l.x] == RbEntry(Root(t.l.l), t.x, Parent(k), t.l.c)
    ensures At(k, RotR(t), root', m')
  {
    assert Rep(t.l, t.x, m);
    assert Rep(RotR(t).r, t.l.x, m');
    assert Nodes(RotR(t)) == Nodes(t);
  }

  /** The mirror image. */
  lemma RotatedRight(k: Ctx, t: Tree, root: Node?, root': Node?, m: Links, m': Links)
    requires t.Fork? && t.l.Fork? && At(k, t, root, m)
    requires var x, y, p, b := t.x, t.l.x, Parent(k), Root(t.l.r);
      && x in m' && m'[x] == RbEntry(b, Root(t.r), y, t.c)
      && y in m' && m'[y] == RbEntry(Root(t.l.l), x, p, t.l.c)
      && (b != null ==> b in m && b in m' && m'[b] == m[b].(parent := x))
      && (if p == null then root' == y
          else root' == root && p in m && p in m' && m'[p] == if k.LeftOf? then m[p].(left := y) else m[p].(right := y))
      && forall n :: n in m && n != x && n != y && n != p && n != b ==> n in m' && m'[n] == m[n]
    ensures At(k, RotR(t), root', m')
  {
    var x, y := t.x, t.l.x;
    assert Rep(t.l, x, m);
    assert t.l.r.Fork? ==> t.l.r.x in Nodes(t.l.r);
    RepFrame(t.r, x, m, m');
    RepFrame(t.l.l, y, m, m');
    Reparent(t.l.r, y, x, m, m');
    Redirected(k, x, root, y, root', m, m');
    RotatedRightFold(k, t, root, root', m, m');
  }

  /** The effect of recolouring the root of the focus. */
  lemma Painted(k: Ctx, t: Tree, c: Color, root: Node?, m: Links, m': Links)
    requires t.Fork? && At(k, t, root, m)
    requires t.x in m' && m'[t.x] == m[t.x].(color := c) && Agree(m.Keys - {t.x}, m, m')
    ensures At(k, t.(c := c), root, m')
  {
    RepFrame(t.l, t.x, m, m');
    RepFrame(t.r, t.x, m, m');
    CtxFrame(k, t.x, root, m, m');
  }

  class RbHead {
    var root: Node?
    ghost var tree: Tree

    /** RB_COLOR(x) = c. */
    method Paint(x: Node, c: Color, ghost s: set<Node>, ghost k: Ctx, ghost t: Tree)
      requires t.Fork? && t.x == x && At(k, t, root, Snap(s))
      modifies s
      ensures At(k, t.(c := c), root, Snap(s))
      ensures InOrder(Plug(k, t.(c := c))) == InOrder(Plug(k, t))
    {
      ghost var m := Snap(s);
      x.rb := x.rb.(color := c);
      Painted(k, t, c, root, m, Snap(s));
      SamePlug(k, t, t.(c := c));
    }

    /** The fragment shared by the rotations and RB_REMOVE: the pointer to `elm`, in its parent
        or in the head, is made to point to `to`. */
    method Redirect(parent: Node?, elm: Node?, to: Node?)
      modifies `root, parent
      ensures parent == null ==> root == to
      ensures parent != null ==> root == old(root)
      ensures parent != null ==> parent.rb == (if old(parent.rb.left) == elm
                then old(parent.rb).(left := to) else old(parent.rb).(right := to))
    {
      if parent != null {
        if parent.rb.left == elm {
          parent.rb := parent.rb.(left := to);
        } else {
          parent.rb := parent.rb.(right := to);
        }
      } else {
        root := to;
      }
    }

    /** RB_ROTATE_LEFT. */
    method RotateLeft(elm: Node, ghost s: set<Node>, ghost k: Ctx, ghost t: Tree) returns (tmp: Node)
      requires t.Fork? && t.r.Fork? && t.x == elm && At(k, t, root, Snap(s))
      modifies `root, s
      ensures tmp == t.r.x && At(k, RotL(t), root, Snap(s))
      ensures InOrder(Plug(k, RotL(t))) == InOrder(Plug(k, t))
    {
      ghost var m, root0 := Snap(s), root;
      PeekRotateLeft(k, t, root, m);
      tmp := elm.rb.right;
      elm.rb := elm.rb.(right := tmp.rb.left);
      if tmp.rb.left != null {
        tmp.rb.left.rb := tmp.rb.left.rb.(parent := elm);
      }
      tmp.rb := tmp.rb.(parent := elm.rb.parent);
      Redirect(tmp.rb.parent, elm, tmp);
      tmp.rb := tmp.rb.(left := elm);
      elm.rb := elm.rb.(parent := tmp);
      RotatedLeft(k, t, root0, root, m, Snap(s));
      RotInOrder(k, t);
    }

    /** RB_ROTATE_RIGHT. */
    method RotateRight(elm: Node, ghost s: set<Node>, ghost k: Ctx, ghost t: Tree) returns (tmp: Node)
      requires t.Fork? && t.l.Fork? && t.x == elm && At(k, t, root, Snap(s))
      modifies `root, s
      ensures tmp == t.l.x && At(k, RotR(t), root, Snap(s))
      ensures InOrder(Plug(k, RotR(t))) == InOrder(Plug(k, t))
    {
      ghost var m, root0 := Snap(s), root;
      PeekRotateRight(k, t, root, m);
      tmp := elm.rb.left;
      elm.rb := elm.rb.(left := tmp.rb.right);
      if tmp.rb.right != null {
        tmp.rb.right.rb := tmp.rb.right.rb.(parent := elm);
      }
      tmp.rb := tmp.rb.(parent := elm.rb.parent);
      Redirect(tmp.rb.parent, elm, tmp);
      tmp.rb := tmp.rb.(right := elm);
      elm.rb := elm.rb.(parent := tmp);
      RotatedRight(k, t, root0, root, m, Snap(s));
      RotInOrder(k, t);
    }

    /** The red-uncle case of RB_INSERT_COLOR, the same on both sides. */
    method FlipColors(parent: Node, gparent: Node, uncle: Node, ghost s: set<Node>, ghost k: Ctx, ghost t: Tree)
      requires !k.Top? && !k.up.Top? && k.up.sib.Fork?
      requires parent == k.x && gparent == k.up.x && uncle == k.up.sib.x
      requires At(k, t, root, Snap(s))
      modifies s
      ensures At(k.up.up, Flipped(k, t), root, Snap(s))
      ensures InOrder(Plug(k.up.up, Flipped(k, t))) == InOrder(Plug(k, t))
    {
      ghost var g, u := k.up, k.up.sib;
      MoveUp(k, t, root, Snap(s));
      MoveUp(g, Wrap(k, t), root, Snap(s));
      ghost var ku := Other(g, Wrap(k, t));
      MoveUp(ku, u, root, Snap(s));
      Paint(uncle, Black, s, ku, u);
      MoveUp(ku, u.(c := Black), root, Snap(s));
      ghost var g' := Beside(g, u.(c := Black));
      MoveUp(g', Wrap(k, t), root, Snap(s));
      Paint(parent, Black, s, g', Wrap(k, t));
      ghost var p' := Wrap(k, t).(c := Black);
      MoveUp(g', p', root, Snap(s));
      Paint(gparent, Red, s, k.up.up, Wrap(g', p'));
    }

    /** The inner-grandchild case on the left: a rotation at the parent, after which the source
        exchanges the names of parent and element. */
    method StraightenLeft(elm0: Node, parent0: Node, ghost s: set<Node>, ghost k: Ctx, ghost t: Tree)
      returns (elm: Node, parent: Node, ghost rotations: nat)
      requires At(k, t, root, Snap(s)) && t.Fork? && t.x == elm0
      requires !k.Top? && parent0 == k.x && k.up.LeftOf?
      modifies `root, s
      ensures var (k', t') := Straight(k, t);
        && At(k', t', root, Snap(s)) && elm == t'.x && parent == k'.x
        && InOrder(Plug(k', t')) == InOrder(Plug(k, t))
      ensures rotations <= 1
    {
      elm, parent, rotations := elm0, parent0, 0;
      Peek(k, t, root, Snap(s));
      if parent.rb.right == elm {
        MoveUp(k, t, root, Snap(s));
        var tmp := RotateLeft(parent, s, k.up, Wrap(k, t));
        tmp := parent;
        parent := elm;
        elm := tmp;
        rotations := 1;
        var (k', t') := Straight(k, t);
        MoveUp(k', t', root, Snap(s));
      }
    }

    /** The mirror image. */
    method StraightenRight(elm0: Node, parent0: Node, ghost s: set<Node>, ghost k: Ctx, ghost t: Tree)
      returns (elm: Node, parent: Node, ghost rotations: nat)
      requires At(k, t, root, Snap(s)) && t.Fork? && t.x == elm0
      requires !k.Top? && parent0 == k.x && k.up.RightOf?
      modifies `root, s
      ensures var (k', t') := Straight(k, t);
        && At(k', t', root, Snap(s)) && elm == t'.x && parent == k'.x
        && InOrder(Plug(k', t')) == InOrder(Plug(k, t))
      ensures rotations <= 1
    {
      elm, parent, rotations := elm0, parent0, 0;
      Peek(k, t, root, Snap(s));
      if parent.rb.left == elm {
        MoveUp(k, t, root, Snap(s));
        var tmp := RotateRight(parent, s, k.up, Wrap(k, t));
        tmp := parent;
        parent := elm;
        elm := tmp;
        rotations := 1;
        var (k', t') := Straight(k, t);
        MoveUp(k', t', root, Snap(s));
      }
    }

    /** RB_SET_BLACKRED(parent, gparent). */
    method SetBlackRed(parent: Node, gparent: Node, ghost s: set<Node>, ghost k: Ctx, ghost t: Tree)
      requires At(k, t, root, Snap(s)) && !k.Top? && !k.up.Top? && parent == k.x && gparent == k.up.x
      modifies s
      ensures At(k.up.up, Wrap(Colored(k.up, Red), Wrap(Colored(k, Black), t)), root, Snap(s))
      ensures InOrder(Plug(k.up.up, Wrap(Colored(k.up, Red), Wrap(Colored(k, Black), t)))) == InOrder(Plug(k, t))
    {
      MoveUp(k, t, root, Snap(s));
      Paint(parent, Black, s, k.up, Wrap(k, t));
      ghost var p := Wrap(Colored(k, Black), t);
      MoveUp(k.up, p, root, Snap(s));
      Paint(gparent, Red, s, k.up.up, Wrap(k.up, p));
    }

    /** The outer-grandchild case on the left: recolouring and a rotation at the grandparent. */
    method RaiseLeft(parent: Node, gparent: Node, ghost s: set<Node>, ghost k: Ctx, ghost t: Tree)
      requires At(k, t, root, Snap(s)) && k.LeftOf? && k.up.LeftOf? && parent == k.x && gparent == k.up.x
      modifies `root, s
      ensures At(Raised(k), t, root, Snap(s))
      ensures InOrder(Plug(Raised(k), t)) == InOrder(Plug(k, t))
    {
      SetBlackRed(parent, gparent, s, k, t);
      var tmp := RotateRight(gparent, s, k.up.up, Wrap(Colored(k.up, Red), Wrap(Colored(k, Black), t)));
      MoveUp(Raised(k), t, root, Snap(s));
    }

    /** The outer-grandchild case on the right: recolouring and a rotation at the grandparent. */
    method RaiseRight(parent: Node, gparent: Node, ghost s: set<Node>, ghost k: Ctx, ghost t: Tree)
      requires At(k, t, root, Snap(s)) && k.RightOf? && k.up.RightOf? && parent == k.x && gparent == k.up.x
      modifies `root, s
      ensures At(Raised(k), t, root, Snap(s))
      ensures InOrder(Plug(Raised(k), t)) == InOrder(Plug(k, t))
    {
      SetBlackRed(parent, gparent, s, k, t);
      var tmp := RotateLeft(gparent, s, k.up.up, Wrap(Colored(k.up, Red), Wrap(Colored(k, Black), t)));
      MoveUp(Raised(k), t, root, Snap(s));
    }

    /** The left half of the RB_INSERT_COLOR loop body: the parent is a left child. */
    method InsertStepLeft(elm0: Node, parent0: Node, gparent: Node,
                          ghost s: set<Node>, ghost k: Ctx, ghost t: Tree, ghost h: nat)
      returns (elm: Node, ghost k': Ctx, ghost t': Tree, ghost h': nat, ghost rotations: nat)
      requires At(k, t, root, Snap(s)) && Grafted(k, t, h) && t.x == elm0
      requires !k.Top? && k.c == Red && parent0 == k.x && k.up.LeftOf? && gparent == k.up.x
      modifies `root, s
      ensures At(k', t', root, Snap(s)) && Grafted(k', t', h') && t'.x == elm
      ensures InOrder(Plug(k', t')) == InOrder(Plug(k, t))
      ensures Depth(k') < Depth(k) && rotations <= 2
      ensures rotations > 0 ==> !k'.Top? && k'.c == Black
    {
      elm := elm0;
      var parent := parent0;
      MoveUp(k, t, root, Snap(s));
      PeekSibling(k.up, Wrap(k, t), root, Snap(s));
      var tmp := gparent.rb.right;
      if tmp != null && tmp.rb.color == Red {
        FlipColors(parent, gparent, tmp, s, k, t);
        FlippedOk(k, t, h);
        elm, k', t', h', rotations := gparent, k.up.up, Flipped(k, t), h + 1, 0;
      } else {
        elm, parent, rotations := StraightenLeft(elm, parent, s, k, t);
        StraightOk(k, t, h);
        k', t' := Straight(k, t).0, Straight(k, t).1;
        RaisedOk(k', t', h);
        RaiseLeft(parent, gparent, s, k', t');
        k', h', rotations := Raised(k'), h, rotations + 1;
      }
    }

    /** The right half, the mirror image. */
    method InsertStepRight(elm0: Node, parent0: Node, gparent: Node,
                           ghost s: set<Node>, ghost k: Ctx, ghost t: Tree, ghost h: nat)
      returns (elm: Node, ghost k': Ctx, ghost t': Tree, ghost h': nat, ghost rotations: nat)
      requires At(k, t, root, Snap(s)) && Grafted(k, t, h) && t.x == elm0
      requires !k.Top? && k.c == Red && parent0 == k.x && k.up.RightOf? && gparent == k.up.x
      modifies `root, s
      ensures At(k', t', root, Snap(s)) && Grafted(k', t', h') && t'.x == elm
      ensures InOrder(Plug(k', t')) == InOrder(Plug(k, t))
      ensures Depth(k') < Depth(k) && rotations <= 2
      ensures rotations > 0 ==> !k'.Top? && k'.c == Black
    {
      elm := elm0;
      var parent := parent0;
      MoveUp(k, t, root, Snap(s));
      PeekSibling(k.up, Wrap(k, t), root, Snap(s));
      var tmp := gparent.rb.left;
      if tmp != null && tmp.rb.color == Red {
        FlipColors(parent, gparent, tmp, s, k, t);
        FlippedOk(k, t, h);
        elm, k', t', h', rotations := gparent, k.up.up, Flipped(k, t), h + 1, 0;
      } else {
        elm, parent, rotations := StraightenRight(elm, parent, s, k, t);
        StraightOk(k, t, h);
        k', t' := Straight(k, t).0, Straight(k, t).1;
        RaisedOk(k', t', h);
        RaiseRight(parent, gparent, s, k', t');
        k', h', rotations := Raised(k'), h, rotations + 1;
      }
    }

    /** RB_INSERT_COLOR.  It climbs at most to the root, and makes at most two rotations. */
    method InsertColor(elm0: Node, ghost s: set<Node>, ghost k0: Ctx, ghost t0: Tree, ghost h0: nat)
      returns (ghost t': Tree, ghost rotations: nat, ghost rounds: nat)
      requires At(k0, t0, root, Snap(s)) && Grafted(k0, t0, h0) && t0.x == elm0
      modifies `root, s
      ensures Rep(t', null, Snap(s)) && root == Root(t') && RbOk(t')
      ensures InOrder(t') == InOrder(Plug(k0, t0))
      ensures rotations <= 2 && rounds <= Depth(k0)
    {
      var elm := elm0;
      ghost var k, t, h := k0, t0, h0;
      rotations, rounds := 0, 0;
      Peek(k, t, root, Snap(s));
      while elm.rb.parent != null && elm.rb.parent.rb.color == Red
        invariant At(k, t, root, Snap(s)) && Grafted(k, t, h) && t.x == elm
        invariant elm.rb.parent == Parent(k) && (!k.Top? ==> k.x.rb.color == k.c)
        invariant InOrder(Plug(k, t)) == InOrder(Plug(k0, t0))
        invariant rotations > 0 ==> rotations <= 2 && !k.Top? && k.c == Black
        invariant rounds + Depth(k) <= Depth(k0)
        decreases Depth(k)
      {
        GrandBlack(k, h);
        var parent := elm.rb.parent;
        var gparent := parent.rb.parent;
        MoveUp(k, t, root, Snap(s));
        Peek(k.up, Wrap(k, t), root, Snap(s));
        if parent == gparent.rb.left {
          elm, k, t, h, rotations := InsertStepLeft(elm, parent, gparent, s, k, t, h);
        } else {
          elm, k, t, h, rotations := InsertStepRight(elm, parent, gparent, s, k, t, h);
        }
        rounds := rounds + 1;
        Peek(k, t, root, Snap(s));
      }
      GraftedDone(k, t, h);
      PlugRep(k, t, root, Snap(s));
      Paint(root, Black, s, Top, Plug(k, t));
      t' := Plug(k, t).(c := Black);
    }

    ghost predicate Valid()
      reads this, Nodes(tree)
    {
      && Rep(tree, null, Snap(Nodes(tree))) && root == Root(tree)
      && RbOk(tree) && Sorted(InOrder(tree))
    }

    /** The elements in the order of their keys. */
    ghost function Contents(): seq<Node>
      reads this
    {
      InOrder(tree)
    }

    /** RB_INIT. */
    constructor ()
      ensures Valid() && Contents() == []
    {
      root, tree := null, Leaf;
      new;
      assert Bal(tree, 0);
    }

    /** RB_FIND. */
    method Find(elm: Node) returns (r: Node?, ghost comparisons: nat)
      requires Valid()
      ensures r != null ==> r in Contents() && r.key == elm.key
      ensures r == null ==> forall n :: n in Contents() ==> n.key != elm.key
      ensures TwiceLog(comparisons, |Contents()|)
    {
      HeightBound(tree);
      var tmp := root;
      ghost var k, t := Top, tree;
      comparisons := 0;
      while tmp != null
        invariant At(k, t, root, Snap(Nodes(tree))) && tmp == Root(t)
        invariant Searching(tree, k, t, elm.key)
        invariant comparisons + Height(t) <= Height(tree)
        decreases t
      {
        Peek(k, t, root, Snap(Nodes(tree)));
        SearchStep(tree, k, t, elm.key);
        comparisons := comparisons + 1;
        if elm.key < tmp.key {
          k, t := LeftOf(k, t.x, t.c, t.r), t.l;
          tmp := tmp.rb.left;
        } else if elm.key > tmp.key {
          k, t := RightOf(k, t.l, t.x, t.c), t.r;
          tmp := tmp.rb.right;
        } else {
          Pow2Mono(comparisons, Height(tree));
          return tmp, comparisons;
        }
        MoveUp(k, t, root, Snap(Nodes(tree)));
      }
      SearchMiss(tree, k, elm.key);
      Pow2Mono(comparisons, Height(tree));
      r := null;
    }

    /** The search loop of RB_INSERT: an element with an equal key, or the place to link at. */
    method Descend(elm: Node) returns (tmp: Node?, parent: Node?, comp: int, ghost k: Ctx, ghost comparisons: nat)
      requires Valid()
      ensures tmp != null ==> tmp in Contents() && tmp.key == elm.key
      ensures tmp == null ==>
        && At(k, Leaf, root, Snap(Nodes(tree))) && Searching(tree, k, Leaf, elm.key)
        && parent == Parent(k) && (!k.Top? ==> (k.LeftOf? <==> comp < 0))
      ensures TwiceLog(comparisons, |Contents()|)
    {
      HeightBound(tree);
      tmp, parent, comp := root, null, 0;
      ghost var t := tree;
      k, comparisons := Top, 0;
      while tmp != null
        invariant At(k, t, root, Snap(Nodes(tree))) && tmp == Root(t)
        invariant Searching(tree, k, t, elm.key)
        invariant parent == Parent(k) && (!k.Top? ==> (k.LeftOf? <==> comp < 0))
        invariant comparisons + Height(t) <= Height(tree)
        decreases t
      {
        Peek(k, t, root, Snap(Nodes(tree)));
        SearchStep(tree, k, t, elm.key);
        comparisons := comparisons + 1;
        parent := tmp;
        comp := elm.key - parent.key;
        if comp < 0 {
          k, t := LeftOf(k, t.x, t.c, t.r), t.l;
          tmp := tmp.rb.left;
        } else if comp > 0 {
          k, t := RightOf(k, t.l, t.x, t.c), t.r;
          tmp := tmp.rb.right;
        } else {
          Pow2Mono(comparisons, Height(tree));
          return;
        }
        MoveUp(k, t, root, Snap(Nodes(tree)));
      }
      Pow2Mono(comparisons, Height(tree));
    }

    /** RB_SET and the link from the parent. */
    method LinkUnder(elm: Node, parent: Node?, comp: int, ghost s: set<Node>, ghost k: Ctx)
      requires At(k, Leaf, root, Snap(s)) && CtxNodes(k) <= s && elm !in s
      requires parent == Parent(k) && (!k.Top? ==> (k.LeftOf? <==> comp < 0))
      modifies `root, parent, elm
      ensures At(k, Fork(Leaf, elm, Red, Leaf), root, Snap(s + {elm}))
    {
      ghost var m, root0 := Snap(s), root;
      Peek(k, Leaf, root, m);
      elm.rb := RbEntry(null, null, parent, Red);
      if parent != null {
        if comp < 0 {
          parent.rb := parent.rb.(left := elm);
        } else {
          parent.rb := parent.rb.(right := elm);
        }
      } else {
        root := elm;
      }
      LinkedAt(k, elm, root0, root, m, Snap(s + {elm}));
    }

    /** The second half of RB_INSERT: RB_SET, the link from the parent, and the recolouring. */
    method InsertAt(elm: Node, parent: Node?, comp: int, ghost k: Ctx) returns (ghost rotations: nat, ghost rounds: nat)
      requires Valid() && elm !in Nodes(tree)
      requires At(k, Leaf, root, Snap(Nodes(tree))) && Searching(tree, k, Leaf, elm.key)
      requires parent == Parent(k) && (!k.Top? ==> (k.LeftOf? <==> comp < 0))
      modifies this, Nodes(tree), elm
      ensures Valid() && rotations <= 2 && rounds <= Depth(k)
      ensures Contents() == Before(k) + [elm] + After(k)
    {
      ghost var s := Nodes(tree);
      assert allocated(s);
      InsertReady(tree, k, elm);
      Peek(k, Leaf, root, Snap(s));
      LinkUnder(elm, parent, comp, s, k);
      ghost var t';
      t', rotations, rounds := InsertColor(elm, s + {elm}, k, Fork(Leaf, elm, Red, Leaf), 0);
      GraftedNodes(k, elm, t');
      tree := t';
    }

    /** RB_INSERT.  An element with the same key is returned and nothing changes; otherwise
        `elm` is placed between the smaller and the larger elements. */
    method Insert(elm: Node)
      returns (r: Node?, ghost before: seq<Node>, ghost after: seq<Node>,
               ghost comparisons: nat, ghost rotations: nat, ghost rounds: nat)
      requires Valid()
      modifies this, Nodes(tree), elm
      ensures Valid()
      ensures r != null ==>
        && r in old(Contents()) && r.key == elm.key && elm.rb == old(elm.rb)
        && root == old(root) && tree == old(tree) && Snap(Nodes(tree)) == old(Snap(Nodes(tree)))
      ensures r == null ==>
        && (forall n :: n in old(Contents()) ==> n.key != elm.key)
        && old(Contents()) == before + after && Contents() == before + [elm] + after
      ensures TwiceLog(comparisons, |old(Contents())|)
      ensures TwiceLog(rounds, |old(Contents())|) && rotations <= 2
    {
      ghost var k;
      var parent, comp;
      before, after, rotations, rounds := [], [], 0, 0;
      assert allocated(Nodes(tree));
      r, parent, comp, k, comparisons := Descend(elm);
      if r == null {
        InOrderNodes(tree);
        SearchMiss(tree, k, elm.key);
        before, after := Before(k), After(k);
        rotations, rounds := InsertAt(elm, parent, comp, k);
        ClimbBound(k, Leaf, rounds);
      }
    }

    /** RB_MINMAX. */
    method MinMax(val: int) returns (r: Node?)
      requires Valid()
      ensures r == null <==> Contents() == []
      ensures r != null && val < 0 ==> r == Contents()[0]
      ensures r != null && val >= 0 ==> r == Contents()[|Contents()| - 1]
    {
      var tmp := root;
      ghost var k, t := Top, tree;
      r := null;
      while tmp != null
        invariant At(k, t, root, Snap(Nodes(tree))) && Plug(k, t) == tree && tmp == Root(t) && r == Parent(k)
        invariant val < 0 ==> Before(k) == [] && (!k.Top? ==> k.LeftOf?)
        invariant val >= 0 ==> After(k) == [] && (!k.Top? ==> k.RightOf?)
        decreases t
      {
        Peek(k, t, root, Snap(Nodes(tree)));
        PlugNodes(k, t);
        r := tmp;
        if val < 0 {
          k, t := LeftOf(k, t.x, t.c, t.r), t.l;
          tmp := tmp.rb.left;
        } else {
          k, t := RightOf(k, t.l, t.x, t.c), t.r;
          tmp := tmp.rb.right;
        }
        MoveUp(k, t, root, Snap(Nodes(tree)));
      }
      PlugInOrder(k, t);
    }

    predicate IsBlack(n: Node?)
      reads n
    {
      n == null || n.rb.color == Black
    }

    /** The test for two black or missing children of the sibling. */
    method NephewsBlack(tmp: Node, ghost s: set<Node>, ghost k: Ctx, ghost t: Tree) returns (both: bool)
      requires At(k, t, root, Snap(s)) && !k.Top? && k.sib.Fork? && tmp == k.sib.x
      ensures both <==> ColorOf(k.sib.l) == Black && ColorOf(k.sib.r) == Black
    {
      PeekSibling(k, t, root, Snap(s));
      both := IsBlack(tmp.rb.left) && IsBlack(tmp.rb.right);
    }

    /** Both of the sibling's children are black: it turns red and the loop moves up. */
    method Lift(tmp: Node, parent0: Node, ghost s: set<Node>, ghost k: Ctx, ghost t: Tree)
      returns (elm: Node, parent: Node?)
      requires At(k, t, root, Snap(s)) && !k.Top? && parent0 == k.x && k.sib.Fork? && tmp == k.sib.x
      modifies s
      ensures At(k.up, Lifted(k, t), root, Snap(s)) && elm == k.x && parent == Parent(k.up)
      ensures InOrder(Plug(k.up, Lifted(k, t))) == InOrder(Plug(k, t))
    {
      MoveUp(k, t, root, Snap(s));
      MoveUp(Other(k, t), k.sib, root, Snap(s));
      Paint(tmp, Red, s, Other(k, t), k.sib);
      MoveUp(Other(k, t), k.sib.(c := Red), root, Snap(s));
      elm := parent0;
      Peek(k.up, Lifted(k, t), root, Snap(s));
      parent := elm.rb.parent;
    }

    /** Red sibling, left half: RB_SET_BLACKRED(tmp, parent) and a rotation at the parent. */
    method BorrowLeft(tmp0: Node, parent: Node, ghost s: set<Node>, ghost k: Ctx, ghost t: Tree) returns (tmp: Node?)
      requires At(k, t, root, Snap(s)) && k.LeftOf? && parent == k.x && k.sib.Fork? && tmp0 == k.sib.x
      modifies `root, s
      ensures At(Borrowed(k), t, root, Snap(s)) && tmp == Root(Borrowed(k).sib)
      ensures InOrder(Plug(Borrowed(k), t)) == InOrder(Plug(k, t))
    {
      MoveUp(k, t, root, Snap(s));
      MoveUp(Other(k, t), k.sib, root, Snap(s));
      Paint(tmp0, Black, s, Other(k, t), k.sib);
      ghost var k1 := Beside(k, k.sib.(c := Black));
      MoveUp(Other(k1, t), k1.sib, root, Snap(s));
      Paint(parent, Red, s, k.up, Wrap(k1, t));
      ghost var w := Wrap(Colored(k1, Red), t);
      tmp := RotateLeft(parent, s, k.up, w);
      MoveUp(Borrowed(k).up, Wrap(Borrowed(k), t), root, Snap(s));
      MoveUp(Borrowed(k), t, root, Snap(s));
      Peek(Borrowed(k), t, root, Snap(s));
      tmp := parent.rb.right;
    }

    /** The rotation at the sibling `tmp0`, left half. */
    method TurnLeft(tmp0: Node, parent: Node, ghost s: set<Node>, ghost k: Ctx, ghost t: Tree) returns (tmp: Node)
      requires At(k, t, root, Snap(s)) && k.LeftOf? && parent == k.x && k.sib.Fork? && tmp0 == k.sib.x && Near(k).Fork?
      modifies `root, s
      ensures At(Turned(k), t, root, Snap(s)) && tmp == Turned(k).sib.x
      ensures InOrder(Plug(Turned(k), t)) == InOrder(Plug(k, t))
    {
      ghost var ko := Other(k, t);
      MoveUp(k, t, root, Snap(s));
      MoveUp(ko, k.sib, root, Snap(s));
      Peek(ko, k.sib, root, Snap(s));
      var oleft := tmp0.rb.left;
      if oleft != null {
        MoveUp(LeftOf(ko, k.sib.x, k.sib.c, k.sib.r), Near(k), root, Snap(s));
        Paint(oleft, Black, s, LeftOf(ko, k.sib.x, k.sib.c, k.sib.r), Near(k));
        MoveUp(LeftOf(ko, k.sib.x, k.sib.c, k.sib.r), Near(k).(c := Black), root, Snap(s));
      }
      ghost var sib := k.sib.(l := Near(k).(c := Black));
      Paint(tmp0, Red, s, ko, sib);
      var o := RotateRight(tmp0, s, ko, sib.(c := Red));
      MoveUp(Other(Turned(k), t), Turned(k).sib, root, Snap(s));
      MoveUp(Turned(k), t, root, Snap(s));
      Peek(Turned(k), t, root, Snap(s));
      tmp := parent.rb.right;
    }

    /** The final recolouring and rotation at the parent, left half. */
    method CloseLeft(tmp0: Node, parent: Node, ghost s: set<Node>, ghost k: Ctx, ghost t: Tree)
      requires At(k, t, root, Snap(s)) && k.LeftOf? && parent == k.x && k.sib.Fork? && tmp0 == k.sib.x && Far(k).Fork?
      modifies `root, s
      ensures At(k.up, Closed(k, t), root, Snap(s))
      ensures InOrder(Plug(k.up, Closed(k, t))) == InOrder(Plug(k, t))
    {
      ghost var ko := Other(k, t);
      MoveUp(k, t, root, Snap(s));
      MoveUp(ko, k.sib, root, Snap(s));
      Peek(k, t, root, Snap(s));
      Peek(k.up, Wrap(k, t), root, Snap(s));
      Paint(tmp0, parent.rb.color, s, ko, k.sib);
      ghost var k1 := Beside(k, k.sib.(c := k.c));
      MoveUp(ko, k1.sib, root, Snap(s));
      Paint(parent, Black, s, k.up, Wrap(k1, t));
      k1 := Colored(k1, Black);
      ko := Other(k1, t);
      MoveUp(ko, k1.sib, root, Snap(s));
      Peek(ko, k1.sib, root, Snap(s));
      if tmp0.rb.right != null {
        MoveUp(RightOf(ko, k1.sib.l, k1.sib.x, k1.sib.c), Far(k), root, Snap(s));
        Paint(tmp0.rb.right, Black, s, RightOf(ko, k1.sib.l, k1.sib.x, k1.sib.c), Far(k));
        MoveUp(RightOf(ko, k1.sib.l, k1.sib.x, k1.sib.c), Far(k).(c := Black), root, Snap(s));
      }
      k1 := Beside(k1, k1.sib.(r := Far(k).(c := Black)));
      MoveUp(Other(k1, t), k1.sib, root, Snap(s));
      var tmp := RotateLeft(parent, s, k.up, Wrap(k1, t));
    }

    /** The cases that end RB_REMOVE_COLOR: an optional rotation at the sibling, then the final
        one at the parent. */
    method FinishLeft(tmp0: Node, parent: Node, ghost s: set<Node>, ghost k: Ctx, ghost t: Tree, ghost h: nat)
      returns (ghost t': Tree, ghost rotations: nat)
      requires At(k, t, root, Snap(s)) && Short(k, t, h) && ColorOf(t) == Black
      requires k.LeftOf? && parent == k.x && k.sib.Fork? && tmp0 == k.sib.x && k.sib.c == Black
      requires ColorOf(Near(k)) == Red || ColorOf(Far(k)) == Red
      modifies `root, s
      ensures Rep(t', null, Snap(s)) && root == Root(t') && RbOk(t')
      ensures InOrder(t') == InOrder(Plug(k, t)) && rotations <= 2
    {
      var tmp := tmp0;
      ghost var k2 := k;
      rotations := 1;
      PeekSibling(k, t, root, Snap(s));
      if IsBlack(tmp.rb.right) {
        TurnedOk(k, t, h);
        tmp := TurnLeft(tmp, parent, s, k, t);
        k2, rotations := Turned(k), 2;
      }
      ClosedOk(k2, t, h);
      CloseLeft(tmp, parent, s, k2, t);
      PlugRep(k.up, Closed(k2, t), root, Snap(s));
      t' := Plug(k.up, Closed(k2, t));
    }

    /** The first lines of the loop body: the sibling, made black if it was red. */
    method BlackSiblingLeft(parent: Node, ghost s: set<Node>, ghost k0: Ctx, ghost t: Tree, ghost h: nat)
      returns (tmp: Node, ghost k: Ctx, ghost rotations: nat)
      requires At(k0, t, root, Snap(s)) && Short(k0, t, h) && k0.LeftOf? && parent == k0.x
      modifies `root, s
      ensures At(k, t, root, Snap(s)) && Short(k, t, h) && k.LeftOf? && parent == k.x
      ensures k.sib.Fork? && k.sib.c == Black && tmp == k.sib.x
      ensures InOrder(Plug(k, t)) == InOrder(Plug(k0, t))
      ensures if rotations == 0 then k == k0
              else rotations == 1 && !k.up.Top? && k.c == Red && Depth(k.up) == Depth(k0)
    {
      k, rotations := k0, 0;
      SiblingExists(k, t, h);
      PeekSibling(k, t, root, Snap(s));
      tmp := parent.rb.right;
      if tmp.rb.color == Red {
        BorrowedOk(k, t, h);
        tmp := BorrowLeft(tmp, parent, s, k, t);
        k, rotations := Borrowed(k), 1;
      }
    }

    /** The left half of the RB_REMOVE_COLOR loop body: the short subtree is a left child.
        `done` reports the `break`. */
    method RemoveStepLeft(elm0: Node?, parent0: Node, ghost s: set<Node>, ghost k0: Ctx, ghost t: Tree, ghost h: nat)
      returns (elm: Node?, parent: Node?, done: bool, ghost k': Ctx, ghost t': Tree, ghost h': nat, ghost rotations: nat)
      requires At(k0, t, root, Snap(s)) && Short(k0, t, h) && ColorOf(t) == Black
      requires k0.LeftOf? && elm0 == Root(t) && parent0 == k0.x
      modifies `root, s
      ensures At(k', t', root, Snap(s)) && Short(k', t', h') && elm == Root(t')
      ensures InOrder(Plug(k', t')) == InOrder(Plug(k0, t))
      ensures done ==> k'.Top? && rotations <= 3
      ensures !done ==> parent == Parent(k')
      ensures !done ==> if rotations == 0 then Depth(k') < Depth(k0)
                        else rotations == 1 && ColorOf(t') == Red && !k'.Top? && Depth(k') == Depth(k0)
    {
      ghost var k;
      var tmp;
      tmp, k, rotations := BlackSiblingLeft(parent0, s, k0, t, h);
      var both := NephewsBlack(tmp, s, k, t);
      if both {
        elm, parent := Lift(tmp, parent0, s, k, t);
        LiftedOk(k, t, h);
        k', t', h', done := k.up, Lifted(k, t), if k.c == Black then h + 1 else h, false;
      } else {
        ghost var more;
        t', more := FinishLeft(tmp, parent0, s, k, t, h);
        rotations := rotations + more;
        h' := Finished(t', root, Snap(s));
        k', elm, parent, done := Top, root, null, true;
      }
    }

    /** Red sibling, right half: RB_SET_BLACKRED(tmp, parent) and a rotation at the parent. */
    method BorrowRight(tmp0: Node, parent: Node, ghost s: set<Node>, ghost k: Ctx, ghost t: Tree) returns (tmp: Node?)
      requires At(k, t, root, Snap(s)) && k.RightOf? && parent == k.x && k.sib.Fork? && tmp0 == k.sib.x
      modifies `root, s
      ensures At(Borrowed(k), t, root, Snap(s)) && tmp == Root(Borrowed(k).sib)
      ensures InOrder(Plug(Borrowed(k), t)) == InOrder(Plug(k, t))
    {
      MoveUp(k, t, root, Snap(s));
      MoveUp(Other(k, t), k.sib, root, Snap(s));
      Paint(tmp0, Black, s, Other(k, t), k.sib);
      ghost var k1 := Beside(k, k.sib.(c := Black));
      MoveUp(Other(k1, t), k1.sib, root, Snap(s));
      Paint(parent, Red, s, k.up, Wrap(k1, t));
      ghost var w := Wrap(Colored(k1, Red), t);
      tmp := RotateRight(parent, s, k.up, w);
      MoveUp(Borrowed(k).up, Wrap(Borrowed(k), t), root, Snap(s));
      MoveUp(Borrowed(k), t, root, Snap(s));
      Peek(Borrowed(k), t, root, Snap(s));
      tmp := parent.rb.left;
    }

    /** The rotation at the sibling `tmp0`, right half. */
    method TurnRight(tmp0: Node, parent: Node, ghost s: set<Node>, ghost k: Ctx, ghost t: Tree) returns (tmp: Node)
      requires At(k, t, root, Snap(s)) && k.RightOf? && parent == k.x && k.sib.Fork? && tmp0 == k.sib.x && Near(k).Fork?
      modifies `root, s
      ensures At(Turned(k), t, root, Snap(s)) && tmp == Turned(k).sib.x
      ensures InOrder(Plug(Turned(k), t)) == InOrder(Plug(k, t))
    {
      ghost var ko := Other(k, t);
      MoveUp(k, t, root, Snap(s));
      MoveUp(ko, k.sib, root, Snap(s));
      Peek(ko, k.sib, root, Snap(s));
      var oright := tmp0.rb.right;
      if oright != null {
        MoveUp(RightOf(ko, k.sib.l, k.sib.x, k.sib.c), Near(k), root, Snap(s));
        Paint(oright, Black, s, RightOf(ko, k.sib.l, k.sib.x, k.sib.c), Near(k));
        MoveUp(RightOf(ko, k.sib.l, k.sib.x, k.sib.c), Near(k).(c := Black), root, Snap(s));
      }
      ghost var sib := k.sib.(r := Near(k).(c := Black));
      Paint(tmp0, Red, s, ko, sib);
      var o := RotateLeft(tmp0, s, ko, sib.(c := Red));
      MoveUp(Other(Turned(k), t), Turned(k).sib, root, Snap(s));
      MoveUp(Turned(k), t, root, Snap(s));
      Peek(Turned(k), t, root, Snap(s));
      tmp := parent.rb.left;
    }

    /** The final recolouring and rotation at the parent, right half. */
    method CloseRight(tmp0: Node, parent: Node, ghost s: set<Node>, ghost k: Ctx, ghost t: Tree)
      requires At(k, t, root, Snap(s)) && k.RightOf? && parent == k.x && k.sib.Fork? && tmp0 == k.sib.x && Far(k).Fork?
      modifies `root, s
      ensures At(k.up, Closed(k, t), root, Snap(s))
      ensures InOrder(Plug(k.up, Closed(k, t))) == InOrder(Plug(k, t))
    {
      ghost var ko := Other(k, t);
      MoveUp(k, t, root, Snap(s));
      MoveUp(ko, k.sib, root, Snap(s));
      Peek(k, t, root, Snap(s));
      Peek(k.up, Wrap(k, t), root, Snap(s));
      Paint(tmp0, parent.rb.color, s, ko, k.sib);
      ghost var k1 := Beside(k, k.sib.(c := k.c));
      MoveUp(ko, k1.sib, root, Snap(s));
      Paint(parent, Black, s, k.up, Wrap(k1, t));
      k1 := Colored(k1, Black);
      ko := Other(k1, t);
      MoveUp(ko, k1.sib, root, Snap(s));
      Peek(ko, k1.sib, root, Snap(s));
      if tmp0.rb.left != null {
        MoveUp(LeftOf(ko, k1.sib.x, k1.sib.c, k1.sib.r), Far(k), root, Snap(s));
        Paint(tmp0.rb.left, Black, s, LeftOf(ko, k1.sib.x, k1.sib.c, k1.sib.r), Far(k));
        MoveUp(LeftOf(ko, k1.sib.x, k1.sib.c, k1.sib.r), Far(k).(c := Black), root, Snap(s));
      }
      k1 := Beside(k1, k1.sib.(l := Far(k).(c := Black)));
      MoveUp(Other(k1, t), k1.sib, root, Snap(s));
      var tmp := RotateRight(parent, s, k.up, Wrap(k1, t));
    }

    /** The cases that end RB_REMOVE_COLOR: an optional rotation at the sibling, then the final
        one at the parent. */
    method FinishRight(tmp0: Node, parent: Node, ghost s: set<Node>, ghost k: Ctx, ghost t: Tree, ghost h: nat)
      returns (ghost t': Tree, ghost rotations: nat)
      requires At(k, t, root, Snap(s)) && Short(k, t, h) && ColorOf(t) == Black
      requires k.RightOf? && parent == k.x && k.sib.Fork? && tmp0 == k.sib.x && k.sib.c == Black
      requires ColorOf(Near(k)) == Red || ColorOf(Far(k)) == Red
      modifies `root, s
      ensures Rep(t', null, Snap(s)) && root == Root(t') && RbOk(t')
      ensures InOrder(t') == InOrder(Plug(k, t)) && rotations <= 2
    {
      var tmp := tmp0;
      ghost var k2 := k;
      rotations := 1;
      PeekSibling(k, t, root, Snap(s));
      if IsBlack(tmp.rb.left) {
        TurnedOk(k, t, h);
        tmp := TurnRight(tmp, parent, s, k, t);
        k2, rotations := Turned(k), 2;
      }
      ClosedOk(k2, t, h);
      CloseRight(tmp, parent, s, k2, t);
      PlugRep(k.up, Closed(k2, t), root, Snap(s));
      t' := Plug(k.up, Closed(k2, t));
    }

    /** The first lines of the loop body: the sibling, made black if it was red. */
    method BlackSiblingRight(parent: Node, ghost s: set<Node>, ghost k0: Ctx, ghost t: Tree, ghost h: nat)
      returns (tmp: Node, ghost k: Ctx, ghost rotations: nat)
      requires At(k0, t, root, Snap(s)) && Short(k0, t, h) && k0.RightOf? && parent == k0.x
      modifies `root, s
      ensures At(k, t, root, Snap(s)) && Short(k, t, h) && k.RightOf? && parent == k.x
      ensures k.sib.Fork? && k.sib.c == Black && tmp == k.sib.x
      ensures InOrder(Plug(k, t)) == InOrder(Plug(k0, t))
      ensures if rotations == 0 then k == k0
              else rotations == 1 && !k.up.Top? && k.c == Red && Depth(k.up) == Depth(k0)
    {
      k, rotations := k0, 0;
      SiblingExists(k, t, h);
      PeekSibling(k, t, root, Snap(s));
      tmp := parent.rb.left;
      if tmp.rb.color == Red {
        BorrowedOk(k, t, h);
        tmp := BorrowRight(tmp, parent, s, k, t);
        k, rotations := Borrowed(k), 1;
      }
    }

    /** The right half of the RB_REMOVE_COLOR loop body: the short subtree is a right child.
        `done` reports the `break`. */
    method RemoveStepRight(elm0: Node?, parent0: Node, ghost s: set<Node>, ghost k0: Ctx, ghost t: Tree, ghost h: nat)
      returns (elm: Node?, parent: Node?, done: bool, ghost k': Ctx, ghost t': Tree, ghost h': nat, ghost rotations: nat)
      requires At(k0, t, root, Snap(s)) && Short(k0, t, h) && ColorOf(t) == Black
      requires k0.RightOf? && elm0 == Root(t) && parent0 == k0.x
      modifies `root, s
      ensures At(k', t', root, Snap(s)) && Short(k', t', h') && elm == Root(t')
      ensures InOrder(Plug(k', t')) == InOrder(Plug(k0, t))
      ensures done ==> k'.Top? && rotations <= 3
      ensures !done ==> parent == Parent(k')
      ensures !done ==> if rotations == 0 then Depth(k') < Depth(k0)
                        else rotations == 1 && ColorOf(t') == Red && !k'.Top? && Depth(k') == Depth(k0)
    {
      ghost var k;
      var tmp;
      tmp, k, rotations := BlackSiblingRight(parent0, s, k0, t, h);
      var both := NephewsBlack(tmp, s, k, t);
      if both {
        elm, parent := Lift(tmp, parent0, s, k, t);
        LiftedOk(k, t, h);
        k', t', h', done := k.up, Lifted(k, t), if k.c == Black then h + 1 else h, false;
      } else {
        ghost var more;
        t', more := FinishRight(tmp, parent0, s, k, t, h);
        rotations := rotations + more;
        h' := Finished(t', root, Snap(s));
        k', elm, parent, done := Top, root, null, true;
      }
    }

    /** RB_REMOVE_COLOR.  It climbs at most to the root, and makes at most three rotations. */
    method RemoveColor(parent0: Node?, elm0: Node?, ghost s: set<Node>, ghost k0: Ctx, ghost t0: Tree, ghost h0: nat)
      returns (ghost t': Tree, ghost rotations: nat, ghost rounds: nat)
      requires At(k0, t0, root, Snap(s)) && Short(k0, t0, h0) && elm0 == Root(t0) && parent0 == Parent(k0)
      modifies `root, s
      ensures Rep(t', null, Snap(s)) && root == Root(t') && RbOk(t')
      ensures InOrder(t') == InOrder(Plug(k0, t0))
      ensures rotations <= 3 && rounds <= Depth(k0)
    {
      var elm, parent := elm0, parent0;
      ghost var k, t, h := k0, t0, h0;
      rotations, rounds := 0, 0;
      WhereIsRoot(k, t, root, Snap(s));
      while IsBlack(elm) && elm != root
        invariant At(k, t, root, Snap(s)) && Short(k, t, h) && elm == Root(t) && parent == Parent(k)
        invariant IsBlack(elm) <==> ColorOf(t) == Black
        invariant elm == root <==> k.Top?
        invariant InOrder(Plug(k, t)) == InOrder(Plug(k0, t0))
        invariant if rotations == 0 then rounds + Depth(k) <= Depth(k0)
                  else rotations == 1 && ColorOf(t) == Red && !k.Top? && rounds + Depth(k) <= Depth(k0) + 1
        decreases 2 * Depth(k) + if ColorOf(t) == Red then 0 else 1
      {
        Peek(k, t, root, Snap(s));
        SiblingExists(k, t, h);
        var done;
        if parent.rb.left == elm {
          elm, parent, done, k, t, h, rotations := RemoveStepLeft(elm, parent, s, k, t, h);
        } else {
          elm, parent, done, k, t, h, rotations := RemoveStepRight(elm, parent, s, k, t, h);
        }
        rounds := rounds + 1;
        WhereIsRoot(k, t, root, Snap(s));
        if done { break; }
      }
      t' := BlackenAt(elm, s, k, t, h);
    }

    /** The last two lines of RB_REMOVE_COLOR. */
    method BlackenAt(elm: Node?, ghost s: set<Node>, ghost k: Ctx, ghost t: Tree, ghost h: nat) returns (ghost t': Tree)
      requires At(k, t, root, Snap(s)) && Short(k, t, h) && elm == Root(t)
      requires k.Top? || ColorOf(t) == Red
      modifies s
      ensures Rep(t', null, Snap(s)) && root == Root(t') && RbOk(t')
      ensures InOrder(t') == InOrder(Plug(k, t))
    {
      ShortDone(k, t, h);
      if elm != null {
        Paint(elm, Black, s, k, t);
      }
      SamePlug(k, t, Blacken(t));
      PlugRep(k, Blacken(t), root, Snap(s));
      t' := Plug(k, Blacken(t));
    }

    /** `while (RB_LEFT(elm)) elm = RB_LEFT(elm)`, as RB_REMOVE and RB_NEXT do it. */
    method Leftmost(elm: Node, ghost s: set<Node>, ghost k: Ctx, ghost t: Tree) returns (r: Node, ghost k': Ctx, ghost t': Tree)
      requires At(k, t, root, Snap(s)) && t.Fork? && elm == t.x
      ensures At(k', t', root, Snap(s)) && Plug(k', t') == Plug(k, t) && LeftSpine(k', k)
      ensures t'.Fork? && t'.l == Leaf && r == t'.x
    {
      r, k', t' := elm, k, t;
      Peek(k', t', root, Snap(s));
      while r.rb.left != null
        invariant At(k', t', root, Snap(s)) && Plug(k', t') == Plug(k, t) && LeftSpine(k', k)
        invariant t'.Fork? && r == t'.x && r.rb.left == Root(t'.l)
        decreases t'
      {
        r := r.rb.left;
        k', t' := LeftOf(k', t'.x, t'.c, t'.r), t'.l;
        MoveUp(k', t', root, Snap(s));
        Peek(k', t', root, Snap(s));
      }
    }

    /** The fragment of RB_REMOVE, there in two copies, that puts `child` in the place of `elm`. */
    method Splice(elm: Node, child: Node?, ghost s: set<Node>, ghost k: Ctx, ghost t: Tree, ghost ch: Tree)
      returns (parent: Node?, color: Color)
      requires At(k, t, root, Snap(s)) && t.Fork? && elm == t.x && child == Root(ch)
      requires (t.l == Leaf && ch == t.r) || (t.r == Leaf && ch == t.l)
      modifies `root, s
      ensures At(k, ch, root, Snap(s)) && parent == Parent(k) && color == t.c
      ensures elm.rb == old(elm.rb) && elm.rb.parent == parent
    {
      ghost var m, root0 := Snap(s), root;
      Peek(k, t, root, m);
      PeekChildren(k, t, root, m);
      assert ch.Fork? ==> ch.x in Nodes(ch) && ch.x in m;
      parent := elm.rb.parent;
      color := elm.rb.color;
      if child != null {
        child.rb := child.rb.(parent := parent);
      }
      Redirect(parent, elm, child);
      SplicedAt(k, t, ch, root0, root, m, Snap(s));
    }

    /** The fragment of RB_REMOVE that puts `elm`, already spliced out, in the place of `o`. */
    method TakeOver(elm: Node, o: Node, ghost s: set<Node>, ghost k: Ctx, ghost t: Tree, ghost ko: Ctx)
      requires At(k, t, root, Snap(s)) && LeftSpine(k, ko) && ko.RightOf? && o == ko.x && ko.sib.Fork?
      requires elm in s && elm !in CtxNodes(k) + Nodes(t)
      modifies `root, s
      ensures At(Replace(k, o, elm), t, root, Snap(s))
    {
      ghost var m, root0 := Snap(s), root;
      TakeOverFacts(k, t, ko, root, m);
      elm.rb := o.rb;
      Redirect(o.rb.parent, o, elm);
      o.rb.left.rb := o.rb.left.rb.(parent := elm);
      if o.rb.right != null {
        o.rb.right.rb := o.rb.right.rb.(parent := elm);
      }
      ReplacedAt(k, t, ko, elm, root0, root, m, Snap(s));
    }

    /** The end of RB_REMOVE, from its label `color` on. */
    method Repair(parent: Node?, child: Node?, color: Color, ghost s: set<Node>, ghost k: Ctx, ghost t: Tree, ghost h: nat)
      returns (ghost t': Tree, ghost rotations: nat, ghost rounds: nat)
      requires At(k, t, root, Snap(s)) && child == Root(t) && parent == Parent(k) && Vacated(k, t, color, h)
      modifies `root, s
      ensures Rep(t', null, Snap(s)) && root == Root(t') && RbOk(t')
      ensures InOrder(t') == InOrder(Plug(k, t)) && rotations <= 3 && rounds <= Depth(k)
    {
      t', rotations, rounds := Plug(k, t), 0, 0;
      if color == Black {
        t', rotations, rounds := RemoveColor(parent, child, s, k, t, h);
      } else {
        PlugOk(k, t, h);
        PlugRep(k, t, root, Snap(s));
      }
    }

    /** RB_REMOVE of an element with at most one child. */
    method RemoveOuter(elm: Node, child: Node?, ghost s: set<Node>, ghost k: Ctx, ghost t: Tree, ghost ch: Tree)
      returns (ghost t': Tree, ghost before: seq<Node>, ghost after: seq<Node>, ghost rotations: nat, ghost rounds: nat)
      requires At(k, t, root, Snap(s)) && t.Fork? && elm == t.x && child == Root(ch)
      requires (t.l == Leaf && ch == t.r) || (t.r == Leaf && ch == t.l)
      requires RbOk(Plug(k, t))
      modifies `root, s
      ensures Rep(t', null, Snap(s)) && root == Root(t') && RbOk(t') && rotations <= 3
      ensures InOrder(Plug(k, t)) == before + [elm] + after && InOrder(t') == before + after
      ensures TwiceLog(rounds, |InOrder(Plug(k, t))|)
    {
      ghost var h := RemovedOk(k, t, ch);
      before, after := RemovedOrder(k, t, ch);
      var parent, color := Splice(elm, child, s, k, t, ch);
      t', rotations, rounds := Repair(parent, child, color, s, k, ch, h);
      ClimbBound(k, t, rounds);
    }

    /** RB_REMOVE of an element with two children: its successor is spliced out, and then takes
        over its link field. */
    method RemoveInner(o: Node, ghost s: set<Node>, ghost k: Ctx, ghost t: Tree)
      returns (ghost t': Tree, ghost before: seq<Node>, ghost after: seq<Node>, ghost rotations: nat, ghost rounds: nat)
      requires At(k, t, root, Snap(s)) && t.Fork? && o == t.x && t.l.Fork? && t.r.Fork?
      requires RbOk(Plug(k, t))
      modifies `root, s
      ensures Rep(t', null, Snap(s)) && root == Root(t') && RbOk(t') && rotations <= 3
      ensures InOrder(Plug(k, t)) == before + [o] + after && InOrder(t') == before + after
      ensures TwiceLog(rounds, |InOrder(Plug(k, t))|)
    {
      ghost var ko := RightOf(k, t.l, t.x, t.c);
      MoveUp(ko, t.r, root, Snap(s));
      Peek(k, t, root, Snap(s));
      var elm := o.rb.right;
      ghost var k1, t1;
      elm, k1, t1 := Leftmost(elm, s, ko, t.r);
      Peek(k1, t1, root, Snap(s));
      RepDistinct(k1, Root(t1), root, Snap(s));
      before, after := ReplacedOrder(k1, t1, ko);
      ghost var h := RemovedOk(k1, t1, t1.r);
      var child := elm.rb.right;
      var parent, color := Splice(elm, child, s, k1, t1, t1.r);
      if elm.rb.parent == o {
        parent := elm;
      }
      TakeOver(elm, o, s, k1, t1.r, ko);
      VacatedReplaced(k1, t1.r, ko, elm, color, h);
      ReplacedParent(k1, ko, elm);
      t', rotations, rounds := Repair(parent, child, color, s, Replace(k1, o, elm), t1.r, h);
      ReplacedDepth(k1, o, elm);
      ClimbBound(k1, t1, rounds);
    }

    /** The three-way branch of RB_REMOVE. */
    method Unlink(elm: Node, ghost s: set<Node>, ghost k: Ctx, ghost t: Tree)
      returns (ghost t': Tree, ghost before: seq<Node>, ghost after: seq<Node>, ghost rotations: nat, ghost rounds: nat)
      requires At(k, t, root, Snap(s)) && t.Fork? && elm == t.x && RbOk(Plug(k, t))
      modifies `root, s
      ensures Rep(t', null, Snap(s)) && root == Root(t') && RbOk(t') && rotations <= 3
      ensures InOrder(Plug(k, t)) == before + [elm] + after && InOrder(t') == before + after
      ensures TwiceLog(rounds, |InOrder(Plug(k, t))|)
    {
      Peek(k, t, root, Snap(s));
      if elm.rb.left == null {
        t', before, after, rotations, rounds := RemoveOuter(elm, elm.rb.right, s, k, t, t.r);
      } else if elm.rb.right == null {
        t', before, after, rotations, rounds := RemoveOuter(elm, elm.rb.left, s, k, t, t.l);
      } else {
        t', before, after, rotations, rounds := RemoveInner(elm, s, k, t);
      }
    }

    /** RB_REMOVE: any element of the tree goes, all others stay in their order. */
    method Remove(elm: Node)
      returns (r: Node, ghost before: seq<Node>, ghost after: seq<Node>, ghost rotations: nat, ghost rounds: nat)
      requires Valid() && elm in Contents()
      modifies this, Nodes(tree)
      ensures Valid() && r == elm
      ensures old(Contents()) == before + [elm] + after && Contents() == before + after
      ensures TwiceLog(rounds, |old(Contents())|) && rotations <= 3
    {
      ghost var s, t' := Nodes(tree), tree;
      assert allocated(s);
      ghost var k, t := Located(tree, elm, root, Snap(s));
      t', before, after, rotations, rounds := Unlink(elm, s, k, t);
      RemovedRep(tree, t', before, elm, after, Snap(s), Snap(Nodes(t')));
      tree := t';
      r := elm;
    }

    /** RB_NEXT. */
    method Next(elm0: Node) returns (r: Node?)
      requires Valid() && elm0 in Contents()
      ensures IsNext(Contents(), elm0, r)
    {
      ghost var s := Nodes(tree);
      var elm: Node? := elm0;
      ghost var k, t := Located(tree, elm0, root, Snap(s));
      Peek(k, t, root, Snap(s));
      if elm.rb.right != null {
        MoveUp(RightOf(k, t.l, t.x, t.c), t.r, root, Snap(s));
        ghost var k', t';
        elm, k', t' := Leftmost(elm.rb.right, s, RightOf(k, t.l, t.x, t.c), t.r);
        NextBelow(tree, k, t, k', t');
      } else {
        if elm.rb.parent != null && elm == elm.rb.parent.rb.left {
          elm := elm.rb.parent;
          NextAbove(tree, k, t, k);
        } else {
          ghost var k' := k;
          ghost var t' := t;
          while elm.rb.parent != null && elm == elm.rb.parent.rb.right
            invariant At(k', t', root, Snap(s)) && Plug(k', t') == tree && t'.Fork? && elm == t'.x
            invariant elm.rb.parent == Parent(k') && After(k') == After(k)
            invariant elm.rb.parent != null ==>
              (elm == elm.rb.parent.rb.right <==> k'.RightOf?)
            decreases k'
          {
            MoveUp(k', t', root, Snap(s));
            elm := elm.rb.parent;
            k', t' := k'.up, Wrap(k', t');
            Peek(k', t', root, Snap(s));
          }
          elm := elm.rb.parent;
          NextAbove(tree, k, t, k');
        }
      }
      r := elm;
    }

    /** RB_FOREACH, collecting what it visits. */
    method Foreach() returns (visited: seq<Node>)
      requires Valid()
      ensures visited == Contents()
    {
      visited := [];
      assert allocated(Nodes(tree));
      ghost var c := Contents();
      var x := MinMax(-1);
      while x != null
        invariant Valid() && Contents() == c
        invariant |visited| <= |c| && visited == c[..|visited|]
        invariant x == NodeAt(c, |visited|)
        decreases |c| - |visited|
      {
        assert allocated(Nodes(tree));
        ghost var i := |visited|;
        visited := visited + [x];
        var y := x;
        x := Next(y);
        assert IsNext(c, c[i], x);
      }
    }
  }
}
