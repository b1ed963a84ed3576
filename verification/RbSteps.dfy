/** The rebalancing steps of RB_INSERT_COLOR and RB_REMOVE_COLOR as functions on a context and
    a focus, and what each step does to the red-black conditions. */
module RbSteps {
  import opened Elements
  import opened RbShape

  function RotL(t: Tree): Tree
    requires t.Fork? && t.r.Fork?
  {
    Fork(Fork(t.l, t.x, t.c, t.r.l), t.r.x, t.r.c, t.r.r)
  }

  function RotR(t: Tree): Tree
    requires t.Fork? && t.l.Fork?
  {
    Fork(t.l.l, t.l.x, t.l.c, Fork(t.l.r, t.x, t.c, t.r))
  }

  lemma RotInOrder(k: Ctx, t: Tree)
    ensures t.Fork? && t.r.Fork? ==> InOrder(Plug(k, RotL(t))) == InOrder(Plug(k, t))
    ensures t.Fork? && t.l.Fork? ==> InOrder(Plug(k, RotR(t))) == InOrder(Plug(k, t))
  {
    if t.Fork? && t.r.Fork? {
      assert InOrder(RotL(t).l) == InOrder(t.l) + [t.x] + InOrder(t.r.l);
      Turn(InOrder(t.l), t.x, InOrder(t.r.l), t.r.x, InOrder(t.r.r));
      SamePlug(k, t, RotL(t));
    }
    if t.Fork? && t.l.Fork? {
      assert InOrder(RotR(t).r) == InOrder(t.l.r) + [t.x] + InOrder(t.r);
      Turn(InOrder(t.l.l), t.l.x, InOrder(t.l.r), t.x, InOrder(t.r));
      SamePlug(k, t, RotR(t));
    }
  }

  /** The context of the sibling, given the tree `t` in the hole. */
  function Other(k: Ctx, t: Tree): Ctx
    requires !k.Top?
  {
    if k.LeftOf? then RightOf(k.up, t, k.x, k.c) else LeftOf(k.up, k.x, k.c, t)
  }

  // ---- Searching ----

  /** A search for `key` in `whole` has narrowed to the focus. */
  ghost predicate Searching(whole: Tree, k: Ctx, t: Tree, key: int) {
    Plug(k, t) == whole && Below(Before(k), key) && Above(After(k), key)
  }

  lemma SearchStep(whole: Tree, k: Ctx, t: Tree, key: int)
    requires Searching(whole, k, t, key) && Sorted(InOrder(whole)) && t.Fork?
    ensures key < t.x.key ==> Searching(whole, LeftOf(k, t.x, t.c, t.r), t.l, key)
    ensures key > t.x.key ==> Searching(whole, RightOf(k, t.l, t.x, t.c), t.r, key)
    ensures t.x in InOrder(whole)
  {
    PlugInOrder(k, t);
    SortedAround(k, t);
    AboveSplit([t.x] + InOrder(t.r), After(k), key);
    BelowSplit(Before(k) + InOrder(t.l), [t.x], key);
    BelowSplit(Before(k), InOrder(t.l), key);
  }

  lemma SearchMiss(whole: Tree, k: Ctx, key: int)
    requires Searching(whole, k, Leaf, key)
    ensures InOrder(whole) == Before(k) + After(k)
    ensures forall n :: n in InOrder(whole) ==> n.key != key
  {
    PlugInOrder(k, Leaf);
  }

  // ---- Insertion ----

  /** The loop invariant of RB_INSERT_COLOR: everything is in order except that the red root of
      the focus may hang below a red node. */
  ghost predicate Grafted(k: Ctx, t: Tree, h: nat) {
    t.Fork? && t.c == Red && RedOk(t) && Bal(t, h) && CtxBal(k, h) && CtxRedOk(k, Black)
  }

  /** A red parent has a black parent in turn, so a grandparent exists. */
  lemma GrandBlack(k: Ctx, h: nat)
    requires CtxRedOk(k, Black) && CtxBal(k, h) && !k.Top? && k.c == Red
    ensures !k.up.Top? && k.up.c == Black
    ensures RedOk(k.up.sib) && CtxRedOk(k.up.up, Black) && Bal(k.up.sib, h) && CtxBal(k.up.up, h + 1)
  {
    assert CtxRedOk(k.up, Red);
    assert k.up.up.Top? ==> k.up.c == Black;
  }

  /** Red uncle: parent and uncle become black, the grandparent red. */
  function Flipped(k: Ctx, t: Tree): Tree
    requires !k.Top? && !k.up.Top? && k.up.sib.Fork?
  {
    Wrap(Colored(Beside(k.up, k.up.sib.(c := Black)), Red), Wrap(Colored(k, Black), t))
  }

  lemma FlippedOk(k: Ctx, t: Tree, h: nat)
    requires Grafted(k, t, h) && !k.Top? && !k.up.Top? && k.c == Red && ColorOf(k.up.sib) == Red
    ensures Grafted(k.up.up, Flipped(k, t), h + 1)
  {
    GrandBlack(k, h);
  }

  predicate Inner(k: Ctx)
    requires !k.Top? && !k.up.Top?
  {
    k.LeftOf? != k.up.LeftOf?
  }

  /** An inner grandchild becomes an outer one by a rotation at the parent. */
  function Straight(k: Ctx, t: Tree): (Ctx, Tree)
    requires t.Fork? && !k.Top? && !k.up.Top?
  {
    if !Inner(k) then (k, t)
    else if k.RightOf? then (LeftOf(k.up, t.x, t.c, t.r), Fork(k.sib, k.x, k.c, t.l))
    else (RightOf(k.up, t.l, t.x, t.c), Fork(t.r, k.x, k.c, k.sib))
  }

  lemma StraightOk(k: Ctx, t: Tree, h: nat)
    requires Grafted(k, t, h) && !k.Top? && !k.up.Top? && k.c == Red
    ensures var (k', t') := Straight(k, t);
      Grafted(k', t', h) && !k'.Top? && k'.c == Red && k'.up == k.up && !Inner(k')
  {}

  /** An outer grandchild: the parent takes the grandparent's place and colour. */
  function Raised(k: Ctx): Ctx
    requires !k.Top? && !k.up.Top?
  {
    if k.LeftOf? then LeftOf(k.up.up, k.x, Black, Fork(k.sib, k.up.x, Red, k.up.sib))
    else RightOf(k.up.up, Fork(k.up.sib, k.up.x, Red, k.sib), k.x, Black)
  }

  lemma RaisedOk(k: Ctx, t: Tree, h: nat)
    requires Grafted(k, t, h) && !k.Top? && !k.up.Top? && k.c == Red
    requires !Inner(k) && ColorOf(k.up.sib) == Black
    ensures Grafted(Raised(k), t, h)
  {
    GrandBlack(k, h);
  }

  /** Once the parent is black, or there is none, blackening the root ends the insertion. */
  lemma GraftedDone(k: Ctx, t: Tree, h: nat)
    requires Grafted(k, t, h)
    ensures k.Top? ==> RbOk(t.(c := Black))
    ensures !k.Top? && k.c == Black ==> RbOk(Plug(k, t))
  {
    if k.Top? {
      assert Bal(t.(c := Black), h + 1);
    } else if k.c == Black {
      PlugOk(k, t, h);
    }
  }

  /** Linking a fresh red element into an empty hole. */
  lemma LinkedAt(k: Ctx, elm: Node, root: Node?, root': Node?, m: Links, m': Links)
    requires At(k, Leaf, root, m) && elm !in CtxNodes(k)
    requires elm in m' && m'[elm] == RbEntry(null, null, Parent(k), Red)
    requires k.Top? ==> root' == elm
    requires !k.Top? ==> root' == root && k.x in m'
    requires !k.Top? ==> m'[k.x] == if k.LeftOf? then m[k.x].(left := elm) else m[k.x].(right := elm)
    requires Agree(CtxNodes(k) - {Parent(k)}, m, m')
    ensures At(k, Fork(Leaf, elm, Red, Leaf), root', m')
  {
    Redirected(k, null, root, elm, root', m, m');
  }

  /** A red leaf in place of a null pointer keeps all black heights. */
  lemma GraftedLeaf(k: Ctx, elm: Node)
    requires RbOk(Plug(k, Leaf))
    ensures Grafted(k, Fork(Leaf, elm, Red, Leaf), 0)
  {
    var h := UnplugOk(k, Leaf);
  }

  lemma GraftedNodes(k: Ctx, elm: Node, t': Tree)
    requires InOrder(t') == InOrder(Plug(k, Fork(Leaf, elm, Red, Leaf)))
    ensures InOrder(t') == Before(k) + [elm] + After(k)
    ensures Nodes(t') == Nodes(Plug(k, Leaf)) + {elm}
  {
    var t := Fork(Leaf, elm, Red, Leaf);
    PlugInOrder(k, t);
    PlugNodes(k, t);
    PlugNodes(k, Leaf);
    SameNodes(t', Plug(k, t));
  }

  /** The pure half of RB_INSERT's second part. */
  lemma InsertReady(whole: Tree, k: Ctx, elm: Node)
    requires Searching(whole, k, Leaf, elm.key) && RbOk(whole) && Sorted(InOrder(whole))
    ensures CtxNodes(k) == Nodes(whole) && Grafted(k, Fork(Leaf, elm, Red, Leaf), 0)
    ensures Sorted(Before(k) + [elm] + After(k))
  {
    SearchMiss(whole, k, elm.key);
    SortedInsert(Before(k), elm, After(k));
    PlugNodes(k, Leaf);
    GraftedLeaf(k, elm);
  }
}
