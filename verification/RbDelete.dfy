/** The steps of RB_REMOVE and RB_REMOVE_COLOR as functions on a context and a focus, and what
    each step does to the link fields and to the red-black conditions. */
module RbDelete {
  import opened Elements
  import opened RbShape
  import opened RbSteps

  // ---- Taking an element out of its place ----

  /** A node with at most one child is replaced by that child `ch`. */
  lemma SplicedAt(k: Ctx, t: Tree, ch: Tree, root: Node?, root': Node?, m: Links, m': Links)
    requires At(k, t, root, m) && t.Fork? && (ch == t.l || ch == t.r)
    requires ch.Fork? ==> ch.x in m && ch.x in m' && m'[ch.x] == m[ch.x].(parent := Parent(k))
    requires k.Top? ==> root' == Root(ch)
    requires !k.Top? ==> root' == root && k.x in m'
    requires !k.Top? ==> m'[k.x] == if k.LeftOf? then m[k.x].(left := Root(ch)) else m[k.x].(right := Root(ch))
    requires forall n :: n in m && n != Parent(k) && n != Root(ch) ==> n in m' && m'[n] == m[n]
    ensures At(k, ch, root', m')
  {
    Reparent(ch, t.x, Parent(k), m, m');
    assert ch.Fork? ==> ch.x in Nodes(ch);
    Redirected(k, t.x, root, Root(ch), root', m, m');
  }

  /** `k` continues `ko` downwards through left children only. */
  predicate LeftSpine(k: Ctx, ko: Ctx) {
    k == ko || (k.LeftOf? && LeftSpine(k.up, ko))
  }

  /** `k` with `e` in the place of the element `o`. */
  function Replace(k: Ctx, o: Node, e: Node): Ctx {
    if k.Top? then k
    else if k.LeftOf? then
      if k.x == o then LeftOf(k.up, e, k.c, k.sib) else LeftOf(Replace(k.up, o, e), k.x, k.c, k.sib)
    else
      if k.x == o then RightOf(k.up, k.sib, e, k.c) else RightOf(Replace(k.up, o, e), k.sib, k.x, k.c)
  }

  /** Seen from below, the right child of `ko.x` is the first frame above `ko`. */
  lemma {:induction false} SpineTop(k: Ctx, ko: Ctx, r: Node?, root: Node?, m: Links)
    requires LeftSpine(k, ko) && k != ko && ko.RightOf? && RepCtx(k, r, root, m)
    ensures k.x != ko.x && ko.x in CtxNodes(k.up) && ko.x in m
    ensures m[ko.x].right != null && m[ko.x].right in m && m[ko.x].right in CtxNodes(k)
    ensures k.up == ko ==> m[ko.x].right == k.x
    ensures k.up != ko ==> m[ko.x].right in CtxNodes(k.up)
    ensures CtxNodes(ko) <= CtxNodes(k.up) && m[ko.x].right !in CtxNodes(ko)
    ensures RepCtx(ko, m[ko.x].right, root, m)
    decreases k
  {
    if k.up != ko { SpineTop(k.up, ko, k.x, root, m); }
  }

  /** The link fields after element `e`, already out of the tree, has taken over the link field
      of `ko.x` and the pointers that led to it. */
  ghost predicate TakenOver(ko: Ctx, e: Node, root: Node?, root': Node?, m: Links, m': Links)
    requires ko.RightOf? && ko.x in m
  {
    var o, p, a, b := ko.x, Parent(ko.up), Root(ko.sib), m[ko.x].right;
    && e in m' && m'[e] == m[o]
    && (p == null ==> root' == e)
    && (p != null ==> root' == root && p in m && p in m')
    && (p != null ==> m'[p] == if ko.up.LeftOf? then m[p].(left := e) else m[p].(right := e))
    && (a != null ==> a in m && a in m' && m'[a] == m[a].(parent := e))
    && (b != null ==> b in m && b in m' && m'[b] == m[b].(parent := e))
    && forall n :: n in m && n != o && n != e && n != p && n != a && n != b ==> n in m' && m'[n] == m[n]
  }

  /** The elements whose link fields RB_REMOVE rewrites for a replacement are all different. */
  lemma TakeOverFacts(k: Ctx, t: Tree, ko: Ctx, root: Node?, m: Links)
    requires At(k, t, root, m) && LeftSpine(k, ko) && ko.RightOf?
    ensures ko.x in m && ko.x in CtxNodes(k)
    ensures var o, p, a, b := ko.x, Parent(ko.up), Root(ko.sib), m[ko.x].right;
      && m[o] == RbEntry(a, b, p, ko.c)
      && (p == null ==> root == o)
      && (p != null ==> p in m && p in CtxNodes(k) && p != o && p != a && p != b)
      && (p != null ==> if ko.up.LeftOf? then m[p].left == o else m[p].left != o)
      && (a != null ==> a in m && a in CtxNodes(k) && a != o && a != b)
      && (b != null ==> b in m && b in CtxNodes(k) + Nodes(t) && b != o)
  {
    assert t.Fork? ==> t.x in Nodes(t);
    if k != ko {
      SpineTop(k, ko, Root(t), root, m);
    }
    var b := m[ko.x].right;
    assert RepCtx(ko, b, root, m) && Rep(ko.sib, ko.x, m) && RepCtx(ko.up, ko.x, root, m);
    assert b != null ==> b !in CtxNodes(ko) && b in m;
    assert ko.sib.Fork? ==> ko.sib.x in Nodes(ko.sib) && ko.sib.x in CtxNodes(ko);
    assert !ko.up.Top? ==> ko.up.x in CtxNodes(ko.up) && ko.up.x in CtxNodes(ko);
    assert CtxNodes(ko) <= CtxNodes(k);
    assert ko.up.RightOf? && ko.up.sib.Fork? ==> ko.up.sib.x in Nodes(ko.up.sib);
  }

  lemma SpineHolds(ko: Ctx)
    ensures !ko.Top? ==> ko.x in CtxNodes(ko) && (ko.sib.Fork? ==> ko.sib.x in Nodes(ko.sib) && ko.sib.x in CtxNodes(ko))
    ensures !ko.Top? && !ko.up.Top? ==> ko.up.x in CtxNodes(ko.up) && ko.up.x in CtxNodes(ko)
  {
    assert !ko.Top? && ko.sib.Fork? ==> ko.sib.x in Nodes(ko.sib);
    assert !ko.Top? && !ko.up.Top? ==> ko.up.x in CtxNodes(ko.up);
  }

  lemma ReplacedBase(ko: Ctx, e: Node, r: Node?, root: Node?, root': Node?, m: Links, m': Links)
    requires ko.RightOf? && RepCtx(ko, r, root, m)
    requires e !in CtxNodes(ko) && (r != null ==> r !in CtxNodes(ko))
    requires TakenOver(ko, e, root, root', m, m')
    ensures RepCtx(RightOf(ko.up, ko.sib, e, ko.c), r, root', m')
  {
    SpineHolds(ko);
    Reparent(ko.sib, ko.x, e, m, m');
    Redirected(ko.up, ko.x, root, e, root', m, m');
  }

  lemma {:induction false} ReplacedCtx(k: Ctx, ko: Ctx, e: Node, r: Node?, root: Node?, root': Node?, m: Links, m': Links)
    requires LeftSpine(k, ko) && ko.RightOf? && RepCtx(k, r, root, m)
    requires e !in CtxNodes(k) && (r != null ==> r !in CtxNodes(k))
    requires ko.x in m && TakenOver(ko, e, root, root', m, m')
    ensures RepCtx(Replace(k, ko.x, e), r, root', m')
    ensures Parent(Replace(k, ko.x, e)) == if k == ko then e else Parent(k)
    ensures CtxNodes(Replace(k, ko.x, e)) <= CtxNodes(k) + {e}
    decreases k
  {
    if k == ko {
      ReplacedBase(ko, e, r, root, root', m, m');
    } else {
      SpineTop(k, ko, r, root, m);
      ReplacedCtx(k.up, ko, e, k.x, root, root', m, m');
      SpineHolds(ko);
      assert Agree(Nodes(k.sib), m, m');
      RepFrame(k.sib, k.x, m, m');
    }
  }

  lemma ReplacedFocus(k: Ctx, t: Tree, ko: Ctx, e: Node, root: Node?, root': Node?, m: Links, m': Links)
    requires At(k, t, root, m) && LeftSpine(k, ko) && ko.RightOf? && e !in CtxNodes(k) + Nodes(t)
    requires ko.x in m && TakenOver(ko, e, root, root', m, m')
    ensures Rep(t, if k == ko then e else Parent(k), m')
  {
    SpineHolds(ko);
    if k == ko {
      assert t.Fork? ==> t.x in Nodes(t);
      Reparent(t, ko.x, e, m, m');
    } else {
      SpineTop(k, ko, Root(t), root, m);
      RepFrame(t, Parent(k), m, m');
    }
  }

  lemma ReplacedAt(k: Ctx, t: Tree, ko: Ctx, e: Node, root: Node?, root': Node?, m: Links, m': Links)
    requires At(k, t, root, m) && LeftSpine(k, ko) && ko.RightOf? && e !in CtxNodes(k) + Nodes(t)
    requires ko.x in m && TakenOver(ko, e, root, root', m, m')
    ensures At(Replace(k, ko.x, e), t, root', m')
  {
    assert t.Fork? ==> t.x in Nodes(t);
    ReplacedFocus(k, t, ko, e, root, root', m, m');
    ReplacedCtx(k, ko, e, Root(t), root, root', m, m');
  }

  /** Replacing an element changes neither colours nor black heights, only its own place in
      the order. */
  lemma {:induction false} ReplacedOk(k: Ctx, ko: Ctx, e: Node, h: nat, c: Color)
    requires LeftSpine(k, ko) && ko.RightOf?
    requires Distinct(k)
    ensures CtxBal(Replace(k, ko.x, e), h) <==> CtxBal(k, h)
    ensures CtxRedOk(Replace(k, ko.x, e), c) <==> CtxRedOk(k, c)
    ensures Before(k) == Before(ko.up) + InOrder(ko.sib) + [ko.x]
    ensures Before(Replace(k, ko.x, e)) == Before(ko.up) + InOrder(ko.sib) + [e]
    ensures After(Replace(k, ko.x, e)) == After(k)
    decreases k
  {
    if k != ko {
      SpineNodes(k, ko);
      ReplacedOk(k.up, ko, e, if k.c == Black then h + 1 else h, k.c);
    }
  }

  /** No element occurs twice on the spine of the context. */
  ghost predicate Distinct(k: Ctx) {
    !k.Top? ==> k.x !in CtxNodes(k.up) && Distinct(k.up)
  }

  lemma {:induction false} SpineNodes(k: Ctx, ko: Ctx)
    requires LeftSpine(k, ko) && k != ko && ko.RightOf?
    ensures ko.x in CtxNodes(k.up)
    decreases k
  {
    if k.up != ko { SpineNodes(k.up, ko); }
  }

  lemma {:induction false} RepDistinct(k: Ctx, r: Node?, root: Node?, m: Links)
    requires RepCtx(k, r, root, m)
    ensures Distinct(k)
    decreases k
  {
    if !k.Top? { RepDistinct(k.up, k.x, root, m); }
  }

  lemma RegroupBelow(a: seq<Node>, x: Node, y: Node, b: seq<Node>, c: seq<Node>)
    ensures (a + [x]) + ([] + [y] + b) + c == a + [x] + ([y] + b + c)
  {}

  lemma RegroupTail(a: seq<Node>, y: Node, b: seq<Node>, c: seq<Node>)
    ensures (a + [y]) + b + c == a + ([y] + b + c)
  {}

  /** What is left of the order when the root of the focus, with at most one child, goes. */
  lemma RemovedOrder(k: Ctx, t: Tree, ch: Tree) returns (before: seq<Node>, after: seq<Node>)
    requires t.Fork? && ((t.l == Leaf && ch == t.r) || (t.r == Leaf && ch == t.l))
    ensures InOrder(Plug(k, t)) == before + [t.x] + after
    ensures InOrder(Plug(k, ch)) == before + after
  {
    PlugInOrder(k, t);
    PlugInOrder(k, ch);
    before, after := Before(k) + InOrder(t.l), InOrder(t.r) + After(k);
    FourParts(Before(k), InOrder(t.l), t.x, InOrder(t.r), After(k));
    assert t.l == Leaf ==> before == Before(k);
    assert t.r == Leaf ==> after == After(k);
  }

  /** The same for an element with two children, whose successor `t.x` moves into its place. */
  lemma ReplacedOrder(k: Ctx, t: Tree, ko: Ctx) returns (before: seq<Node>, after: seq<Node>)
    requires t.Fork? && t.l == Leaf && LeftSpine(k, ko) && ko.RightOf? && Distinct(k)
    ensures InOrder(Plug(k, t)) == before + [ko.x] + after
    ensures InOrder(Plug(Replace(k, ko.x, t.x), t.r)) == before + after
  {
    ReplacedOk(k, ko, t.x, 0, Black);
    PlugInOrder(k, t);
    PlugInOrder(Replace(k, ko.x, t.x), t.r);
    before, after := Before(ko.up) + InOrder(ko.sib), [t.x] + InOrder(t.r) + After(k);
    RegroupBelow(before, ko.x, t.x, InOrder(t.r), After(k));
    RegroupTail(before, t.x, InOrder(t.r), After(k));
  }

  /** What is known after an element of colour `c` has left its place to the focus `t`. */
  ghost predicate Vacated(k: Ctx, t: Tree, c: Color, h: nat) {
    && RedOk(t) && Bal(t, h)
    && (c == Black ==> CtxBal(k, h + 1) && CtxRedOk(k, Black))
    && (c == Red ==> CtxBal(k, h) && CtxRedOk(k, ColorOf(t)))
  }

  lemma VacatedReplaced(k: Ctx, t: Tree, ko: Ctx, e: Node, c: Color, h: nat)
    requires Vacated(k, t, c, h) && LeftSpine(k, ko) && ko.RightOf? && Distinct(k)
    ensures Vacated(Replace(k, ko.x, e), t, c, h)
  {
    ReplacedOk(k, ko, e, h, ColorOf(t));
    ReplacedOk(k, ko, e, h + 1, Black);
  }

  lemma ReplacedParent(k: Ctx, ko: Ctx, e: Node)
    requires LeftSpine(k, ko) && ko.RightOf? && Distinct(k)
    ensures Parent(Replace(k, ko.x, e)) == if k.x == ko.x then e else k.x
  {}

  lemma {:induction false} ReplacedDepth(k: Ctx, o: Node, e: Node)
    ensures Depth(Replace(k, o, e)) == Depth(k)
    decreases k
  {
    if !k.Top? {
      ReplacedDepth(k.up, o, e);
    }
  }

  /** The zipper of an element of the tree. */
  lemma Located(whole: Tree, n: Node, root: Node?, m: Links) returns (k: Ctx, t: Tree)
    requires Rep(whole, null, m) && root == Root(whole) && n in InOrder(whole)
    ensures At(k, t, root, m) && t.Fork? && t.x == n && Plug(k, t) == whole
  {
    InOrderNodes(whole);
    LocateAt(Top, whole, n, root, m);
    var p := Locate(Top, whole, n);
    k, t := p.0, p.1;
  }

  /** The tree that is left needs only the link fields of its own elements. */
  lemma RemovedRep(t: Tree, t': Tree, a: seq<Node>, x: Node, b: seq<Node>, m: Links, m': Links)
    requires InOrder(t) == a + [x] + b && InOrder(t') == a + b && Sorted(InOrder(t))
    requires Rep(t', null, m) && Agree(Nodes(t'), m, m')
    ensures Nodes(t') <= Nodes(t) && Sorted(InOrder(t')) && Rep(t', null, m')
  {
    InOrderNodes(t);
    InOrderNodes(t');
    SortedRemove(a, x, b);
    RepFrame(t', null, m, m');
  }

  // ---- The next element ----

  /** With a right subtree, the successor is that subtree's leftmost element. */
  lemma NextBelow(whole: Tree, k: Ctx, t: Tree, k': Ctx, t': Tree)
    requires Sorted(InOrder(whole)) && Plug(k, t) == whole && Plug(k', t') == whole && t.Fork?
    requires LeftSpine(k', RightOf(k, t.l, t.x, t.c)) && t'.Fork? && t'.l == Leaf
    ensures IsNext(InOrder(whole), t.x, t'.x)
  {
    SpineBefore(k', RightOf(k, t.l, t.x, t.c));
    PlugInOrder(k', t');
    RegroupBelow(Before(k) + InOrder(t.l), t.x, t'.x, InOrder(t'.r), After(k'));
    NextIn(Before(k) + InOrder(t.l), t.x, [t'.x] + InOrder(t'.r) + After(k'));
  }

  /** Without one it is the first element after the hole, found by climbing. */
  lemma NextAbove(whole: Tree, k: Ctx, t: Tree, k': Ctx)
    requires Sorted(InOrder(whole)) && Plug(k, t) == whole && t.Fork? && t.r == Leaf
    requires After(k') == After(k) && !k'.RightOf?
    ensures IsNext(InOrder(whole), t.x, Parent(k'))
  {
    PlugInOrder(k, t);
    FourParts(Before(k), InOrder(t.l), t.x, [], After(k));
    assert [] + After(k) == After(k);
    NextIn(Before(k) + InOrder(t.l), t.x, After(k));
  }

  lemma {:induction false} SpineBefore(k: Ctx, ko: Ctx)
    requires LeftSpine(k, ko)
    ensures Before(k) == Before(ko)
    decreases k
  {
    if k != ko { SpineBefore(k.up, ko); }
  }

  // ---- Recolouring ----

  /** The loop invariant of RB_REMOVE_COLOR: the focus is one black node short of what its
      context needs, and may have a red root below a red parent; all else is in order. */
  ghost predicate Short(k: Ctx, t: Tree, h: nat) {
    && Bal(t, h) && CtxBal(k, h + 1) && CtxRedOk(k, Black)
    && (t.Fork? ==> RedOk(t.l) && RedOk(t.r))
  }

  function Blacken(t: Tree): Tree {
    if t.Leaf? then t else t.(c := Black)
  }

  /** A red focus, or the whole tree, is repaired by painting its root black. */
  lemma ShortDone(k: Ctx, t: Tree, h: nat)
    requires Short(k, t, h) && (k.Top? || ColorOf(t) == Red)
    ensures RbOk(Plug(k, Blacken(t)))
  {
    if ColorOf(t) == Red {
      PlugOk(k, Blacken(t), h + 1);
    } else {
      PlugOk(k, t, h);
    }
  }

  /** A finished tree is, for the loop, a whole tree that may be short. */
  lemma Finished(t: Tree, root: Node?, m: Links) returns (h: nat)
    requires RbOk(t) && Rep(t, null, m) && root == Root(t)
    ensures Short(Top, t, h) && At(Top, t, root, m)
  {
    h :| Bal(t, h);
  }

  /** Removing a red element leaves a red-black tree, removing a black one a short focus. */
  lemma RemovedOk(k: Ctx, t: Tree, ch: Tree) returns (h: nat)
    requires RbOk(Plug(k, t)) && t.Fork?
    requires (t.l == Leaf && ch == t.r) || (t.r == Leaf && ch == t.l)
    ensures Vacated(k, ch, t.c, h)
  {
    var g := UnplugOk(k, t);
    h := if t.c == Black then g - 1 else g;
    assert CtxRedOk(k, t.c) ==> CtxRedOk(k, Black);
  }

  /** Above a short focus there is a sibling; if it is red, it has black children. */
  lemma SiblingExists(k: Ctx, t: Tree, h: nat)
    requires Short(k, t, h) && !k.Top?
    ensures k.sib.Fork? && RedOk(k.sib) && Bal(k.sib, h + 1) && CtxRedOk(k.up, k.c)
    ensures k.sib.c == Red ==> k.c == Black && k.sib.l.Fork? && k.sib.r.Fork? && k.sib.l.c == Black && k.sib.r.c == Black
  {
    assert k.sib.c == Red ==> Bal(k.sib.l, h + 1) && Bal(k.sib.r, h + 1);
  }

  /** Red sibling: rotated to become black grandparent, so that the new sibling is black. */
  function Borrowed(k: Ctx): Ctx
    requires !k.Top? && k.sib.Fork?
  {
    if k.LeftOf? then LeftOf(LeftOf(k.up, k.sib.x, Black, k.sib.r), k.x, Red, k.sib.l)
    else RightOf(RightOf(k.up, k.sib.l, k.sib.x, Black), k.sib.r, k.x, Red)
  }

  lemma BorrowedOk(k: Ctx, t: Tree, h: nat)
    requires Short(k, t, h) && !k.Top? && k.sib.Fork? && k.sib.c == Red
    ensures Short(Borrowed(k), t, h) && Borrowed(k).sib.Fork? && Borrowed(k).sib.c == Black
  {
    SiblingExists(k, t, h);
    assert CtxBal(k.up, h + 2);
  }

  /** Black sibling with black children: it turns red and the shortage moves up. */
  function Lifted(k: Ctx, t: Tree): Tree
    requires !k.Top? && k.sib.Fork?
  {
    Wrap(Beside(k, k.sib.(c := Red)), t)
  }

  lemma LiftedOk(k: Ctx, t: Tree, h: nat)
    requires Short(k, t, h) && !k.Top? && k.sib.Fork? && k.sib.c == Black && ColorOf(t) == Black
    requires ColorOf(k.sib.l) == Black && ColorOf(k.sib.r) == Black
    ensures Short(k.up, Lifted(k, t), if k.c == Black then h + 1 else h)
  {
    assert CtxRedOk(k.up, k.c) ==> CtxRedOk(k.up, Black);
  }

  /** The sibling's children as seen from the focus. */
  function Near(k: Ctx): Tree
    requires !k.Top? && k.sib.Fork?
  {
    if k.LeftOf? then k.sib.l else k.sib.r
  }

  function Far(k: Ctx): Tree
    requires !k.Top? && k.sib.Fork?
  {
    if k.LeftOf? then k.sib.r else k.sib.l
  }

  /** Black sibling with a black far and a red near child: a rotation at the sibling, with an
      exchange of colours, makes the far child red. */
  function Turned(k: Ctx): Ctx
    requires !k.Top? && k.sib.Fork? && Near(k).Fork?
  {
    var n := Near(k);
    if k.LeftOf? then Beside(k, Fork(n.l, n.x, Black, Fork(n.r, k.sib.x, Red, k.sib.r)))
    else Beside(k, Fork(Fork(k.sib.l, k.sib.x, Red, n.l), n.x, Black, n.r))
  }

  lemma TurnedOk(k: Ctx, t: Tree, h: nat)
    requires Short(k, t, h) && !k.Top? && k.sib.Fork? && k.sib.c == Black
    requires ColorOf(Far(k)) == Black && ColorOf(Near(k)) == Red
    ensures Short(Turned(k), t, h) && Turned(k).sib.c == Black && ColorOf(Far(Turned(k))) == Red
  {
    SiblingExists(k, t, h);
    var n := Near(k);
    assert Bal(n, h) && Bal(Far(k), h) && Bal(n.l, h) && Bal(n.r, h) && RedOk(n) && RedOk(Far(k));
    assert Bal(Far(Turned(k)), h) && Bal(Turned(k).sib, h + 1) && RedOk(Turned(k).sib);
  }

  /** Black sibling with a red far child: one rotation at the parent ends the shortage. */
  function Closed(k: Ctx, t: Tree): Tree
    requires !k.Top? && k.sib.Fork?
  {
    if k.LeftOf? then Fork(Fork(t, k.x, Black, k.sib.l), k.sib.x, k.c, Blacken(k.sib.r))
    else Fork(Blacken(k.sib.l), k.sib.x, k.c, Fork(k.sib.r, k.x, Black, t))
  }

  lemma ClosedOk(k: Ctx, t: Tree, h: nat)
    requires Short(k, t, h) && !k.Top? && k.sib.Fork? && k.sib.c == Black && ColorOf(t) == Black
    requires ColorOf(Far(k)) == Red
    ensures RbOk(Plug(k.up, Closed(k, t)))
  {
    SiblingExists(k, t, h);
    PlugOk(k.up, Closed(k, t), if k.c == Black then h + 2 else h + 1);
  }
}
