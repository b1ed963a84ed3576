/** The abstract side of the splay tree of `tree.h`.  A top-down splay takes a tree apart into a
    left tree, a middle tree and a right tree; the outer two grow at one hole each, and a dummy
    node holds their roots.  A `Spine` is such an outer tree seen from its hole. */
module SplayShape {
  import opened Elements

  type Links = map<Node, SplayEntry>

  ghost function Snap(s: set<Node>): (m: Links)
    reads s
    ensures m.Keys == s
  {
    map n | n in s :: n.splay
  }

  datatype Tree = Leaf | Fork(l: Tree, x: Node, r: Tree)

  /** The way to the hole: `n` was linked last, and `side` is its subtree away from the hole.
      The left tree has its hole at the far right, the right tree at the far left. */
  datatype Spine = Nil | Link(up: Spine, n: Node, side: Tree)

  /** Which outer tree: the left one or the right one. */
  datatype Dir = L | R

  ghost function Nodes(t: Tree): set<Node> {
    match t
    case Leaf => {}
    case Fork(l, x, r) => Nodes(l) + {x} + Nodes(r)
  }

  ghost function SpineNodes(p: Spine): set<Node> {
    if p.Nil? then {} else SpineNodes(p.up) + {p.n} + Nodes(p.side)
  }

  function InOrder(t: Tree): seq<Node> {
    match t
    case Leaf => []
    case Fork(l, x, r) => InOrder(l) + [x] + InOrder(r)
  }

  /** The elements of an outer tree whose hole is empty. */
  function Order(p: Spine, d: Dir): seq<Node> {
    if p.Nil? then []
    else if d == L then Order(p.up, d) + InOrder(p.side) + [p.n]
    else [p.n] + InOrder(p.side) + Order(p.up, d)
  }

  /** An outer tree with `t` put into its hole. */
  function Fill(p: Spine, d: Dir, t: Tree): Tree {
    if p.Nil? then t
    else Fill(p.up, d, if d == L then Fork(p.side, p.n, t) else Fork(t, p.n, p.side))
  }

  function Root(t: Tree): Node? {
    if t.Leaf? then null else t.x
  }

  /** The field of a link entry that leads towards the hole, and the other one. */
  function Inward(e: SplayEntry, d: Dir): Node? {
    if d == L then e.right else e.left
  }

  function Outward(e: SplayEntry, d: Dir): Node? {
    if d == L then e.left else e.right
  }

  /** The node whose inward field is the hole. */
  function Holder(p: Spine, dummy: Node): Node {
    if p.Nil? then dummy else p.n
  }

  ghost predicate Rep(t: Tree, m: Links) {
    t.Fork? ==>
      && t.x in m && m[t.x] == SplayEntry(Root(t.l), Root(t.r))
      && t.x !in Nodes(t.l) && t.x !in Nodes(t.r) && Nodes(t.l) !! Nodes(t.r)
      && Rep(t.l, m) && Rep(t.r, m)
  }

  ghost predicate RepSpine(p: Spine, d: Dir, dummy: Node, m: Links) {
    p.Link? ==>
      && p.n in m && Outward(m[p.n], d) == Root(p.side) && Rep(p.side, m)
      && Holder(p.up, dummy) in m && Inward(m[Holder(p.up, dummy)], d) == p.n
      && p.n != dummy && dummy !in Nodes(p.side)
      && p.n !in Nodes(p.side) && p.n !in SpineNodes(p.up) && Nodes(p.side) !! SpineNodes(p.up)
      && RepSpine(p.up, d, dummy, m)
  }

  /** The three trees of a splay in progress. */
  ghost predicate Apart(l: Spine, t: Tree, r: Spine, dummy: Node, m: Links) {
    && RepSpine(l, L, dummy, m) && Rep(t, m) && RepSpine(r, R, dummy, m)
    && dummy in m && dummy !in Nodes(t)
    && SpineNodes(l) !! Nodes(t) && SpineNodes(r) !! Nodes(t) && SpineNodes(l) !! SpineNodes(r)
  }

  ghost predicate Agree(s: set<Node>, m: Links, m': Links) {
    forall n :: n in s && n in m ==> n in m' && m'[n] == m[n]
  }

  lemma {:induction false} RepFrame(t: Tree, m: Links, m': Links)
    requires Rep(t, m) && Agree(Nodes(t), m, m')
    ensures Rep(t, m')
    decreases t
  {
    if t.Fork? {
      RepFrame(t.l, m, m');
      RepFrame(t.r, m, m');
    }
  }

  /** An outer tree does not depend on its hole, nor on the dummy's other field. */
  lemma {:induction false} SpineFrame(p: Spine, d: Dir, dummy: Node, m: Links, m': Links)
    requires RepSpine(p, d, dummy, m) && Agree(SpineNodes(p) - {Holder(p, dummy)}, m, m')
    requires p.Link? ==> p.n in m' && Outward(m'[p.n], d) == Outward(m[p.n], d)
    requires p.Link? ==> dummy in m && dummy in m' && Inward(m'[dummy], d) == Inward(m[dummy], d)
    ensures RepSpine(p, d, dummy, m')
    decreases p
  {
    if p.Link? {
      RepFrame(p.side, m, m');
      assert p.up.Link? ==> p.up.n in SpineNodes(p.up);
      SpineFrame(p.up, d, dummy, m, m');
    }
  }

  lemma {:induction false} DummyApart(p: Spine, d: Dir, dummy: Node, m: Links)
    requires RepSpine(p, d, dummy, m)
    ensures dummy !in SpineNodes(p)
    decreases p
  {
    if p.Link? { DummyApart(p.up, d, dummy, m); }
  }

  /** Putting a tree into the hole of an outer tree gives a tree under the dummy. */
  lemma {:induction false} FillRep(p: Spine, d: Dir, dummy: Node, t: Tree, m: Links)
    requires RepSpine(p, d, dummy, m) && Rep(t, m) && SpineNodes(p) !! Nodes(t)
    requires Holder(p, dummy) in m && Inward(m[Holder(p, dummy)], d) == Root(t)
    ensures Rep(Fill(p, d, t), m) && dummy in m && Inward(m[dummy], d) == Root(Fill(p, d, t))
    ensures Nodes(Fill(p, d, t)) == SpineNodes(p) + Nodes(t)
    decreases p
  {
    if p.Link? {
      FillRep(p.up, d, dummy, if d == L then Fork(p.side, p.n, t) else Fork(t, p.n, p.side), m);
    }
  }

  lemma Assoc(a: seq<Node>, b: seq<Node>, x: Node, c: seq<Node>)
    ensures a + (b + [x] + c) == (a + b + [x]) + c
  {}

  lemma AssocRight(a: seq<Node>, x: Node, b: seq<Node>, c: seq<Node>)
    ensures (a + [x] + b) + c == a + ([x] + b + c)
  {}

  lemma {:induction false} FillOrder(p: Spine, d: Dir, t: Tree)
    ensures InOrder(Fill(p, d, t)) == if d == L then Order(p, d) + InOrder(t) else InOrder(t) + Order(p, d)
    decreases p
  {
    if p.Link? {
      var t' := if d == L then Fork(p.side, p.n, t) else Fork(t, p.n, p.side);
      FillOrder(p.up, d, t');
      Assoc(Order(p.up, d), InOrder(p.side), p.n, InOrder(t));
      AssocRight(InOrder(t), p.n, InOrder(p.side), Order(p.up, d));
    }
  }

  lemma {:induction false} InOrderNodes(t: Tree)
    ensures Nodes(t) == Elems(InOrder(t))
  {
    if t.Fork? { InOrderNodes(t.l); InOrderNodes(t.r); }
  }

  lemma SameNodes(t: Tree, t': Tree)
    requires InOrder(t) == InOrder(t')
    ensures Nodes(t) == Nodes(t')
  {
    InOrderNodes(t);
    InOrderNodes(t');
  }

  // ---- The steps of a splay ----

  function RotR(t: Tree): Tree
    requires t.Fork? && t.l.Fork?
  {
    Fork(t.l.l, t.l.x, Fork(t.l.r, t.x, t.r))
  }

  function RotL(t: Tree): Tree
    requires t.Fork? && t.r.Fork?
  {
    Fork(Fork(t.l, t.x, t.r.l), t.r.x, t.r.r)
  }

  function Whole(l: Spine, t: Tree, r: Spine): seq<Node> {
    Order(l, L) + InOrder(t) + Order(r, R)
  }

  /** A root without a left child comes first, one without a right child last. */
  lemma OutermostRoot(t: Tree)
    requires t.Fork?
    ensures InOrder(t) != []
    ensures t.l == Leaf ==> InOrder(t)[0] == t.x
    ensures t.r == Leaf ==> InOrder(t)[|InOrder(t)| - 1] == t.x
  {}

  /** A splay begins with empty outer trees, on a node that is not in the tree. */
  lemma Begun(t: Tree, dummy: Node, m0: Links, m: Links)
    requires Rep(t, m0) && Agree(Nodes(t), m0, m) && dummy in m && dummy !in Nodes(t)
    ensures Apart(Nil, t, Nil, dummy, m)
  {
    RepFrame(t, m0, m);
  }

  /** The outer trees do not notice a change inside the middle tree. */
  lemma SpinesFrame(l: Spine, t: Tree, r: Spine, dummy: Node, m: Links, m': Links)
    requires Apart(l, t, r, dummy, m)
    requires forall n :: n in m && n !in Nodes(t) ==> n in m' && m'[n] == m[n]
    ensures RepSpine(l, L, dummy, m') && RepSpine(r, R, dummy, m') && dummy in m'
  {
    SpineFrame(l, L, dummy, m, m');
    SpineFrame(r, R, dummy, m, m');
  }

  lemma RotOrder(t: Tree)
    ensures t.Fork? && t.l.Fork? ==> InOrder(RotR(t)) == InOrder(t) && Nodes(RotR(t)) == Nodes(t)
    ensures t.Fork? && t.r.Fork? ==> InOrder(RotL(t)) == InOrder(t) && Nodes(RotL(t)) == Nodes(t)
  {
    if t.Fork? && t.l.Fork? {
      assert InOrder(RotR(t).r) == InOrder(t.l.r) + [t.x] + InOrder(t.r);
      Turn(InOrder(t.l.l), t.l.x, InOrder(t.l.r), t.x, InOrder(t.r));
    }
    if t.Fork? && t.r.Fork? {
      assert InOrder(RotL(t).l) == InOrder(t.l) + [t.x] + InOrder(t.r.l);
      Turn(InOrder(t.l), t.x, InOrder(t.r.l), t.r.x, InOrder(t.r.r));
    }
  }

  /** SPLAY_ROTATE_RIGHT at the root of the middle tree. */
  lemma RotatedRight(l: Spine, t: Tree, r: Spine, dummy: Node, m: Links, m': Links)
    requires Apart(l, t, r, dummy, m) && t.Fork? && t.l.Fork?
    requires t.x in m' && m'[t.x] == SplayEntry(Root(t.l.r), Root(t.r))
    requires t.l.x in m' && m'[t.l.x] == SplayEntry(Root(t.l.l), t.x)
    requires forall n :: n in m && n != t.x && n != t.l.x ==> n in m' && m'[n] == m[n]
    ensures Apart(l, RotR(t), r, dummy, m')
    ensures Whole(l, RotR(t), r) == Whole(l, t, r)
  {
    assert Rep(t.l, m);
    RepFrame(t.l.l, m, m');
    RepFrame(t.l.r, m, m');
    RepFrame(t.r, m, m');
    assert Rep(RotR(t).r, m');
    RotOrder(t);
    SpinesFrame(l, t, r, dummy, m, m');
  }

  lemma RotatedLeft(l: Spine, t: Tree, r: Spine, dummy: Node, m: Links, m': Links)
    requires Apart(l, t, r, dummy, m) && t.Fork? && t.r.Fork?
    requires t.x in m' && m'[t.x] == SplayEntry(Root(t.l), Root(t.r.l))
    requires t.r.x in m' && m'[t.r.x] == SplayEntry(t.x, Root(t.r.r))
    requires forall n :: n in m && n != t.x && n != t.r.x ==> n in m' && m'[n] == m[n]
    ensures Apart(l, RotL(t), r, dummy, m')
    ensures Whole(l, RotL(t), r) == Whole(l, t, r)
  {
    assert Rep(t.r, m);
    RepFrame(t.r.l, m, m');
    RepFrame(t.r.r, m, m');
    RepFrame(t.l, m, m');
    assert Rep(RotL(t).l, m');
    RotOrder(t);
    SpinesFrame(l, t, r, dummy, m, m');
  }

  /** SPLAY_LINKLEFT: the root and its right subtree move into the right tree. */
  lemma LinkedRight(l: Spine, t: Tree, r: Spine, dummy: Node, m: Links, m': Links)
    requires Apart(l, t, r, dummy, m) && t.Fork?
    requires var h := Holder(r, dummy); h in m && h in m' && m'[h] == m[h].(left := t.x)
    requires forall n :: n in m && n != Holder(r, dummy) ==> n in m' && m'[n] == m[n]
    ensures Apart(l, t.l, Link(r, t.x, t.r), dummy, m')
    ensures Whole(l, t.l, Link(r, t.x, t.r)) == Whole(l, t, r)
  {
    DummyApart(l, L, dummy, m);
    DummyApart(r, R, dummy, m);
    assert r.Link? ==> r.n in SpineNodes(r);
    assert l.Link? ==> l.n in SpineNodes(l);
    RepFrame(t.l, m, m');
    RepFrame(t.r, m, m');
    SpineFrame(l, L, dummy, m, m');
    SpineFrame(r, R, dummy, m, m');
    Regroup(Order(l, L), InOrder(t.l), t.x, InOrder(t.r), Order(r, R));
  }

  lemma LinkedLeft(l: Spine, t: Tree, r: Spine, dummy: Node, m: Links, m': Links)
    requires Apart(l, t, r, dummy, m) && t.Fork?
    requires var h := Holder(l, dummy); h in m && h in m' && m'[h] == m[h].(right := t.x)
    requires forall n :: n in m && n != Holder(l, dummy) ==> n in m' && m'[n] == m[n]
    ensures Apart(Link(l, t.x, t.l), t.r, r, dummy, m')
    ensures Whole(Link(l, t.x, t.l), t.r, r) == Whole(l, t, r)
  {
    DummyApart(l, L, dummy, m);
    DummyApart(r, R, dummy, m);
    assert r.Link? ==> r.n in SpineNodes(r);
    assert l.Link? ==> l.n in SpineNodes(l);
    RepFrame(t.l, m, m');
    RepFrame(t.r, m, m');
    SpineFrame(l, L, dummy, m, m');
    SpineFrame(r, R, dummy, m, m');
    Regroup(Order(l, L), InOrder(t.l), t.x, InOrder(t.r), Order(r, R));
  }

  lemma Regroup(a: seq<Node>, b: seq<Node>, x: Node, c: seq<Node>, d: seq<Node>)
    ensures a + (b + [x] + c) + d == a + b + ([x] + c + d)
    ensures a + (b + [x] + c) + d == (a + b + [x]) + c + d
  {}

  // ---- The end of a splay ----

  function Assembled(l: Spine, t: Tree, r: Spine): Tree
    requires t.Fork?
  {
    Fork(Fill(l, L, t.l), t.x, Fill(r, R, t.r))
  }

  /** First half of SPLAY_ASSEMBLE: the root's subtrees go into the holes. */
  lemma HolesFilled(l: Spine, t: Tree, r: Spine, dummy: Node, m: Links, m1: Links)
    requires Apart(l, t, r, dummy, m) && t.Fork?
    requires var hl, hr := Holder(l, dummy), Holder(r, dummy);
      && hl in m && hr in m && hl in m1 && hr in m1
      && m1[hl].right == Root(t.l) && m1[hr].left == Root(t.r)
      && (hl != hr ==> m1[hl].left == m[hl].left && m1[hr].right == m[hr].right)
      && forall n :: n in m && n != hl && n != hr ==> n in m1 && m1[n] == m[n]
    ensures RepSpine(l, L, dummy, m1) && RepSpine(r, R, dummy, m1) && Rep(t.l, m1) && Rep(t.r, m1)
  {
    DummyApart(l, L, dummy, m);
    DummyApart(r, R, dummy, m);
    assert r.Link? ==> r.n in SpineNodes(r);
    assert l.Link? ==> l.n in SpineNodes(l);
    RepFrame(t.l, m, m1);
    RepFrame(t.r, m, m1);
    SpineFrame(l, L, dummy, m, m1);
    SpineFrame(r, R, dummy, m, m1);
  }

  /** Second half: the root adopts the outer trees, which the dummy holds. */
  lemma AssembledRep(l: Spine, t: Tree, r: Spine, dummy: Node, m1: Links, m2: Links)
    requires t.Fork? && t.x !in Nodes(t.l) && t.x !in Nodes(t.r) && Nodes(t.l) !! Nodes(t.r)
    requires SpineNodes(l) !! Nodes(t) && SpineNodes(r) !! Nodes(t) && SpineNodes(l) !! SpineNodes(r)
    requires RepSpine(l, L, dummy, m1) && RepSpine(r, R, dummy, m1) && Rep(t.l, m1) && Rep(t.r, m1)
    requires Holder(l, dummy) in m1 && m1[Holder(l, dummy)].right == Root(t.l)
    requires Holder(r, dummy) in m1 && m1[Holder(r, dummy)].left == Root(t.r)
    requires dummy in m1 && t.x in m2 && m2[t.x] == SplayEntry(m1[dummy].right, m1[dummy].left)
    requires forall n :: n in m1 && n != t.x ==> n in m2 && m2[n] == m1[n]
    ensures Rep(Assembled(l, t, r), m2)
  {
    var a, b := Fill(l, L, t.l), Fill(r, R, t.r);
    assert Rep(a, m1) && m1[dummy].right == Root(a) && Nodes(a) == SpineNodes(l) + Nodes(t.l) by {
      FillRep(l, L, dummy, t.l, m1);
    }
    assert Rep(b, m1) && m1[dummy].left == Root(b) && Nodes(b) == SpineNodes(r) + Nodes(t.r) by {
      FillRep(r, R, dummy, t.r, m1);
    }
    Adopt(a, t.x, b, m1, m2);
  }

  lemma Adopt(a: Tree, x: Node, b: Tree, m: Links, m': Links)
    requires Rep(a, m) && Rep(b, m) && x !in Nodes(a) && x !in Nodes(b) && Nodes(a) !! Nodes(b)
    requires x in m' && m'[x] == SplayEntry(Root(a), Root(b))
    requires forall n :: n in m && n != x ==> n in m' && m'[n] == m[n]
    ensures Rep(Fork(a, x, b), m')
  {
    RepFrame(a, m, m');
    RepFrame(b, m, m');
  }

  lemma AssembledOrder(l: Spine, t: Tree, r: Spine)
    requires t.Fork?
    ensures InOrder(Assembled(l, t, r)) == Whole(l, t, r)
    ensures InOrder(Assembled(l, t, r).l) == Order(l, L) + InOrder(t.l)
    ensures InOrder(Assembled(l, t, r).r) == InOrder(t.r) + Order(r, R)
  {
    FillOrder(l, L, t.l);
    FillOrder(r, R, t.r);
    FourParts(Order(l, L), InOrder(t.l), t.x, InOrder(t.r), Order(r, R));
  }

  // ---- Order ----

  /** The outer trees hold only smaller, and only larger, keys. */
  ghost predicate Narrowed(l: Spine, r: Spine, key: int) {
    Below(Order(l, L), key) && Above(Order(r, R), key)
  }

  lemma NarrowStep(l: Spine, t: Tree, r: Spine, key: int)
    requires Sorted(Whole(l, t, r)) && Narrowed(l, r, key) && t.Fork?
    ensures key < t.x.key ==> Narrowed(l, Link(r, t.x, t.r), key)
    ensures key > t.x.key ==> Narrowed(Link(l, t.x, t.l), r, key)
  {
    FourParts(Order(l, L), InOrder(t.l), t.x, InOrder(t.r), Order(r, R));
    SortedSlices(Order(l, L) + InOrder(t.l), t.x, InOrder(t.r) + Order(r, R));
    BelowSplit(Order(l, L), InOrder(t.l), t.x.key);
    AboveSplit(InOrder(t.r), Order(r, R), t.x.key);
    AboveSplit([t.x] + InOrder(t.r), Order(r, R), key);
    AboveSplit([t.x], InOrder(t.r), key);
    BelowSplit(Order(l, L) + InOrder(t.l), [t.x], key);
    BelowSplit(Order(l, L), InOrder(t.l), key);
  }

  /** What a splay for `key` leaves at the root: the key itself, or its immediate predecessor
      or successor. */
  ghost predicate Near(t: Tree, key: int)
    requires t.Fork?
  {
    || t.x.key == key
    || (key < t.x.key && Below(InOrder(t.l), key))
    || (t.x.key < key && Above(InOrder(t.r), key))
  }

  lemma AssembledNear(l: Spine, t: Tree, r: Spine, key: int)
    requires t.Fork? && Narrowed(l, r, key)
    requires key == t.x.key || (key < t.x.key && t.l == Leaf) || (key > t.x.key && t.r == Leaf)
    ensures Near(Assembled(l, t, r), key)
  {
    AssembledOrder(l, t, r);
    assert Order(l, L) + [] == Order(l, L) && [] + Order(r, R) == Order(r, R);
  }

  /** With the neighbour of a key at the root, no other element can have that key. */
  lemma NearOnly(t: Tree, key: int)
    requires t.Fork? && Sorted(InOrder(t)) && Near(t, key)
    ensures forall n :: n in InOrder(t) && n.key == key ==> n == t.x
  {
    RootOrder(t);
  }

  lemma RootOrder(t: Tree)
    requires t.Fork? && Sorted(InOrder(t))
    ensures Below(InOrder(t.l), t.x.key) && Above(InOrder(t.r), t.x.key)
    ensures Sorted(InOrder(t.l)) && Sorted(InOrder(t.r)) && Sorted(InOrder(t.l) + InOrder(t.r))
  {
    SortedSlices(InOrder(t.l), t.x, InOrder(t.r));
    SortedRemove(InOrder(t.l), t.x, InOrder(t.r));
    SortedParts(InOrder(t.l), InOrder(t.r));
  }

  lemma SortedParts(a: seq<Node>, b: seq<Node>)
    requires Sorted(a + b)
    ensures Sorted(a) && Sorted(b)
  {
    var s := a + b;
    assert forall i :: 0 <= i < |a| ==> a[i] == s[i];
    assert forall i :: 0 <= i < |b| ==> b[i] == s[|a| + i];
  }

  // ---- Insertion and removal at the root ----

  function SplitBefore(t: Tree, elm: Node): Tree
    requires t.Fork?
  {
    Fork(t.l, elm, Fork(Leaf, t.x, t.r))
  }

  function SplitAfter(t: Tree, elm: Node): Tree
    requires t.Fork?
  {
    Fork(Fork(t.l, t.x, Leaf), elm, t.r)
  }

  lemma SplitBeforeOk(t: Tree, elm: Node, m: Links, m': Links)
    requires t.Fork? && Rep(t, m) && Sorted(InOrder(t)) && Near(t, elm.key) && elm.key < t.x.key && elm !in Nodes(t)
    requires elm in m' && m'[elm] == SplayEntry(Root(t.l), t.x)
    requires t.x in m' && m'[t.x] == SplayEntry(null, Root(t.r))
    requires Agree(Nodes(t.l) + Nodes(t.r), m, m')
    ensures Nodes(SplitBefore(t, elm)) == Nodes(t) + {elm}
    ensures Rep(SplitBefore(t, elm), m') && Sorted(InOrder(SplitBefore(t, elm)))
    ensures InOrder(t) == InOrder(t.l) + ([t.x] + InOrder(t.r))
    ensures InOrder(SplitBefore(t, elm)) == InOrder(t.l) + [elm] + ([t.x] + InOrder(t.r))
  {
    RepFrame(t.l, m, m');
    RepFrame(t.r, m, m');
    assert Rep(SplitBefore(t, elm).r, m');
    RootOrder(t);
    AboveSplit([t.x], InOrder(t.r), elm.key);
    assert InOrder(t) == InOrder(t.l) + ([t.x] + InOrder(t.r));
    assert InOrder(SplitBefore(t, elm).r) == [t.x] + InOrder(t.r);
    SortedInsert(InOrder(t.l), elm, [t.x] + InOrder(t.r));
  }

  lemma SplitAfterOk(t: Tree, elm: Node, m: Links, m': Links)
    requires t.Fork? && Rep(t, m) && Sorted(InOrder(t)) && Near(t, elm.key) && elm.key > t.x.key && elm !in Nodes(t)
    requires elm in m' && m'[elm] == SplayEntry(t.x, Root(t.r))
    requires t.x in m' && m'[t.x] == SplayEntry(Root(t.l), null)
    requires Agree(Nodes(t.l) + Nodes(t.r), m, m')
    ensures Nodes(SplitAfter(t, elm)) == Nodes(t) + {elm}
    ensures Rep(SplitAfter(t, elm), m') && Sorted(InOrder(SplitAfter(t, elm)))
    ensures InOrder(t) == (InOrder(t.l) + [t.x]) + InOrder(t.r)
    ensures InOrder(SplitAfter(t, elm)) == (InOrder(t.l) + [t.x]) + [elm] + InOrder(t.r)
  {
    RepFrame(t.l, m, m');
    RepFrame(t.r, m, m');
    assert Rep(SplitAfter(t, elm).l, m');
    RootOrder(t);
    BelowSplit(InOrder(t.l), [t.x], elm.key);
    assert InOrder(SplitAfter(t, elm).l) == InOrder(t.l) + [t.x];
    SortedInsert(InOrder(t.l) + [t.x], elm, InOrder(t.r));
  }

  /** A splay for a key above all keys leaves a root without a right child. */
  lemma LeftPartClosed(t: Tree, s: seq<Node>, key: int)
    requires t.Fork? && InOrder(t) == s && Below(s, key) && Near(t, key)
    ensures t.r == Leaf
  {
    BelowSplit(InOrder(t.l) + [t.x], InOrder(t.r), key);
    BelowSplit(InOrder(t.l), [t.x], key);
    assert t.x in [t.x];
    NoneBetween(InOrder(t.r), key);
    SomeElement(t.r);
  }

  lemma NoneBetween(s: seq<Node>, key: int)
    requires Below(s, key) && Above(s, key)
    ensures s == []
  {
    HeadIn(s);
  }

  lemma HeadIn(s: seq<Node>)
    ensures s != [] ==> s[0] in s
  {}

  lemma SomeElement(t: Tree)
    ensures t.Fork? ==> InOrder(t) != []
  {}

  lemma Joined(t: Tree, r: Tree, m: Links, m': Links)
    requires t.Fork? && t.r == Leaf && Rep(t, m) && Rep(r, m) && Nodes(t) !! Nodes(r)
    requires t.x in m' && m'[t.x] == SplayEntry(Root(t.l), Root(r))
    requires Agree(Nodes(t.l) + Nodes(r), m, m')
    ensures Rep(Fork(t.l, t.x, r), m')
    ensures InOrder(Fork(t.l, t.x, r)) == InOrder(t) + InOrder(r)
  {
    RepFrame(t.l, m, m');
    RepFrame(r, m, m');
  }
}
