/** The abstract side of the red-black tree of `tree.h`: nodes as the heap holds them, the
    functional tree they stand for, and a one-hole context (a zipper) for the place in the
    tree where an operation is working.

    `Rep` and `RepCtx` tie the abstract tree to the link fields, taken as one value by `Snap`;
    no lemma of this module depends on the heap. */
module RbShape {

  import opened Elements

  /** The link fields of a set of elements, as a value. */
  type Links = map<Node, RbEntry>

  ghost function Snap(s: set<Node>): (m: Links)
    reads s
    ensures m.Keys == s
  {
    map n | n in s :: n.rb
  }

  datatype Tree = Leaf | Fork(l: Tree, x: Node, c: Color, r: Tree)

  /** A tree with one hole; the constructor says which child of `x` the hole is. */
  datatype Ctx =
    | Top
    | LeftOf(up: Ctx, x: Node, c: Color, sib: Tree)
    | RightOf(up: Ctx, sib: Tree, x: Node, c: Color)

  ghost function Nodes(t: Tree): set<Node> {
    match t
    case Leaf => {}
    case Fork(l, x, _, r) => Nodes(l) + {x} + Nodes(r)
  }

  ghost function CtxNodes(k: Ctx): set<Node> {
    match k
    case Top => {}
    case LeftOf(up, x, _, sib) => CtxNodes(up) + {x} + Nodes(sib)
    case RightOf(up, sib, x, _) => CtxNodes(up) + {x} + Nodes(sib)
  }

  function InOrder(t: Tree): seq<Node> {
    match t
    case Leaf => []
    case Fork(l, x, _, r) => InOrder(l) + [x] + InOrder(r)
  }

  /** What precedes, and what follows, the hole in the in-order sequence. */
  function Before(k: Ctx): seq<Node> {
    match k
    case Top => []
    case LeftOf(up, _, _, _) => Before(up)
    case RightOf(up, sib, x, _) => Before(up) + InOrder(sib) + [x]
  }

  function After(k: Ctx): seq<Node> {
    match k
    case Top => []
    case LeftOf(up, x, _, sib) => [x] + InOrder(sib) + After(up)
    case RightOf(up, _, _, _) => After(up)
  }

  function Plug(k: Ctx, t: Tree): Tree {
    match k
    case Top => t
    case LeftOf(up, x, c, sib) => Plug(up, Fork(t, x, c, sib))
    case RightOf(up, sib, x, c) => Plug(up, Fork(sib, x, c, t))
  }

  function Depth(k: Ctx): nat {
    if k.Top? then 0 else 1 + Depth(k.up)
  }

  function Height(t: Tree): nat {
    if t.Leaf? then 0
    else 1 + (if Height(t.l) > Height(t.r) then Height(t.l) else Height(t.r))
  }

  // ---- Representation by link fields ----

  function Root(t: Tree): Node? {
    if t.Leaf? then null else t.x
  }

  function Parent(k: Ctx): Node? {
    if k.Top? then null else k.x
  }

  /** The tree around the innermost frame of `k`. */
  function Wrap(k: Ctx, t: Tree): Tree
    requires !k.Top?
  {
    if k.LeftOf? then Fork(t, k.x, k.c, k.sib) else Fork(k.sib, k.x, k.c, t)
  }

  /** The innermost frame of `k` with another colour, or another sibling. */
  function Colored(k: Ctx, c: Color): Ctx
    requires !k.Top?
  {
    if k.LeftOf? then LeftOf(k.up, k.x, c, k.sib) else RightOf(k.up, k.sib, k.x, c)
  }

  function Beside(k: Ctx, sib: Tree): Ctx
    requires !k.Top?
  {
    if k.LeftOf? then LeftOf(k.up, k.x, k.c, sib) else RightOf(k.up, sib, k.x, k.c)
  }

  /** The link fields in `m` have the shape and colours of `t`, hanging below `p`; no node
      occurs twice. */
  ghost predicate Rep(t: Tree, p: Node?, m: Links) {
    match t
    case Leaf => true
    case Fork(a, x, c, b) =>
      && x in m && m[x] == RbEntry(Root(a), Root(b), p, c)
      && x !in Nodes(a) && x !in Nodes(b) && Nodes(a) !! Nodes(b)
      && Rep(a, x, m) && Rep(b, x, m)
  }

  /** The link fields around a hole: `r` is the pointer stored in the hole and `root` the
      pointer in the tree head. */
  ghost predicate RepCtx(k: Ctx, r: Node?, root: Node?, m: Links) {
    if k.Top? then root == r
    else
      && k.x in m && m[k.x] == (if k.LeftOf? then RbEntry(r, Root(k.sib), Parent(k.up), k.c)
                                else RbEntry(Root(k.sib), r, Parent(k.up), k.c))
      && k.x !in Nodes(k.sib) && k.x !in CtxNodes(k.up) && Nodes(k.sib) !! CtxNodes(k.up)
      && Rep(k.sib, k.x, m) && RepCtx(k.up, k.x, root, m)
  }

  /** The focus `t` sits in the hole of `k`, and together they are the tree under `root`. */
  ghost predicate At(k: Ctx, t: Tree, root: Node?, m: Links) {
    Rep(t, Parent(k), m) && RepCtx(k, Root(t), root, m) && Nodes(t) !! CtxNodes(k)
  }

  // ---- The red-black conditions ----

  function ColorOf(t: Tree): Color {
    if t.Leaf? then Black else t.c
  }

  /** Every path from the root of `t` to a null pointer meets exactly `h` black nodes. */
  ghost predicate Bal(t: Tree, h: nat) {
    match t
    case Leaf => h == 0
    case Fork(l, _, Red, r) => Bal(l, h) && Bal(r, h)
    case Fork(l, _, Black, r) => h > 0 && Bal(l, h - 1) && Bal(r, h - 1)
  }

  /** No red node has a red child. */
  ghost predicate RedOk(t: Tree) {
    t.Fork? ==>
      && RedOk(t.l) && RedOk(t.r)
      && (t.c == Red ==> ColorOf(t.l) == Black && ColorOf(t.r) == Black)
  }

  /** A hole of black height `h` fits the context. */
  ghost predicate CtxBal(k: Ctx, h: nat) {
    k.Top? || (Bal(k.sib, h) && CtxBal(k.up, if k.c == Black then h + 1 else h))
  }

  /** A hole whose root has colour `c` fits the context; at the top only black does. */
  ghost predicate CtxRedOk(k: Ctx, c: Color) {
    if k.Top? then c == Black
    else
      && RedOk(k.sib) && CtxRedOk(k.up, k.c)
      && (k.c == Red ==> c == Black && ColorOf(k.sib) == Black)
  }

  /** A red-black tree: black root, no red-red edge, equal black height on all paths. */
  ghost predicate RbOk(t: Tree) {
    ColorOf(t) == Black && RedOk(t) && exists h: nat :: Bal(t, h)
  }

  // ---- Contexts and plugging ----

  lemma {:induction false} PlugInOrder(k: Ctx, t: Tree)
    ensures InOrder(Plug(k, t)) == Before(k) + InOrder(t) + After(k)
    decreases k
  {
    match k
    case Top =>
    case LeftOf(up, x, c, sib) =>
      PlugInOrder(up, Fork(t, x, c, sib));
      RegroupLeft(Before(up), InOrder(t), x, InOrder(sib), After(up));
    case RightOf(up, sib, x, c) =>
      PlugInOrder(up, Fork(sib, x, c, t));
      RegroupRight(Before(up), InOrder(sib), x, InOrder(t), After(up));
  }

  lemma RegroupLeft(a: seq<Node>, b: seq<Node>, x: Node, c: seq<Node>, d: seq<Node>)
    ensures a + (b + [x] + c) + d == a + b + ([x] + c + d)
  {}

  lemma RegroupRight(a: seq<Node>, b: seq<Node>, x: Node, c: seq<Node>, d: seq<Node>)
    ensures a + (b + [x] + c) + d == (a + b + [x]) + c + d
  {}

  lemma {:induction false} PlugNodes(k: Ctx, t: Tree)
    ensures Nodes(Plug(k, t)) == CtxNodes(k) + Nodes(t)
  {
    match k
    case Top =>
    case LeftOf(up, x, c, sib) => PlugNodes(up, Fork(t, x, c, sib));
    case RightOf(up, sib, x, c) => PlugNodes(up, Fork(sib, x, c, t));
  }

  lemma {:induction false} InOrderNodes(t: Tree)
    ensures Nodes(t) == Elems(InOrder(t))
  {
    if t.Fork? { InOrderNodes(t.l); InOrderNodes(t.r); }
  }

  lemma SameNodes(t: Tree, t': Tree)
    requires InOrder(t) == InOrder(t')
    ensures Nodes(t) == Nodes(t')
  {
    InOrderNodes(t);
    InOrderNodes(t');
  }

  /** Moving the focus up or down changes no link field. */
  lemma MoveUp(k: Ctx, t: Tree, root: Node?, m: Links)
    requires !k.Top?
    ensures At(k, t, root, m) <==> At(k.up, Wrap(k, t), root, m)
    ensures Plug(k, t) == Plug(k.up, Wrap(k, t))
  {}

  lemma {:induction false} PlugRep(k: Ctx, t: Tree, root: Node?, m: Links)
    requires At(k, t, root, m)
    ensures Rep(Plug(k, t), null, m) && root == Root(Plug(k, t))
    ensures t.Fork? || !k.Top? ==> root != null
    decreases k
  {
    if !k.Top? { MoveUp(k, t, root, m); PlugRep(k.up, Wrap(k, t), root, m); }
  }

  lemma {:induction false} SamePlug(k: Ctx, t: Tree, t': Tree)
    requires InOrder(t) == InOrder(t')
    ensures InOrder(Plug(k, t)) == InOrder(Plug(k, t'))
  {
    PlugInOrder(k, t);
    PlugInOrder(k, t');
  }

  // ---- Frames: link fields outside a tree or context do not matter to it ----

  ghost predicate Agree(s: set<Node>, m: Links, m': Links) {
    forall n :: n in s && n in m ==> n in m' && m'[n] == m[n]
  }

  lemma {:induction false} RepFrame(t: Tree, p: Node?, m: Links, m': Links)
    requires Rep(t, p, m) && Agree(Nodes(t), m, m')
    ensures Rep(t, p, m')
    decreases t
  {
    if t.Fork? {
      RepFrame(t.l, t.x, m, m');
      RepFrame(t.r, t.x, m, m');
    }
  }

  lemma {:induction false} CtxFrame(k: Ctx, r: Node?, root: Node?, m: Links, m': Links)
    requires RepCtx(k, r, root, m) && Agree(CtxNodes(k), m, m')
    ensures RepCtx(k, r, root, m')
    decreases k
  {
    if !k.Top? {
      RepFrame(k.sib, k.x, m, m');
      CtxFrame(k.up, k.x, root, m, m');
    }
  }

  /** Only the parent pointer of the root is different. */
  lemma Reparent(t: Tree, p: Node?, q: Node?, m: Links, m': Links)
    requires Rep(t, p, m)
    requires t.Fork? ==> t.x in m' && m'[t.x] == m[t.x].(parent := q)
    requires Agree(Nodes(t) - {Root(t)}, m, m')
    ensures Rep(t, q, m')
  {
    if t.Fork? {
      RepFrame(t.l, t.x, m, m');
      RepFrame(t.r, t.x, m, m');
    }
  }

  /** Only the pointer that leads into the hole is different. */
  lemma Redirected(k: Ctx, r: Node?, root: Node?, r': Node?, root': Node?, m: Links, m': Links)
    requires RepCtx(k, r, root, m)
    requires k.Top? ==> root' == r'
    requires !k.Top? ==> root' == root && k.x in m'
    requires !k.Top? ==> m'[k.x] == if k.LeftOf? then m[k.x].(left := r') else m[k.x].(right := r')
    requires Agree(CtxNodes(k) - {Parent(k)}, m, m')
    ensures RepCtx(k, r', root', m')
  {
    if !k.Top? {
      RepFrame(k.sib, k.x, m, m');
      CtxFrame(k.up, k.x, root, m, m');
    }
  }

  /** Red-black conditions of the parts give those of the whole, and black heights match. */
  lemma {:induction false} PlugOk(k: Ctx, t: Tree, h: nat)
    requires Bal(t, h) && CtxBal(k, h) && RedOk(t) && CtxRedOk(k, ColorOf(t))
    ensures RbOk(Plug(k, t))
    decreases k
  {
    match k
    case Top =>
    case LeftOf(up, x, c, sib) => PlugOk(up, Fork(t, x, c, sib), if c == Black then h + 1 else h);
    case RightOf(up, sib, x, c) => PlugOk(up, Fork(sib, x, c, t), if c == Black then h + 1 else h);
  }

  /** The conditions split again at any hole. */
  lemma {:induction false} UnplugOk(k: Ctx, t: Tree) returns (h: nat)
    requires RbOk(Plug(k, t))
    ensures Bal(t, h) && CtxBal(k, h) && RedOk(t) && CtxRedOk(k, ColorOf(t))
    decreases k
  {
    match k
    case Top => h :| Bal(t, h);
    case LeftOf(up, x, c, sib) =>
      var g := UnplugOk(up, Fork(t, x, c, sib));
      h := if c == Black then g - 1 else g;
    case RightOf(up, sib, x, c) =>
      var g := UnplugOk(up, Fork(sib, x, c, t));
      h := if c == Black then g - 1 else g;
  }

  /** Below the top of the tree the head does not point into the hole. */
  lemma {:induction false} RootInCtx(k: Ctx, r: Node?, root: Node?, m: Links)
    requires RepCtx(k, r, root, m) && !k.Top?
    ensures root != null && root in CtxNodes(k)
    decreases k
  {
    if !k.up.Top? { RootInCtx(k.up, k.x, root, m); }
  }

  /** The context of node `n` in the tree `t` that itself sits in context `k`. */
  ghost function Locate(k: Ctx, t: Tree, n: Node): (res: (Ctx, Tree))
    requires n in Nodes(t)
    ensures res.1.Fork? && res.1.x == n && Plug(res.0, res.1) == Plug(k, t)
    ensures res.1 == t || Height(res.1) < Height(t)
    ensures Depth(res.0) + Height(res.1) <= Depth(k) + Height(t)
    decreases t
  {
    if t.x == n then (k, t)
    else if n in Nodes(t.l) then Locate(LeftOf(k, t.x, t.c, t.r), t.l, n)
    else Locate(RightOf(k, t.l, t.x, t.c), t.r, n)
  }

  lemma {:induction false} LocateAt(k: Ctx, t: Tree, n: Node, root: Node?, m: Links)
    requires n in Nodes(t) && At(k, t, root, m)
    ensures var (k', t') := Locate(k, t, n); At(k', t', root, m)
    decreases t
  {
    if t.x == n {
    } else if n in Nodes(t.l) {
      MoveUp(LeftOf(k, t.x, t.c, t.r), t.l, root, m);
      LocateAt(LeftOf(k, t.x, t.c, t.r), t.l, n, root, m);
    } else {
      MoveUp(RightOf(k, t.l, t.x, t.c), t.r, root, m);
      LocateAt(RightOf(k, t.l, t.x, t.c), t.r, n, root, m);
    }
  }

  // ---- Order ----

  /** In a search tree, what the zipper has on either side of the root of the focus. */
  lemma SortedAround(k: Ctx, t: Tree)
    requires Sorted(InOrder(Plug(k, t))) && t.Fork?
    ensures Below(Before(k), t.x.key) && Below(InOrder(t.l), t.x.key)
    ensures Above(InOrder(t.r), t.x.key) && Above(After(k), t.x.key)
  {
    var a, b := Before(k) + InOrder(t.l), InOrder(t.r) + After(k);
    PlugInOrder(k, t);
    FourParts(Before(k), InOrder(t.l), t.x, InOrder(t.r), After(k));
    SortedSlices(a, t.x, b);
    BelowSplit(Before(k), InOrder(t.l), t.x.key);
    AboveSplit(InOrder(t.r), After(k), t.x.key);
  }

  // ---- Height ----

  function Pow2(n: nat): nat {
    if n == 0 then 1 else 2 * Pow2(n - 1)
  }

  lemma {:induction false} Pow2Add(m: nat, n: nat)
    ensures Pow2(m + n) == Pow2(m) * Pow2(n)
  {
    if m != 0 { Pow2Add(m - 1, n); }
  }

  lemma {:induction false} BlackHeightBounds(t: Tree, h: nat)
    requires Bal(t, h) && RedOk(t)
    ensures Pow2(h) <= |InOrder(t)| + 1
    ensures Height(t) <= 2 * h + (if ColorOf(t) == Red then 1 else 0)
  {
    if t.Fork? {
      var g := if t.c == Black then h - 1 else h;
      BlackHeightBounds(t.l, g);
      BlackHeightBounds(t.r, g);
    }
  }

  lemma {:induction false} Pow2Mono(m: nat, n: nat)
    requires m <= n
    ensures Pow2(m) <= Pow2(n)
  {
    if m < n { Pow2Mono(m, n - 1); }
  }

  lemma SquareMono(m: nat, n: nat)
    requires m <= n
    ensures m * m <= n * n
  {
    assert m * m <= n * m <= n * n;
  }

  /** `r` is at most 2 lg (n+1), without logarithms. */
  predicate TwiceLog(r: nat, n: nat) {
    Pow2(r) <= (n + 1) * (n + 1)
  }

  /** The height of a red-black tree of n nodes is at most 2 lg (n+1), without logarithms. */
  lemma HeightBound(t: Tree)
    requires RbOk(t)
    ensures TwiceLog(Height(t), |InOrder(t)|)
  {
    var h: nat :| Bal(t, h);
    BlackHeightBounds(t, h);
    Pow2Mono(Height(t), h + h);
    Pow2Add(h, h);
    SquareMono(Pow2(h), |InOrder(t)| + 1);
  }

  lemma {:induction false} PlugDepth(k: Ctx, t: Tree)
    ensures Depth(k) + Height(t) <= Height(Plug(k, t))
    decreases k
  {
    if !k.Top? {
      PlugDepth(k.up, Wrap(k, t));
    }
  }

  /** A climb through parent pointers is at most as long as the tree is high. */
  lemma ClimbBound(k: Ctx, t: Tree, n: nat)
    requires RbOk(Plug(k, t)) && n <= Depth(k)
    ensures TwiceLog(n, |InOrder(Plug(k, t))|)
  {
    PlugDepth(k, t);
    Pow2Mono(n, Height(Plug(k, t)));
    HeightBound(Plug(k, t));
  }
}
