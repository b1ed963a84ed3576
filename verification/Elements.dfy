/** Tree elements, shared by the red-black and the splay tree of `tree.h`, and what it means for
    a sequence of them to be in order. */
module Elements {

  datatype Color = Black | Red

  /** RB_ENTRY, a link field that RB_REMOVE copies as a whole. */
  datatype RbEntry = RbEntry(left: Node?, right: Node?, parent: Node?, color: Color)

  /** SPLAY_ENTRY. */
  datatype SplayEntry = SplayEntry(left: Node?, right: Node?)

  /** An element with the link fields embedded in it.  The macros compare elements with a
      user-supplied `cmp`; here it is the order of an integer key. */
  class Node {
    const key: int
    var rb: RbEntry
    var splay: SplayEntry

    constructor (k: int)
      ensures key == k
    {
      key := k;
      rb := RbEntry(null, null, null, Black);
      splay := SplayEntry(null, null);
    }
  }

  ghost function Elems(s: seq<Node>): set<Node> {
    set n | n in s
  }

  ghost predicate Sorted(s: seq<Node>) {
    forall i, j :: 0 <= i < j < |s| ==> s[i].key < s[j].key
  }

  ghost predicate Below(s: seq<Node>, key: int) {
    forall n :: n in s ==> n.key < key
  }

  ghost predicate Above(s: seq<Node>, key: int) {
    forall n :: n in s ==> key < n.key
  }

  lemma BelowSplit(a: seq<Node>, b: seq<Node>, key: int)
    ensures Below(a + b, key) <==> Below(a, key) && Below(b, key)
  {
    assert forall n :: n in a + b <==> n in a || n in b;
  }

  lemma AboveSplit(a: seq<Node>, b: seq<Node>, key: int)
    ensures Above(a + b, key) <==> Above(a, key) && Above(b, key)
  {
    assert forall n :: n in a + b <==> n in a || n in b;
  }

  lemma FourParts(a: seq<Node>, b: seq<Node>, x: Node, c: seq<Node>, d: seq<Node>)
    ensures a + (b + [x] + c) + d == (a + b) + [x] + (c + d)
  {}

  lemma Turn(a: seq<Node>, x: Node, b: seq<Node>, y: Node, c: seq<Node>)
    ensures a + [x] + (b + [y] + c) == (a + [x] + b) + [y] + c
  {}

  lemma SortedSlices(a: seq<Node>, x: Node, b: seq<Node>)
    requires Sorted(a + [x] + b)
    ensures Below(a, x.key) && Above(b, x.key)
  {
    var s := a + [x] + b;
    assert s[|a|] == x;
    assert forall i :: 0 <= i < |a| ==> s[i] == a[i];
    assert forall i :: 0 <= i < |b| ==> s[|a| + 1 + i] == b[i];
  }

  /** Putting `x` between the smaller and the larger elements keeps the sequence sorted. */
  lemma SortedInsert(a: seq<Node>, x: Node, b: seq<Node>)
    requires Sorted(a + b) && Below(a, x.key) && Above(b, x.key)
    ensures Sorted(a + [x] + b)
  {
    var s, s' := a + b, a + [x] + b;
    forall i, j | 0 <= i < j < |s'|
      ensures s'[i].key < s'[j].key
    {
      assert i < |a| ==> s'[i] == s[i] && s[i] in a;
      assert i > |a| ==> s'[i] == s[i - 1];
      assert j < |a| ==> s'[j] == s[j];
      assert j > |a| ==> s'[j] == s[j - 1] && s[j - 1] in b;
    }
  }

  lemma SortedRemove(a: seq<Node>, x: Node, b: seq<Node>)
    requires Sorted(a + [x] + b)
    ensures Sorted(a + b)
  {
    var s, s' := a + b, a + [x] + b;
    assert forall i :: 0 <= i < |a| ==> s[i] == s'[i];
    assert forall i :: |a| <= i < |s| ==> s[i] == s'[i + 1];
  }

  function NodeAt(s: seq<Node>, i: nat): Node? {
    if i < |s| then s[i] else null
  }

  /** `y` follows `x` in `s`, or is null at the end. */
  ghost predicate IsNext(s: seq<Node>, x: Node, y: Node?) {
    forall i :: 0 <= i < |s| && s[i] == x ==> y == NodeAt(s, i + 1)
  }

  lemma NextIn(a: seq<Node>, x: Node, b: seq<Node>)
    requires Sorted(a + [x] + b)
    ensures IsNext(a + [x] + b, x, if b == [] then null else b[0])
  {
    var s := a + [x] + b;
    assert s[|a|] == x;
    assert b != [] ==> s[|a| + 1] == b[0];
  }
}
