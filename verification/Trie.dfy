/** Searching in the trie of `my_trie.h`.  The functions that build a trie are not in the header;
    what they leave behind is the predicate `Valid`. */
module Trie {
  import opened Bytes
  import opened Suffixes

  class TrieNode {
    var leaf: nat
    var c: Byte
    var next: TrieNode?
    var links: TrieNode?
    var fail: TrieNode?

    constructor (c: Byte)
      ensures this.c == c && leaf == 0 && next == null && links == null && fail == null
    {
      leaf, next, links, fail := 0, null, null, null;
      this.c := c;
    }
  }

  function NodeAt(s: seq<TrieNode>, i: nat): TrieNode? {
    if i < |s| then s[i] else null
  }

  class TrieHead {
    const root: TrieNode
    /** For every node the bytes on the way to it, and its edges in the order of their list. */
    ghost const path: map<TrieNode, Text>
    ghost const kids: map<TrieNode, seq<TrieNode>>
    ghost const words: set<Text>

    constructor (root: TrieNode, ghost path: map<TrieNode, Text>, ghost kids: map<TrieNode, seq<TrieNode>>,
                 ghost words: set<Text>)
      ensures this.root == root && this.path == path && this.kids == kids && this.words == words
    {
      this.root, this.path, this.kids, this.words := root, path, kids, words;
    }

    ghost function Paths(): set<Text> {
      path.Values
    }

    /** Edge number `i` of `n`: its label extends the path, and the list goes on or ends. */
    ghost predicate EdgeOk(n: TrieNode, i: nat)
      requires n in path && n in kids && i < |kids[n]|
      reads kids[n][i]
    {
      var e := kids[n][i];
      e in path && path[e] == path[n] + [e.c] && e.next == NodeAt(kids[n], i + 1)
    }

    /** The edges of `n` form a list, and there is one for each way to go on. */
    ghost predicate EdgesOk(n: TrieNode)
      requires n in path && n in kids
      reads n, kids[n]
    {
      && n.links == NodeAt(kids[n], 0)
      && (forall i {:trigger EdgeOk(n, i)} :: 0 <= i < |kids[n]| ==> EdgeOk(n, i))
      && (forall b: Byte {:trigger HasEdge(n, b)} :: path[n] + [b] in Paths() ==> HasEdge(n, b))
    }

    ghost predicate HasEdge(n: TrieNode, b: Byte)
      requires n in kids
      reads kids[n]
    {
      exists i :: 0 <= i < |kids[n]| && kids[n][i].c == b
    }

    ghost predicate KidsIn(n: TrieNode)
      requires n in kids
    {
      forall e :: e in kids[n] ==> e in path
    }

    /** The failure link leads to the longest proper suffix that is a path, and `leaf` is the
        depth of a stored word. */
    ghost predicate LabelsOk(n: TrieNode)
      requires n in path && [] in Paths()
      reads path.Keys
    {
      && n.leaf == Leaf(words, path[n])
      && (n != root ==>
            n.fail != null && n.fail in path && path[n] != [] && path[n.fail] == Fail(Paths(), path[n]))
    }

    ghost predicate Valid()
      reads path.Keys
    {
      && root in path && path[root] == [] && kids.Keys == path.Keys
      && [] in Paths() && PrefixClosed(Paths()) && words <= Paths()
      && (forall m, n :: m in path && n in path && path[m] == path[n] ==> m == n)
      && (forall n {:trigger EdgesOk(n)} :: n in path ==> KidsIn(n) && EdgesOk(n))
      && (forall n {:trigger LabelsOk(n)} :: n in path ==> LabelsOk(n))
    }

    /** trie_goto: along the edge for `c`, or from the root back to itself. */
    method Goto(node: TrieNode, c: Byte) returns (r: TrieNode?)
      requires Valid() && node in path
      ensures r != null ==> r in path
      ensures path[node] + [c] in Paths() ==> r != null && path[r] == path[node] + [c]
      ensures path[node] + [c] !in Paths() ==> r == if node == root then root else null
    {
      assert EdgesOk(node) && KidsIn(node);
      var next := Along(node, c);
      if next != null {
        assert path[next] in Paths();
        return next;
      }
      if node == root {
        return root;
      }
      return null;
    }

    /** Its loop over the edges of `node`. */
    method Along(node: TrieNode, c: Byte) returns (next: TrieNode?)
      requires node in path && node in kids && EdgesOk(node) && KidsIn(node)
      ensures next != null ==> next in path && path[next] == path[node] + [c]
      ensures next == null ==> path[node] + [c] !in Paths()
    {
      next := node.links;
      ghost var i := 0;
      while next != null
        invariant i <= |kids[node]| && next == NodeAt(kids[node], i)
        invariant forall j :: 0 <= j < i ==> kids[node][j].c != c
        decreases |kids[node]| - i
      {
        assert next == kids[node][i] && EdgeOk(node, i);
        if next.c == c {
          return next;
        }
        next := next.next;
        i := i + 1;
      }
      assert !HasEdge(node, c);
    }

    /** The body of trie_search's outer loop: the edge of `parent` labelled `p`, if any. */
    method Follow(parent: TrieNode, p: Byte) returns (node: TrieNode?)
      requires parent in path && parent in kids && EdgesOk(parent) && KidsIn(parent)
      ensures node != null ==> node in path && path[node] == path[parent] + [p]
      ensures node == null ==> path[parent] + [p] !in Paths()
    {
      node := parent.links;
      ghost var i := 0;
      if node == null {
        assert !HasEdge(parent, p);
        return null;
      }
      while p != node.c
        invariant node != null && i < |kids[parent]| && node == kids[parent][i]
        invariant forall j :: 0 <= j < i ==> kids[parent][j].c != p
        decreases |kids[parent]| - i
      {
        assert EdgeOk(parent, i);
        node := node.next;
        if node == null {
          assert !HasEdge(parent, p);
          return null;
        }
        i := i + 1;
      }
      assert EdgeOk(parent, i);
    }

    /** trie_search. */
    method Search(key: Text) returns (r: bool)
      requires Valid()
      ensures r <==> key != [] && key in words
    {
      var node := root;
      for k := 0 to |key|
        invariant node in path && path[node] == key[..k]
      {
        assert key[..k + 1] == key[..k] + [key[k]];
        assert EdgesOk(node) && KidsIn(node);
        var next := Follow(node, key[k]);
        if next == null {
          PrefixOfPath(Paths(), key, k + 1);
          return false;
        }
        node := next;
      }
      assert key[..|key|] == key;
      assert LabelsOk(node);
      return node.leaf > 0;
    }
  }

  lemma {:induction false} PrefixOfPath(p: set<Text>, s: Text, k: nat)
    requires PrefixClosed(p) && k <= |s|
    ensures s in p ==> s[..k] in p
    decreases |s|
  {
    if k < |s| {
      assert s in p ==> ParentIn(p, s);
      PrefixOfPath(p, s[..|s| - 1], k);
      assert s[..|s| - 1][..k] == s[..k];
    } else {
      assert s[..k] == s;
    }
  }

  class AcState {
    const trie: TrieHead
    var node: TrieNode
    /** Everything read so far, and how many failure links were followed over it. */
    ghost var text: Text
    ghost var fails: nat

    /** The automaton is at the longest suffix of the text that is a path; the failure links
        followed are paid for by the bytes read. */
    ghost predicate Valid()
      reads this, trie.path.Keys
    {
      && trie.Valid() && node in trie.path
      && At() == Longest(trie.Paths(), text)
      && fails + |At()| <= |text|
    }

    /** The path the automaton has reached. */
    ghost function At(): Text
      requires node in trie.path
      reads this
    {
      trie.path[node]
    }

    /** ac_trie_init. */
    constructor (trie: TrieHead)
      requires trie.Valid()
      ensures this.trie == trie && Valid() && text == [] && fails == 0
    {
      this.trie, node, text, fails := trie, trie.root, [], 0;
    }

    /** ac_trie_next: one byte further.  A non-zero result is the length of the longest stored word
        that ends here. */
    method Next(c: Byte) returns (length: nat)
      requires Valid()
      modifies this
      ensures Valid() && text == old(text) + [c]
      ensures length == Leaf(trie.words, At())
      ensures fails == old(fails) + FailSteps(trie.Paths(), old(At()), c)
      ensures length != 0 ==> LongestEnd(text, trie.words, length)
    {
      var next;
      ghost var n;
      next, n := Step(c);
      assert trie.LabelsOk(next);
      length := next.leaf;
      OneMore(trie.Paths(), trie.words, text, At(), c);
      node, text, fails := next, text + [c], fails + n;
    }

    /** Its loop: the node after `c`, and the number of failure links on the way. */
    method Step(c: Byte) returns (next: TrieNode, ghost n: nat)
      requires trie.Valid() && node in trie.path
      ensures next in trie.path && trie.path[next] == Longest(trie.Paths(), At() + [c])
      ensures n == FailSteps(trie.Paths(), At(), c)
    {
      ghost var p, u := trie.Paths(), At();
      var root, node0 := trie.root, node;
      n := 0;
      var got := trie.Goto(node0, c);
      while got == null
        invariant node0 in trie.path
        invariant Longest(p, trie.path[node0] + [c]) == Longest(p, u + [c])
        invariant n + FailSteps(p, trie.path[node0], c) == FailSteps(p, u, c)
        invariant got == null ==> trie.path[node0] + [c] !in p && node0 != root
        invariant got != null ==> got in trie.path && trie.path[got] == Longest(p, trie.path[node0] + [c])
        invariant got != null ==> FailSteps(p, trie.path[node0], c) == 0
        decreases got == null, |trie.path[node0]|
      {
        assert trie.LabelsOk(node0);
        FailTarget(p, trie.path[node0], c);
        node0 := node0.fail;
        n := n + 1;
        got := trie.Goto(node0, c);
      }
      next := got;
    }
  }

  /** What the builders must leave for "abc" and "b": the nodes are those of the paths "", "a",
      "ab", "abc" and "b". */
  ghost predicate Inside(t: TrieHead, r: TrieNode, a: TrieNode, ab: TrieNode, abc: TrieNode, b: TrieNode)
    reads r, a, ab, abc, b
  {
    && t.root == r && t.words == InsideWords()
    && t.path == map[r := [], a := [97], ab := [97, 98], abc := [97, 98, 99], b := [98]]
    && t.kids == map[r := [a, b], a := [ab], ab := [abc], abc := [], b := []]
    && r.c == 0 && a.c == 97 && ab.c == 98 && abc.c == 99 && b.c == 98
    && r.links == a && a.links == ab && ab.links == abc && abc.links == null && b.links == null
    && a.next == b && b.next == null && ab.next == null && abc.next == null
    && a.fail == r && ab.fail == b && abc.fail == r && b.fail == r
    && r.leaf == 0 && a.leaf == 0 && ab.leaf == 0 && abc.leaf == 3 && b.leaf == 1
  }

  lemma InsidePathsOf(t: TrieHead, r: TrieNode, a: TrieNode, ab: TrieNode, abc: TrieNode, b: TrieNode)
    requires Inside(t, r, a, ab, abc, b)
    ensures t.Paths() == InsidePaths()
    ensures t.path.Keys == t.kids.Keys == {r, a, ab, abc, b}
    ensures t.path[r] == [] && t.path[a] == [97] && t.path[ab] == [97, 98] && t.path[abc] == [97, 98, 99] && t.path[b] == [98]
  {
    assert r in t.path && a in t.path && ab in t.path && abc in t.path && b in t.path;
    forall s | s in InsidePaths() ensures s in t.path.Values {
      if s == [] { assert t.path[r] == s; }
      if s == [97] { assert t.path[a] == s; }
      if s == [97, 98] { assert t.path[ab] == s; }
      if s == [97, 98, 99] { assert t.path[abc] == s; }
      if s == [98] { assert t.path[b] == s; }
    }
  }

  lemma InsideRootEdges(t: TrieHead, r: TrieNode, a: TrieNode, ab: TrieNode, abc: TrieNode, b: TrieNode)
    requires Inside(t, r, a, ab, abc, b)
    ensures r in t.path && r in t.kids && t.EdgesOk(r) && t.KidsIn(r)
  {
    InsidePathsOf(t, r, a, ab, abc, b);
    assert t.EdgeOk(r, 0) && t.EdgeOk(r, 1);
    forall c: Byte | t.path[r] + [c] in t.Paths() ensures t.HasEdge(r, c) {
      InsideNext(c);
      assert t.kids[r][0].c == c || t.kids[r][1].c == c;
    }
  }

  lemma InsideInnerEdges(t: TrieHead, r: TrieNode, a: TrieNode, ab: TrieNode, abc: TrieNode, b: TrieNode)
    requires Inside(t, r, a, ab, abc, b)
    ensures a in t.path && a in t.kids && t.EdgesOk(a) && t.KidsIn(a)
    ensures ab in t.path && ab in t.kids && t.EdgesOk(ab) && t.KidsIn(ab)
  {
    InsidePathsOf(t, r, a, ab, abc, b);
    assert t.EdgeOk(a, 0) && t.EdgeOk(ab, 0);
    forall c: Byte | t.path[a] + [c] in t.Paths() ensures t.HasEdge(a, c) {
      InsideNext(c);
      assert t.kids[a][0].c == c;
    }
    forall c: Byte | t.path[ab] + [c] in t.Paths() ensures t.HasEdge(ab, c) {
      InsideNext(c);
      assert t.kids[ab][0].c == c;
    }
  }

  lemma InsideLeafEdges(t: TrieHead, r: TrieNode, a: TrieNode, ab: TrieNode, abc: TrieNode, b: TrieNode)
    requires Inside(t, r, a, ab, abc, b)
    ensures abc in t.path && abc in t.kids && t.EdgesOk(abc) && t.KidsIn(abc)
    ensures b in t.path && b in t.kids && t.EdgesOk(b) && t.KidsIn(b)
  {
    InsidePathsOf(t, r, a, ab, abc, b);
    forall c: Byte ensures t.path[abc] + [c] !in t.Paths() && t.path[b] + [c] !in t.Paths() {
      InsideNext(c);
    }
  }

  lemma InsideLabels(t: TrieHead, r: TrieNode, a: TrieNode, ab: TrieNode, abc: TrieNode, b: TrieNode)
    requires Inside(t, r, a, ab, abc, b)
    ensures [] in t.Paths() && forall n {:trigger t.LabelsOk(n)} :: n in t.path ==> t.LabelsOk(n)
  {
    InsidePathsOf(t, r, a, ab, abc, b);
    InsideTrie();
    assert t.LabelsOk(r) && t.LabelsOk(a) && t.LabelsOk(ab) && t.LabelsOk(abc) && t.LabelsOk(b);
  }

  lemma InsideUnique(t: TrieHead, r: TrieNode, a: TrieNode, ab: TrieNode, abc: TrieNode, b: TrieNode)
    requires Inside(t, r, a, ab, abc, b)
    ensures forall m, n :: m in t.path && n in t.path && t.path[m] == t.path[n] ==> m == n
  {
    InsidePathsOf(t, r, a, ab, abc, b);
    assert |t.path[r]| == 0 && |t.path[a]| == 1 && |t.path[ab]| == 2 && |t.path[abc]| == 3 && |t.path[b]| == 1;
    assert t.path[a][0] != t.path[b][0];
  }

  lemma InsideValid(t: TrieHead, r: TrieNode, a: TrieNode, ab: TrieNode, abc: TrieNode, b: TrieNode)
    requires Inside(t, r, a, ab, abc, b)
    ensures t.Valid() && t.Paths() == InsidePaths()
  {
    InsidePathsOf(t, r, a, ab, abc, b);
    InsideTrie();
    InsideRootEdges(t, r, a, ab, abc, b);
    InsideInnerEdges(t, r, a, ab, abc, b);
    InsideLeafEdges(t, r, a, ab, abc, b);
    InsideLabels(t, r, a, ab, abc, b);
    InsideUnique(t, r, a, ab, abc, b);
  }

  /** A trie as the builders must leave it. */
  method BuildInside() returns (t: TrieHead)
    ensures fresh(t) && t.Valid() && t.words == InsideWords() && t.Paths() == InsidePaths()
  {
    var r := new TrieNode(0);
    var a := new TrieNode(97);
    var ab := new TrieNode(98);
    var abc := new TrieNode(99);
    var b := new TrieNode(98);
    r.links, a.links, ab.links := a, ab, abc;
    a.next := b;
    a.fail, ab.fail, abc.fail, b.fail := r, b, r, r;
    abc.leaf, b.leaf := 3, 1;
    t := new TrieHead(r, map[r := [], a := [97], ab := [97, 98], abc := [97, 98, 99], b := [98]],
                      map[r := [a, b], a := [ab], ab := [abc], abc := [], b := []], InsideWords());
    InsideValid(t, r, a, ab, abc, b);
  }

  /** Two calls of ac_trie_next, after which a stored word has ended and none is reported. */
  method MissedReport() returns (state: AcState, length: nat)
    ensures state.Valid() && state.text == [97, 98] && state.trie.words == InsideWords()
    ensures EndsWith(state.text, state.trie.words, [98]) && length == 0
  {
    var t := BuildInside();
    state := new AcState(t);
    length := state.Next(97);
    length := state.Next(98);
    assert state.text == [97, 98];
    MissedWord();
    WalkLongest(InsidePaths(), [97, 98]);
  }
}
