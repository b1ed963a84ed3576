/** What an Aho-Corasick walk over a trie computes, stated on the set `p` of the trie's paths. */
module Suffixes {
  import opened Bytes

  /** `p` holds the empty path and every prefix of its members. */
  ghost predicate PrefixClosed(p: set<Text>) {
    [] in p && forall s {:trigger ParentIn(p, s)} :: s in p && s != [] ==> ParentIn(p, s)
  }

  ghost predicate ParentIn(p: set<Text>, s: Text)
    requires s != []
  {
    s[..|s| - 1] in p
  }

  predicate IsSuffix(s: Text, t: Text) {
    |s| <= |t| && s == t[|t| - |s|..]
  }

  /** The longest suffix of `s` that is a path. */
  function Longest(p: set<Text>, s: Text): (r: Text)
    requires [] in p
    ensures r in p && |r| <= |s|
  {
    if s in p then s else Longest(p, s[1..])
  }

  lemma {:induction false} LongestSuffix(p: set<Text>, s: Text)
    requires [] in p
    ensures IsSuffix(Longest(p, s), s)
    ensures forall t :: t in p && IsSuffix(t, s) ==> IsSuffix(t, Longest(p, s))
  {
    if s !in p {
      LongestSuffix(p, s[1..]);
      assert forall t :: t in p && IsSuffix(t, s) ==> IsSuffix(t, s[1..]);
    }
  }

  /** The longest path of a text with one more byte depends only on the longest path so far. */
  lemma {:induction false} LongestStep(p: set<Text>, s: Text, c: Byte)
    requires PrefixClosed(p)
    ensures Longest(p, s + [c]) == Longest(p, Longest(p, s) + [c])
  {
    if s !in p {
      assert (s + [c])[..|s + [c]| - 1] == s;
      assert s + [c] in p ==> ParentIn(p, s + [c]);
      assert (s + [c])[1..] == s[1..] + [c];
      LongestStep(p, s[1..], c);
    }
  }

  /** The state of the automaton after a text, byte by byte from the root. */
  ghost function Walk(p: set<Text>, text: Text): (u: Text)
    requires [] in p
    ensures u in p
  {
    if text == [] then []
    else Longest(p, Walk(p, text[..|text| - 1]) + [text[|text| - 1]])
  }

  /** After any text the automaton is at the longest suffix that is a path. */
  lemma {:induction false} WalkLongest(p: set<Text>, text: Text)
    requires PrefixClosed(p)
    ensures Walk(p, text) == Longest(p, text)
  {
    if text != [] {
      var n := |text| - 1;
      assert text[..n] + [text[n]] == text;
      WalkLongest(p, text[..n]);
      LongestStep(p, text[..n], text[n]);
    }
  }

  /** The failure link of a path. */
  function Fail(p: set<Text>, u: Text): (f: Text)
    requires [] in p && u != []
    ensures f in p && |f| < |u|
  {
    Longest(p, u[1..])
  }

  /** How many failure links are followed from `u` on byte `c`. */
  function FailSteps(p: set<Text>, u: Text, c: Byte): nat
    requires [] in p
    decreases |u|
  {
    if u + [c] in p || u == [] then 0 else 1 + FailSteps(p, Fail(p, u), c)
  }

  /** The path after following `k` failure links. */
  function FailTimes(p: set<Text>, u: Text, k: nat): (v: Text)
    requires [] in p
    ensures k == 0 ==> v == u
    decreases k
  {
    if k == 0 || u == [] then u else FailTimes(p, Fail(p, u), k - 1)
  }

  predicate StopsAt(p: set<Text>, v: Text, c: Byte) {
    v + [c] in p || v == []
  }

  /** It is as many as it takes to reach, for the first time, an edge for `c` or the root. */
  lemma {:induction false} FailStepsCount(p: set<Text>, u: Text, c: Byte)
    requires [] in p
    ensures StopsAt(p, FailTimes(p, u, FailSteps(p, u, c)), c)
    ensures forall k :: 0 <= k < FailSteps(p, u, c) ==> !StopsAt(p, FailTimes(p, u, k), c)
    decreases |u|
  {
    if !StopsAt(p, u, c) {
      FailStepsCount(p, Fail(p, u), c);
      forall k | 0 <= k < FailSteps(p, u, c) ensures !StopsAt(p, FailTimes(p, u, k), c) {
        if k > 0 { assert FailTimes(p, u, k) == FailTimes(p, Fail(p, u), k - 1); }
      }
    }
  }

  /** Where a missing edge sends the search. */
  lemma FailTarget(p: set<Text>, u: Text, c: Byte)
    requires PrefixClosed(p) && u != [] && u + [c] !in p
    ensures Longest(p, u + [c]) == Longest(p, Fail(p, u) + [c])
  {
    assert (u + [c])[1..] == u[1..] + [c];
    LongestStep(p, u[1..], c);
  }

  /** Every failure link makes the path shorter, and a byte makes it longer by at most one. */
  lemma {:induction false} FailStepsPaid(p: set<Text>, u: Text, c: Byte)
    requires PrefixClosed(p)
    ensures FailSteps(p, u, c) + |Longest(p, u + [c])| <= |u| + 1
    decreases |u|
  {
    if u + [c] !in p && u != [] {
      FailTarget(p, u, c);
      FailStepsPaid(p, Fail(p, u), c);
    }
  }

  ghost function TotalFails(p: set<Text>, text: Text): nat
    requires [] in p
  {
    if text == [] then 0
    else
      var n := |text| - 1;
      TotalFails(p, text[..n]) + FailSteps(p, Walk(p, text[..n]), text[n])
  }

  /** Over a whole text no more failure links are followed than it has bytes. */
  lemma {:induction false} FailsAmortized(p: set<Text>, text: Text)
    requires PrefixClosed(p)
    ensures TotalFails(p, text) + |Walk(p, text)| <= |text|
  {
    if text != [] {
      var n := |text| - 1;
      FailsAmortized(p, text[..n]);
      FailStepsPaid(p, Walk(p, text[..n]), text[n]);
    }
  }

  // ---- What the search reports ----

  /** The value of `leaf` at path `u`: its depth if it is a stored word. */
  function Leaf(words: set<Text>, u: Text): nat {
    if u in words then |u| else 0
  }

  ghost predicate EndsWith(text: Text, words: set<Text>, w: Text) {
    w in words && w != [] && IsSuffix(w, text)
  }

  /** The last `r` bytes are a stored word, and no longer one ends there. */
  ghost predicate LongestEnd(text: Text, words: set<Text>, r: nat) {
    && r <= |text| && EndsWith(text, words, text[|text| - r..])
    && forall w :: EndsWith(text, words, w) ==> |w| <= r
  }

  /** A non-zero report is the length of the longest stored word that ends here. */
  lemma ReportIsLongestWord(p: set<Text>, words: set<Text>, text: Text)
    requires PrefixClosed(p) && words <= p
    ensures var r := Leaf(words, Walk(p, text)); r != 0 ==> LongestEnd(text, words, r)
  {
    WalkLongest(p, text);
    LongestSuffix(p, text);
    var u := Longest(p, text);
    if Leaf(words, u) != 0 {
      assert text[|text| - |u|..] == u;
      forall w | EndsWith(text, words, w) ensures |w| <= |u| {
        assert IsSuffix(w, u);
      }
    }
  }

  /** What one more byte does to an automaton that is at the longest suffix `u` of the text. */
  lemma OneMore(p: set<Text>, words: set<Text>, text: Text, u: Text, c: Byte)
    requires PrefixClosed(p) && words <= p && u == Longest(p, text)
    ensures Longest(p, u + [c]) == Longest(p, text + [c])
    ensures FailSteps(p, u, c) + |Longest(p, u + [c])| <= |u| + 1
    ensures var r := Leaf(words, Longest(p, u + [c])); r != 0 ==> LongestEnd(text + [c], words, r)
  {
    LongestStep(p, text, c);
    FailStepsPaid(p, u, c);
    WalkLongest(p, text + [c]);
    ReportIsLongestWord(p, words, text + [c]);
  }

  /** Every stored word that ends a path is caught because the path is itself a stored word. */
  ghost predicate SuffixesCovered(p: set<Text>, words: set<Text>) {
    forall u, w :: u in p && EndsWith(u, words, w) ==> u in words
  }

  ghost predicate Reports(p: set<Text>, words: set<Text>, text: Text)
    requires [] in p
  {
    (exists w :: EndsWith(text, words, w)) ==> Leaf(words, Walk(p, text)) != 0
  }

  /** The search looks at the current node only, never along its failure links.  So it reports at
      every end of a stored word, on every text, exactly if no path that is not a stored word
      ends with one. */
  lemma ReportsAllIff(p: set<Text>, words: set<Text>)
    requires PrefixClosed(p) && words <= p
    ensures (forall text :: Reports(p, words, text)) <==> SuffixesCovered(p, words)
  {
    if SuffixesCovered(p, words) {
      forall text ensures Reports(p, words, text) {
        if w :| EndsWith(text, words, w) {
          WalkLongest(p, text);
          LongestSuffix(p, text);
          var u := Longest(p, text);
          assert EndsWith(u, words, w);
        }
      }
    }
    if forall text :: Reports(p, words, text) {
      forall u, w | u in p && EndsWith(u, words, w) ensures u in words {
        assert Reports(p, words, u);
        WalkLongest(p, u);
      }
    }
  }

  /** No stored word is a proper suffix of a path. */
  ghost predicate NoWordInside(p: set<Text>, words: set<Text>) {
    forall u, w :: u in p && EndsWith(u, words, w) ==> w == u
  }

  /** The report stands for this occurrence of `w`. */
  ghost predicate Caught(p: set<Text>, words: set<Text>, text: Text, w: Text)
    requires [] in p
  {
    Leaf(words, Walk(p, text)) == |w|
  }

  /** It reports every occurrence of every stored word, on every text, exactly if no path has a
      stored word as a proper suffix. */
  lemma CatchesAllIff(p: set<Text>, words: set<Text>)
    requires PrefixClosed(p) && words <= p
    ensures (forall text, w :: EndsWith(text, words, w) ==> Caught(p, words, text, w)) <==> NoWordInside(p, words)
  {
    if NoWordInside(p, words) {
      forall text, w | EndsWith(text, words, w) ensures Caught(p, words, text, w) {
        WalkLongest(p, text);
        LongestSuffix(p, text);
        assert EndsWith(Longest(p, text), words, w);
      }
    }
    if forall text, w :: EndsWith(text, words, w) ==> Caught(p, words, text, w) {
      forall u, w | u in p && EndsWith(u, words, w) ensures w == u {
        assert Caught(p, words, u, w);
        WalkLongest(p, u);
      }
    }
  }

  // ---- Two words of which one is inside the other ----

  function InsidePaths(): set<Text> {
    {[], [97], [97, 98], [97, 98, 99], [98]}
  }

  /** "abc" and "b". */
  function InsideWords(): set<Text> {
    {[97, 98, 99], [98]}
  }

  /** What the links of the trie for these words are. */
  lemma InsideTrie()
    ensures PrefixClosed(InsidePaths()) && InsideWords() <= InsidePaths()
    ensures Fail(InsidePaths(), [97]) == [] && Fail(InsidePaths(), [98]) == []
    ensures Fail(InsidePaths(), [97, 98]) == [98] && Fail(InsidePaths(), [97, 98, 99]) == []
  {
    var p := InsidePaths();
    assert [97][..0] == [] && [98][..0] == [] && [97, 98][..1] == [97] && [97, 98, 99][..2] == [97, 98];
    assert [97][1..] == [] && [98][1..] == [] && [97, 98][1..] == [98] && [97, 98, 99][1..] == [98, 99];
    assert [98, 99] !in p && [98, 99][1..] == [99];
    assert [99] !in p && [99][1..] == [];
    assert Longest(p, [99]) == [] && Longest(p, [98, 99]) == Longest(p, [99]);
  }

  /** Where the edges of that trie are. */
  lemma InsideNext(c: Byte)
    ensures [] + [c] in InsidePaths() <==> c == 97 || c == 98
    ensures [97] + [c] in InsidePaths() <==> c == 98
    ensures [97, 98] + [c] in InsidePaths() <==> c == 99
    ensures [98] + [c] !in InsidePaths() && [97, 98, 99] + [c] !in InsidePaths()
  {
    assert [] + [c] == [c] && [97] + [c] == [97, c] && [97, 98] + [c] == [97, 98, c] && [98] + [c] == [98, c];
    assert |[97, 98, 99] + [c]| == 4;
  }

  /** The "b" inside "ab" goes unreported. */
  lemma MissedWord()
    ensures EndsWith([97, 98], InsideWords(), [98]) && !Reports(InsidePaths(), InsideWords(), [97, 98])
  {
    InsideTrie();
    WalkLongest(InsidePaths(), [97, 98]);
    assert Longest(InsidePaths(), [97, 98]) == [97, 98] && [97, 98] !in InsideWords();
    assert EndsWith([97, 98], InsideWords(), [98]);
  }

  /** With "abc" and "bc" some word is reported wherever one ends, but not the "bc" of "abc". */
  lemma ShorterWordMissed(p: set<Text>)
    requires p == {[], [97], [97, 98], [97, 98, 99], [98], [98, 99]}
    ensures var words := {[97, 98, 99], [98, 99]};
      PrefixClosed(p) && words <= p && SuffixesCovered(p, words) &&
      EndsWith([97, 98, 99], words, [98, 99]) && !Caught(p, words, [97, 98, 99], [98, 99])
  {
    var words: set<Text> := {[97, 98, 99], [98, 99]};
    assert [97][..0] == [] && [98][..0] == [] && [97, 98][..1] == [97] && [97, 98, 99][..2] == [97, 98] && [98, 99][..1] == [98];
    WalkLongest(p, [97, 98, 99]);
    assert Longest(p, [97, 98, 99]) == [97, 98, 99];
  }
}
