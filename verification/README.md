# Verified models of the header-only algorithms

Several headers of this repository carry whole algorithms in macros or inline bodies: the
red-black and splay trees and the tail queue that come with libevent 1.4.7, its timer heap, the
Aho-Corasick search, derived atomics and string trimming that come with MySQL, and the
repository's own arena, byte queue and block framing.  This project models these algorithms in
Dafny and proves what they promise.  `dafny verify dfyconfig.toml` checks all of it.

How the model is built:

- **Trees** (`Elements`, `RbShape`, `RbSteps`, `RbDelete`, `RbTree`, `SplayShape`, `SplayTree`).
  Elements are heap objects with the embedded link field of the macros; the methods assign left,
  right, parent and colour in place, in the order of the source.  A ghost tree says what the
  pointers mean.  A red-black algorithm in progress is a context with a hole and the subtree in
  it; `At(k, t, root, m)` relates both to the link fields, so that one statement covers every
  place in the tree where a rotation can happen.  A splay in progress is a left spine, a middle
  tree and a right spine that hang on the stack-allocated node.  The link fields of a set of
  elements are also taken as a value (`Snap`), so that reasoning about shape is about values.
- **Aho-Corasick** (`Suffixes`, `Trie`).  `Suffixes` defines the longest suffix of a text that is
  a path, and counts failure links; `Trie` walks the linked edges of the heap.
- **Timers** (`Time`, `MinHeap`).  The array, the counter and the index stored in every event.  A
  shift in progress is a sequence with a hole.
- **Atomics** (`Atomics`).  Threads interleave at single atomic actions; a log records when each
  operation takes effect.
- **Tail queue** (`TailQueue`).  A pointer to a pointer is a slot, `HeadFirst` or `NextOf(elem)`.
- **Support** (`TrailingSpace`, `FastBuffer`, `Arena`, `BlockFraming`).

Keys are compared by the order of an integer, which stands for the user-supplied `cmp`.  Where
the source has an assertion or leaves an input undefined, the model has a precondition; a read
beyond the buffer of a decryptor and a length that makes a string throw are outcomes of their own
(`OverRead`, `TooLong`).

Where the code does not do what its callers may expect:

- `ac_trie_next` returns the `leaf` of the current node and does not look along failure links.
  What it reports is the longest stored word that ends at a position.  It reports every
  occurrence of every stored word exactly if no path has a stored word as a proper suffix
  (`Suffixes.CatchesAllIff`), and it reports something wherever a stored word ends exactly if
  every path that ends in a stored word is a stored word (`Suffixes.ReportsAllIff`).  With the
  words "abc" and "b" nothing is reported for the "b" of "ab" (`Trie.MissedReport`); with "abc"
  and "bc" the "bc" of "abc" is passed over for "abc" (`Suffixes.ShorterWordMissed`).
- `SPLAY_REMOVE` returns its argument.  That is the element it unlinks exactly if the argument was
  in the tree (`SplayTree.SplayHead.Remove`); otherwise the tree lost another element with the
  same key (`SplayTree.RemoveTwin`).
- The decryptors take the length of the last block from the first byte of the message and do not
  compare it with the block.  If the message has the right length and at least one block,
  `AESDecrypt` reads beyond its buffer exactly for a first byte of 17 to 127, and for a larger one,
  which is negative as a char, the output string throws before anything is read
  (`BlockFraming.AesBeyondIff`).  `RSAPrivateDecrypt` never reads beyond its buffer; if moreover the
  primitive accepts all blocks, the string throws exactly for a first byte above 127
  (`BlockFraming.RsaBeyondIff`).  `BlockFraming.BeyondExamples` has an input for each case.  No
  encrypted message is like that (`BlockFraming.FramesFit`).

## Model

| member | source | states |
|---|---|---|
| `RbShape.HeightBound` | include/event1.4.7/tree.h:47-54 | a red-black tree of n nodes has height at most 2 lg(n+1), as integer powers |
| `RbShape.ClimbBound` | include/event1.4.7/tree.h:394-430 | a climb from anywhere in the tree is at most that long |
| `RbShape.BlackHeightBounds` | include/event1.4.7/tree.h:47-54 | black height bounds the number of nodes from below and the height from above, because red nodes have black parents |
| `RbShape.PlugInOrder` | include/event1.4.7/tree.h:335-373 | a subtree's elements stay together in the order, between what precedes and what follows its place |
| `RbShape.PlugOk` | include/event1.4.7/tree.h:47-54 | balanced parts whose colours fit make a red-black tree |
| `RbShape.UnplugOk` | include/event1.4.7/tree.h:47-54 | the red-black conditions can be taken apart again at any place |
| `RbShape.LocateAt` | include/event1.4.7/tree.h:305-311 | from any element the parent pointers describe the way to the root |
| `RbShape.SortedAround` | include/event1.4.7/tree.h:614-622 | in a search tree everything before an element is smaller and everything behind it larger, all the way up |
| `RbSteps.RotInOrder` | include/event1.4.7/tree.h:335-373 | rotations anywhere in a tree keep the order of the elements |
| `RbSteps.SearchStep` | include/event1.4.7/tree.h:585-594 | going left or right by the comparison keeps the only place where the key can be |
| `RbSteps.SearchMiss` | include/event1.4.7/tree.h:585-594 | a search that falls off the tree has shown that no element has the key |
| `RbSteps.GrandBlack` | include/event1.4.7/tree.h:394-396 | a red parent always has a parent of its own, and that one is black |
| `RbSteps.FlippedOk` | include/event1.4.7/tree.h:399-404 | the red-uncle case moves the only possible violation two levels up and keeps all black heights |
| `RbSteps.StraightOk` | include/event1.4.7/tree.h:405-410 | the inner-grandchild rotation leaves an outer grandchild and the same violation |
| `RbSteps.RaisedOk` | include/event1.4.7/tree.h:411-412 | recolouring and rotating at the grandparent ends the violation without changing black heights |
| `RbSteps.GraftedDone` | include/event1.4.7/tree.h:394-431 | when the loop of the insertion ends, blackening the root gives a red-black tree |
| `RbSteps.InsertReady` | include/event1.4.7/tree.h:585-604 | a fresh red leaf at the place of a failed search meets the loop invariant and keeps the keys sorted |
| `RbDelete.SplicedAt` | include/event1.4.7/tree.h:559-570 | relinking the only child to the parent takes exactly that element out of the structure |
| `RbDelete.TakeOverFacts` | include/event1.4.7/tree.h:537-550 | the elements whose fields the replacement rewrites are pairwise different, so the assignments do not disturb each other |
| `RbDelete.ReplacedAt` | include/event1.4.7/tree.h:537-550 | copying the whole link field and redirecting three neighbours puts the successor in the removed element's place |
| `RbDelete.ReplacedOk` | include/event1.4.7/tree.h:537-550 | the replacement changes neither colours nor black heights, and only its own place in the order |
| `RbDelete.RemovedOrder` | include/event1.4.7/tree.h:559-570 | splicing out an element with at most one child removes it and nothing else from the order |
| `RbDelete.ReplacedOrder` | include/event1.4.7/tree.h:519-557 | removing an element with two children by moving its successor removes it and nothing else from the order |
| `RbDelete.RemovedOk` | include/event1.4.7/tree.h:559-573 | a removed red element leaves a red-black tree, a removed black one a subtree short of one black node |
| `RbDelete.SiblingExists` | include/event1.4.7/tree.h:438-446 | a short subtree has a sibling, and a red sibling has two black children |
| `RbDelete.BorrowedOk` | include/event1.4.7/tree.h:442-446 | the red-sibling rotation keeps the shortage where it is and makes the sibling black |
| `RbDelete.LiftedOk` | include/event1.4.7/tree.h:447-453 | reddening a sibling with black children moves the shortage to the parent |
| `RbDelete.TurnedOk` | include/event1.4.7/tree.h:455-463 | the rotation at the sibling gives it a red far child and keeps the shortage |
| `RbDelete.ClosedOk` | include/event1.4.7/tree.h:464-470 | with a red far child one rotation at the parent makes the whole tree red-black again |
| `RbDelete.ShortDone` | include/event1.4.7/tree.h:506-507 | a red short subtree, or a short whole tree, is repaired by blackening its root |
| `RbDelete.NextBelow` | include/event1.4.7/tree.h:629-632 | with a right subtree the next element is the leftmost one in it |
| `RbDelete.NextAbove` | include/event1.4.7/tree.h:634-642 | without one it is the first ancestor reached from a left child, or none |
| `RbTree.RotatedLeft` | include/event1.4.7/tree.h:335-353 | the assignments of the left rotation represent the rotated tree with consistent parent pointers |
| `RbTree.RotatedRight` | include/event1.4.7/tree.h:355-373 | the same for the right rotation |
| `RbTree.RbHead.RotateLeft` | include/event1.4.7/tree.h:335-353 | RB_ROTATE_LEFT in place, at any node with a right child: rotated structure, same order |
| `RbTree.RbHead.RotateRight` | include/event1.4.7/tree.h:355-373 | RB_ROTATE_RIGHT in place, at any node with a left child: rotated structure, same order |
| `RbTree.RbHead.InsertStepLeft` | include/event1.4.7/tree.h:397-412 | one round for a left parent keeps the loop invariant and the order, climbs, and rotates at most twice |
| `RbTree.RbHead.InsertStepRight` | include/event1.4.7/tree.h:413-429 | one round for a right parent, likewise |
| `RbTree.RbHead.InsertColor` | include/event1.4.7/tree.h:390-432 | RB_INSERT_COLOR ends in a red-black tree with the same order, after at most two rotations and no more rounds than the depth |
| `RbTree.RbHead.constructor` | include/event1.4.7/tree.h:299-301 | RB_INIT gives a valid empty tree |
| `RbTree.RbHead.Find` | include/event1.4.7/tree.h:609-624 | RB_FIND returns an element with the key exactly if there is one, within 2 lg(n+1) comparisons |
| `RbTree.RbHead.Descend` | include/event1.4.7/tree.h:584-594 | the search of RB_INSERT finds the equal element or the one null pointer where the key belongs, within 2 lg(n+1) comparisons |
| `RbTree.RbHead.LinkUnder` | include/event1.4.7/tree.h:595-603 | RB_SET and the parent link put a red leaf into the hole that was found |
| `RbTree.RbHead.Insert` | include/event1.4.7/tree.h:578-606 | an equal key changes nothing and is returned; otherwise the tree is red-black again and holds the element at its place in the order; comparisons and the climb stay within 2 lg(n+1), rotations within two |
| `RbTree.RbHead.MinMax` | include/event1.4.7/tree.h:647-660 | RB_MINMAX returns the first or the last element, or null for an empty tree |
| `RbTree.RbHead.Lift` | include/event1.4.7/tree.h:451-453 | the climbing case of the removal, in place |
| `RbTree.RbHead.BorrowLeft` | include/event1.4.7/tree.h:442-446 | the red-sibling case, left half, in place |
| `RbTree.RbHead.TurnLeft` | include/event1.4.7/tree.h:455-463 | the rotation at the sibling, left half, in place |
| `RbTree.RbHead.CloseLeft` | include/event1.4.7/tree.h:464-469 | the final rotation, left half, in place |
| `RbTree.RbHead.RemoveStepLeft` | include/event1.4.7/tree.h:440-471 | one round, left half: the shortage is gone within three rotations, or a level higher without any, or after one rotation at a red sibling as deep as before with a red focus, at which the loop stops |
| `RbTree.RbHead.BorrowRight` | include/event1.4.7/tree.h:474-478 | the red-sibling case, right half, in place |
| `RbTree.RbHead.TurnRight` | include/event1.4.7/tree.h:487-495 | the rotation at the sibling, right half, in place |
| `RbTree.RbHead.CloseRight` | include/event1.4.7/tree.h:496-501 | the final rotation, right half, in place |
| `RbTree.RbHead.RemoveStepRight` | include/event1.4.7/tree.h:472-504 | one round, right half, likewise |
| `RbTree.RbHead.RemoveColor` | include/event1.4.7/tree.h:434-508 | RB_REMOVE_COLOR ends in a red-black tree with the same order, after at most three rotations and no more rounds than the depth, although a red sibling pushes the focus down |
| `RbTree.RbHead.Leftmost` | include/event1.4.7/tree.h:521-523 | the walk to the successor ends at an element without a left child, through left links only |
| `RbTree.RbHead.Splice` | include/event1.4.7/tree.h:524-536 | an element with at most one child leaves the structure and keeps its own fields |
| `RbTree.RbHead.TakeOver` | include/event1.4.7/tree.h:537-550 | the spliced successor takes the removed element's place, also when it was its direct right child |
| `RbTree.RbHead.RemoveOuter` | include/event1.4.7/tree.h:515-518 | removal with at most one child: red-black again, order minus that element |
| `RbTree.RbHead.RemoveInner` | include/event1.4.7/tree.h:519-557 | removal with two children: red-black again, order minus that element |
| `RbTree.RbHead.Remove` | include/event1.4.7/tree.h:511-575 | RB_REMOVE of any element of any valid tree gives a valid tree whose order is the old one minus exactly that element, with a climb of at most 2 lg(n+1) and at most three rotations |
| `RbTree.RbHead.Next` | include/event1.4.7/tree.h:627-645 | RB_NEXT returns the following element in key order, or null behind the last |
| `RbTree.RbHead.Foreach` | include/event1.4.7/tree.h:672-675 | RB_FOREACH visits every element once, in increasing order, and ends |
| `SplayShape.RotatedRight` | include/event1.4.7/tree.h:81-85 | the rotation at the root of the middle tree, next to both outer trees |
| `SplayShape.RotatedLeft` | include/event1.4.7/tree.h:87-91 | its mirror image |
| `SplayShape.LinkedRight` | include/event1.4.7/tree.h:93-97 | SPLAY_LINKLEFT moves the root and its right subtree into the right tree and loses nothing |
| `SplayShape.LinkedLeft` | include/event1.4.7/tree.h:99-103 | SPLAY_LINKRIGHT, the mirror image |
| `SplayShape.FillRep` | include/event1.4.7/tree.h:106-107 | putting a subtree into the hole of an outer tree completes that tree below the stack node |
| `SplayShape.AssembledRep` | include/event1.4.7/tree.h:105-110 | SPLAY_ASSEMBLE joins the three trees into one |
| `SplayShape.AssembledOrder` | include/event1.4.7/tree.h:105-110 | the joined tree has the order of left, middle and right tree |
| `SplayShape.NarrowStep` | include/event1.4.7/tree.h:211-233 | each round puts only smaller keys left and only larger keys right |
| `SplayShape.AssembledNear` | include/event1.4.7/tree.h:211-234 | when the loop ends, the root is the key or its immediate neighbour |
| `SplayShape.NearOnly` | include/event1.4.7/tree.h:126-129 | a neighbour at the root means that no other element has the key |
| `SplayShape.SplitBeforeOk` | include/event1.4.7/tree.h:166-169 | splitting before the root is sound because the root is the key's neighbour |
| `SplayShape.SplitAfterOk` | include/event1.4.7/tree.h:170-173 | splitting behind the root, likewise |
| `SplayShape.LeftPartClosed` | include/event1.4.7/tree.h:192-195 | splaying the left part for a key above all of it leaves its root without a right child |
| `SplayShape.Joined` | include/event1.4.7/tree.h:192-195 | the right part can therefore become that root's right subtree |
| `SplayTree.SplayHead.constructor` | include/event1.4.7/tree.h:65-67 | SPLAY_INIT gives a valid empty tree |
| `SplayTree.SplayHead.RotateRight` | include/event1.4.7/tree.h:81-85 | the rotation in place keeps all three trees and the order |
| `SplayTree.SplayHead.RotateLeft` | include/event1.4.7/tree.h:87-91 | the mirror image in place |
| `SplayTree.SplayHead.LinkLeft` | include/event1.4.7/tree.h:93-97 | SPLAY_LINKLEFT in place |
| `SplayTree.SplayHead.LinkRight` | include/event1.4.7/tree.h:99-103 | SPLAY_LINKRIGHT in place |
| `SplayTree.SplayHead.Assemble` | include/event1.4.7/tree.h:105-110 | SPLAY_ASSEMBLE in place, also when an outer tree is empty and the stack node itself holds the hole |
| `SplayTree.SplayHead.StepLeft` | include/event1.4.7/tree.h:212-221 | a round for a smaller key keeps order and bounds, and shrinks the middle tree or ends |
| `SplayTree.SplayHead.StepRight` | include/event1.4.7/tree.h:222-231 | a round for a larger key, likewise |
| `SplayTree.SplayHead.TakeApart` | include/event1.4.7/tree.h:207-233 | the loop ends with everything in the three trees and the key or its neighbour on top |
| `SplayTree.SplayHead.Splay` | include/event1.4.7/tree.h:202-235 | SPLAY keeps the elements and their order, ends, and leaves the key or its predecessor or successor at the root |
| `SplayTree.SplayHead.Find` | include/event1.4.7/tree.h:121-130 | SPLAY_FIND returns an element with the key exactly if there is one, brings it to the root, and keeps the contents |
| `SplayTree.SplayHead.Insert` | include/event1.4.7/tree.h:157-179 | SPLAY_INSERT returns the element with an equal key, or adds the new one at its place in the order, and leaves it at the root |
| `SplayTree.SplayHead.RemoveRoot` | include/event1.4.7/tree.h:189-196 | taking out the root keeps the rest in order |
| `SplayTree.SplayHead.Remove` | include/event1.4.7/tree.h:181-200 | SPLAY_REMOVE takes out the one element with the key, or returns null when there is none; what it returns is the element taken out if and only if its argument was in the tree |
| `SplayTree.RemoveTwin` | include/event1.4.7/tree.h:197-197 | an element with an equal key, never in the tree, is returned for the one that was unlinked |
| `SplayTree.SplayHead.Next` | include/event1.4.7/tree.h:132-144 | SPLAY_NEXT returns the following element, or null behind the last |
| `SplayTree.SplayHead.MinStep` | include/event1.4.7/tree.h:248-257 | one round towards the minimum |
| `SplayTree.SplayHead.MaxStep` | include/event1.4.7/tree.h:258-268 | one round towards the maximum |
| `SplayTree.SplayHead.MinMaxWith` | include/event1.4.7/tree.h:240-271 | SPLAY_MINMAX ends, keeps the order, and leaves a root without a left (right) child |
| `SplayTree.SplayHead.SplayOut` | include/event1.4.7/tree.h:147-151 | the same for a whole tree |
| `SplayTree.SplayHead.MinMax` | include/event1.4.7/tree.h:280-283 | SPLAY_MIN and SPLAY_MAX return the first and the last element, or null |
| `SplayTree.SplayHead.Foreach` | include/event1.4.7/tree.h:285-288 | SPLAY_FOREACH visits every element once, in order, though every step rebuilds the tree |
| `Suffixes.LongestSuffix` | include/mysql/my_trie.h:75-92 | the state aimed at: a suffix of the text that is a path, and every other such suffix is a suffix of it |
| `Suffixes.LongestStep` | include/mysql/my_trie.h:89-90 | the next state depends on the current one and the byte alone |
| `Suffixes.WalkLongest` | include/mysql/my_trie.h:82-92 | after any text, stepping byte by byte has reached the longest suffix that is a path |
| `Suffixes.FailTarget` | include/mysql/my_trie.h:89-90 | without an edge the failure link leads to a node with the same next state |
| `Suffixes.FailStepsCount` | include/mysql/my_trie.h:89-90 | the counted failure links are exactly those up to the first node with an edge for the byte, or the root |
| `Suffixes.FailStepsPaid` | include/mysql/my_trie.h:89-90 | failure links followed plus new depth are at most old depth plus one |
| `Suffixes.FailsAmortized` | include/mysql/my_trie.h:82-92 | over a text of n bytes at most n failure links are followed |
| `Suffixes.ReportIsLongestWord` | include/mysql/my_trie.h:78-79 | a non-zero report is the length of the longest stored word that ends here |
| `Suffixes.CatchesAllIff` | include/mysql/my_trie.h:75-92 | in every text every occurrence of every stored word is reported, if and only if no path has a stored word as a proper suffix |
| `Suffixes.ReportsAllIff` | include/mysql/my_trie.h:75-92 | in every text something is reported at every position where a stored word ends, if and only if every path that ends in a stored word is itself a stored word |
| `Suffixes.MissedWord` | include/mysql/my_trie.h:91-91 | two words for which a position where one ends is not reported |
| `Suffixes.ShorterWordMissed` | include/mysql/my_trie.h:91-91 | two words for which every such position is reported, but not for every word that ends there |
| `Trie.TrieHead.Goto` | include/mysql/my_trie.h:55-65 | the edge for the byte exactly if the longer path exists; else the root itself, or null elsewhere |
| `Trie.TrieHead.Along` | include/mysql/my_trie.h:59-61 | the loop over one edge list finds the edge exactly if the longer path exists |
| `Trie.TrieHead.Follow` | include/mysql/my_trie.h:127-132 | the search along one edge list finds the edge exactly if the longer path exists |
| `Trie.TrieHead.Search` | include/mysql/my_trie.h:116-136 | trie_search is true exactly for the non-empty stored words |
| `Trie.AcState.Step` | include/mysql/my_trie.h:89-90 | the loop reaches the longest suffix of state and byte that is a path, with the counted failure links |
| `Trie.AcState.Next` | include/mysql/my_trie.h:82-92 | over any text the state is its longest suffix that is a path, a result is the longest stored word ending there, and failure links stay within the bytes read |
| `Trie.BuildInside` | include/mysql/my_trie.h:22-38 | a trie of linked nodes that meets the conditions the search needs |
| `Trie.MissedReport` | include/mysql/my_trie.h:82-92 | on that trie two calls of ac_trie_next, after which a stored word has ended and none is reported |
| `Time.GreaterIsLater` | include/event1.4.7/evutil.h:152-155 | on normalised times the comparison macro is the comparison of instants |
| `Time.TotalInjective` | include/event1.4.7/evutil.h:152-155 | a normalised time is determined by its instant |
| `Time.Add` | include/event1.4.7/evutil.h:126-134 | timeradd adds instants and keeps times normalised |
| `Time.Sub` | include/event1.4.7/evutil.h:135-143 | timersub subtracts instants and keeps times normalised |
| `Time.ThereAndBack` | include/event1.4.7/evutil.h:126-143 | on normalised times the two undo each other |
| `MinHeap.StepUp` | include/event1.4.7/min_heap.h:115-120 | moving a later parent down into the hole keeps the heap around the hole |
| `MinHeap.StepDown` | include/event1.4.7/min_heap.h:129-134 | moving the earlier child up into the hole keeps the heap around the hole |
| `MinHeap.TopIsMin` | include/event1.4.7/min_heap.h:63-63 | heap order puts an earliest event first |
| `MinHeap.PatchedAround` | include/event1.4.7/min_heap.h:85-94 | taking any event out by the last one leaves a heap except around that place |
| `MinHeap.ShiftedHeap` | include/event1.4.7/evutil.h:135-143 | timersub of one offset from all normalised timeouts leaves a heap, with normalised timeouts |
| `MinHeap.RefillContents` | include/event1.4.7/min_heap.h:85-94 | whatever the shifts do, exactly the erased event is missing afterwards |
| `MinHeap.MinHeap.constructor` | include/event1.4.7/min_heap.h:58-58 | a new heap is valid and empty |
| `MinHeap.Event.constructor` | include/event1.4.7/min_heap.h:60-60 | a new event is in no heap |
| `MinHeap.MinHeap.ParentFirst` | include/event1.4.7/min_heap.h:114-134 | in a valid heap no event is due before the one at half its position, and every event stores its index |
| `MinHeap.MinHeap.ShiftUp` | include/event1.4.7/min_heap.h:112-122 | closes the hole with heap order, the same events, and every stored index right |
| `MinHeap.MinHeap.Earlier` | include/event1.4.7/min_heap.h:129-129 | the branch-free choice picks an earliest existing child |
| `MinHeap.MinHeap.ShiftDown` | include/event1.4.7/min_heap.h:124-137 | the same from above or below, thanks to the closing shift up, also when the hole is behind the last event |
| `MinHeap.MinHeap.Reserve` | include/event1.4.7/min_heap.h:96-110 | growing keeps the events and their indices and gives exactly the capacity asked of it |
| `MinHeap.Capacity` | include/event1.4.7/min_heap.h:98-107 | room is gained by at least doubling, eight at first, and never more than that beyond what is needed |
| `MinHeap.MinHeap.Push` | include/event1.4.7/min_heap.h:65-71 | one event more, everything still a heap with right indices |
| `MinHeap.MinHeap.Top` | include/event1.4.7/min_heap.h:63-63 | an event not due later than any other, or null for an empty heap |
| `MinHeap.MinHeap.TakeOut` | include/event1.4.7/min_heap.h:77-80 | what pop and erase share: exactly the event at an index leaves and is marked as in no heap |
| `MinHeap.MinHeap.Pop` | include/event1.4.7/min_heap.h:73-83 | takes out exactly one earliest event and marks it as in no heap |
| `MinHeap.MinHeap.Erase` | include/event1.4.7/min_heap.h:85-94 | takes out exactly the given event from any index, or changes nothing when it is in no heap |
| `MinHeap.PushTwo` | include/event1.4.7/min_heap.h:65-71 | a run from a new heap: two pushed events are what it holds |
| `MinHeap.PopTwo` | include/event1.4.7/min_heap.h:73-83 | popping a heap of two gives both, the one due first before the other |
| `Atomics.FinishOwn` | include/mysql/my_atomic.h:66-75 | completing an operation keeps the account of the thread that does it: program order, returned values, no other operation of its own in between |
| `Atomics.FinishOther` | include/mysql/my_atomic.h:66-75 | and that of every other thread, also in the middle of its retry loop |
| `Atomics.StepLinearized` | include/mysql/my_atomic.h:65-86 | every atomic action of any thread keeps the log an exact account |
| `Atomics.RunLinearized` | include/mysql/my_atomic.h:17-35 | for any number of threads, programs and interleaving, operations take effect one at a time at their successful swap, in program order, and return the value found there |
| `Atomics.ReplayMeans` | include/mysql/my_atomic.h:17-35 | the sequential effect of any log is the last stored value plus what was added since, modulo 2^32 |
| `Atomics.RunMeans` | include/mysql/my_atomic.h:65-86 | after any run of any programs the cell, and every returned value, is the last stored value plus what was added since, modulo 2^32 |
| `Atomics.RunStores` | include/mysql/my_atomic.h:72-85 | without additions the cell is the last stored value, and fetch-and-store returns the value stored just before it |
| `Atomics.TwoTurns` | include/mysql/my_atomic.h:66-75 | two uninterrupted turns of a thread finish an operation, whatever it held before |
| `Atomics.CanFinish` | include/mysql/my_atomic.h:66-75 | from every state some schedule lets all threads finish |
| `Atomics.AddsCanFinish` | include/mysql/my_atomic.h:66-69 | for all programs of additions there is a run that ends with all of them in the cell |
| `Atomics.FailedSwap` | include/mysql/my_atomic.h:26-29 | a failed swap means that another thread changed the cell since this thread's last look |
| `Atomics.SomeoneWrote` | include/mysql/my_atomic.h:26-29 | a cell that differs was written in between |
| `Atomics.ReplayAdds` | include/mysql/my_atomic.h:66-69 | adds and loads alone leave the initial value plus the sum, modulo 2^32 |
| `Atomics.AddsSoFar` | include/mysql/my_atomic.h:66-69 | at any moment of any interleaving of adds and loads the cell holds the initial value plus what the completed additions added, modulo 2^32 |
| `Atomics.AddsTotal` | include/mysql/my_atomic.h:66-69 | when all threads have finished adding, the cell holds the initial value plus everything added, modulo 2^32, under any interleaving |
| `Atomics.StepCases` | include/mysql/my_atomic.h:65-86 | an operation takes effect exactly when it is a load or its swap finds the value the thread holds; an idle thread with an operation looks first, a failed swap looks again, and only a thread without operations stands still |
| `Atomics.LoadStep` | include/mysql/my_atomic.h:78-80 | the swap of 0 for 0 inside a load, done or failed, returns the cell and leaves it |
| `Atomics.LoadsInvisible` | include/mysql/my_atomic.h:78-80 | after any run the cell is what the other operations alone would have left |
| `TailQueue.Head.constructor` | include/event1.4.7/queue.h:317-320 | TAILQ_INIT gives a valid empty queue |
| `TailQueue.Head.Last` | include/event1.4.7/queue.h:296-297 | the punned TAILQ_LAST is the last element, or null |
| `TailQueue.Head.Prev` | include/event1.4.7/queue.h:299-300 | the punned TAILQ_PREV is the preceding element, or null for the first |
| `TailQueue.Head.InsertHead` | include/event1.4.7/queue.h:322-330 | puts the element in front |
| `TailQueue.Head.InsertTail` | include/event1.4.7/queue.h:332-337 | puts the element at the end |
| `TailQueue.Head.InsertAfter` | include/event1.4.7/queue.h:339-347 | puts the element behind the given one |
| `TailQueue.Head.InsertBefore` | include/event1.4.7/queue.h:349-354 | puts the element before the given one without the head |
| `TailQueue.Head.Remove` | include/event1.4.7/queue.h:356-363 | takes out exactly the given element, also the first or the last, whose own links stay as they were |
| `TailQueue.Head.Replace` | include/event1.4.7/queue.h:365-373 | exchanges exactly the given element |
| `TailQueue.Head.Foreach` | include/event1.4.7/queue.h:304-307 | visits the elements in order |
| `TailQueue.Head.ForeachReverse` | include/event1.4.7/queue.h:309-312 | visits the elements in reverse order |
| `TrailingSpace.TrimmedIs` | include/mysql/m_string.h:356-358 | the reference: only spaces are cut off, and all of them |
| `TrailingSpace.WordOfSpaces` | include/mysql/m_string.h:378-378 | a word equals SPACE_INT exactly if its four bytes are spaces |
| `TrailingSpace.LoadWord` | include/mysql/m_string.h:378-378 | a word read lies inside the buffer and is aligned |
| `TrailingSpace.SkipWords` | include/mysql/m_string.h:377-379 | the word loop cuts off nothing but spaces and reads no word before the start |
| `TrailingSpace.SkipBytes` | include/mysql/m_string.h:375-376 | a byte loop cuts off all spaces down to its bound |
| `TrailingSpace.Skip` | include/mysql/m_string.h:361-385 | for every buffer, length and alignment the result is that of the byte-by-byte scan |
| `FastBuffer.FastBuffer.constructor` | include/fastbuffer.h:16-22 | a new queue is empty |
| `FastBuffer.FastBuffer.Grow` | include/fastbuffer.h:50-57 | a larger buffer with the same waiting bytes, and what that copies |
| `FastBuffer.FastBuffer.Append` | include/fastbuffer.h:48-61 | the bytes come behind those waiting; size stays within the buffer, and all copying within twice everything ever appended |
| `FastBuffer.FastBuffer.PushBack` | include/fastbuffer.h:44-47 | one byte, likewise |
| `FastBuffer.FastBuffer.Slide` | include/fastbuffer.h:40-40 | the rest moves to the front, over itself |
| `FastBuffer.FastBuffer.Read` | include/fastbuffer.h:34-43 | the oldest bytes leave, in order of arrival, into the destination if there is one; what left and what waits together are what was appended |
| `FastBuffer.FastBuffer.Clear` | include/fastbuffer.h:70-73 | nothing waits any more, and the buffer is kept |
| `Arena.FitFits` | include/memstuff.h:56-64 | the walk stops at the first block with room |
| `Arena.PlaceFirst` | include/memstuff.h:43-73 | a request goes to the first block with room, behind what is in it, or to the start of a new one |
| `Arena.RunTidy` | include/memstuff.h:43-73 | all regions of any request sequence lie in their blocks, pairwise disjoint, with the lengths asked for |
| `Arena.RunConserves` | include/memstuff.h:43-73 | the fill marks add up to the bytes asked for |
| `Arena.RunOneBlock` | include/memstuff.h:56-80 | requests that fit a block of SZ bytes together share one, one behind the other |
| `Arena.RunMakes` | include/memstuff.h:66-82 | every appended block was made for the request at its start, with SZ bytes if that is more and twice the request otherwise |
| `Arena.RunAgain` | include/memstuff.h:34-73 | blocks that a run would append can be there beforehand without changing any address |
| `Arena.ReplayAfterClear` | include/memstuff.h:34-73 | after a clear the same requests get the same addresses and append no block |
| `Arena.Arena.constructor` | include/memstuff.h:10-19 | a new arena has no block |
| `Arena.Arena.GivenApart` | include/memstuff.h:43-73 | addresses given out since the last clear are in bounds and do not overlap |
| `Arena.Arena.SizesAddUp` | include/memstuff.h:43-73 | the _size fields of the blocks add up to the bytes requested |
| `Arena.Arena.GivenTogether` | include/memstuff.h:43-80 | the same addresses and the one block, for an arena that was never cleared |
| `Arena.Arena.BlockMadeFor` | include/memstuff.h:66-82 | the _bufsize of every block appended since the last clear, and the request it was made for |
| `Arena.Arena.Clear` | include/memstuff.h:34-42 | empties every block and keeps them all |
| `Arena.Arena.Alloc` | include/memstuff.h:43-73 | gives the next request its address, changes no address given before, and appends at most one block, of SZ bytes or twice the request |
| `Arena.Arena.FirstFit` | include/memstuff.h:45-72 | the walk over the list allocates where first fit says |
| `Arena.Arena.AppendBuf` | include/memstuff.h:74-84 | a fresh block of SZ bytes, or of twice the request if that is not smaller, behind the last one |
| `BlockFraming.SealedLength` | include/yyssl.h:132-145 | every started block of the message becomes a whole block of output |
| `BlockFraming.OpenSealed` | include/yyssl.h:272-283 | opening the blocks undoes sealing, whatever the input buffer still held |
| `BlockFraming.RoundTrip` | include/yyssl.h:123-179 | if encryption completes and the primitive is inverted on each block, decryption returns the message; the ciphertext is 1 + B*ceil(n/B) bytes and begins with n mod B |
| `BlockFraming.AesRoundTrip` | include/yyssl.h:246-285 | the same for AES, for every message and every initial content of the buffer |
| `BlockFraming.FrameInjective` | include/yyssl.h:123-147 | two messages never have the same ciphertext |
| `BlockFraming.StaleOnlyInFirst` | include/yyssl.h:248-258 | stale buffer bytes matter to the ciphertext only for a message shorter than a block, and never when the buffer is zeroed |
| `BlockFraming.SealsAllOrFails` | include/yyssl.h:133-145 | encryption completes exactly if the primitive takes every zero-filled block |
| `BlockFraming.ChunksParts` | include/yyssl.h:135-136 | the zero-filled blocks are the message and zeros, in order |
| `BlockFraming.SealGives` | include/yyssl.h:133-145 | with a zeroed buffer the output is what the primitive gives for the zero-filled blocks, up to a refused one |
| `BlockFraming.SealFilled` | include/yyssl.h:254-260 | without zeroing a message with a short end is sealed like the one filled up with the bytes of a block earlier |
| `BlockFraming.SealGivesFilled` | include/yyssl.h:254-260 | so the output is what the primitive gives for the blocks of the filled message |
| `BlockFraming.OpenGives` | include/yyssl.h:162-178 | decryption of whole blocks succeeds exactly if none is refused and the last length can be met; it appends what the primitive gives, up to a refused block, and of the last block as much as the header says, or all |
| `BlockFraming.UnframeGives` | include/yyssl.h:154-178 | the same for a message with its header |
| `BlockFraming.NeverFails` | include/yyssl.h:273-284 | decryption with a primitive that cannot fail never refuses a block |
| `BlockFraming.BeyondIff` | include/yyssl.h:158-177 | decryption reads beyond its buffer if and only if it comes to the last block and the header is more than a block and not negative; the string throws if and only if it comes there and the header is negative |
| `BlockFraming.AesBeyondIff` | include/yyssl.h:265-282 | for AES, of messages with the right length and a block: a read beyond the buffer if and only if the header is 17 to 127, a throw if and only if it is above |
| `BlockFraming.RsaBeyondIff` | include/yyssl.h:154-177 | for RSA never a read beyond the buffer; a throw if and only if the length is right, there is a block, none is refused, and the header is above 127 |
| `BlockFraming.BeyondExamples` | include/yyssl.h:172-176 | a smallest input of each kind |
| `BlockFraming.FramesFit` | include/yyssl.h:123-147 | no encrypted message leads to either |
| `BlockFraming.Copy` | include/yyssl.h:256-256 | the front of the buffer is overwritten with what there is, and every byte behind it stays |
| `BlockFraming.Aes.AESEncrypt` | include/yyssl.h:246-262 | for some initial buffer contents: appends the frame of the message, which is n mod 16 and what the primitive gives for the blocks of the message filled up with stale bytes |
| `BlockFraming.Aes.EncryptBlocks` | include/yyssl.h:253-260 | its loop seals the blocks one after the other in one buffer that is not wiped |
| `BlockFraming.Aes.AESDecrypt` | include/yyssl.h:263-285 | for every input: refuses a wrong length with nothing appended; before a last block reads beyond its buffer exactly for a header of 17 to 127 and throws exactly for a larger one; otherwise appends what the frame holds |
| `BlockFraming.Aes.DecryptBlocks` | include/yyssl.h:272-284 | its loop opens the blocks one after the other |
| `BlockFraming.Rsa.SetRSAKey` | include/yyssl.h:100-112 | a key that is not given stays as it was |
| `BlockFraming.Rsa.RSAPublicEncrypt` | include/yyssl.h:123-147 | false without a key, with nothing appended; else true exactly if every zero-filled block is taken, with n mod 128 and what the primitive gives appended, up to a refused block |
| `BlockFraming.Rsa.EncryptBlocks` | include/yyssl.h:132-146 | its loop seals the blocks one after the other, up to a refused one |
| `BlockFraming.Rsa.RSAPrivateDecrypt` | include/yyssl.h:148-179 | for every input: false without a key; unless the string throws, true exactly if the length is right and no block is refused, with what the frame holds appended; never a read beyond the buffer |
| `BlockFraming.Rsa.DecryptBlocks` | include/yyssl.h:162-178 | its loop opens the blocks one after the other, up to a refused one |

## Left out

- RbTree.RbHead.Remove: needs an element of this tree, as the macro does; an element of another tree is not modelled.
- SplayTree.SplayHead.MinMax: not stated for 0, for which SPLAY_MINMAX never leaves its loop; the macros pass -1 and 1 only.
- SplayTree.SplayHead.Next: needs an element of this tree, as the macro does.
- MinHeap.MinHeap.Push: needs an event that is in no heap, and does not model a failing realloc or an index that wraps around in 32 bits.
- MinHeap.MinHeap.Erase: the unsigned index -1 is the integer -1 here.
- Atomics.RunLinearized: 32-bit cells only, and single actions in one global order, as the header comment specifies; weaker memory models, spurious failures and the rwlock fallback are left out.
- The copy constructor of fastbuffer, and its fd.
- Arena.Arena.Alloc: does not model a failing malloc or a size that overflows.
- BlockFraming.Aes.AESDecrypt: what a read beyond the buffer appends is not modelled, only that it happens; the input and output strings are different objects, and the output is not so long that a block no longer fits.
- BlockFraming.Rsa.RSAPrivateDecrypt: the same; the primitive gives whole blocks, as it does without padding; char is signed and size_t has 64 bits, here and for AES; an input whose size does not fit an int is not modelled.
- TrailingSpace.Skip: words are little-endian, which makes no difference to SPACE_INT.
- Failing allocation everywhere, and unsigned counters that wrap around.
- The comparison callback: any total order is an order of integers here; a callback that is not a total order is not modelled.
- RB_AUGMENT, empty by default, and the destructors and prototypes.
- The amortised O(lg n) bound of the splay tree.
- trie_insert, ac_trie_prepare and ac_trie_init are not part of this model, since their bodies are not in the header: `TrieHead.Valid` states the trie they must build, and a state starts at the root.
- The truncation of `leaf` to 16 bits, for words longer than 65535 bytes.
- The loop in the event library that shifts all timeouts is not in these headers: `MinHeap.ShiftedHeap` states what its subtractions do to the heap.
- SLIST, LIST, SIMPLEQ and CIRCLEQ of queue.h, which repeat the tail queue with less.
- OpenSSL itself, key generation and serialisation, and base64: the block primitives are function parameters.
- The locked wrappers over standard containers (util.h, event_hash.h), byte-order macros, and all headers that hold prototypes only.
