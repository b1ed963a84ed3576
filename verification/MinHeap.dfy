/** The timer heap of `min_heap.h`: an array of events in which every event stores its own
    position. */
module MinHeap {
  import opened Time

  class Event {
    var timeout: Timeval
    var idx: int  // -1 for "in no heap"

    /** min_heap_elem_init. */
    constructor (timeout: Timeval)
      ensures this.timeout == timeout && idx == -1
    {
      this.timeout, idx := timeout, -1;
    }
  }

  /** The due times of some events, as a value. */
  type Times = map<Event, Timeval>

  ghost function Due(s: set<Event>): (t: Times)
    reads s`timeout
    ensures t.Keys == s
  {
    map e | e in s :: e.timeout
  }

  ghost function Elems(v: seq<Event>): set<Event> {
    set e | e in v
  }

  function Up(i: nat): nat
    requires i > 0
  {
    (i - 1) / 2
  }

  /** The event at `i` is not due later than the one at `j`. */
  ghost predicate NotLater(v: seq<Event>, t: Times, i: nat, j: nat)
    requires i < |v| && j < |v|
  {
    v[i] in t && v[j] in t && Le(t[v[i]], t[v[j]])
  }

  /** The event above `i` is not due later. */
  ghost predicate EdgeOk(v: seq<Event>, t: Times, i: nat)
    requires 0 < i < |v|
  {
    NotLater(v, t, Up(i), i)
  }

  ghost predicate Heap(v: seq<Event>, t: Times) {
    (forall i :: 0 <= i < |v| ==> v[i] in t) && forall i {:trigger EdgeOk(v, t, i)} :: 0 < i < |v| ==> EdgeOk(v, t, i)
  }

  /** The event two levels above `i`. */
  ghost predicate Across(v: seq<Event>, t: Times, i: nat)
    requires 0 < i < |v| && Up(i) > 0
  {
    NotLater(v, t, Up(Up(i)), i)
  }

  /** All edges that do not touch position `h` are fine, also across it. */
  ghost predicate HeapAround(v: seq<Event>, t: Times, h: nat)
    requires h < |v|
  {
    && (forall i :: 0 <= i < |v| ==> v[i] in t)
    && (forall i {:trigger EdgeOk(v, t, i)} :: 0 < i < |v| && i != h && Up(i) != h ==> EdgeOk(v, t, i))
    && (forall i {:trigger Across(v, t, i)} :: 0 < i < |v| && Up(i) == h && h > 0 ==> Across(v, t, i))
  }

  /** ... and position `h` is not later than the two below it. */
  ghost predicate HeapBelow(v: seq<Event>, t: Times, h: nat)
    requires h < |v|
  {
    HeapAround(v, t, h) && forall i {:trigger EdgeOk(v, t, i)} :: 0 < i < |v| && Up(i) == h ==> EdgeOk(v, t, i)
  }

  function Swap(v: seq<Event>, i: nat, j: nat): (w: seq<Event>)
    requires i < |v| && j < |v|
    ensures |w| == |v|
  {
    v[i := v[j]][j := v[i]]
  }

  lemma SwapSame(v: seq<Event>, i: nat, j: nat)
    requires i < |v| && j < |v|
    ensures multiset(Swap(v, i, j)) == multiset(v)
  {}

  /** A step up: the later event above moves down into the hole. */
  lemma StepUp(v: seq<Event>, t: Times, h: nat)
    requires 0 < h < |v| && HeapBelow(v, t, h) && !NotLater(v, t, Up(h), h)
    ensures HeapBelow(Swap(v, h, Up(h)), t, Up(h))
  {
    var w, u := Swap(v, h, Up(h)), Up(h);
    forall i | 0 < i < |w| && i != u
      ensures EdgeOk(w, t, i)
    {
      if i != h { assert EdgeOk(v, t, i); }
      if Up(i) == h { assert Across(v, t, i); }
    }
    forall i | 0 < i < |w| && Up(i) == u && u > 0
      ensures Across(w, t, i)
    {
      assert EdgeOk(v, t, u);
      assert i != h ==> EdgeOk(v, t, i);
    }
  }

  /** A step down: the earlier of the two events below moves up into the hole. */
  lemma StepDown(v: seq<Event>, t: Times, h: nat, c: nat)
    requires h < |v| && 0 < c < |v| && Up(c) == h && HeapAround(v, t, h) && !NotLater(v, t, h, c)
    requires forall i :: 0 < i < |v| && Up(i) == h ==> NotLater(v, t, c, i)
    ensures HeapAround(Swap(v, h, c), t, c)
  {
    var w := Swap(v, h, c);
    forall i | 0 < i < |w| && i != c && Up(i) != c
      ensures EdgeOk(w, t, i)
    {
      if i == h {
        assert Across(v, t, c);
      } else if Up(i) == h {
        assert NotLater(v, t, c, i);
      } else {
        assert EdgeOk(v, t, i);
      }
    }
    forall i | 0 < i < |w| && Up(i) == c && c > 0
      ensures Across(w, t, i)
    {
      assert EdgeOk(v, t, i);
    }
  }

  /** The event at the top is due first. */
  lemma {:induction false} TopIsMin(v: seq<Event>, t: Times, i: nat)
    requires Heap(v, t) && i < |v|
    ensures NotLater(v, t, 0, i)
    decreases i
  {
    if i > 0 {
      assert EdgeOk(v, t, i);
      TopIsMin(v, t, Up(i));
    }
  }

  lemma Settled(v: seq<Event>, t: Times, h: nat)
    requires h < |v| && HeapBelow(v, t, h) && (h > 0 ==> NotLater(v, t, Up(h), h))
    ensures Heap(v, t)
  {
    forall i | 0 < i < |v| ensures EdgeOk(v, t, i) {}
  }

  lemma Hangs(v: seq<Event>, t: Times, h: nat)
    requires Heap(v, t) && h < |v|
    ensures HeapBelow(v, t, h) && (h > 0 ==> NotLater(v, t, Up(h), h))
  {
    assert h > 0 ==> EdgeOk(v, t, h);
    forall i | 0 < i < |v| && Up(i) == h && h > 0 ensures Across(v, t, i) {
      assert EdgeOk(v, t, i) && EdgeOk(v, t, h);
    }
  }

  /** The child the loop settles on is the earlier one. */
  lemma Children(v: seq<Event>, t: Times, h: nat, c: nat)
    requires h < |v| && HeapAround(v, t, h) && 0 < c < |v| && Up(c) == h
    requires c == 2 * h + 2 ==> NotLater(v, t, c, c - 1)
    requires c == 2 * h + 1 && 2 * h + 2 < |v| ==> NotLater(v, t, c, c + 1)
    ensures forall i :: 0 < i < |v| && Up(i) == h ==> NotLater(v, t, c, i)
  {
    forall i | 0 < i < |v| && Up(i) == h ensures NotLater(v, t, c, i) {
      assert i == 2 * h + 1 || i == 2 * h + 2;
    }
  }

  lemma ChildrenLater(v: seq<Event>, t: Times, h: nat, c: nat)
    requires h < |v| && 0 < c < |v| && Up(c) == h && HeapAround(v, t, h) && NotLater(v, t, h, c)
    requires forall i :: 0 < i < |v| && Up(i) == h ==> NotLater(v, t, c, i)
    ensures HeapBelow(v, t, h)
  {
    forall i | 0 < i < |v| && Up(i) == h ensures EdgeOk(v, t, i) {
      assert NotLater(v, t, c, i);
    }
  }

  lemma NoChildren(v: seq<Event>, t: Times, h: nat)
    requires h < |v|
    ensures HeapAround(v, t, h) && 2 * h + 1 >= |v| ==> HeapBelow(v, t, h)
  {
    assert forall i :: 0 < i < |v| && Up(i) == h ==> i >= 2 * h + 1;
  }

  /** Taking the event at `i` out of `s` by moving the last one into its place. */
  function Patched(s: seq<Event>, i: nat): seq<Event>
    requires i < |s|
  {
    if i == |s| - 1 then s else s[..|s| - 1][i := s[|s| - 1]]
  }

  lemma Without(a: seq<Event>, x: Event, b: seq<Event>, y: Event)
    ensures multiset(a + [y] + b) == multiset(a + [x] + b + [y]) - multiset{x}
  {}

  lemma WithoutLast(s: seq<Event>)
    requires s != []
    ensures multiset(s[..|s| - 1]) == multiset(s) - multiset{s[|s| - 1]}
  {
    assert s == s[..|s| - 1] + [s[|s| - 1]];
  }

  lemma PatchedParts(s: seq<Event>, i: nat)
    requires i < |s| - 1
    ensures s == s[..i] + [s[i]] + s[i + 1..|s| - 1] + [s[|s| - 1]]
    ensures Patched(s, i) == s[..i] + [s[|s| - 1]] + s[i + 1..|s| - 1]
  {}

  lemma PatchedContents(s: seq<Event>, i: nat)
    requires i < |s| - 1
    ensures multiset(Patched(s, i)) == multiset(s) - multiset{s[i]}
  {
    PatchedParts(s, i);
    Without(s[..i], s[i], s[i + 1..|s| - 1], s[|s| - 1]);
  }

  lemma PatchedAround(s: seq<Event>, t: Times, i: nat)
    requires Heap(s, t) && i < |s|
    ensures if i < |s| - 1 then HeapAround(Patched(s, i), t, i) else HeapBelow(s, t, i)
  {
    Hangs(s, t, i);
    var v := Patched(s, i);
    if i < |s| - 1 {
      forall j | 0 < j < |v| && j != i && Up(j) != i ensures EdgeOk(v, t, j) { assert EdgeOk(s, t, j); }
      forall j | 0 < j < |v| && Up(j) == i && i > 0 ensures Across(v, t, j) { assert Across(s, t, j); }
    }
  }

  lemma Grown(s: seq<Event>, e: Event, t: Times, t': Times)
    requires Heap(s, t) && e in t' && forall f :: f in t ==> f in t' && t'[f] == t[f]
    ensures HeapBelow(s + [e], t', |s|) && multiset(s + [e]) == multiset(s) + multiset{e}
  {
    var v := s + [e];
    forall i | 0 < i < |v| && i != |s| ensures EdgeOk(v, t', i) { assert EdgeOk(s, t, i); }
  }

  /** A shorter heap, and one whose times are looked up elsewhere. */
  lemma Shorter(v: seq<Event>, n: nat, t: Times, t': Times)
    requires Heap(v, t) && n <= |v|
    requires forall i :: 0 <= i < n ==> v[i] in t' && t'[v[i]] == t[v[i]]
    ensures Heap(v[..n], t')
  {
    forall i | 0 < i < n ensures EdgeOk(v[..n], t', i) { assert EdgeOk(v, t, i); }
  }

  /** All times less an offset, each as evutil_timersub gives it. */
  ghost function Shifted(t: Times, off: Timeval): (r: Times)
    ensures r.Keys == t.Keys
  {
    map e | e in t :: Minus(t[e], off)
  }

  /** Moving the clock: taking the same offset off all normalised times leaves a heap a heap. */
  lemma ShiftedHeap(v: seq<Event>, t: Times, off: Timeval)
    requires Heap(v, t) && Normal(off) && forall e :: e in t ==> Normal(t[e])
    ensures Heap(v, Shifted(t, off)) && forall e :: e in t ==> Normal(Shifted(t, off)[e])
  {
    var t' := Shifted(t, off);
    forall i | 0 < i < |v| ensures EdgeOk(v, t', i) {
      assert EdgeOk(v, t, i);
      var a, b := v[Up(i)], v[i];
      GreaterIsLater(t[a], t[b]);
      GreaterIsLater(t'[a], t'[b]);
    }
  }

  ghost predicate Distinct(v: seq<Event>) {
    forall i, j :: 0 <= i < j < |v| ==> v[i] != v[j]
  }

  lemma {:induction false} Once(s: seq<Event>, i: nat)
    requires Distinct(s) && i < |s|
    ensures multiset(s)[s[i]] == 1
  {
    assert s == s[..i] + [s[i]] + s[i + 1..];
    assert s[i] !in multiset(s[..i]) && s[i] !in multiset(s[i + 1..]);
  }

  lemma Gone(s: seq<Event>, i: nat, v: seq<Event>)
    requires Distinct(s) && i < |s| && multiset(v) == multiset(s) - multiset{s[i]}
    ensures s[i] !in Elems(v)
  {
    Once(s, i);
    assert s[i] !in multiset(v);
  }

  lemma RefillContents(c: seq<Event>, i: nat, v: seq<Event>)
    requires Distinct(c) && i < |c| && |v| == |Patched(c, i)|
    requires if i == |c| - 1 then v == c else multiset(v) == multiset(Patched(c, i))
    ensures multiset(v[..|c| - 1]) == multiset(c) - multiset{c[i]} && c[i] !in Elems(v[..|c| - 1])
  {
    if i == |c| - 1 {
      WithoutLast(c);
    } else {
      PatchedContents(c, i);
      assert v[..|c| - 1] == v;
    }
    Gone(c, i, v[..|c| - 1]);
  }

  /** The array holds `v` except that position `h` is a hole meant for `v[h]`. */
  ghost predicate Holed(p: array<Event?>, v: seq<Event>, s: set<Event>, h: nat)
    reads p, s`idx
  {
    && h < |v| <= p.Length && (forall i :: 0 <= i < |v| ==> v[i] in s)
    && forall i :: 0 <= i < |v| && i != h ==> p[i] == v[i] && v[i].idx == i && v[i] != v[h]
  }

  ghost predicate Placed(p: array<Event?>, v: seq<Event>, s: set<Event>)
    reads p, s`idx
  {
    |v| <= p.Length && forall i :: 0 <= i < |v| ==> v[i] in s && p[i] == v[i] && v[i].idx == i
  }

  /** The capacity after room for `size` events is asked for. */
  function Capacity(a: nat, size: nat): (r: nat)
    ensures r >= size && r >= a
    ensures r > a ==> r >= 2 * a && (a == 0 ==> r >= 8) && (r > size ==> r == if a == 0 then 8 else 2 * a)
  {
    if a >= size then a
    else
      var twice := if a != 0 then a * 2 else 8;
      if twice < size then size else twice
  }

  /** No event of `s` is due before `e`. */
  ghost predicate DueFirst(e: Event, s: set<Event>)
    reads e`timeout, s`timeout
  {
    forall f :: f in s ==> Le(e.timeout, f.timeout)
  }

  class MinHeap {
    var p: array<Event?>
    var n: nat
    var a: nat

    ghost predicate Filled()
      reads this, p
    {
      n <= a == p.Length && forall i :: 0 <= i < n ==> p[i] != null
    }

    /** The events in array order. */
    ghost function Events(): (v: seq<Event>)
      requires Filled()
      reads this, p
    {
      p[..n]
    }

    ghost function Members(): set<Event>
      reads this, p
    {
      if Filled() then Elems(Events()) else {}
    }

    ghost predicate Valid()
      reads this, p, Members()
    {
      Filled() && Heap(Events(), Due(Members())) && Placed(p, Events(), Members())
    }

    /** The array is a binary heap: no event is due before the one at half its position. */
    lemma ParentFirst(i: nat)
      requires Valid() && 0 < i < n
      ensures p[(i - 1) / 2] != null && p[i] != null && Le(p[(i - 1) / 2].timeout, p[i].timeout) && p[i].idx == i
    {
      assert EdgeOk(Events(), Due(Members()), i);
    }

    /** What the shifts establish for `v` makes the first `n` positions a heap. */
    lemma ValidFrom(v: seq<Event>, s: set<Event>)
      requires n <= |v| && n <= a == p.Length && Placed(p, v, s) && Heap(v, Due(s))
      ensures Valid() && Events() == v[..n] && Members() <= s
    {
      assert Events() == v[..n];
      Shorter(v, n, Due(s), Due(Members()));
    }

    lemma PatchedHoled(c: seq<Event>, s: set<Event>, i: nat)
      requires Placed(p, c, s) && i < |c|
      ensures Distinct(c) && Holed(p, Patched(c, i), s, i)
    {
      forall j, k | 0 <= j < k < |c| ensures c[j] != c[k] {
        assert c[j].idx == j && c[k].idx == k;
      }
    }

    lemma GrownHoled(c: seq<Event>, e: Event, s: set<Event>)
      requires Placed(p, c, s) && |c| < p.Length && e !in c
      ensures Holed(p, c + [e], s + {e}, |c|)
    {}

    /** min_heap_ctor; a null array is an empty one here. */
    constructor ()
      ensures Valid() && Events() == [] && fresh(p)
    {
      p := new Event?[0];
      n, a := 0, 0;
    }

    /** `(p[i] = e)->min_heap_idx = i`: the hole is closed, or moves to where `e` was. */
    method Put(i: nat, e: Event, ghost v: seq<Event>, ghost s: set<Event>, ghost from: nat)
      requires Holed(p, v, s, i) && from < |v| && e == v[from]
      modifies p, s`idx
      ensures if from == i then Placed(p, v, s) else Holed(p, Swap(v, i, from), s, from)
    {
      p[i] := e;
      e.idx := i;
    }

    /** A round of either shift: the event at `from` moves into the hole. */
    method Move(hole: nat, from: nat, ghost v: seq<Event>, ghost s: set<Event>)
      requires Holed(p, v, s, hole) && hole != from < |v|
      modifies p, s`idx
      ensures Holed(p, Swap(v, hole, from), s, from) && Swap(v, hole, from)[from] == v[hole]
      ensures |Swap(v, hole, from)| == |v| && multiset(Swap(v, hole, from)) == multiset(v)
      ensures Due(s) == old(Due(s))
    {
      SwapSame(v, hole, from);
      Put(hole, p[from], v, s, from);
    }

    /** min_heap_shift_up_. */
    method ShiftUp(hole0: nat, e: Event, ghost v0: seq<Event>, ghost s: set<Event>) returns (ghost v: seq<Event>)
      requires Holed(p, v0, s, hole0) && v0[hole0] == e && HeapBelow(v0, Due(s), hole0)
      modifies p, s`idx
      ensures |v| == |v0| && Heap(v, Due(s)) && multiset(v) == multiset(v0) && Placed(p, v, s)
      ensures Heap(v0, Due(s)) ==> v == v0
    {
      v := v0;
      ghost var t := Due(s);
      var hole: nat := hole0;
      var parent: nat := if hole == 0 then 0 else (hole - 1) / 2;  // not read when the hole is at the top
      ghost var stays := Heap(v0, t);
      if stays { Hangs(v0, t, hole0); }
      assert e in s && t[e] == e.timeout;
      while hole > 0 && Greater(p[parent].timeout, e.timeout)
        invariant Holed(p, v, s, hole) && |v| == |v0| && v[hole] == e && t == Due(s)
        invariant HeapBelow(v, t, hole) && multiset(v) == multiset(v0)
        invariant hole > 0 ==> parent == Up(hole)
        invariant stays ==> v == v0 && (hole > 0 ==> NotLater(v, t, Up(hole), hole))
        decreases hole
      {
        assert !NotLater(v, t, Up(hole), hole);
        StepUp(v, t, hole);
        Move(hole, parent, v, s);
        v := Swap(v, hole, parent);
        hole := parent;
        parent := if hole == 0 then 0 else (hole - 1) / 2;
      }
      Settled(v, t, hole);
      Put(hole, e, v, s, hole);
    }

    /** The choice between the two children, of which the second may not exist. */
    method Earlier(minChild: nat, ghost hole: nat, ghost v: seq<Event>, ghost s: set<Event>) returns (c: nat)
      requires Holed(p, v, s, hole) && |v| == n && HeapAround(v, Due(s), hole)
      requires minChild == 2 * (hole + 1) <= n
      ensures 0 < c < n && Up(c) == hole
      ensures forall i :: 0 < i < |v| && Up(i) == hole ==> NotLater(v, Due(s), c, i)
    {
      c := minChild;
      if minChild == n || Greater(p[minChild].timeout, p[minChild - 1].timeout) {
        c := minChild - 1;
      }
      Children(v, Due(s), hole, c);
    }

    /** min_heap_shift_down_, which ends in a shift up.  When the erased event was the last one
        the hole is just behind the heap and the loop is not entered. */
    method ShiftDown(hole0: nat, e: Event, ghost v0: seq<Event>, ghost s: set<Event>) returns (ghost v: seq<Event>)
      requires Holed(p, v0, s, hole0) && v0[hole0] == e
      requires if hole0 == n then |v0| == n + 1 && HeapBelow(v0, Due(s), hole0)
               else |v0| == n && HeapAround(v0, Due(s), hole0)
      modifies p, s`idx
      ensures |v| == |v0| && Heap(v, Due(s)) && multiset(v) == multiset(v0) && Placed(p, v, s)
      ensures hole0 == n && Heap(v0, Due(s)) ==> v == v0
    {
      v := v0;
      ghost var t := Due(s);
      var hole: nat := hole0;
      var minChild: nat := 2 * (hole + 1);
      while minChild <= n
        invariant Holed(p, v, s, hole) && |v| == |v0| && v[hole] == e && hole <= n && t == Due(s)
        invariant if hole == n then HeapBelow(v, t, hole) && v == v0 else |v| == n && HeapAround(v, t, hole)
        invariant multiset(v) == multiset(v0)
        invariant minChild == 2 * (hole + 1)
        invariant hole0 == n ==> hole == n
        decreases n - hole
      {
        minChild := Earlier(minChild, hole, v, s);
        if !Greater(e.timeout, p[minChild].timeout) {
          ChildrenLater(v, t, hole, minChild);
          break;
        }
        StepDown(v, t, hole, minChild);
        Move(hole, minChild, v, s);
        v := Swap(v, hole, minChild);
        hole := minChild;
        minChild := 2 * (hole + 1);
      }
      NoChildren(v, t, hole);
      v := ShiftUp(hole, e, v, s);
    }

    /** min_heap_reserve, for a realloc that succeeds. */
    method Reserve(size: nat)
      requires Valid()
      modifies this
      ensures Valid() && Events() == old(Events()) && n == old(n) && Members() == old(Members())
      ensures a == Capacity(old(a), size) && (p == old(p) || fresh(p))
    {
      ghost var v, s := Events(), Members();
      if a < size {
        var cap := Capacity(a, size);
        var q := new Event?[cap](i => null);
        forall i | 0 <= i < n {
          q[i] := p[i];
        }
        p, a := q, cap;
      }
      ValidFrom(v, s);
      assert v[..n] == v && Members() == Elems(v);
    }

    /** min_heap_push, for an event that is not in the heap. */
    method Push(e: Event)
      requires Valid() && e !in Members()
      modifies this, p, Members()`idx, e`idx
      ensures Valid() && multiset(Events()) == multiset(old(Events())) + multiset{e}
      ensures p == old(p) || fresh(p)
    {
      ghost var c, s := Events(), Members();
      Reserve(n + 1);
      n := n + 1;
      Append(e, c, s);
    }

    /** The shift up that min_heap_push makes, with `n` already incremented. */
    method Append(e: Event, ghost c: seq<Event>, ghost s: set<Event>)
      requires n == |c| + 1 <= a == p.Length && e !in c
      requires Placed(p, c, s) && Heap(c, Due(s))
      modifies p, s`idx, e`idx
      ensures Valid() && multiset(Events()) == multiset(c) + multiset{e}
    {
      Grown(c, e, Due(s), Due(s + {e}));
      GrownHoled(c, e, s);
      ghost var v := ShiftUp(n - 1, e, c + [e], s + {e});
      ValidFrom(v, s + {e});
      assert v[..n] == v;
    }

    /** min_heap_top. */
    method Top() returns (e: Event?)
      requires Valid()
      ensures e == null <==> n == 0
      ensures e != null ==> e in Members() && DueFirst(e, Members())
    {
      if n == 0 {
        return null;
      }
      FirstDue();
      return p[0];
    }

    lemma FirstDue()
      requires Valid() && n > 0
      ensures p[0] in Members() && DueFirst(p[0], Members())
    {
      forall f | f in Members() ensures Le(p[0].timeout, f.timeout) {
        var i :| 0 <= i < n && Events()[i] == f;
        TopIsMin(Events(), Due(Members()), i);
      }
    }

    /** The call that min_heap_pop and min_heap_erase make, with `n` already decremented: the
        last event of `c` goes to the place of the one at `i`. */
    method Refill(i: nat, last: Event, ghost c: seq<Event>, ghost s: set<Event>)
      requires i < |c| == n + 1 <= a == p.Length && last == c[n]
      requires Placed(p, c, s) && Heap(c, Due(s))
      modifies p, s`idx
      ensures Valid() && Members() <= s && c[i] !in Members()
      ensures multiset(Events()) == multiset(c) - multiset{c[i]}
    {
      PatchedAround(c, Due(s), i);
      PatchedHoled(c, s, i);
      ghost var v := ShiftDown(i, last, Patched(c, i), s);
      ValidFrom(v, s);
      RefillContents(c, i, v);
    }

    /** An event that has left the heap is marked as in no heap. */
    method Mark(e: Event)
      requires Valid() && e !in Members()
      modifies e`idx
      ensures Valid() && Events() == old(Events()) && e.idx == -1
    {
      ghost var v, s := Events(), Members();
      e.idx := -1;
      ValidFrom(v, s);
      assert v[..n] == v;
    }

    /** The event at `i` leaves, the last event fills its place. */
    method TakeOut(e: Event, i: nat)
      requires Valid() && i < n && p[i] == e
      modifies this, p, Members()`idx
      ensures Valid() && e.idx == -1
      ensures multiset(Events()) == multiset(old(Events())) - multiset{e}
      ensures p == old(p)
    {
      ghost var c, s := Events(), Members();
      n := n - 1;
      Refill(i, p[n], c, s);
      Mark(e);
    }

    /** min_heap_pop: the event due first leaves. */
    method Pop() returns (r: Event?)
      requires Valid()
      modifies this, p, Members()`idx
      ensures Valid()
      ensures r == null <==> old(n) == 0
      ensures r == null ==> Events() == old(Events())
      ensures r != null ==>
        && r in old(Members()) && r.idx == -1
        && multiset(Events()) == multiset(old(Events())) - multiset{r}
        && DueFirst(r, old(Members()))
      ensures p == old(p)
    {
      if n == 0 {
        return null;
      }
      FirstDue();
      var e := p[0];
      TakeOut(e, 0);
      return e;
    }

    /** min_heap_erase, of an event of this heap or of no heap. */
    method Erase(e: Event) returns (r: int)
      requires Valid() && (e.idx == -1 || e in Members())
      modifies this, p, Members()`idx, e`idx
      ensures Valid() && e.idx == -1
      ensures r == -1 <==> old(e.idx) == -1
      ensures r == -1 ==> Events() == old(Events())
      ensures r != -1 ==> r == 0 && multiset(Events()) == multiset(old(Events())) - multiset{e}
      ensures p == old(p)
    {
      if e.idx == -1 {
        return -1;
      }
      TakeOut(e, e.idx);
      return 0;
    }
  }

  lemma InElems(v: seq<Event>, e: Event)
    ensures e in multiset(v) <==> e in Elems(v)
  {}

  lemma OnlyElem(v: seq<Event>, e: Event)
    requires multiset(v) == multiset{e}
    ensures Elems(v) == {e} && |v| == 1
  {
    assert |multiset(v)| == 1;
    InElems(v, e);
    forall f | f in v ensures f == e { InElems(v, f); }
  }

  lemma TwoElems(v: seq<Event>, e: Event, f: Event)
    requires multiset(v) == multiset{e, f}
    ensures Elems(v) == {e, f} && |v| == 2
  {
    assert |multiset(v)| == 2;
    InElems(v, e);
    InElems(v, f);
    forall g | g in v ensures g == e || g == f { InElems(v, g); }
  }

  /** A run: two timers go in ... */
  method PushTwo(x: Event, y: Event) returns (h: MinHeap)
    requires x != y
    modifies x`idx, y`idx
    ensures fresh(h) && fresh(h.p) && h.Valid() && multiset(h.Events()) == multiset{x, y}
  {
    h := new MinHeap();
    h.Push(x);
    OnlyElem(h.Events(), x);
    h.Push(y);
  }

  method PopLast(h: MinHeap, ghost e: Event) returns (r: Event)
    requires h.Valid() && multiset(h.Events()) == multiset{e}
    modifies h, h.p, e`idx
    ensures r == e && h.Valid() && h.Events() == [] && h.p == old(h.p)
  {
    OnlyElem(h.Events(), e);
    var only := h.Pop();
    r := only;
    assert |multiset(h.Events())| == 0;
  }

  lemma LeftOver(x: Event, y: Event, first: Event) returns (other: Event)
    requires x != y && first in {x, y}
    ensures other in {x, y} && multiset{x, y} - multiset{first} == multiset{other}
    ensures multiset{first, other} == multiset{x, y}
  {
    other := if first == x then y else x;
  }

  method PopEarlier(h: MinHeap, x: Event, y: Event) returns (first: Event, ghost other: Event)
    requires h.Valid() && x != y && multiset(h.Events()) == multiset{x, y}
    modifies h, h.p, x`idx, y`idx
    ensures h.Valid() && multiset(h.Events()) == multiset{other} && h.p == old(h.p)
    ensures other in {x, y} && multiset{first, other} == multiset{x, y} && Le(first.timeout, other.timeout)
  {
    TwoElems(h.Events(), x, y);
    assert h.Members() == {x, y};
    var r := h.Pop();
    first := r;
    other := LeftOver(x, y, first);
  }

  /** ... and come out in the order in which they are due. */
  method PopTwo(h: MinHeap, x: Event, y: Event) returns (first: Event, second: Event)
    requires h.Valid() && x != y && multiset(h.Events()) == multiset{x, y}
    modifies h, h.p, x`idx, y`idx
    ensures multiset{first, second} == multiset{x, y} && Le(first.timeout, second.timeout)
    ensures h.Valid() && h.Events() == []
  {
    ghost var other;
    first, other := PopEarlier(h, x, y);
    second := PopLast(h, other);
  }
}
