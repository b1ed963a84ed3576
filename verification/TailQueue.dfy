/** The tail queue of `queue.h`.  An element points back to the pointer that leads to it, and the
    head to the last such pointer; `Slot` names these pointers-to-pointers. */
module TailQueue {

  /** The address of the head's `tqh_first`, or of an element's `tqe_next`. */
  datatype Slot = HeadFirst | NextOf(elem: Elem)

  class Elem {
    var next: Elem?
    var prev: Slot

    constructor ()
    {
      next, prev := null, HeadFirst;
    }
  }

  function ElemAt(s: seq<Elem>, i: nat): Elem? {
    if i < |s| then s[i] else null
  }

  /** The pointer that leads to position `i`. */
  function SlotTo(s: seq<Elem>, i: nat): Slot
    requires i <= |s|
  {
    if i == 0 then HeadFirst else NextOf(s[i - 1])
  }

  ghost predicate Distinct(s: seq<Elem>) {
    forall i, j :: 0 <= i < j < |s| ==> s[i] != s[j]
  }

  lemma DistinctInsert(a: seq<Elem>, e: Elem, b: seq<Elem>)
    requires Distinct(a + b) && e !in a + b
    ensures Distinct(a + [e] + b)
  {
    var s, s' := a + b, a + [e] + b;
    forall i, j | 0 <= i < j < |s'| ensures s'[i] != s'[j] {
      assert i < |a| ==> s'[i] == s[i];
      assert i > |a| ==> s'[i] == s[i - 1];
      assert j < |a| ==> s'[j] == s[j];
      assert j > |a| ==> s'[j] == s[j - 1];
    }
  }

  /** Where the neighbours are after an insertion at position `i`. */
  lemma Spread(c: seq<Elem>, i: nat, e: Elem)
    requires i <= |c|
    ensures var s := c[..i] + [e] + c[i..];
      && |s| == |c| + 1 && s[i] == e
      && (forall j :: 0 <= j < i ==> s[j] == c[j]) && (forall j :: i < j < |s| ==> s[j] == c[j - 1])
      && (forall j :: 0 <= j < i ==> ElemAt(s, j) == ElemAt(c, j)) && (forall j :: i < j ==> ElemAt(s, j) == ElemAt(c, j - 1))
      && (forall j :: 0 <= j <= i ==> SlotTo(s, j) == SlotTo(c, j))
      && (forall j :: i + 1 < j <= |s| ==> SlotTo(s, j) == SlotTo(c, j - 1))
      && (Distinct(c) && e !in c ==> Distinct(s))
  {
    assert c[..i] + c[i..] == c;
    if Distinct(c) && e !in c { DistinctInsert(c[..i], e, c[i..]); }
  }

  ghost predicate LinkOk(s: seq<Elem>, i: nat)
    requires i < |s|
    reads s[i]
  {
    s[i].next == ElemAt(s, i + 1) && s[i].prev == SlotTo(s, i)
  }

  class Head {
    var first: Elem?
    var last: Slot
    ghost var elems: seq<Elem>

    ghost predicate Valid()
      reads this, elems
    {
      && Distinct(elems)
      && first == ElemAt(elems, 0) && last == SlotTo(elems, |elems|)
      && forall i {:trigger LinkOk(elems, i)} :: 0 <= i < |elems| ==> LinkOk(elems, i)
    }

    /** TAILQ_INIT. */
    constructor ()
      ensures Valid() && elems == []
    {
      first, last, elems := null, HeadFirst, [];
    }

    /** `*slot`. */
    function Load(slot: Slot): Elem?
      reads this, match slot case HeadFirst => {} case NextOf(e) => {e}
    {
      match slot
      case HeadFirst => first
      case NextOf(e) => e.next
    }

    /** `*slot = to`. */
    method Store(slot: Slot, to: Elem?)
      modifies `first, match slot case HeadFirst => {} case NextOf(e) => {e}
      ensures slot.HeadFirst? ==> first == to
      ensures slot.NextOf? ==> first == old(first) && slot.elem.next == to && slot.elem.prev == old(slot.elem.prev)
    {
      match slot {
        case HeadFirst => first := to;
        case NextOf(e) => e.next := to;
      }
    }

    /** The field behind the pointer, once the slot is taken for a head: a queue entry and a head
        have the same layout. */
    function Behind(slot: Slot): Slot
      reads this, match slot case HeadFirst => {} case NextOf(e) => {e}
    {
      match slot
      case HeadFirst => last
      case NextOf(e) => e.prev
    }

    /** TAILQ_LAST. */
    method Last() returns (r: Elem?)
      requires Valid()
      ensures r == if elems == [] then null else elems[|elems| - 1]
    {
      if elems != [] {
        assert LinkOk(elems, |elems| - 1);
        if |elems| > 1 { assert LinkOk(elems, |elems| - 2); }
      }
      r := Load(Behind(last));
    }

    /** TAILQ_PREV. */
    method Prev(e: Elem, ghost i: nat) returns (r: Elem?)
      requires Valid() && i < |elems| && elems[i] == e
      ensures r == if i == 0 then null else elems[i - 1]
    {
      assert LinkOk(elems, i) && LinkOk(elems, |elems| - 1);
      if i > 0 { assert LinkOk(elems, i - 1); }
      if i > 1 { assert LinkOk(elems, i - 2); }
      r := Load(Behind(e.prev));
    }

    /** TAILQ_INSERT_HEAD. */
    method InsertHead(e: Elem)
      requires Valid() && e !in elems
      modifies this, elems, e
      ensures Valid() && elems == [e] + old(elems)
    {
      ghost var c := elems;
      ghost var s := c[..0] + [e] + c[0..];
      Spread(c, 0, e);
      if c != [] { assert LinkOk(c, 0); }
      e.next := first;
      if e.next != null {
        first.prev := NextOf(e);
      } else {
        last := NextOf(e);
      }
      first := e;
      e.prev := HeadFirst;
      elems := s;
      forall j | 0 <= j < |s| ensures LinkOk(s, j) {
        if j > 0 { assert old(LinkOk(c, j - 1)); }
      }
    }

    /** TAILQ_INSERT_TAIL. */
    method InsertTail(e: Elem)
      requires Valid() && e !in elems
      modifies this, elems, e
      ensures Valid() && elems == old(elems) + [e]
    {
      ghost var c := elems;
      ghost var s := c[..|c|] + [e] + c[|c|..];
      Spread(c, |c|, e);
      if c != [] { assert LinkOk(c, |c| - 1); }
      e.next := null;
      e.prev := last;
      Store(last, e);
      last := NextOf(e);
      elems := s;
      forall j | 0 <= j < |s| ensures LinkOk(s, j) {
        if j < |c| { assert old(LinkOk(c, j)); }
      }
    }

    /** TAILQ_INSERT_AFTER. */
    method InsertAfter(at: Elem, e: Elem, ghost i: nat)
      requires Valid() && i < |elems| && elems[i] == at && e !in elems
      modifies this, elems, e
      ensures Valid() && elems == old(elems)[..i + 1] + [e] + old(elems)[i + 1..]
    {
      ghost var c := elems;
      ghost var s := c[..i + 1] + [e] + c[i + 1..];
      Spread(c, i + 1, e);
      assert LinkOk(c, i);
      e.next := at.next;
      if e.next != null {
        assert LinkOk(c, i + 1);
        e.next.prev := NextOf(e);
      } else {
        last := NextOf(e);
      }
      at.next := e;
      e.prev := NextOf(at);
      elems := s;
      forall j | 0 <= j < |s| ensures LinkOk(s, j) {
        if j <= i {
          assert old(LinkOk(c, j));
        } else if j > i + 1 {
          assert old(LinkOk(c, j - 1));
        }
      }
    }

    /** TAILQ_INSERT_BEFORE, which does without the head. */
    method InsertBefore(at: Elem, e: Elem, ghost i: nat)
      requires Valid() && i < |elems| && elems[i] == at && e !in elems
      modifies this, elems, e
      ensures Valid() && elems == old(elems)[..i] + [e] + old(elems)[i..] && last == old(last)
    {
      ghost var c := elems;
      ghost var s := c[..i] + [e] + c[i..];
      Spread(c, i, e);
      assert LinkOk(c, i);
      if i > 0 { assert LinkOk(c, i - 1); }
      e.prev := at.prev;
      e.next := at;
      Store(at.prev, e);
      at.prev := NextOf(e);
      assert forall j :: 0 <= j < i - 1 || i < j < |c| ==> c[j].next == old(c[j].next) && c[j].prev == old(c[j].prev);
      elems := s;
      forall j | 0 <= j < |s| ensures LinkOk(s, j) {
        if j < i - 1 || j > i + 1 {
          assert old(LinkOk(c, if j < i then j else j - 1));
        }
      }
    }

    /** TAILQ_REMOVE. */
    method Remove(e: Elem, ghost i: nat)
      requires Valid() && i < |elems| && elems[i] == e
      modifies this, elems
      ensures Valid() && elems == old(elems)[..i] + old(elems)[i + 1..]
      ensures e.next == old(e.next) && e.prev == old(e.prev)
    {
      ghost var s := elems[..i] + elems[i + 1..];
      assert LinkOk(elems, i);
      if e.next != null {
        assert LinkOk(elems, i + 1);
        e.next.prev := e.prev;
      } else {
        last := e.prev;
      }
      Store(e.prev, e.next);
      elems := s;
      forall j | 0 <= j < |elems| ensures LinkOk(elems, j) {
        if j < i { assert old(LinkOk(elems, j)); }
        if j >= i { assert old(LinkOk(elems, j + 1)); }
      }
    }

    /** TAILQ_REPLACE. */
    method Replace(e: Elem, e2: Elem, ghost i: nat)
      requires Valid() && i < |elems| && elems[i] == e && e2 !in elems
      modifies this, elems, e2
      ensures Valid() && elems == old(elems)[i := e2]
      ensures e.next == old(e.next) && e.prev == old(e.prev)
    {
      ghost var s := elems[i := e2];
      assert LinkOk(elems, i);
      e2.next := e.next;
      if e2.next != null {
        assert LinkOk(elems, i + 1);
        e2.next.prev := NextOf(e2);
      } else {
        last := NextOf(e2);
      }
      e2.prev := e.prev;
      Store(e2.prev, e2);
      elems := s;
      forall j | 0 <= j < |elems| ensures LinkOk(elems, j) {
        assert old(LinkOk(elems, j));
      }
    }

    /** TAILQ_FOREACH, collecting what it visits. */
    method Foreach() returns (visited: seq<Elem>)
      requires Valid()
      ensures visited == elems
    {
      visited := [];
      var e := first;
      while e != null
        invariant |visited| <= |elems| && visited == elems[..|visited|] && e == ElemAt(elems, |visited|)
        decreases |elems| - |visited|
      {
        assert LinkOk(elems, |visited|);
        visited := visited + [e];
        e := e.next;
      }
    }

    /** TAILQ_FOREACH_REVERSE. */
    method ForeachReverse() returns (visited: seq<Elem>)
      requires Valid()
      ensures |visited| == |elems| && forall j :: 0 <= j < |elems| ==> visited[j] == elems[|elems| - 1 - j]
    {
      visited := [];
      ghost var i: nat := |elems|;
      var e := Last();
      while e != null
        invariant i <= |elems| && |visited| == |elems| - i
        invariant e == if i == 0 then null else elems[i - 1]
        invariant forall j :: 0 <= j < |visited| ==> visited[j] == elems[|elems| - 1 - j]
        decreases i
      {
        visited := visited + [e];
        i := i - 1;
        e := Prev(e, i);
      }
    }
  }
}
