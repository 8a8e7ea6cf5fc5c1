/**
  The circular doubly linked lists of src/core/shs_queue.h, relinked in place.

  `Ring(h, s)` says that the links starting at the head `h` run through the members of
  `s` in order and back.  Each macro is proved to compute the list operation that the
  allocator's model uses.
*/
module IntrusiveQueue {
  import opened Lists

  /** queue_t: embedded in a record, or the head of a list. */
  class Link {
    var prev: Link?
    var next: Link?

    constructor ()
      ensures prev == null && next == null
    {
      prev, next := null, null;
    }
  }

  /** The place `i` of the ring: the head lies before the first and after the last member. */
  ghost function Place(h: Link, s: seq<Link>, i: int): Link {
    if 0 <= i < |s| then s[i] else h
  }

  ghost predicate Joined(a: Link, b: Link)
    reads a, b
  {
    a.next == b && b.prev == a
  }

  ghost predicate Ring(h: Link, s: seq<Link>)
    reads h, s
  {
    && Unique(s) && (forall i :: 0 <= i < |s| ==> s[i] != h)
    && forall i :: 0 <= i <= |s| ==> Joined(Place(h, s, i - 1), Place(h, s, i))
  }

  /** queue_init. */
  method Init(h: Link)
    modifies h
    ensures Ring(h, [])
  {
    h.prev := h;
    h.next := h;
  }

  /** queue_empty. */
  method IsEmpty(h: Link, ghost s: seq<Link>) returns (b: bool)
    requires Ring(h, s)
    ensures b <==> s == []
  {
    assert Joined(Place(h, s, |s| - 1), Place(h, s, |s|));
    b := h == h.prev;
  }

  /** queue_head and queue_tail: the head itself for an empty list. */
  method HeadAndTail(h: Link, ghost s: seq<Link>) returns (first: Link?, last: Link?)
    requires Ring(h, s)
    ensures if s == [] then first == last == h else first == s[0] && last == s[|s| - 1]
  {
    assert Joined(Place(h, s, -1), Place(h, s, 0)) && Joined(Place(h, s, |s| - 1), Place(h, s, |s|));
    first, last := h.next, h.prev;
  }

  /** queue_next and queue_prev of a member. */
  method NextAndPrevious(x: Link, ghost h: Link, ghost s: seq<Link>) returns (next: Link?, previous: Link?)
    requires Ring(h, s) && x in s
    ensures var i := IndexOf(s, x);
      && next == (if i + 1 < |s| then s[i + 1] else h) && previous == (if i > 0 then s[i - 1] else h)
  {
    ghost var k: int := IndexOf(s, x);
    assert Joined(Place(h, s, k - 1), Place(h, s, k)) && Joined(Place(h, s, k), Place(h, s, k + 1));
    next, previous := x.next, x.prev;
  }

  /** The list with `x` put at position `k`. */
  ghost function Inserted(s: seq<Link>, k: nat, x: Link): (r: seq<Link>)
    requires k <= |s|
  {
    s[..k] + [x] + s[k..]
  }

  lemma InsertedFacts(h: Link, s: seq<Link>, k: nat, x: Link)
    requires k <= |s| && Unique(s) && x !in s && x != h && forall i :: 0 <= i < |s| ==> s[i] != h
    ensures var r := Inserted(s, k, x);
      && |r| == |s| + 1 && Unique(r) && (forall i :: 0 <= i < |r| ==> r[i] != h)
      && forall i: int {:trigger Place(h, r, i)} :: Place(h, r, i) == if i < k then Place(h, s, i) else if i == k then x else Place(h, s, i - 1)
  {
    assert forall i :: 0 <= i < |s| ==> s[i] != x;
    var r := Inserted(s, k, x);
    assert forall i :: 0 <= i < |r| ==> r[i] == if i < k then s[i] else if i == k then x else s[i - 1];
    forall i: int
      ensures Place(h, r, i) == if i < k then Place(h, s, i) else if i == k then x else Place(h, s, i - 1)
    {
    }
  }

  /** queue_insert_head. */
  method InsertHead(h: Link, x: Link, ghost s: seq<Link>)
    requires Ring(h, s) && x != h && x !in s
    modifies h, s, x
    ensures Ring(h, [x] + s)
  {
    ghost var k: int := 0;
    InsertedFacts(h, s, k, x);
    ghost var r := Inserted(s, k, x);
    assert r == [x] + s;
    assert Joined(Place(h, s, k - 1), Place(h, s, k));
    hide Inserted, Unique;
    x.next := h.next;
    x.next.prev := x;
    x.prev := h;
    h.next := x;
    forall i | 0 <= i <= |r|
      ensures Joined(Place(h, r, i - 1), Place(h, r, i))
    {
      assert i != k && i != k + 1 ==> var j := if i < k then i else i - 1;
        Place(h, r, i - 1) == Place(h, s, j - 1) && Place(h, r, i) == Place(h, s, j);
    }
  }

  /** queue_insert_tail. */
  method InsertTail(h: Link, x: Link, ghost s: seq<Link>)
    requires Ring(h, s) && x != h && x !in s
    modifies h, s, x
    ensures Ring(h, s + [x])
  {
    ghost var k: int := |s|;
    InsertedFacts(h, s, k, x);
    ghost var r := Inserted(s, k, x);
    assert r == s + [x];
    assert Joined(Place(h, s, k - 1), Place(h, s, k));
    hide Inserted, Unique;
    x.prev := h.prev;
    x.prev.next := x;
    x.next := h;
    h.prev := x;
    forall i | 0 <= i <= |r|
      ensures Joined(Place(h, r, i - 1), Place(h, r, i))
    {
      assert i != k && i != k + 1 ==> var j := if i < k then i else i - 1;
        Place(h, r, i - 1) == Place(h, s, j - 1) && Place(h, r, i) == Place(h, s, j);
    }
  }

  /** queue_insert_before. */
  method PutBefore(elm: Link, x: Link, ghost h: Link, ghost s: seq<Link>)
    requires Ring(h, s) && elm in s && x != h && x !in s
    modifies h, s, x
    ensures Ring(h, InsertBefore(s, elm, x))
  {
    ghost var k: int := IndexOf(s, elm);
    InsertedFacts(h, s, k, x);
    ghost var r := Inserted(s, k, x);
    assert r == InsertBefore(s, elm, x) && s[k] == elm;
    assert Joined(Place(h, s, k - 1), Place(h, s, k));
    hide Inserted, InsertBefore, IndexOf, Unique;
    x.prev := elm.prev;
    x.next := elm;
    elm.prev.next := x;
    elm.prev := x;
    forall i | 0 <= i <= |r|
      ensures Joined(Place(h, r, i - 1), Place(h, r, i))
    {
      assert i != k && i != k + 1 ==> var j := if i < k then i else i - 1;
        Place(h, r, i - 1) == Place(h, s, j - 1) && Place(h, r, i) == Place(h, s, j);
    }
  }

  /** queue_insert_after. */
  method PutAfter(elm: Link, x: Link, ghost h: Link, ghost s: seq<Link>)
    requires Ring(h, s) && elm in s && x != h && x !in s
    modifies h, s, x
    ensures Ring(h, InsertAfter(s, elm, x))
  {
    ghost var k: int := IndexOf(s, elm) + 1;
    InsertedFacts(h, s, k, x);
    ghost var r := Inserted(s, k, x);
    assert r == InsertAfter(s, elm, x) && s[k - 1] == elm;
    assert Joined(Place(h, s, k - 1), Place(h, s, k));
    hide Inserted, InsertAfter, IndexOf, Unique;
    x.next := elm.next;
    x.prev := elm;
    elm.next.prev := x;
    elm.next := x;
    forall i | 0 <= i <= |r|
      ensures Joined(Place(h, r, i - 1), Place(h, r, i))
    {
      assert i != k && i != k + 1 ==> var j := if i < k then i else i - 1;
        Place(h, r, i - 1) == Place(h, s, j - 1) && Place(h, r, i) == Place(h, s, j);
    }
  }

  lemma RemovedFacts(h: Link, s: seq<Link>, x: Link)
    requires x in s && Unique(s) && forall i :: 0 <= i < |s| ==> s[i] != h
    ensures var r, k := Remove(s, x), IndexOf(s, x);
      && |r| == |s| - 1 && Unique(r) && (forall i :: 0 <= i < |r| ==> r[i] != h && r[i] != x)
      && forall i: int {:trigger Place(h, r, i)} :: Place(h, r, i) == if i < k then Place(h, s, i) else Place(h, s, i + 1)
  {
    var r, k := Remove(s, x), IndexOf(s, x);
    assert forall i :: 0 <= i < |r| ==> r[i] == if i < k then s[i] else s[i + 1];
    forall i: int
      ensures Place(h, r, i) == if i < k then Place(h, s, i) else Place(h, s, i + 1)
    {
    }
  }

  /** queue_remove. */
  method Unlink(x: Link, ghost h: Link, ghost s: seq<Link>)
    requires Ring(h, s) && x in s
    modifies h, s
    ensures Ring(h, Remove(s, x)) && x.prev == x.next == null
  {
    ghost var r, k: int := Remove(s, x), IndexOf(s, x);
    RemovedFacts(h, s, x);
    assert s[k] == x;
    assert Joined(Place(h, s, k - 1), Place(h, s, k)) && Joined(Place(h, s, k), Place(h, s, k + 1));
    hide Remove, IndexOf, Unique;
    x.next.prev := x.prev;
    x.prev.next := x.next;
    x.prev, x.next := null, null;
    forall i | 0 <= i <= |r|
      ensures Joined(Place(h, r, i - 1), Place(h, r, i))
    {
      assert i != k ==> var j := if i < k then i else i + 1;
        Place(h, r, i - 1) == Place(h, s, j - 1) && Place(h, r, i) == Place(h, s, j);
    }
  }

  /** The copy of a block, links included, stands in for the block while that is put before it, and leaves the list. */
  method StandIn(st: Link, stNew: Link, ghost h: Link, ghost s: seq<Link>)
    requires Ring(h, s) && st in s && stNew != h && stNew !in s
    modifies h, s, stNew
    ensures Ring(h, s) && stNew.prev == stNew.next == null
  {
    ghost var k: int := IndexOf(s, st);
    assert s[k] == st;
    assert Joined(Place(h, s, k - 1), Place(h, s, k)) && Joined(Place(h, s, k), Place(h, s, k + 1));
    hide Unique, IndexOf, Place;
    stNew.prev, stNew.next := st.prev, st.next;
    // queue_insert_before with the copy as the element of the list
    st.prev := stNew.prev;
    st.next := stNew;
    stNew.prev.next := st;
    stNew.prev := st;
    // queue_remove of the copy
    stNew.next.prev := stNew.prev;
    stNew.prev.next := stNew.next;
    stNew.prev, stNew.next := null, null;
    assert forall x: Link :: x == h || x in s ==> x.prev == old(x.prev) && x.next == old(x.next);
  }

  /** The relinking when a block is split (src/core/shs_shmem.cc:517-527): the new block ends up behind the old one. */
  method SplitOff(st: Link, stNew: Link, ghost h: Link, ghost s: seq<Link>)
    requires Ring(h, s) && st in s && stNew != h && stNew !in s
    modifies h, s, stNew
    ensures Ring(h, InsertAfter(s, st, stNew))
  {
    StandIn(st, stNew, h, s);
    PutAfter(st, stNew, h, s);
  }
}
