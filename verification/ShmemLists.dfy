/**
  The class lists of src/core/shs_shmem.cc and the sorted list of the classes in use.
*/
module ShmemLists {
  import opened Basics
  import opened Lists
  import opened SizeClasses
  import opened ShmemBlocks

  /** The list a free block belongs to: the last one takes every larger block. */
  ghost function ListFor(lv: Levels, size: nat): (c: nat)
    requires lv.Ok()
    ensures c < lv.count
  {
    var c := InsertClass(lv, size);
    if c < lv.count then c else lv.count - 1
  }

  /** The block at `a` is to be found in list `c`; blocks in `loose` are in no list for the moment. */
  ghost predicate Listed(h: Headers, lv: Levels, loose: set<int>, a: int, c: nat)
    requires lv.Ok()
  {
    a in h && !h[a].alloc && a !in loose && ListFor(lv, h[a].size) == c
  }

  /** Each free block is in exactly the list its size maps to, and knows it. */
  ghost predicate Filed(h: Headers, free: seq<seq<int>>, lv: Levels, loose: set<int>)
    requires lv.Ok()
  {
    && |free| == lv.count
    && (forall c, a :: 0 <= c < |free| ==> (a in free[c] <==> Listed(h, lv, loose, a, c)))
    && (forall c :: 0 <= c < |free| ==> Unique(free[c]))
    && (forall a :: a in h && !h[a].alloc && a !in loose ==> h[a].home == Some(ListFor(lv, h[a].size)))
  }

  /** `available` lists the non-empty classes in increasing order, and `top` is the last of them. */
  ghost predicate Ranked(free: seq<seq<int>>, available: seq<nat>, top: nat) {
    && (forall i, j :: 0 <= i < j < |available| ==> available[i] < available[j])
    && (forall c :: c in available <==> 0 <= c < |free| && free[c] != [])
    && top == if available == [] then |free| else available[|available| - 1]
  }

  lemma TopIsLargest(free: seq<seq<int>>, available: seq<nat>, top: nat, c: nat)
    requires Ranked(free, available, top) && c < |free| && free[c] != []
    ensures c <= top < |free| && free[top] != [] && top in available
  {
    assert c in available;
    assert available[|available| - 1] in available;
  }

  lemma RankInserted(free: seq<seq<int>>, free': seq<seq<int>>, available: seq<nat>, top: nat, c: nat, k: nat)
    requires Ranked(free, available, top) && c < |free| == |free'| && free[c] == [] && free'[c] != []
    requires forall d :: 0 <= d < |free| && d != c ==> free'[d] == free[d]
    requires k <= |available| && (forall i :: 0 <= i < k ==> available[i] < c)
    requires forall i :: k <= i < |available| ==> c < available[i]
    ensures Ranked(free', available[..k] + [c] + available[k..], if k == |available| then c else top)
  {
    var r := available[..k] + [c] + available[k..];
    forall d
      ensures d in r <==> 0 <= d < |free'| && free'[d] != []
    {
      assert d in r <==> d in available || d == c by {
        assert available == available[..k] + available[k..];
      }
    }
  }

  lemma RankRemoved(free: seq<seq<int>>, free': seq<seq<int>>, available: seq<nat>, top: nat, c: nat)
    requires Ranked(free, available, top) && c < |free| == |free'| && free[c] != [] && free'[c] == []
    requires forall d :: 0 <= d < |free| && d != c ==> free'[d] == free[d]
    ensures c in available
    ensures var k := IndexOf(available, c);
      Ranked(free', Remove(available, c), if c != top then top else if k == 0 then |free| else available[k - 1])
  {
    assert c in available;
    assert Unique(available);
    RemoveMembers(available, c);
  }

  /** The classes in use stay the same. */
  lemma RankKept(free: seq<seq<int>>, free': seq<seq<int>>, available: seq<nat>, top: nat)
    requires Ranked(free, available, top) && |free'| == |free|
    requires forall d :: 0 <= d < |free| ==> (free'[d] == [] <==> free[d] == [])
    ensures Ranked(free', available, top)
  {
  }

  /** Taking a block out of its list. */
  lemma FiledRemoved(h: Headers, free: seq<seq<int>>, lv: Levels, loose: set<int>, a: int)
    requires lv.Ok() && Filed(h, free, lv, loose) && a in h && !h[a].alloc && a !in loose
    ensures var c := ListFor(lv, h[a].size);
      a in free[c] && Filed(h[a := h[a].(home := None)], free[c := Remove(free[c], a)], lv, loose + {a})
  {
    var c := ListFor(lv, h[a].size);
    assert a in free[c] by { assert Listed(h, lv, loose, a, c); }
    RemoveMembers(free[c], a);
    var h', free' := h[a := h[a].(home := None)], free[c := Remove(free[c], a)];
    forall d, b | 0 <= d < |free'|
      ensures b in free'[d] <==> Listed(h', lv, loose + {a}, b, d)
    {
      assert b in free[d] <==> Listed(h, lv, loose, b, d);
    }
  }

  /** Putting a block at the head of its list. */
  lemma FiledInserted(h: Headers, free: seq<seq<int>>, lv: Levels, loose: set<int>, a: int)
    requires lv.Ok() && Filed(h, free, lv, loose) && a in h && !h[a].alloc && a in loose
    ensures var c := ListFor(lv, h[a].size);
      Filed(h[a := h[a].(home := Some(c))], free[c := [a] + free[c]], lv, loose - {a})
  {
    var c := ListFor(lv, h[a].size);
    var h', free' := h[a := h[a].(home := Some(c))], free[c := [a] + free[c]];
    assert a !in free[c] by { assert !Listed(h, lv, loose, a, c); }
    forall d, b | 0 <= d < |free'|
      ensures b in free'[d] <==> Listed(h', lv, loose - {a}, b, d)
    {
      assert b in free[d] <==> Listed(h, lv, loose, b, d);
    }
  }

  // ----- searching -----

  /** The class that the search of lines 424-469 settles on for the index `x`. */
  ghost predicate Chosen(free: seq<seq<int>>, top: nat, x: nat, c: nat) {
    && c < |free| && free[c] != []
    && (if x >= top then c == top else x <= c && forall d :: x <= d < c ==> free[d] == [])
  }

  /** Requests that the search serves: for small ones it looks no further than the lowest class. */
  ghost predicate Servable(h: Headers, free: seq<seq<int>>, lv: Levels, size: nat)
    requires |free| > 0
  {
    if size <= lv.minSize && free[0] != []
    then exists a :: a in free[0] && a in h && h[a].size >= size
    else exists a :: a in h && !h[a].alloc && h[a].size >= size
  }

  /** The region shows a free block of `size` bytes or more, in class 0 or anywhere. */
  ghost predicate FreeAtLeast(l: seq<Segment>, lv: Levels, size: nat, inFirst: bool)
    requires lv.Ok()
  {
    exists i :: 0 <= i < |l| && l[i].Free? && l[i].size >= size && (inFirst ==> ListFor(lv, l[i].size) == 0)
  }

  /** The chosen class holds a large enough block whenever any class does. */
  lemma ChosenIsRight(h: Headers, free: seq<seq<int>>, lv: Levels, available: seq<nat>, top: nat, size: nat, c: nat)
    requires lv.Ok() && Filed(h, free, lv, {}) && Ranked(free, available, top)
    requires Chosen(free, top, AllocClass(lv, size), c)
    ensures Servable(h, free, lv, size) <==> exists a :: a in free[c] && a in h && h[a].size >= size
  {
    if size <= lv.minSize && free[0] != [] {
      TopIsLargest(free, available, top, 0);
    } else if exists a :: a in h && !h[a].alloc && h[a].size >= size {
      var a :| a in h && !h[a].alloc && h[a].size >= size;
      ChosenHasFit(h, free, lv, available, top, size, c, a);
    } else {
      forall b | b in free[c] && b in h
        ensures h[b].size < size
      {
        assert Listed(h, lv, {}, b, c);
      }
    }
  }

  lemma ChosenHasFit(h: Headers, free: seq<seq<int>>, lv: Levels, available: seq<nat>, top: nat, size: nat, c: nat, a: int)
    requires lv.Ok() && Filed(h, free, lv, {}) && Ranked(free, available, top)
    requires Chosen(free, top, AllocClass(lv, size), c) && (size > lv.minSize || free[0] == [])
    requires a in h && !h[a].alloc && h[a].size >= size
    ensures exists b :: b in free[c] && b in h && h[b].size >= size
  {
    var x, d := AllocClass(lv, size), ListFor(lv, h[a].size);
    assert a in free[d] by { assert Listed(h, lv, {}, a, d); }
    TopIsLargest(free, available, top, d);
    if d != c {
      var b := free[c][0];
      assert Listed(h, lv, {}, b, c);
      if x >= top {
        HigherIsLarger(lv, h[a].size, h[b].size);
      } else if size > lv.minSize {
        RoundingAgrees(lv, h[b].size, size);
      } else {
        assert InsertClass(lv, size) == 0;
        HigherIsLarger(lv, size, h[b].size);
      }
    }
  }

  /** Without a class in use nothing is free. */
  lemma NothingFree(h: Headers, free: seq<seq<int>>, lv: Levels, available: seq<nat>, top: nat, size: nat)
    requires lv.Ok() && Filed(h, free, lv, {}) && Ranked(free, available, top)
    ensures top == |free| <==> available == []
    ensures available == [] ==> (forall a :: a in h ==> h[a].alloc) && !Servable(h, free, lv, size)
  {
    if available != [] {
      assert available[|available| - 1] in available;
    }
    forall a | a in h && !h[a].alloc
      ensures available != []
    {
      var c := ListFor(lv, h[a].size);
      assert a in free[c] by { assert Listed(h, lv, {}, a, c); }
      TopIsLargest(free, available, top, c);
    }
  }

  /** The largest free block is in the top class. */
  lemma TopHasLargest(h: Headers, free: seq<seq<int>>, lv: Levels, available: seq<nat>, top: nat, a: int, b: int)
    requires lv.Ok() && Filed(h, free, lv, {}) && Ranked(free, available, top)
    requires a in h && !h[a].alloc && top < |free| && b in free[top] && b in h
    requires forall x :: x in free[top] && x in h ==> h[x].size <= h[b].size
    ensures h[a].size <= h[b].size
  {
    var d := ListFor(lv, h[a].size);
    assert a in free[d] by { assert Listed(h, lv, {}, a, d); }
    TopIsLargest(free, available, top, d);
    assert Listed(h, lv, {}, b, top);
    if d < top {
      HigherIsLarger(lv, h[a].size, h[b].size);
    }
  }
}
