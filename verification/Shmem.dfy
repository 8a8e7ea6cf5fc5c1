/**
  src/core/shs_shmem.cc: the shared-memory allocator, updated in place.

  Addresses are offsets from the start of the mapping.  `header` is the memory that holds
  the block headers, and each list is the sequence of its members from the head.
*/
module Shmem {
  import opened Basics
  import opened Arithmetic
  import opened Lists
  import opened SizeClasses
  import opened ShmemBlocks
  import opened ShmemLists

  datatype Error =
    | AllocParam | AllocExhausted | AllocFoundNoFixed
    | GetMaxExhausted | SplitNoFixedReqMinSize
    | FreeParam | FreeNonAlloced

  datatype Outcome = Got(addr: int) | Failed(error: Error)

  /** What an allocation of `n` bytes makes of the free block `l[i]`. */
  ghost function Carved(l: seq<Segment>, i: nat, n: nat, threshold: nat): seq<Segment>
    requires i < |l| && n <= l[i].size
  {
    if l[i].size - n < HEADER + threshold then l[i := Busy(l[i].size, n)]
    else CutAt(l, i, n)
  }

  /**
    The block handed out keeps less than a header and `threshold` bytes beyond the `n` asked for; if it was cut, none,
    and the free rest has `threshold` bytes or more.
  */
  lemma CarvedHands(l: seq<Segment>, i: nat, n: nat, threshold: nat)
    requires i < |l| && n <= l[i].size
    ensures var l' := Carved(l, i, n, threshold);
      && i < |l'| && l'[i].Busy? && l'[i].act == n <= l'[i].size < n + HEADER + threshold
      && (|l'| > |l| ==> l'[i].size == n && i + 1 < |l'| && l'[i + 1].Free? && l'[i + 1].size >= threshold)
  {
  }

  /** Freeing a block undoes its allocation. */
  lemma FreeUndoesAlloc(l: seq<Segment>, i: nat, n: nat, threshold: nat)
    requires Merged(l) && i < |l| && l[i].Free? && n <= l[i].size
    ensures var l' := Carved(l, i, n, threshold);
      i < |l'| && l'[i].Busy? && Coalesce(l'[i := Free(l'[i].size)]) == l
  {
    var l' := Carved(l, i, n, threshold);
    if l[i].size - n < HEADER + threshold {
      assert l'[i := Free(l'[i].size)] == l;
      CoalesceFixed(l);
    } else {
      var rest := l[i].size - n - HEADER;
      assert l'[i := Free(n)] == l[..i] + [Free(n), Free(rest)] + l[i + 1..];
      CarveUndone(l, i, n, rest);
    }
  }

  lemma CarvedMerged(l: seq<Segment>, i: nat, n: nat, threshold: nat)
    requires Merged(l) && i < |l| && l[i].Free? && n <= l[i].size
    ensures Merged(Carved(l, i, n, threshold))
  {
  }

  /** Only headers of listed blocks matter for the class lists. */
  lemma FiledKept(h: Headers, h': Headers, free: seq<seq<int>>, lv: Levels, loose: set<int>, loose': set<int>)
    requires lv.Ok() && Filed(h, free, lv, loose)
    requires forall a :: a in h' && !h'[a].alloc && a !in loose' <==> a in h && !h[a].alloc && a !in loose
    requires forall a :: a in h && a in h' && !h[a].alloc && a !in loose ==> h'[a].size == h[a].size && h'[a].home == h[a].home
    ensures Filed(h', free, lv, loose')
  {
    forall c, a | 0 <= c < |free|
      ensures a in free[c] <==> Listed(h', lv, loose', a, c)
    {
      assert a in free[c] <==> Listed(h, lv, loose, a, c);
    }
  }

  class Shmem {
    const lv: Levels
    const lo: int
    const hi: int
    var splitThreshold: nat
    var order: seq<int>
    var header: Headers
    var free: seq<seq<int>>
    var available: seq<nat>
    var top: nat
    var usedSize: int
    var reqsSize: int
    var stCount: int
    var failed: nat
    var split: nat
    var splitFailed: nat

    /** Lines 218-266: a region from `lo` to `hi` that is one free block. */
    constructor (lv: Levels, lo: int, hi: int)
      requires lv.Ok() && lo + HEADER <= hi
      ensures Valid() && Region() == [Free(hi - lo - HEADER)]
      ensures this.lv == lv && this.lo == lo && this.hi == hi && splitThreshold == lv.minSize
      ensures failed == split == splitFailed == 0
    {
      var i := InsertIndex(lv, hi - lo - HEADER);
      if i >= lv.count {
        i := lv.count - 1;
      }
      var st := Storage(hi - lo - HEADER, false, 0, Some(i));
      this.lv, this.lo, this.hi, this.splitThreshold := lv, lo, hi, lv.minSize;
      order, header := [lo], map[lo := st];
      free := seq(lv.count, _ => [])[i := [lo]];
      available, top := [i], i;
      usedSize, reqsSize, stCount := 0, 0, 1;
      failed, split, splitFailed := 0, 0, 0;
      new;
      OneBlock(lo, header);
    }

    /** The invariant while the free blocks in `loose` are in no class list. */
    ghost predicate Sound(loose: set<int>)
      reads this
    {
      && lv.Ok() && Book(order, header, lo, hi, usedSize, reqsSize, stCount)
      && Filed(header, free, lv, loose) && Ranked(free, available, top)
    }

    ghost predicate Valid()
      reads this
    {
      Sound({}) && Merged(Layout(order, header))
    }

    /** The blocks in memory order. */
    ghost function Region(): (l: seq<Segment>)
      reads this
      ensures |l| == |order|
    {
      Layout(order, header)
    }

    // ----- what the invariant says -----

    /** Headers, busy and free payloads always add up to the size of the region. */
    lemma Conserved()
      requires Valid()
      ensures lo + Extent(Region()) == hi
      ensures hi - lo == usedSize + FreeSize(Region()) + HEADER * stCount
    {
      ExtentParts(Region());
      TilesFacts(order, header, lo, hi);
    }

    /** The first block is at the start of the region, and a block is found by its address. */
    lemma FirstBlock()
      requires Valid()
      ensures order != [] && order[0] == lo && lo in header && IndexOf(order, lo) == 0
      ensures header[lo].alloc <==> Region()[0].Busy?
    {
    }

    /** Blocks are inside the region and do not overlap. */
    lemma Disjoint(i: nat, j: nat)
      requires Valid() && i < j < |order|
      ensures lo <= order[i] && order[j] + HEADER + header[order[j]].size <= hi
      ensures order[i] + HEADER + header[order[i]].size <= order[j]
    {
      TilesFacts(order, header, lo, hi);
    }

    /** When nothing is allocated, the region is one block again. */
    lemma AllFreed()
      requires Valid() && forall i :: 0 <= i < |order| ==> Region()[i].Free?
      ensures hi >= lo + HEADER && Region() == [Free(hi - lo - HEADER)]
    {
      TilesFacts(order, header, lo, hi);
      AllFreeIsOne(Region());
    }

    /** A request above the least size is served exactly if some free block is large enough. */
    lemma ServedAboveMinimum(size: nat)
      requires Valid() && size > lv.minSize
      ensures Servable(header, free, lv, size) <==> exists i :: 0 <= i < |order| && Region()[i].Free? && Region()[i].size >= size
    {
      if Servable(header, free, lv, size) {
        var a :| a in header && !header[a].alloc && header[a].size >= size;
        assert Region()[IndexOf(order, a)].Free?;
      }
    }

    /** Exactly when a request is served, from what the region shows: class 0 hides larger blocks from small requests. */
    lemma ServedExactly(size: nat)
      requires Valid()
      ensures Servable(header, free, lv, size)
              <==> FreeAtLeast(Region(), lv, size, size <= lv.minSize && FreeAtLeast(Region(), lv, 0, true))
    {
      hide Layout, Tiles, UsedSize, AskedSize, Merged;
      if free[0] != [] {
        FirstShows(free[0][0]);
      }
      forall i | 0 <= i < |order| && Region()[i].Free?
        ensures ListFor(lv, Region()[i].size) == 0 <==> order[i] in free[0]
        ensures order[i] in header && !header[order[i]].alloc && header[order[i]].size == Region()[i].size
      {
        assert Listed(header, lv, {}, order[i], 0) <==> ListFor(lv, Region()[i].size) == 0;
      }
      if Servable(header, free, lv, size) {
        var a :| a in header && !header[a].alloc && header[a].size >= size && (size <= lv.minSize && free[0] != [] ==> a in free[0]);
        var i := IndexOf(order, a);
        assert Region()[i].Free? && Region()[i].size >= size;
      }
    }

    /** A class is in use exactly when some block is free. */
    lemma InUseExactly()
      requires Valid()
      ensures available == [] <==> !FreeAtLeast(Region(), lv, 0, false)
    {
      hide Layout, Tiles, UsedSize, AskedSize, Merged;
      NothingFree(header, free, lv, available, top, 0);
      if available != [] {
        var c := available[0];
        assert c in available;
        assert Listed(header, lv, {}, free[c][0], c);
        assert Region()[IndexOf(order, free[c][0])].Free?;
      }
    }

    /** A block of class 0, as the region shows it. */
    lemma FirstShows(a: int)
      requires Valid() && a in free[0]
      ensures a in header && !header[a].alloc && ListFor(lv, header[a].size) == 0 && a in order
      ensures var i := IndexOf(order, a); Region()[i] == Free(header[a].size)
    {
      assert Listed(header, lv, {}, a, 0);
    }

    // ----- the class lists -----

    /** shs_shmem_remove_free: the block is in the list looked up, so the check of line 306 never fails. */
    method RemoveFree(a: int, ghost loose: set<int>) returns (ok: bool)
      requires lv.Ok() && Filed(header, free, lv, loose) && Ranked(free, available, top)
      requires a in header && !header[a].alloc && a !in loose
      modifies `header, `free, `available, `top
      ensures ok && header == old(header)[a := old(header)[a].(home := None)]
      ensures Filed(header, free, lv, loose + {a}) && Ranked(free, available, top)
    {
      var index := InsertIndex(lv, header[a].size);
      FiledRemoved(header, free, lv, loose, a);
      TopIsLargest(free, available, top, ListFor(lv, header[a].size));
      if index > top {
        index := top;
      }
      ok := header[a].home == Some(index);
      assert ok && index == ListFor(lv, header[a].size);
      Withdraw(index, a);
      header := header[a := header[a].(home := None)];
    }

    /** Lines 311-330: a block leaves its list; an emptied class leaves the list of classes. */
    method Withdraw(index: nat, a: int)
      requires Ranked(free, available, top) && index < |free| && a in free[index]
      modifies `free, `available, `top
      ensures free == old(free)[index := Remove(old(free)[index], a)] && Ranked(free, available, top)
    {
      ghost var before := free;
      free := free[index := Remove(free[index], a)];
      if free[index] == [] {
        RankRemoved(before, free, available, top, index);
        if index == top {
          var k := IndexOf(available, index);
          top := if k == 0 then |free| else available[k - 1];
        }
        available := Remove(available, index);
      } else {
        RankKept(before, free, available, top);
      }
    }

    /** shs_shmem_insert_free. */
    method InsertFree(a: int, ghost loose: set<int>)
      requires lv.Ok() && Filed(header, free, lv, loose) && Ranked(free, available, top)
      requires a in header && !header[a].alloc && a in loose
      modifies `header, `free, `available, `top
      ensures a in header && header == old(header)[a := old(header)[a].(home := header[a].home)]
      ensures Filed(header, free, lv, loose - {a}) && Ranked(free, available, top)
      ensures var c := ListFor(lv, header[a].size); c < |old(free)| && free == old(free)[c := [a] + old(free)[c]]
    {
      var index := InsertIndex(lv, header[a].size);
      if index > |free| - 1 {
        index := |free| - 1;
      }
      FiledInserted(header, free, lv, loose, a);
      ghost var before := free;
      header := header[a := header[a].(home := Some(index))];
      if free[index] == [] {
        Offer(index, a);
      } else {
        RankKept(free, free[index := [a] + free[index]], available, top);
        free := free[index := [a] + free[index]];
      }
    }

    /** Lines 364-391: an empty class gets its first block and its place in the list of classes. */
    method Offer(index: nat, a: int)
      requires Ranked(free, available, top) && index < |free| && free[index] == []
      modifies `free, `available, `top
      ensures free == old(free)[index := [a] + old(free)[index]] && Ranked(free, available, top)
    {
      var k := 0;
      while k < |available| && index >= available[k]
        invariant k <= |available| && forall i :: 0 <= i < k ==> available[i] < index
      {
        assert available[k] in available;
        k := k + 1;
      }
      RankInserted(free, free[index := [a] + free[index]], available, top, index, k);
      if k == |available| {
        top := index;
      }
      available := available[..k] + [index] + available[k..];
      free := free[index := [a] + free[index]];
    }

    // ----- single changes of the block list -----

    /** Lines 507-515 and 644-650: the whole block is handed out. */
    method TakeWhole(a: int, asked: nat, ghost i: nat)
      requires Sound({a}) && i < |order| && order[i] == a && a in header && !header[a].alloc
      modifies `header, `usedSize, `reqsSize
      ensures Sound({}) && Region() == old(Region())[i := Busy(old(header)[a].size, asked)]
    {
      hide Tiles, Layout, UsedSize, AskedSize, Filed, Ranked;
      ghost var h := header;
      BookTouched(order, h, i, h[a].(alloc := true, act := asked), lo, hi, usedSize, reqsSize, stCount);
      header := header[a := header[a].(alloc := true, act := asked)];
      FiledKept(h, header, free, lv, {a}, {});
      usedSize := usedSize + header[a].size;
      reqsSize := reqsSize + asked;
    }

    /** Lines 676-678: the block is no longer allocated, but not yet in a list. */
    method MarkFree(a: int, ghost i: nat)
      requires Sound({}) && i < |order| && order[i] == a && a in header && header[a].alloc
      modifies `header, `usedSize, `reqsSize
      ensures Sound({a}) && Region() == old(Region())[i := Free(old(header)[a].size)]
      ensures a in header && !header[a].alloc
    {
      hide Tiles, Layout, UsedSize, AskedSize, Filed, Ranked;
      ghost var h := header;
      BookTouched(order, h, i, h[a].(alloc := false), lo, hi, usedSize, reqsSize, stCount);
      usedSize := usedSize - header[a].size;
      reqsSize := reqsSize - header[a].act;
      header := header[a := header[a].(alloc := false)];
      FiledKept(h, header, free, lv, {}, {a});
    }

    /**
      The rest of block `a` gets a header and a place in the list of blocks: lines 517-527, relinked as in
      `IntrusiveQueue.SplitOff`.
    */
    method CutBlock(a: int, b: int, size: nat, ghost i: nat)
      requires Sound({a}) && i < |order| && order[i] == a && a in header && !header[a].alloc
      requires header[a].size >= size + HEADER && b == a + HEADER + size
      modifies `order, `header
      ensures Book(order, header, lo, hi, usedSize + size, reqsSize + size, stCount + 1)
      ensures Filed(header, free, lv, {b}) && i < |order| && order[i] == a && b in header && !header[b].alloc
      ensures Region() == CutAt(old(Region()), i, size)
    {
      hide Book, Filed, Ranked, CutAt, InsertAfter;
      ghost var h := header;
      header := header[b := header[a].(size := header[a].size - size - HEADER)];
      header := header[a := header[a].(alloc := true, size := size, act := size)];
      OrderCut(order, i, a, b, h, size, header, lo, hi, usedSize, reqsSize, stCount);
      FiledKept(h, header, free, lv, {a}, {b});
      order := InsertAfter(order, a, b);
    }

    /** Lines 517-533: the front of the block is handed out, the rest is filed again. */
    method Carve(a: int, size: nat, ghost i: nat)
      requires Sound({a}) && i < |order| && order[i] == a && a in header && !header[a].alloc
      requires header[a].size >= size + HEADER
      modifies `order, `header, `free, `available, `top, `usedSize, `reqsSize, `stCount
      ensures Sound({}) && i < |order| && order[i] == a
      ensures Region() == CutAt(old(Region()), i, size)
    {
      hide Tiles, Layout, UsedSize, AskedSize, Filed, Ranked, CutAt;
      var b := a + HEADER + size;
      CutBlock(a, b, size, i);
      ghost var h := header;
      InsertFree(b, {b});
      assert {b} - {b} == {};
      BookRehomed(order, h, b, header[b].home, lo, hi, usedSize + size, reqsSize + size, stCount + 1);
      usedSize := usedSize + size;
      reqsSize := reqsSize + size;
      stCount := stCount + 1;
    }

    /** Lines 698-700 and 722-725: the free block `b` is merged into its free predecessor `a`. */
    method Absorb(a: int, b: int, ghost i: nat)
      requires Sound({a, b}) && i + 1 < |order| && order[i] == a && order[i + 1] == b
      requires a in header && b in header && !header[a].alloc && !header[b].alloc
      modifies `order, `header, `stCount
      ensures Sound({a}) && i < |order| && order[i] == a && a in header && !header[a].alloc
      ensures Region() == JoinedAt(old(Region()), i)
    {
      hide Book, Filed, Ranked, JoinedAt, Remove, Tiles, Layout, UsedSize, AskedSize, IndexOf;
      ghost var h := header;
      ghost var z := h[a].size + HEADER + h[b].size;
      header := header[a := header[a].(size := header[a].size + HEADER + header[b].size)];
      header := header - {b};
      OrderJoined(order, i, a, b, h, z, header, lo, hi, usedSize, reqsSize, stCount);
      FiledKept(h, header, free, lv, {a, b}, {a});
      order := Remove(order, b);
      stCount := stCount - 1;
    }

    /** A free block leaves its class list. */
    method TakeOut(a: int, ghost loose: set<int>)
      requires Sound(loose) && a in header && !header[a].alloc && a !in loose
      modifies `header, `free, `available, `top
      ensures Sound(loose + {a}) && Region() == old(Region())
      ensures header == old(header)[a := old(header)[a].(home := None)]
    {
      hide Tiles, Layout, UsedSize, AskedSize, Filed, Ranked;
      ghost var h := header;
      // the REMOVE_FREE, REMOVE_NEXT and REMOVE_PREV errors of the callers cannot occur
      var ok := RemoveFree(a, loose);
      assert ok;
      BookRehomed(order, h, a, None, lo, hi, usedSize, reqsSize, stCount);
    }

    /** A free block enters its class list. */
    method File(a: int)
      requires Sound({a}) && a in header && !header[a].alloc
      modifies `header, `free, `available, `top
      ensures Sound({}) && Region() == old(Region())
    {
      hide Tiles, Layout, UsedSize, AskedSize, Filed, Ranked;
      ghost var h := header;
      InsertFree(a, {a});
      assert {a} - {a} == {};
      BookRehomed(order, h, a, header[a].home, lo, hi, usedSize, reqsSize, stCount);
    }

    // ----- allocation -----

    /** Lines 424-469: the class in which to look for a block. */
    method Choose(size: nat) returns (c: nat)
      requires lv.Ok() && |free| == lv.count && Ranked(free, available, top) && available != []
      ensures Chosen(free, top, AllocClass(lv, size), c)
      ensures c < |free| && free[c] != [] && (AllocClass(lv, size) >= top ==> c == top)
      ensures AllocClass(lv, size) < top ==>
        c >= AllocClass(lv, size) && forall d :: AllocClass(lv, size) <= d < c ==> free[d] == []
    {
      var index := AllocIndex(lv, size);
      assert available[|available| - 1] in available;
      c := top;
      if index < top {
        c := index;
        if free[index] == [] {
          var k := 0;
          while !(free[available[k]] != [] && available[k] > index)
            invariant k < |available| && available[k] in available
            invariant forall j :: 0 <= j < k ==> available[j] <= index
            decreases |available| - k
          {
            k := k + 1;
            assert available[k] in available;
          }
          c := available[k];
          forall d | index < d < c
            ensures free[d] == []
          {
            assert forall j :: 0 <= j < |available| ==> available[j] != d;
          }
        }
      }
    }

    /** Lines 471-489: the first block of the list that is large enough. */
    method FirstFit(c: nat, size: nat) returns (k: nat)
      requires c < |free| && forall j :: 0 <= j < |free[c]| ==> free[c][j] in header
      ensures k <= |free[c]| && (k < |free[c]| ==> header[free[c][k]].size >= size)
      ensures forall j :: 0 <= j < k ==> header[free[c][j]].size < size
    {
      k := 0;
      while k < |free[c]| && header[free[c][k]].size < size
        invariant k <= |free[c]| && forall j :: 0 <= j < k ==> header[free[c][j]].size < size
      {
        k := k + 1;
      }
    }

    /** The block that a request gets: the first one that fits in the list the search settles on. */
    ghost predicate Picked(size: nat, a: int)
      requires lv.Ok()
      reads this
    {
      exists c: nat, k: nat ::
        && Chosen(free, top, AllocClass(lv, size), c) && k < |free[c]| && free[c][k] == a
        && a in header && header[a].size >= size
        && forall j :: 0 <= j < k && free[c][j] in header ==> header[free[c][j]].size < size
    }

    /** Lines 422-497: finds the block for a request. */
    method Search(size: nat) returns (found: bool, a: int)
      requires Valid() && available != []
      ensures found <==> Servable(header, free, lv, size)
      ensures found ==> a in header && !header[a].alloc && header[a].size >= size && Picked(size, a)
      ensures Valid()
    {
      var c := Choose(size);
      forall b | b in free[c]
        ensures b in header && !header[b].alloc
      {
        assert Listed(header, lv, {}, b, c);
      }
      ChosenIsRight(header, free, lv, available, top, size, c);
      var k := FirstFit(c, size);
      found := k < |free[c]|;
      a := 0;
      if found {
        a := free[c][k];
      } else {
        assert forall b :: b in free[c] ==> header[b].size < size;
      }
    }

    /** shs_shmem_alloc. */
    method Alloc(size: nat) returns (r: Outcome, ghost i: nat)
      requires Valid()
      modifies this
      ensures Valid() && splitThreshold == old(splitThreshold)
      ensures r.Got? <==> size > 0 && old(Servable(header, free, lv, size))
      ensures r.Got? ==> i < |order| && i < |old(order)| && order[i] == old(order)[i] && r.addr == order[i] + HEADER
      ensures r.Got? ==> old(Region())[i].Free? && old(Region())[i].size >= size && old(Picked(size, order[i]))
      ensures r.Got? ==> Region() == Carved(old(Region()), i, size, splitThreshold) && failed == old(failed)
      ensures r.Got? ==>
        && i < |Region()| && Region()[i].Busy?
        && Region()[i].act == size <= Region()[i].size < size + HEADER + splitThreshold
      ensures r.Got? && |Region()| > |old(Region())| ==>
        Region()[i].size == size && i + 1 < |Region()| && Region()[i + 1].Free? && Region()[i + 1].size >= splitThreshold
      ensures r.Failed? ==> order == old(order) && header == old(header) && free == old(free)
      ensures r.Failed? ==> failed == old(failed) + (if size == 0 then 0 else 1)
      ensures r.Failed? ==>
        r.error == if size == 0 then AllocParam else if old(available) == [] then AllocExhausted else AllocFoundNoFixed
    {
      i := 0;
      if size == 0 {
        return Failed(AllocParam), 0;
      }
      NothingFree(header, free, lv, available, top, size);
      if top == |free| {
        failed := failed + 1;
        return Failed(AllocExhausted), 0;
      }
      var found, a := Search(size);
      if !found {
        failed := failed + 1;
        return Failed(AllocFoundNoFixed), 0;
      }
      i := IndexOf(order, a);
      CarvedHands(Region(), i, size, splitThreshold);
      Hand(a, size, i);
      r := Got(a + HEADER);
    }

    /** Lines 499-535: the block found is handed out, whole or in part. */
    method Hand(a: int, size: nat, ghost i: nat)
      requires Valid() && i < |order| && order[i] == a && a in header && !header[a].alloc && header[a].size >= size
      modifies `order, `header, `free, `available, `top, `usedSize, `reqsSize, `stCount
      ensures Valid() && i < |order| && order[i] == a && old(Region())[i] == Free(old(header)[a].size)
      ensures Region() == Carved(old(Region()), i, size, splitThreshold)
    {
      CarvedMerged(Region(), i, size, splitThreshold);
      hide Tiles, Layout, UsedSize, AskedSize, Filed, Ranked, Merged, CutAt, Book;
      assert {} + {a} == {a};
      TakeOut(a, {});
      if header[a].size - size < HEADER + splitThreshold {
        TakeWhole(a, size, i);
      } else {
        Carve(a, size, i);
      }
    }

    /** shs_shmem_get_max_st: the largest block of the last class in use. */
    method GetMax() returns (found: bool, a: int)
      requires Valid()
      ensures found <==> available != []
      ensures found <==> exists b :: b in header && !header[b].alloc
      ensures found ==> a in header && !header[a].alloc
      ensures found ==> forall b :: b in header && !header[b].alloc ==> header[b].size <= header[a].size
    {
      NothingFree(header, free, lv, available, top, 0);
      if top == |free| || available == [] {
        return false, 0;
      }
      var c := available[|available| - 1];
      assert c in available;
      forall b | b in free[c]
        ensures b in header && !header[b].alloc
      {
        assert Listed(header, lv, {}, b, c);
      }
      a := LargestIn(c);
      found := true;
      forall b | b in header && !header[b].alloc
        ensures header[b].size <= header[a].size
      {
        TopHasLargest(header, free, lv, available, top, b, a);
      }
    }

    /** The largest block of a class: the loop of shs_shmem_get_max_st over one list, lines 587-601. */
    method LargestIn(c: nat) returns (a: int)
      requires c < |free| && free[c] != [] && forall j :: 0 <= j < |free[c]| ==> free[c][j] in header
      ensures a in free[c] && a in header
      ensures forall j :: 0 <= j < |free[c]| ==> header[free[c][j]].size <= header[a].size
    {
      var members := free[c];
      a := members[0];
      var k := 1;
      while k < |members|
        invariant 1 <= k <= |members| && a in members && a in header
        invariant forall j :: 0 <= j < k ==> header[members[j]].size <= header[a].size
      {
        if header[members[k]].size > header[a].size {
          a := members[k];
        }
        k := k + 1;
      }
    }

    /** shs_shmem_split_alloc: the largest free block as a whole. */
    method SplitAlloc(least: nat) returns (r: Outcome, actSize: nat, ghost i: nat)
      requires Valid()
      modifies this
      ensures Valid() && split == old(split) + 1 && order == old(order)
      ensures r.Failed? <==> forall j :: 0 <= j < |old(Region())| && old(Region())[j].Free? ==> old(Region())[j].size < least
      ensures r.Failed? ==> header == old(header) && splitFailed == old(splitFailed) + 1
      ensures r.Failed? ==>
        (r.error == GetMaxExhausted <==> forall j :: 0 <= j < |old(Region())| ==> old(Region())[j].Busy?)
        && r.error in {GetMaxExhausted, SplitNoFixedReqMinSize}
      ensures r.Got? ==> i < |old(Region())| && old(Region())[i] == Free(actSize)
      ensures r.Got? ==> forall j :: 0 <= j < |old(Region())| && old(Region())[j].Free? ==> old(Region())[j].size <= actSize
      ensures r.Got? ==> r.addr == order[i] + HEADER && splitFailed == old(splitFailed)
      ensures r.Got? ==> Region() == old(Region())[i := Busy(actSize, actSize)]
    {
      hide Tiles, Layout, Filed, Ranked, Book, Merged;
      var found, a;
      found, a, i := MaxBlock(least);
      Count(!found || header[a].size < least);
      actSize := 0;
      if !found {
        return Failed(GetMaxExhausted), 0, 0;
      }
      if header[a].size < least {
        return Failed(SplitNoFixedReqMinSize), 0, 0;
      }
      actSize := header[a].size;
      HandWhole(a, i);
      r := Got(a + HEADER);
    }

    /** Lines 619, 623 and 631: the statistics of split_alloc. */
    method Count(failure: bool)
      modifies `split, `splitFailed
      ensures split == old(split) + 1 && splitFailed == old(splitFailed) + if failure then 1 else 0
    {
      split := split + 1;
      if failure {
        splitFailed := splitFailed + 1;
      }
    }

    method MaxBlock(least: nat) returns (found: bool, a: int, ghost i: nat)
      requires Valid()
      ensures found <==> !NoneAtLeast(Region(), 0)
      ensures found ==> i < |order| && order[i] == a && a in header && !header[a].alloc
      ensures found ==> LargestFree(Region(), i) && Region()[i].size == header[a].size
      ensures NoneAtLeast(Region(), least) <==> !found || header[a].size < least
    {
      found, a := GetMax();
      LargestInRegion(found, a, least);
      i := if found then IndexOf(order, a) else 0;
    }

    /** The largest free header is the largest free segment. */
    lemma LargestInRegion(found: bool, a: int, least: nat)
      requires Valid()
      requires found <==> exists b :: b in header && !header[b].alloc
      requires found ==> a in header && !header[a].alloc
      requires found ==> forall b :: b in header && !header[b].alloc ==> header[b].size <= header[a].size
      ensures found ==>
        a in order && a in header && (var i := IndexOf(order, a); i < |Region()| && Region()[i] == Free(header[a].size) && LargestFree(Region(), i))
      ensures found <==> !NoneAtLeast(Region(), 0)
      ensures NoneAtLeast(Region(), least) <==> !found || header[a].size < least
    {
      FreeBlocks({});
      if found {
        assert Region()[IndexOf(order, a)].Free?;
      }
    }

    /** The free segments are the free headers. */
    lemma FreeBlocks(loose: set<int>)
      requires Sound(loose)
      ensures forall j :: 0 <= j < |order| ==> order[j] in header && Region()[j] == SegmentOf(header[order[j]])
    {
      TilesFacts(order, header, lo, hi);
    }

    /** What the fields say about the neighbours of a block. */
    lemma Neighbours(loose: set<int>, a: int, i: nat)
      requires Sound(loose) && i < |order| && order[i] == a
      ensures a in header && IndexOf(order, a) == i && Region()[i] == SegmentOf(header[a])
      ensures i + 1 < |order| ==>
        order[i + 1] in header && order[i + 1] == a + HEADER + header[a].size && order[i + 1] != a
        && Region()[i + 1] == SegmentOf(header[order[i + 1]])
      ensures i > 0 ==>
        order[i - 1] in header && a == order[i - 1] + HEADER + header[order[i - 1]].size && order[i - 1] != a
        && Region()[i - 1] == SegmentOf(header[order[i - 1]])
    {
      TilesUnique(order, header, lo, hi);
      IndexIs(order, i);
      assert order[i] in order;
      if i + 1 < |order| {
        assert order[i + 1] in order;
        NextIs(order, header, i, lo, hi);
      }
      if i > 0 {
        assert order[i - 1] in order;
        NextIs(order, header, i - 1, lo, hi);
      }
    }

    /** A whole free block leaves its list and is handed out: the end of shs_shmem_split_alloc, lines 636-650. */
    method HandWhole(a: int, ghost i: nat)
      requires Valid() && i < |order| && order[i] == a && a in header && !header[a].alloc
      modifies `header, `free, `available, `top, `usedSize, `reqsSize
      ensures Valid() && Region() == old(Region())[i := Busy(old(header)[a].size, old(header)[a].size)]
    {
      hide Tiles, Layout, UsedSize, AskedSize, Filed, Ranked, Book;
      assert {} + {a} == {a};
      TakeOut(a, {});
      TakeWhole(a, header[a].size, i);
    }

    // ----- freeing -----

    /** Lines 680-701: a free successor is merged in. */
    method MergeNext(a: int, ghost i: nat)
      requires Sound({a}) && i < |order| && order[i] == a && a in header && !header[a].alloc
      requires MergedAround(Region(), i)
      modifies `order, `header, `free, `available, `top, `stCount
      ensures Sound({a}) && i < |order| && order[i] == a && a in header && !header[a].alloc
      ensures MergedAround(Region(), i) && (i + 1 < |order| ==> Region()[i + 1].Busy?)
      ensures Coalesce(Region()) == Coalesce(old(Region()))
    {
      hide Tiles, Layout, UsedSize, AskedSize, Filed, Ranked, Book, JoinedAt, Coalesce, MergedAround, IndexOf;
      Neighbours({a}, a, i);
      var k := IndexOf(order, a);
      if k + 1 < |order| {
        var b := order[k + 1];
        if !header[b].alloc && b == a + HEADER + header[a].size {
          JoinNext(Region(), i);
          assert {a} + {b} == {a, b};
          TakeOut(b, {a});
          Absorb(a, b, i);
        }
      }
    }

    /** Lines 703-726: a free predecessor takes the block in. */
    method MergePrevious(a: int, ghost i: nat) returns (st: int)
      requires Sound({a}) && i < |order| && order[i] == a && a in header && !header[a].alloc
      requires MergedAround(Region(), i) && (i + 1 < |order| ==> Region()[i + 1].Busy?)
      modifies `order, `header, `free, `available, `top, `stCount
      ensures Sound({st}) && st in header && !header[st].alloc
      ensures Merged(Region()) && Coalesce(Region()) == Coalesce(old(Region()))
    {
      hide Tiles, Layout, UsedSize, AskedSize, Filed, Ranked, Book, JoinedAt, Coalesce, MergedAround, IndexOf, Merged;
      Neighbours({a}, a, i);
      JoinPrevious(Region(), i);
      st := a;
      var k := IndexOf(order, a);
      if k > 0 {
        var b := order[k - 1];
        if !header[b].alloc && a == b + header[b].size + HEADER {
          assert {a} + {b} == {b, a};
          TakeOut(b, {a});
          Absorb(b, a, i - 1);
          st := b;
        }
      }
    }

    /** shs_shmem_free: the block becomes free, and every run of free neighbours is one block. */
    method FreeBlock(addr: int) returns (error: Option<Error>)
      requires Valid() && (addr == 0 || (addr >= HEADER && addr - HEADER in header))
      modifies this
      ensures Valid() && splitThreshold == old(splitThreshold)
      ensures error == if addr == 0 then Some(FreeParam)
                       else if !old(header)[addr - HEADER].alloc then Some(FreeNonAlloced) else None
      ensures error != None ==> order == old(order) && header == old(header)
      ensures error == None ==> var i := IndexOf(old(order), addr - HEADER);
        Region() == Coalesce(old(Region())[i := Free(old(Region())[i].size)])
    {
      if addr == 0 {
        return Some(FreeParam);
      }
      var a := addr - HEADER;
      if !header[a].alloc {
        return Some(FreeNonAlloced);
      }
      ghost var i := IndexOf(order, a);
      Neighbours({}, a, i);
      hide Tiles, Layout, UsedSize, AskedSize, Filed, Ranked, Book, Coalesce, IndexOf, Merged;
      Release(a, i);
      error := None;
    }

    /** An allocated block becomes free and is merged with its free neighbours: lines 676-729. */
    method Release(a: int, ghost i: nat)
      requires Valid() && i < |order| && order[i] == a && a in header && header[a].alloc
      modifies `order, `header, `free, `available, `top, `usedSize, `reqsSize, `stCount
      ensures Valid() && Region() == Coalesce(old(Region())[i := Free(old(Region())[i].size)])
    {
      hide Tiles, Layout, UsedSize, AskedSize, Filed, Ranked, Book, JoinedAt, Coalesce, MergedAround, IndexOf, Merged;
      Neighbours({}, a, i);
      FreedAround(Region(), i, header[a].size);
      MarkFree(a, i);
      MergeNext(a, i);
      var st := MergePrevious(a, i);
      CoalesceFixed(Region());
      File(st);
    }
  }

  // ----- creation -----

  /** sizeof(shs_shmem_t) and sizeof(struct free_node) with 64-bit pointers. */
  const SHMEM_SIZE: nat := 168
  const FREE_NODE_SIZE: nat := 40

  datatype CreateError = BadSize | BadMinSize | BadLevelType | NotEnough | MapFailed | BadStorageSize

  datatype Created = Ready(shm: Shmem) | Refused(error: CreateError)

  /** SHS_MATH_ROUND_UP, for a power of two `p`. */
  function RoundUp(x: nat, p: nat): (y: nat)
    requires p > 0
  {
    (x + p - 1) / p * p
  }

  lemma RoundUpIs(x: nat, p: nat)
    requires p > 0
    ensures RoundUp(x, p) % p == 0 && x <= RoundUp(x, p) < x + p
  {
    var q := (x + p - 1) / p;
    QuotientAtLeast(x + p - 1, p, q);
    QuotientAtLeast(x + p - 1, p, q + 1);
    assert (q + 1) * p == q * p + p;
    RemainderIs(q * p, p, q, 0);
  }

  /** The number of classes: enough for the largest size. */
  ghost function Classes(minSize: nat, maxSize: nat, level: int, factor: nat): nat
    requires minSize > 0 && (level == 0 ==> factor > 0)
  {
    AllocClass(Levels(Align(minSize), if level == 0 then Align(factor) else 2, 1, level == 0), Align(maxSize)) + 1
  }

  /** It is the least number of classes whose last one is for the largest size, or larger ones. */
  lemma ClassesAtMost(minSize: nat, maxSize: nat, level: int, factor: nat, k: nat)
    requires minSize > 0 && (level == 0 ==> factor > 0)
    ensures var lv := Levels(Align(minSize), if level == 0 then Align(factor) else 2, 1, level == 0);
      Classes(minSize, maxSize, level, factor) <= k + 1 <==> Align(maxSize) <= Bound(lv, k)
  {
    hide AllocClass, Bound, Align;
    AllocClassAtMost(Levels(Align(minSize), if level == 0 then Align(factor) else 2, 1, level == 0), Align(maxSize), k);
  }

  /** The bookkeeping ends where a block may start. */
  lemma Multiple8(classes: nat)
    ensures Align(SHMEM_SIZE + FREE_NODE_SIZE * classes) == SHMEM_SIZE + FREE_NODE_SIZE * classes
  {
    assert SHMEM_SIZE + FREE_NODE_SIZE * classes == 8 * (21 + 5 * classes);
  }

  /** The bookkeeping and the first block in the mapped pages. */
  method PutDown(lv: Levels, total: nat, most: nat) returns (r: Created)
    requires lv.Ok()
    ensures r.Ready? <==> var lo := SHMEM_SIZE + FREE_NODE_SIZE * lv.count; lo + HEADER < total && most <= total - lo - HEADER
    ensures r.Ready? ==> fresh(r.shm) && r.shm.Valid() && r.shm.lv == lv && r.shm.hi == total
    ensures r.Ready? ==> r.shm.lo + HEADER <= total && r.shm.Region() == [Free(total - r.shm.lo - HEADER)]
    ensures r.Ready? ==> most <= r.shm.Region()[0].size
    ensures r.Ready? ==> r.shm.lo == SHMEM_SIZE + FREE_NODE_SIZE * lv.count && r.shm.splitThreshold == lv.minSize
    ensures r.Refused? ==> r.error in {NotEnough, BadStorageSize}
  {
    hide Tiles, Layout, UsedSize, AskedSize, Filed, Ranked, Book, Align;
    Multiple8(lv.count);
    var lo := SHMEM_SIZE + FREE_NODE_SIZE * lv.count;
    if lo + HEADER >= total {
      return Refused(NotEnough);
    }
    lo := Align(lo);
    if total - lo - HEADER < most {
      return Refused(BadStorageSize);
    }
    var shm := new Shmem(lv, lo, total);
    r := Ready(shm);
  }

  lemma MoreThanOneClass(lv: Levels, most: nat)
    requires lv.Ok() && most > lv.minSize
    ensures AllocClass(lv, most) >= 1
  {
    AllocClassAtMost(lv, most, 0);
    assert Bound(lv, 0) == lv.minSize;
  }

  /** shs_shmem_create; `mapped` tells whether mmap succeeds. */
  method Create(size: nat, minSize: nat, maxSize: nat, level: int, factor: nat, page: nat, mapped: bool)
    returns (r: Created)
    requires page > 0 && (level == 0 ==> factor > 0)
    ensures r.Ready? <==>
      && size > 0 && minSize > 0 && Align(minSize) < Align(maxSize) && level in {0, 1} && mapped
      && var room := RoundUp(size, page) - SHMEM_SIZE - FREE_NODE_SIZE * Classes(minSize, maxSize, level, factor) - HEADER;
      && room > 0 && room >= Align(maxSize)
    ensures r == Refused(MapFailed) <==>
      size > 0 && minSize > 0 && Align(minSize) < Align(maxSize) && level in {0, 1} && !mapped
    ensures r.Ready? ==> fresh(r.shm) && r.shm.Valid()
    ensures r.Ready? ==>
      r.shm.hi == RoundUp(size, page) && r.shm.lo + HEADER <= r.shm.hi && r.shm.Region() == [Free(r.shm.hi - r.shm.lo - HEADER)]
      && Align(maxSize) <= r.shm.Region()[0].size
    ensures r.Ready? ==>
      r.shm.lv.linear == (level == 0) && r.shm.lv.minSize == Align(minSize)
      && r.shm.lv.count == Classes(minSize, maxSize, level, factor) >= 2
      && r.shm.lv.factor == (if level == 0 then Align(factor) else 2) && r.shm.splitThreshold == r.shm.lv.minSize
      && r.shm.lo == SHMEM_SIZE + FREE_NODE_SIZE * r.shm.lv.count
  {
    hide RoundUp, AllocClass;
    if size == 0 {
      return Refused(BadSize);
    }
    var least, most := Align(minSize), Align(maxSize);
    if least == 0 || least >= most {
      return Refused(BadMinSize);
    }
    if level != 0 && level != 1 {
      return Refused(BadLevelType);
    }
    var lv := Levels(least, if level == 0 then Align(factor) else 2, 1, level == 0);
    var count := AllocIndex(lv, most);
    MoreThanOneClass(lv, most);
    lv := lv.(count := count + 1);
    var total := RoundUp(size, page);
    if !mapped {
      return Refused(MapFailed);
    }
    r := PutDown(lv, total, most);
  }

  lemma PageIsWhole(page: nat)
    requires page > 0
    ensures RoundUp(page, page) == page
  {
    QuotientIs(page + page - 1, page, 1, page - 1);
  }

  /** Between a least and a largest size of 32 and 48, steps of 8 make three classes. */
  lemma ThreeClasses(least: nat, most: nat, step: nat)
    requires least == 32 && most == 48 && step == 8
    ensures Align(least) == least && Align(most) == most && Align(step) == step
    ensures Classes(least, most, 0, step) == 3
  {
    hide CeilLog2;
  }

  /** The classes that the blocks of the witness below belong to. */
  lemma ClassesOfWitness(n: nat)
    requires n >= 64
    ensures ListFor(Levels(32, 8, 3, true), 8) == 0 && ListFor(Levels(32, 8, 3, true), n) == 2
  {
  }

  /** Giving the first of these blocks back changes nothing else. */
  lemma FirstGivenBack(l: seq<Segment>, m: nat)
    requires l == [Busy(8, 8), Busy(64, 64), Free(m)]
    ensures Coalesce(l[0 := Free(8)]) == [Free(8), Busy(64, 64), Free(m)]
  {
    assert l[0 := Free(8)] == [Free(8), Busy(64, 64), Free(m)];
    CoalesceFixed([Free(8), Busy(64, 64), Free(m)]);
  }

  /** In a fresh region of one page, two requests are served and the smaller block is given back. */
  method SmallBlockGivenBack() returns (shm: Shmem)
    ensures fresh(shm) && shm.Valid() && shm.lv == Levels(32, 8, 3, true)
    ensures shm.Region() == [Free(8), Busy(64, 64), Free(3544)]
  {
    hide Align, RoundUp, Classes, AllocClass, ListFor, Servable, Tiles, Layout, UsedSize, AskedSize, Filed, Ranked, Book,
         Merged, Coalesce, IndexOf, Shmem.Picked;
    PageIsWhole(4096);
    ThreeClasses(32, 48, 8);
    var created := Create(4096, 32, 48, 0, 8, 4096, true);
    shm := created.shm;
    assert shm.Region() == [Free(3744)];
    ClassesOfWitness(3744);
    shm.ServedExactly(8);
    assert FreeAtLeast(shm.Region(), shm.lv, 8, false) by { assert shm.Region()[0].size >= 8; }
    var first, i := shm.Alloc(8);
    assert shm.Region() == [Busy(8, 8), Free(3672)];
    shm.FirstBlock();
    shm.ServedExactly(64);
    assert FreeAtLeast(shm.Region(), shm.lv, 64, false) by { assert shm.Region()[1].size >= 64; }
    var second, j := shm.Alloc(64);
    assert shm.Region() == [Busy(8, 8), Busy(64, 64), Free(3544)];
    shm.FirstBlock();
    var error := shm.FreeBlock(first.addr);
    FirstGivenBack([Busy(8, 8), Busy(64, 64), Free(3544)], 3544);
  }

  /** With a least size of 32, a free block of 8 bytes then hides one of 3544 from a request for 16. */
  method SmallRequestRefused() returns (shm: Shmem, r: Outcome)
    ensures fresh(shm) && shm.Valid() && shm.Region() == [Free(8), Busy(64, 64), Free(3544)]
    ensures r == Failed(AllocFoundNoFixed)
  {
    hide Align, ListFor, Servable, Tiles, Layout, UsedSize, AskedSize, Filed, Ranked, Book, Merged, Shmem.Picked;
    shm := SmallBlockGivenBack();
    ClassesOfWitness(3544);
    shm.ServedExactly(16);
    assert FreeAtLeast(shm.Region(), shm.lv, 0, true) by { assert shm.Region()[0].size == 8; }
    shm.InUseExactly();
    ghost var i;
    r, i := shm.Alloc(16);
  }
}
