/**
  The size classes of src/core/shs_shmem.cc:70-124.

  A block is filed under a class rounded down, a request is looked up under a class
  rounded up.  `Bound(l, k)` is the least size that belongs to class k; the two index
  functions are its two adjoints, which is what makes the lookup right.
*/
module SizeClasses {
  import opened Arithmetic

  /** The fields of shs_shmem_t that never change. */
  datatype Levels = Levels(minSize: nat, factor: nat, count: nat, linear: bool) {
    ghost predicate Ok() {
      minSize > 0 && count > 0 && (linear ==> factor > 0)
    }
  }

  ghost function Bound(l: Levels, k: nat): nat {
    if l.linear then l.minSize + k * l.factor else l.minSize * Pow2(k)
  }

  function RoundedUp(x: nat, y: nat): nat
    requires y > 0
  {
    x / y + if x % y == 0 then 0 else 1
  }

  ghost function InsertClass(l: Levels, size: nat): nat
    requires l.Ok()
  {
    if size <= l.minSize then 0
    else if l.linear then (size - l.minSize) / l.factor
    else FloorLog2(size / l.minSize)
  }

  ghost function AllocClass(l: Levels, size: nat): nat
    requires l.Ok()
  {
    if size <= l.minSize then 0
    else if l.linear then RoundedUp(size - l.minSize, l.factor)
    else CeilLog2(RoundedUp(size, l.minSize))
  }

  lemma RoundedUpAtMost(x: nat, y: nat, k: nat)
    requires y > 0
    ensures RoundedUp(x, y) <= k <==> x <= k * y
  {
    QuotientAtLeast(x, y, k);
    QuotientAtLeast(x, y, k + 1);
    assert x == x / y * y + x % y;
    if x / y == k {
      assert x / y * y == k * y;
    }
    if x == k * y {
      QuotientAtLeast(k * y, y, k);
      QuotientAtLeast(k * y, y, k + 1);
      assert (k + 1) * y == k * y + y;
    }
  }

  lemma LinearAtLeast(l: Levels, size: nat, k: nat)
    requires l.Ok() && l.linear && k >= 1
    ensures InsertClass(l, size) >= k <==> size >= Bound(l, k)
  {
    Multiple(k, l.factor);
    if size > l.minSize { QuotientAtLeast(size - l.minSize, l.factor, k); }
  }

  lemma Multiple(k: nat, y: nat)
    requires k >= 1
    ensures k * y >= y
  {
    assert (k - 1) * y >= 0;
  }

  lemma ExponentialAtLeast(l: Levels, size: nat, k: nat)
    requires l.Ok() && !l.linear && k >= 1
    ensures InsertClass(l, size) >= k <==> size >= Bound(l, k)
  {
    if size > l.minSize {
      QuotientAtLeast(size, l.minSize, Pow2(k));
      QuotientAtLeast(size, l.minSize, 1);
      FloorLog2AtLeast(size / l.minSize, k);
      assert Pow2(k) * l.minSize == l.minSize * Pow2(k);
    } else {
      Doubled(l.minSize, k);
    }
  }

  lemma Doubled(x: nat, k: nat)
    requires k >= 1
    ensures x * Pow2(k) >= 2 * x
  {
    assert Pow2(k) >= 2;
    assert x * (Pow2(k) - 2) >= 0;
  }

  /** A block reaches class `k` exactly if it has the least size of that class. */
  lemma InsertClassAtLeast(l: Levels, size: nat, k: nat)
    requires l.Ok() && k >= 1
    ensures InsertClass(l, size) >= k <==> size >= Bound(l, k)
  {
    hide InsertClass, Bound;
    if l.linear { LinearAtLeast(l, size, k); } else { ExponentialAtLeast(l, size, k); }
  }

  /** A request is looked up at class `k` or below exactly if that class can only hold large enough blocks. */
  lemma AllocClassAtMost(l: Levels, size: nat, k: nat)
    requires l.Ok()
    ensures AllocClass(l, size) <= k <==> size <= Bound(l, k)
  {
    if l.linear {
      assert k * l.factor >= 0;
      if size > l.minSize { RoundedUpAtMost(size - l.minSize, l.factor, k); }
    } else {
      assert l.minSize * Pow2(k) >= l.minSize by { assert l.minSize * (Pow2(k) - 1) >= 0; }
      if size > l.minSize {
        RoundedUpAtMost(size, l.minSize, Pow2(k));
        CeilLog2AtMost(RoundedUp(size, l.minSize), k);
        assert Pow2(k) * l.minSize == l.minSize * Pow2(k);
      }
    }
  }

  /** Rounding agrees: a block from the class of a request, or above, is large enough for it. */
  lemma RoundingAgrees(l: Levels, block: nat, request: nat)
    requires l.Ok() && request > l.minSize
    requires InsertClass(l, block) >= AllocClass(l, request)
    ensures block >= request
  {
    var k := AllocClass(l, request);
    AllocClassAtMost(l, request, k);
    AllocClassAtMost(l, request, 0);
    assert k >= 1 by {
      assert Pow2(0) == 1;
      assert Bound(l, 0) == l.minSize;
    }
    InsertClassAtLeast(l, block, k);
  }

  /** A block in a higher class is the larger block. */
  lemma HigherIsLarger(l: Levels, small: nat, large: nat)
    requires l.Ok() && InsertClass(l, small) < InsertClass(l, large)
    ensures small < large
  {
    var k := InsertClass(l, large);
    InsertClassAtLeast(l, large, k);
    InsertClassAtLeast(l, small, k);
  }

  /** shs_shmem_get_alloc_index. */
  method AllocIndex(l: Levels, size: nat) returns (id: nat)
    requires l.Ok()
    ensures id == AllocClass(l, size)
  {
    if size <= l.minSize {
      return 0;
    }
    if l.linear {
      id := (size - l.minSize) / l.factor;
      if (size - l.minSize) % l.factor != 0 {
        id := id + 1;
      }
    } else {
      var power := size / l.minSize;
      if size % l.minSize != 0 {
        power := power + 1;
      }
      id := DfsLog2(power, true);
    }
  }

  /** shs_shmem_get_insert_index. */
  method InsertIndex(l: Levels, size: nat) returns (id: nat)
    requires l.Ok()
    ensures id == InsertClass(l, size)
  {
    if size <= l.minSize {
      return 0;
    }
    if l.linear {
      id := (size - l.minSize) / l.factor;
    } else {
      var power := size / l.minSize;
      id := DfsLog2(power, false);
    }
  }
}
