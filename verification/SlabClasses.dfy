/**
  The class table of src/core/shs_slabs.cc and the lookup of lines 29-106.
*/
module SlabClasses {
  import opened Arithmetic

  /** sizeof(chunk_link_t) with 64-bit pointers. */
  const LINK: nat := 32
  const LINEAR_FACTOR: nat := 1024
  const INVALID: int := -1

  datatype Table = Table(linear: bool, minSize: nat, count: nat)

  /** The largest request that class `i` is made for. */
  function Span(t: Table, i: nat): nat {
    if t.linear then t.minSize + i * LINEAR_FACTOR else t.minSize * Pow2(i)
  }

  /** slabclass[i].size: the largest request, a link and the alignment. */
  function ClassSize(t: Table, i: nat): nat {
    Align(Span(t, i) + LINK)
  }

  /** The room that a request needs. */
  function Room(size: nat): nat {
    Align(size + LINK)
  }

  /** Behind its link a chunk has room for the largest request of its class, rounded up to the size of a pointer. */
  lemma ChunkRoom(t: Table, i: nat)
    ensures Span(t, i) <= ClassSize(t, i) - LINK < Span(t, i) + 8 && ClassSize(t, i) % 8 == 0
    ensures Span(t, 0) == t.minSize
    ensures Span(t, i + 1) == if t.linear then Span(t, i) + LINEAR_FACTOR else 2 * Span(t, i)
  {
    hide Align;
    assert Align(Span(t, i) + LINK) < Span(t, i) + LINK + 8;
    if t.linear {
    } else {
      assert Pow2(0) == 1 && Pow2(i + 1) == 2 * Pow2(i);
      assert t.minSize * (2 * Pow2(i)) == 2 * (t.minSize * Pow2(i));
    }
  }

  lemma SpanMonotone(t: Table, i: nat, j: nat)
    requires i <= j
    ensures Span(t, i) <= Span(t, j)
  {
    if !t.linear {
      Pow2Monotone(i, j);
      assert t.minSize * Pow2(j) - t.minSize * Pow2(i) == t.minSize * (Pow2(j) - Pow2(i));
    }
  }

  lemma ClassesMonotone(t: Table, i: nat, j: nat)
    requires i <= j
    ensures ClassSize(t, i) <= ClassSize(t, j)
  {
    SpanMonotone(t, i, j);
    AlignMonotone(Span(t, i) + LINK, Span(t, j) + LINK);
  }

  lemma ClassIsPositive(t: Table, i: nat)
    ensures ClassSize(t, i) >= LINK
  {
  }

  /**
    The requests that the lookup turns away: none, one that is too large, or one between two classes of a power table.
  */
  ghost predicate TurnedAway(t: Table, size: nat)
    requires t.count >= 1
  {
    || size == 0 || Room(size) > ClassSize(t, t.count - 1)
    || (!t.linear && t.count == 2 && ClassSize(t, 0) < Room(size) < ClassSize(t, 1))
  }

  /** Every other table serves every request up to its largest class. */
  lemma OnlyTwoClassesTurnAway(t: Table, size: nat)
    requires t.count >= 1 && (t.linear || t.count != 2) && size > 0 && size <= Span(t, t.count - 1)
    ensures !TurnedAway(t, size)
  {
    AlignMonotone(size + LINK, Span(t, t.count - 1) + LINK);
  }

  /** A power table of two classes, of 64 and 128 bytes, turns a request for 100 bytes away. */
  lemma TwoClassesTurnAway()
    ensures Room(100) <= ClassSize(Table(false, 64, 2), 1) && TurnedAway(Table(false, 64, 2), 100)
  {
    assert Span(Table(false, 64, 2), 0) == 64 && Span(Table(false, 64, 2), 1) == 128;
  }

  /** shs_slabs_clsid with rounding up: the chosen class holds the request, and the one before it has no spare room. */
  method ClsId(t: Table, size: nat) returns (id: int)
    requires t.count >= 2
    ensures id == INVALID <==> TurnedAway(t, size)
    ensures id != INVALID ==> 0 <= id < t.count && Room(size) <= ClassSize(t, id)
    ensures id > 0 ==> ClassSize(t, id - 1) <= Room(size)
  {
    if size == 0 {
      return INVALID;
    }
    var maxId := t.count - 1;
    var all := Room(size);
    ClassesMonotone(t, 0, maxId);
    if all > ClassSize(t, maxId) {
      return INVALID;
    }
    if all <= ClassSize(t, 0) {
      return 0;
    }
    if all == ClassSize(t, maxId) {
      ClassesMonotone(t, maxId - 1, maxId);
      return maxId;
    }
    if t.linear {
      id := LinearId(t, size);
    } else {
      id := SearchPower(t, all);
    }
  }

  /** The class of a request in a table of equal steps: lines 63-74. */
  method LinearId(t: Table, size: nat) returns (id: nat)
    requires t.linear && t.count >= 2 && ClassSize(t, 0) < Room(size) < ClassSize(t, t.count - 1)
    ensures id < t.count && Room(size) <= ClassSize(t, id) && (id > 0 ==> ClassSize(t, id - 1) <= Room(size))
  {
    hide ClassSize, Room;
    BetweenSpans(t, size);
    id := (size - t.minSize) / LINEAR_FACTOR;
    if (size - t.minSize) % LINEAR_FACTOR != 0 {
      id := id + 1;
    }
    RoomAtMost(t, size, id);
    if id > 0 { RoomAtLeast(t, size, id - 1); }
  }

  lemma RoomAtMost(t: Table, size: nat, i: nat)
    requires size <= Span(t, i)
    ensures Room(size) <= ClassSize(t, i)
  {
    AlignMonotone(size + LINK, Span(t, i) + LINK);
  }

  lemma RoomAtLeast(t: Table, size: nat, i: nat)
    requires Span(t, i) <= size
    ensures ClassSize(t, i) <= Room(size)
  {
    AlignMonotone(Span(t, i) + LINK, size + LINK);
  }

  lemma BetweenSpans(t: Table, size: nat)
    requires t.count >= 1 && ClassSize(t, 0) < Room(size) < ClassSize(t, t.count - 1)
    ensures Span(t, 0) < size < Span(t, t.count - 1)
  {
    if size <= Span(t, 0) { RoomAtMost(t, size, 0); }
    if size >= Span(t, t.count - 1) { RoomAtLeast(t, size, t.count - 1); }
  }

  /** Lines 76-105: the binary search; with three classes or more it never runs out. */
  method SearchPower(t: Table, all: nat) returns (id: int)
    requires t.count >= 2 && ClassSize(t, 0) < all < ClassSize(t, t.count - 1)
    ensures id == INVALID <==> t.count == 2
    ensures id != INVALID ==> 0 <= id < t.count && all <= ClassSize(t, id)
    ensures id > 0 ==> ClassSize(t, id - 1) <= all
  {
    hide ClassSize;
    var low, high := 1, t.count - 2;
    while low <= high
      invariant 1 <= low <= t.count - 1 && 0 <= high <= t.count - 2 && (t.count > 2 ==> low <= high)
      invariant ClassSize(t, low - 1) < all <= ClassSize(t, high + 1)
      decreases high - low
    {
      var mid := (low + high) / 2;
      if all <= ClassSize(t, mid) {
        if all > ClassSize(t, mid - 1) {
          return mid;
        } else if all == ClassSize(t, mid - 1) {
          if mid > 1 { ClassesMonotone(t, mid - 2, mid - 1); }
          return mid - 1;
        }
        ClassesMonotone(t, low - 1, mid - 1);
        high := mid - 1;
      } else {
        if all <= ClassSize(t, mid + 1) {
          return mid + 1;
        }
        low := mid + 1;
        ClassesMonotone(t, mid + 1, high + 1);
      }
    }
    id := INVALID;
  }

  /** The number of classes that shs_slabs_create makes: lines 133-172. */
  method ClassCount(linear: bool, minSize: nat, maxSize: nat) returns (count: nat)
    requires minSize > 0 && maxSize / minSize >= 2
    ensures count >= 2
    ensures forall size: nat :: size <= maxSize ==> Room(size) <= ClassSize(Table(linear, minSize, count), count - 1)
    ensures var t := Table(linear, minSize, count); Span(t, count - 2) < maxSize <= Span(t, count - 1)
  {
    QuotientAtLeast(maxSize, minSize, 2);
    if linear {
      count := (maxSize - minSize) / LINEAR_FACTOR;
      if (maxSize - minSize) % LINEAR_FACTOR != 0 {
        count := count + 1;
      }
    } else {
      var power := maxSize / minSize;
      if maxSize % minSize != 0 {
        power := power + 1;
      }
      count := DfsLog2(power, true);
      CeilLog2AtMost(power, count);
      CeilLog2AtMost(power, 0);
      EnoughRoom(minSize, maxSize, power, Pow2(count));
      CeilLog2AtMost(power, count - 1);
      TooLittleRoom(minSize, maxSize, power, Pow2(count - 1));
    }
    count := count + 1;
    forall size: nat | size <= maxSize
      ensures Room(size) <= ClassSize(Table(linear, minSize, count), count - 1)
    {
      AlignMonotone(size + LINK, Span(Table(linear, minSize, count), count - 1) + LINK);
    }
  }

  lemma TooLittleRoom(x: nat, y: nat, power: nat, p: nat)
    requires x > 0 && power == y / x + (if y % x == 0 then 0 else 1) && p < power
    ensures x * p < y
  {
    assert y == x * (y / x) + y % x;
    assert x * (power - 1) - x * p == x * (power - 1 - p) >= 0;
    if y % x == 0 {
      assert x * power == x * (power - 1) + x;
    }
  }

  lemma EnoughRoom(x: nat, y: nat, power: nat, p: nat)
    requires x > 0 && power == y / x + (if y % x == 0 then 0 else 1) && power <= p
    ensures y <= x * p
  {
    assert y == x * (y / x) + y % x;
    assert x * p - x * power == x * (p - power);
    assert x * (y / x + 1) == x * (y / x) + x;
  }
}
