/**
  Powers of two, division, and shs_math_dfslog2 of src/core/shs_math.cc.
*/
module Arithmetic {

  function Pow2(n: nat): (p: nat)
    ensures p > 0
  {
    if n == 0 then 1 else 2 * Pow2(n - 1)
  }

  lemma {:induction false} Pow2Monotone(a: nat, b: nat)
    requires a <= b
    ensures Pow2(a) <= Pow2(b)
    decreases b
  {
    if a < b { Pow2Monotone(a, b - 1); }
  }

  lemma MulMonotone(a: nat, b: nat)
    requires a <= b
    ensures a * a <= b * b
  {
    assert b * b - a * a == (b - a) * (b + a);
  }

  lemma {:induction false} Pow2Square(h: nat)
    ensures Pow2(2 * h) == Pow2(h) * Pow2(h)
  {
    if h > 0 {
      Pow2Square(h - 1);
      assert Pow2(2 * h) == 4 * Pow2(2 * (h - 1));
    }
  }

  // ----- division -----

  lemma QuotientAtLeast(x: nat, y: nat, k: nat)
    requires y > 0
    ensures x / y >= k <==> x >= k * y
  {
    var q, r := x / y, x % y;
    assert x == q * y + r && r < y;
    if q >= k {
      assert (q - k) * y >= 0;
    } else {
      assert (k - q - 1) * y >= 0;
    }
  }

  lemma QuotientIs(x: nat, y: nat, q: nat, r: nat)
    requires y > 0 && x == q * y + r && r < y
    ensures x / y == q
  {
    QuotientAtLeast(x, y, q);
    QuotientAtLeast(x, y, q + 1);
    assert (q + 1) * y == q * y + y;
  }

  lemma RemainderIs(x: nat, y: nat, q: nat, r: nat)
    requires y > 0 && x == q * y + r && r < y
    ensures x % y == r
  {
    QuotientIs(x, y, q, r);
    assert x == x / y * y + x % y;
  }

  lemma NextInCircle(x: nat, y: nat)
    requires x < y
    ensures (x + 1) % y == if x + 1 < y then x + 1 else 0
  {
    if x + 1 < y { RemainderIs(x + 1, y, 0, x + 1); } else { RemainderIs(x + 1, y, 1, 0); }
  }

  lemma MulStep(a: nat, c: nat)
    ensures (a + 1) * c == a * c + c
  {
  }

  lemma MulMonotoneLeft(a: nat, b: nat, c: nat)
    requires a <= b
    ensures a * c <= b * c
  {
    assert b * c - a * c == (b - a) * c;
  }

  /** Any `y` consecutive numbers pass through every remainder. */
  lemma RemainderReached(start: nat, y: nat, r: nat) returns (k: nat)
    requires r < y
    ensures start <= k < start + y && k % y == r
  {
    var q, s := start / y, start % y;
    assert start == q * y + s;
    if r >= s {
      k := start + (r - s);
      RemainderIs(k, y, q, r);
    } else {
      k := start + (r - s + y);
      assert (q + 1) * y == q * y + y;
      RemainderIs(k, y, q + 1, r);
    }
  }

  /** SHS_MATH_ALIGNMENT to the size of a pointer. */
  function Align(x: nat): (y: nat)
    ensures y % 8 == 0 && x <= y < x + 8
  {
    if x % 8 != 0 then x + (8 - x % 8) else x
  }

  lemma AlignMonotone(x: nat, y: nat)
    requires x <= y
    ensures Align(x) <= Align(y)
  {
  }

  // ----- logarithms -----

  /** The exponent of the highest one bit of `x`. */
  function FloorLog2(x: nat): (k: nat) {
    if x <= 1 then 0 else 1 + FloorLog2(x / 2)
  }

  /** The least exponent whose power of two reaches `x`. */
  function CeilLog2(x: nat): (k: nat) {
    if x <= 1 then 0 else 1 + CeilLog2((x + 1) / 2)
  }

  lemma {:induction false} FloorLog2AtLeast(x: nat, k: nat)
    requires x >= 1
    ensures FloorLog2(x) >= k <==> x >= Pow2(k)
  {
    if k > 0 && x > 1 {
      FloorLog2AtLeast(x / 2, k - 1);
    }
  }

  lemma {:induction false} CeilLog2AtMost(x: nat, k: nat)
    ensures CeilLog2(x) <= k <==> x <= Pow2(k)
  {
    if k > 0 && x > 1 {
      CeilLog2AtMost((x + 1) / 2, k - 1);
    }
  }

  /** Bitwise and of two non-negative integers. */
  function BitAnd(x: nat, y: nat): nat {
    if x == 0 || y == 0 then 0
    else 2 * BitAnd(x / 2, y / 2) + (if x % 2 == 1 && y % 2 == 1 then 1 else 0)
  }

  lemma {:induction false} BitAndSelf(x: nat)
    ensures BitAnd(x, x) == x
  {
    if x > 0 { BitAndSelf(x / 2); }
  }

  /** The test `x & (x - 1)` tells exactly the powers of two. */
  lemma {:induction false} LowBitTest(x: nat)
    requires x >= 1
    ensures BitAnd(x, x - 1) == 0 <==> x == Pow2(FloorLog2(x))
  {
    if x > 1 {
      if x % 2 == 0 {
        LowBitTest(x / 2);
        assert (x - 1) / 2 == x / 2 - 1;
      } else {
        assert (x - 1) / 2 == x / 2;
        BitAndSelf(x / 2);
      }
    }
  }

  /** Rounding up differs from rounding down by one, except at powers of two. */
  lemma CeilIsFloorPlusOne(x: nat)
    requires x >= 1
    ensures CeilLog2(x) == FloorLog2(x) + if x == Pow2(FloorLog2(x)) then 0 else 1
  {
    var f, c := FloorLog2(x), CeilLog2(x);
    FloorLog2AtLeast(x, f);
    FloorLog2AtLeast(x, f + 1);
    CeilLog2AtMost(x, f);
    CeilLog2AtMost(x, f + 1);
    assert c > f <==> x != Pow2(f);
  }

  const SIZE_MAX: nat := 0xFFFF_FFFF_FFFF_FFFF

  /** shs_math_dfslog2; `x - 1` wraps around for zero. */
  method DfsLog2(x: nat, up: bool) returns (i: nat)
    ensures i == if up then CeilLog2(x) else FloorLog2(x)
  {
    i := 0;
    if up && BitAnd(x, if x == 0 then SIZE_MAX else x - 1) != 0 {
      i := i + 1;
    }
    ghost var first := i;
    if x > 0 {
      LowBitTest(x);
      CeilIsFloorPlusOne(x);
    }
    var y := x;
    while y > 1
      invariant i + FloorLog2(y) == first + FloorLog2(x)
    {
      i := i + 1;
      y := y / 2;
    }
  }
}
