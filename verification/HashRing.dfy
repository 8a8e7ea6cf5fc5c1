/**
  The search on the consistent-hash ring of src/downstream/host.cc:368-397.

  A ring is the list of its offsets.  The search is a recursion over index bounds that
  peeks at the neighbours of the middle; an index past the vector is reported as `Overrun`.
*/
module HashRing {
  import opened Arithmetic

  datatype Hit = Index(i: nat) | Overrun

  ghost predicate Increasing(o: seq<nat>) {
    forall i, j :: 0 <= i < j < |o| ==> o[i] < o[j]
  }

  /** GetHashIdx. */
  function GetHashIdx(o: seq<nat>, start: nat, end: nat, hash: nat): (r: Hit)
    requires start <= end <= |o|
    decreases end - start
  {
    var middle := (start + end) / 2;
    if middle >= |o| then Overrun
    else if hash == o[middle] then Index(middle)
    else if hash < o[middle] then
      if middle == start || hash > o[middle - 1] then Index(middle)
      else GetHashIdx(o, start, middle - 1, hash)
    else if middle == start then Index(middle + 1)
    else if middle + 1 >= |o| then Overrun
    else if hash < o[middle + 1] then Index(middle + 1)
    else GetHashIdx(o, middle + 1, end, hash)
  }

  /** `i` is the first node at or after `hash`. */
  ghost predicate FirstAtLeast(o: seq<nat>, hash: nat, i: nat) {
    i < |o| && hash <= o[i] && forall j :: 0 <= j < i ==> o[j] < hash
  }

  lemma FirstFrom(o: seq<nat>, hash: nat, i: nat)
    requires Increasing(o) && i < |o| && hash <= o[i] && (i > 0 ==> o[i - 1] < hash)
    ensures FirstAtLeast(o, hash, i)
  {
  }

  ghost predicate Hits(o: seq<nat>, hash: nat, r: Hit) {
    r.Index? && r.i < |o| && hash <= o[r.i] && (r.i > 0 ==> o[r.i - 1] < hash)
  }

  /** One step of the search at `middle`. */
  lemma SearchStep(o: seq<nat>, start: nat, end: nat, hash: nat, middle: nat)
    requires start <= end <= |o| && middle == (start + end) / 2 < |o|
    requires hash > o[middle] ==> middle + 1 < |o|
    ensures start <= middle <= end && (middle != start ==> middle + 1 <= end)
    ensures GetHashIdx(o, start, end, hash) ==
      if hash == o[middle] then Index(middle)
      else if hash < o[middle] then
        (if middle == start || hash > o[middle - 1] then Index(middle) else GetHashIdx(o, start, middle - 1, hash))
      else if middle == start || hash < o[middle + 1] then Index(middle + 1)
      else GetHashIdx(o, middle + 1, end, hash)
  {
  }

  lemma Ascends(o: seq<nat>, i: nat)
    requires Increasing(o) && i < |o|
    ensures i > 0 ==> o[i - 1] < o[i]
  {
  }

  lemma {:induction false} SearchFinds(o: seq<nat>, start: nat, end: nat, hash: nat)
    requires Increasing(o) && start <= end <= |o| && start < |o|
    requires start > 0 ==> o[start - 1] < hash
    requires hash <= o[if end < |o| then end else |o| - 1]
    ensures Hits(o, hash, GetHashIdx(o, start, end, hash))
    decreases end - start
  {
    hide Increasing, GetHashIdx;
    var middle := (start + end) / 2;
    assert start <= middle < |o| && middle <= end;
    Ascends(o, middle);
    SearchStep(o, start, end, hash, middle);
    if hash < o[middle] && middle != start && hash <= o[middle - 1] {
      SearchFinds(o, start, middle - 1, hash);
    } else if hash > o[middle] && middle != start && hash >= o[middle + 1] {
      SearchFinds(o, middle + 1, end, hash);
    }
  }

  /** Ring sizes for which the search ends on the last node for every larger hash. */
  predicate WrapsSafely(n: nat) {
    n == 1 || (n > 2 && WrapsSafely((n + 1) / 2 - 1))
  }

  lemma HalvedRange(n: nat, k: nat, p: nat)
    requires n == 2 * k + 1 || n == 2 * k + 2
    ensures 2 * (k + 2) <= 3 * (2 * p) <==> 2 * (n + 2) <= 3 * (4 * p)
  {
  }

  /** The same in closed form: n + 1 lies in the lower half between two powers of two. */
  lemma {:induction false} WrapsSafelyExactly(n: nat)
    ensures WrapsSafely(n) <==> 2 * (n + 2) <= 3 * Pow2(FloorLog2(n + 1))
  {
    if n > 2 {
      var k := (n + 1) / 2 - 1;
      WrapsSafelyExactly(k);
      assert k + 1 == (n + 1) / 2 >= 2;
      var p := Pow2(FloorLog2(k + 1) - 1);
      assert Pow2(FloorLog2(k + 1)) == 2 * p && Pow2(FloorLog2(n + 1)) == 4 * p;
      assert WrapsSafely(n) <==> WrapsSafely(k);
      assert n == 2 * k + 1 || n == 2 * k + 2;
      hide WrapsSafely, FloorLog2, Pow2;
      HalvedRange(n, k, p);
    } else {
      assert FloorLog2(1) == 0 && FloorLog2(2) == 1 && FloorLog2(3) == 1;
      assert Pow2(0) == 1 && Pow2(1) == 2;
    }
  }

  lemma {:induction false} BeyondLast(o: seq<nat>, start: nat, hash: nat)
    requires start <= |o| && o != [] && forall j :: 0 <= j < |o| ==> o[j] < hash
    ensures GetHashIdx(o, start, |o|, hash) == if WrapsSafely(|o| - start) then Index(|o|) else Overrun
    decreases |o| - start
  {
    var middle := (start + |o|) / 2;
    if middle + 1 < |o| && middle != start {
      BeyondLast(o, middle + 1, hash);
      assert |o| - (middle + 1) == (|o| - start + 1) / 2 - 1;
    }
  }

  /** The search stays inside the vector exactly if the hash is not beyond the last node or the size wraps. */
  lemma StaysInBounds(o: seq<nat>, hash: nat)
    requires Increasing(o) && o != []
    ensures var r := GetHashIdx(o, 0, |o|, hash);
      && (r.Index? <==> hash <= o[|o| - 1] || WrapsSafely(|o|))
      && (hash <= o[|o| - 1] ==> r.Index? && FirstAtLeast(o, hash, r.i))
      && (hash > o[|o| - 1] && r.Index? ==> r.i == |o|)
  {
    if hash <= o[|o| - 1] {
      SearchFinds(o, 0, |o|, hash);
      FirstFrom(o, hash, GetHashIdx(o, 0, |o|, hash).i);
    } else {
      BeyondLast(o, 0, hash);
    }
  }

  /** A single master's 200 nodes do not wrap: a hash beyond the last of them overruns the vector. */
  lemma OneMasterOverruns(o: seq<nat>, hash: nat)
    requires Increasing(o) && |o| == 200 && hash > o[199]
    ensures GetHashIdx(o, 0, 200, hash) == Overrun
  {
    StaysInBounds(o, hash);
    assert !WrapsSafely(2) && !WrapsSafely(5) && !WrapsSafely(11) && !WrapsSafely(24) && !WrapsSafely(49);
    assert !WrapsSafely(99) && !WrapsSafely(200);
  }

  // ----- evenly spaced rings -----

  ghost predicate Spaced(o: seq<nat>, avg: nat) {
    forall l :: 0 <= l < |o| ==> o[l] == (l + 1) * avg
  }

  lemma MulIncreasing(a: nat, b: nat, c: nat)
    requires a < b && c >= 1
    ensures a * c < b * c
  {
    assert b * c - a * c == (b - a) * c;
    assert (b - a) * c >= 1;
  }

  lemma SpacedIncreasing(o: seq<nat>, avg: nat)
    requires Spaced(o, avg) && avg >= 1
    ensures Increasing(o)
  {
    forall i, j | 0 <= i < j < |o|
      ensures o[i] < o[j]
    {
      MulIncreasing(i + 1, j + 1, avg);
    }
  }

  /** The node that serves a hash on an evenly spaced ring. */
  lemma SpacedHit(o: seq<nat>, avg: nat, l: nat, k: nat)
    requires Spaced(o, avg) && l < |o| && 1 <= k <= avg
    ensures GetHashIdx(o, 0, |o|, l * avg + k) == Index(l)
  {
    var hash := l * avg + k;
    assert o[l] == (l + 1) * avg == l * avg + avg;
    assert l > 0 ==> o[l - 1] == l * avg;
    SpacedIncreasing(o, avg);
    StaysInBounds(o, hash);
    FirstFrom(o, hash, l);
  }

  // ----- who owns what -----

  ghost function CountOf(owners: seq<nat>, m: nat): nat {
    if owners == [] then 0
    else CountOf(owners[..|owners| - 1], m) + if owners[|owners| - 1] == m then 1 else 0
  }

  lemma {:induction false} CountAppend(a: seq<nat>, b: seq<nat>, m: nat)
    ensures CountOf(a + b, m) == CountOf(a, m) + CountOf(b, m)
  {
    if b == [] {
      assert a + b == a;
    } else {
      CountAppend(a, b[..|b| - 1], m);
      assert (a + b)[..|a + b| - 1] == a + b[..|b| - 1];
    }
  }

  lemma CountInserted(s: seq<nat>, p: nat, x: nat, m: nat)
    requires p <= |s|
    ensures CountOf(s[..p] + [x] + s[p..], m) == CountOf(s, m) + if x == m then 1 else 0
  {
    CountAppend(s[..p] + [x], s[p..], m);
    CountAppend(s[..p], [x], m);
    CountAppend(s[..p], s[p..], m);
    assert s == s[..p] + s[p..];
    assert CountOf([x], m) == CountOf([], m) + if x == m then 1 else 0 by { assert [x][..0] == []; }
  }

  /** How many of the hash values 1..top the master `m` serves. */
  ghost function Served(o: seq<nat>, owners: seq<nat>, m: nat, top: nat): nat
    requires |o| == |owners|
  {
    if top == 0 then 0
    else
      var r := GetHashIdx(o, 0, |o|, top);
      Served(o, owners, m, top - 1) + if r.Index? && r.i < |owners| && owners[r.i] == m then 1 else 0
  }

  lemma {:induction false} ServedByOne(o: seq<nat>, owners: seq<nat>, avg: nat, m: nat, l: nat, k: nat)
    requires |o| == |owners| && Spaced(o, avg) && l < |o| && k <= avg
    ensures Served(o, owners, m, l * avg + k) == Served(o, owners, m, l * avg) + if owners[l] == m then k else 0
  {
    if k > 0 {
      ServedByOne(o, owners, avg, m, l, k - 1);
      SpacedHit(o, avg, l, k);
    }
  }

  lemma {:induction false} ServedByFirst(o: seq<nat>, owners: seq<nat>, avg: nat, m: nat, l: nat)
    requires |o| == |owners| && Spaced(o, avg) && l <= |o|
    ensures Served(o, owners, m, l * avg) == CountOf(owners[..l], m) * avg
  {
    if l > 0 {
      ServedByFirst(o, owners, avg, m, l - 1);
      ServedByOne(o, owners, avg, m, l - 1, avg);
      MulStep(l - 1, avg);
      var c := CountOf(owners[..l - 1], m);
      assert CountOf(owners[..l], m) == c + if owners[l - 1] == m then 1 else 0 by {
        assert owners[..l][..l - 1] == owners[..l - 1];
      }
      hide Served, CountOf;
      MulStep(c, avg);
    }
  }

  /** Each master serves its share: `avg` hash values for each of its nodes. */
  lemma FairShare(o: seq<nat>, owners: seq<nat>, avg: nat, m: nat)
    requires |o| == |owners| && Spaced(o, avg)
    ensures Served(o, owners, m, |o| * avg) == CountOf(owners, m) * avg
  {
    ServedByFirst(o, owners, avg, m, |o|);
    assert owners[..|o|] == owners;
  }
}
