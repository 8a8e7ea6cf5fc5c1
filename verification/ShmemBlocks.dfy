/**
  The block list of src/core/shs_shmem.cc by value.

  `order` lists header addresses in memory order and `h` holds the headers.  `Layout`
  forgets the addresses: it is what a caller can see of the region, and tiling makes the
  addresses a consequence of it.
*/
module ShmemBlocks {
  import opened Basics
  import opened Lists
  import opened SizeClasses

  /** sizeof(struct storage) with 64-bit pointers. */
  const HEADER: nat := 64

  /** struct storage without its list links; `home` is free_list_head. */
  datatype Storage = Storage(size: nat, alloc: bool, act: nat, home: Option<nat>)

  type Headers = map<int, Storage>

  datatype Segment = Busy(size: nat, act: nat) | Free(size: nat)

  function SegmentOf(s: Storage): Segment {
    if s.alloc then Busy(s.size, s.act) else Free(s.size)
  }

  /** What the memory shows at the address `a`. */
  ghost function SegmentAt(h: Headers, a: int): Segment {
    if a in h then SegmentOf(h[a]) else Free(0)
  }

  ghost function Layout(order: seq<int>, h: Headers): (l: seq<Segment>)
    ensures |l| == |order|
    ensures forall i :: 0 <= i < |l| ==> l[i] == SegmentAt(h, order[i])
  {
    if order == [] then [] else [SegmentAt(h, order[0])] + Layout(order[1..], h)
  }

  /** The blocks fill the region from `lo` to `hi` without gaps. */
  ghost predicate Tiles(order: seq<int>, h: Headers, lo: int, hi: int) {
    if order == [] then lo == hi
    else order[0] == lo && lo in h && Tiles(order[1..], h, lo + HEADER + h[lo].size, hi)
  }

  /** Headers and payloads together. */
  ghost function Extent(l: seq<Segment>): nat {
    if l == [] then 0 else HEADER + l[0].size + Extent(l[1..])
  }

  function UsedBy(s: Segment): nat {
    if s.Busy? then s.size else 0
  }

  function AskedBy(s: Segment): nat {
    if s.Busy? then s.act else 0
  }

  /** What used_size should be. */
  ghost function UsedSize(l: seq<Segment>): nat {
    if l == [] then 0 else UsedBy(l[0]) + UsedSize(l[1..])
  }

  /** The bytes in free blocks. */
  ghost function FreeSize(l: seq<Segment>): nat {
    if l == [] then 0 else (if l[0].Free? then l[0].size else 0) + FreeSize(l[1..])
  }

  lemma {:induction false} ExtentParts(l: seq<Segment>)
    ensures Extent(l) == UsedSize(l) + FreeSize(l) + HEADER * |l|
  {
    if l != [] { ExtentParts(l[1..]); }
  }

  /** What reqs_size should be. */
  ghost function AskedSize(l: seq<Segment>): nat {
    if l == [] then 0 else AskedBy(l[0]) + AskedSize(l[1..])
  }

  /** No two neighbours are both free. */
  ghost predicate Merged(l: seq<Segment>) {
    forall i :: 0 <= i < |l| - 1 ==> l[i].Busy? || l[i + 1].Busy?
  }

  /** No free block has `n` bytes. */
  ghost predicate NoneAtLeast(l: seq<Segment>, n: nat) {
    forall i :: 0 <= i < |l| && l[i].Free? ==> l[i].size < n
  }

  ghost predicate LargestFree(l: seq<Segment>, i: nat) {
    i < |l| && l[i].Free? && forall j :: 0 <= j < |l| && l[j].Free? ==> l[j].size <= l[i].size
  }

  // ----- splitting the list -----

  lemma {:induction false} ExtentAppend(l: seq<Segment>, r: seq<Segment>)
    ensures Extent(l + r) == Extent(l) + Extent(r)
    ensures UsedSize(l + r) == UsedSize(l) + UsedSize(r)
    ensures AskedSize(l + r) == AskedSize(l) + AskedSize(r)
  {
    if l == [] {
      assert l + r == r;
    } else {
      ExtentAppend(l[1..], r);
      assert (l + r)[1..] == l[1..] + r;
    }
  }

  lemma {:induction false} TilesFacts(order: seq<int>, h: Headers, lo: int, hi: int)
    requires Tiles(order, h, lo, hi)
    ensures forall a :: a in order ==> a in h && lo <= a && a + HEADER + h[a].size <= hi
    ensures hi == lo + Extent(Layout(order, h))
    ensures forall i, j :: 0 <= i < j < |order| ==> order[i] + HEADER + h[order[i]].size <= order[j]
    ensures Unique(order)
  {
    if order != [] {
      TilesFacts(order[1..], h, lo + HEADER + h[lo].size, hi);
      forall a | a in order
        ensures a in h && lo <= a && a + HEADER + h[a].size <= hi
      {
        assert a == order[0] || a in order[1..];
      }
    }
  }

  lemma TilesUnique(order: seq<int>, h: Headers, lo: int, hi: int)
    requires Tiles(order, h, lo, hi)
    ensures Unique(order)
  {
    TilesFacts(order, h, lo, hi);
  }

  lemma {:induction false} TilesAppend(p: seq<int>, q: seq<int>, h: Headers, lo: int, mid: int, hi: int)
    requires Tiles(p, h, lo, mid)
    ensures Tiles(p + q, h, lo, hi) <==> Tiles(q, h, mid, hi)
  {
    if p == [] {
      assert p + q == q;
    } else {
      TilesAppend(p[1..], q, h, lo + HEADER + h[lo].size, mid, hi);
      assert (p + q)[1..] == p[1..] + q;
    }
  }

  /** A tiling can be cut before any of its blocks. */
  lemma {:induction false} TilesCut(p: seq<int>, q: seq<int>, h: Headers, lo: int, hi: int)
    requires Tiles(p + q, h, lo, hi)
    ensures var mid := if q == [] then hi else q[0]; Tiles(p, h, lo, mid) && Tiles(q, h, mid, hi)
  {
    if p == [] {
      assert p + q == q;
    } else {
      assert (p + q)[1..] == p[1..] + q;
      TilesCut(p[1..], q, h, lo + HEADER + h[lo].size, hi);
    }
  }

  /** Only the sizes of the listed headers matter. */
  lemma {:induction false} TilesKept(order: seq<int>, h: Headers, h': Headers, lo: int, hi: int)
    requires Tiles(order, h, lo, hi)
    requires forall a :: a in order && a in h ==> a in h' && h'[a].size == h[a].size
    ensures Tiles(order, h', lo, hi)
  {
    if order != [] {
      TilesKept(order[1..], h, h', lo + HEADER + h[lo].size, hi);
    }
  }

  lemma {:induction false} LayoutAppend(p: seq<int>, q: seq<int>, h: Headers)
    ensures Layout(p + q, h) == Layout(p, h) + Layout(q, h)
  {
    if p == [] {
      assert p + q == q;
    } else {
      assert (p + q)[1..] == p[1..] + q;
      LayoutAppend(p[1..], q, h);
    }
  }

  /** The sums over the layout `a + b + c` are those of its parts. */
  lemma SumsOfParts(a: seq<Segment>, b: seq<Segment>, c: seq<Segment>)
    ensures Extent(a + b + c) == Extent(a) + Extent(b) + Extent(c)
    ensures UsedSize(a + b + c) == UsedSize(a) + UsedSize(b) + UsedSize(c)
    ensures AskedSize(a + b + c) == AskedSize(a) + AskedSize(b) + AskedSize(c)
  {
    ExtentAppend(a + b, c);
    ExtentAppend(a, b);
  }

  /** A stretch `m` of blocks gives way to a stretch `m'` that covers the same addresses. */
  lemma Replaced(p: seq<int>, m: seq<int>, m': seq<int>, q: seq<int>, h: Headers, h': Headers, lo: int, hi: int)
    requires Tiles(p + m + q, h, lo, hi) && m != []
    requires forall a :: a in p || a in q ==> a in h && a in h' && SegmentOf(h'[a]) == SegmentOf(h[a])
    requires forall a :: a in m ==> a in h
    requires Tiles(m', h', m[0], m[0] + Extent(Layout(m, h)))
    ensures Tiles(p + m' + q, h', lo, hi)
    ensures Layout(p + m + q, h) == Layout(p, h) + Layout(m, h) + Layout(q, h)
    ensures Layout(p + m' + q, h') == Layout(p, h) + Layout(m', h') + Layout(q, h)
    ensures var l, l' := Layout(p + m + q, h), Layout(p + m' + q, h');
      && UsedSize(l') == UsedSize(l) - UsedSize(Layout(m, h)) + UsedSize(Layout(m', h'))
      && AskedSize(l') == AskedSize(l) - AskedSize(Layout(m, h)) + AskedSize(Layout(m', h'))
  {
    LayoutAppend(p + m, q, h);
    LayoutAppend(p, m, h);
    LayoutAppend(p + m', q, h');
    LayoutAppend(p, m', h');
    assert Layout(p, h') == Layout(p, h);
    assert Layout(q, h') == Layout(q, h);
    SumsOfParts(Layout(p, h), Layout(m, h), Layout(q, h));
    SumsOfParts(Layout(p, h), Layout(m', h'), Layout(q, h));
    ReplacedTiles(p, m, m', q, h, h', lo, hi);
  }

  lemma ReplacedTiles(p: seq<int>, m: seq<int>, m': seq<int>, q: seq<int>, h: Headers, h': Headers, lo: int, hi: int)
    requires Tiles(p + m + q, h, lo, hi) && m != []
    requires forall a :: a in m ==> a in h
    requires forall a :: (a in p || a in q) && a in h ==> a in h' && h'[a].size == h[a].size
    requires Tiles(m', h', m[0], m[0] + Extent(Layout(m, h)))
    ensures Tiles(p + m' + q, h', lo, hi)
  {
    var end := if q == [] then hi else q[0];
    assert p + m + q == p + (m + q);
    TilesCut(p, m + q, h, lo, hi);
    TilesCut(m, q, h, m[0], hi);
    TilesFacts(m, h, m[0], end);
    TilesKept(p, h, h', lo, m[0]);
    TilesKept(q, h, h', end, hi);
    TilesAppend(p, m' + q, h', lo, m[0], hi);
    TilesAppend(m', q, h', m[0], end, hi);
    assert p + m' + q == p + (m' + q);
  }

  /** The free block `l[i]` gives its first `n` bytes away and keeps the rest under a header of its own. */
  ghost function CutAt(l: seq<Segment>, i: nat, n: nat): seq<Segment>
    requires i < |l| && n + HEADER <= l[i].size
  {
    l[..i] + [Busy(n, n), Free(l[i].size - n - HEADER)] + l[i + 1..]
  }

  /** The blocks `l[i]` and `l[i + 1]` become one free block. */
  ghost function JoinedAt(l: seq<Segment>, i: nat): seq<Segment>
    requires i + 1 < |l|
  {
    l[..i] + [Free(l[i].size + HEADER + l[i + 1].size)] + l[i + 2..]
  }

  lemma CutPieces(l: seq<Segment>, i: nat, n: nat, a: seq<Segment>, z: nat, c: seq<Segment>)
    requires l == a + [Free(z)] + c && |a| == i && n + HEADER <= z
    ensures CutAt(l, i, n) == a + [Busy(n, n), Free(z - n - HEADER)] + c
  {
    assert l[..i] == a && l[i + 1..] == c;
  }

  lemma JoinedPieces(l: seq<Segment>, i: nat, a: seq<Segment>, x: nat, y: nat, c: seq<Segment>)
    requires l == a + [Free(x), Free(y)] + c && |a| == i
    ensures JoinedAt(l, i) == a + [Free(x + HEADER + y)] + c
  {
    assert l[..i] == a && l[i + 2..] == c;
  }

  // ----- the three changes to the list -----

  lemma SumsUpdated(l: seq<Segment>, i: nat, y: Segment)
    requires i < |l|
    ensures UsedSize(l[i := y]) == UsedSize(l) - UsedBy(l[i]) + UsedBy(y)
    ensures AskedSize(l[i := y]) == AskedSize(l) - AskedBy(l[i]) + AskedBy(y)
  {
    var a, c := l[..i], l[i + 1..];
    assert l == a + [l[i]] + c;
    assert l[i := y] == a + [y] + c;
    SumsOfParts(a, [l[i]], c);
    SumsOfParts(a, [y], c);
  }

  /** One header changes, but not its size. */
  lemma Retouched(order: seq<int>, h: Headers, i: nat, s: Storage, lo: int, hi: int)
    requires Tiles(order, h, lo, hi) && i < |order| && order[i] in h && s.size == h[order[i]].size
    ensures var h' := h[order[i] := s];
      && Tiles(order, h', lo, hi) && Layout(order, h') == Layout(order, h)[i := SegmentOf(s)]
  {
    hide Tiles, Layout, UsedSize, AskedSize, Extent;
    TilesFacts(order, h, lo, hi);
    TilesKept(order, h, h[order[i] := s], lo, hi);
    LayoutRetouched(order, h, i, s);
  }

  lemma LayoutRetouched(order: seq<int>, h: Headers, i: nat, s: Storage)
    requires i < |order| && Unique(order)
    ensures Layout(order, h[order[i] := s]) == Layout(order, h)[i := SegmentOf(s)]
  {
    var l := Layout(order, h[order[i] := s]);
    forall j | 0 <= j < |order|
      ensures l[j] == Layout(order, h)[i := SegmentOf(s)][j]
    {
      assert l[j] == SegmentAt(h[order[i] := s], order[j]);
    }
  }

  /** Which class list a block is in does not show in the region. */
  lemma Rehomed(order: seq<int>, h: Headers, a: int, home: Option<nat>, lo: int, hi: int)
    requires Tiles(order, h, lo, hi) && a in h
    ensures var h' := h[a := h[a].(home := home)];
      Tiles(order, h', lo, hi) && Layout(order, h') == Layout(order, h)
  {
    TilesKept(order, h, h[a := h[a].(home := home)], lo, hi);
  }

  lemma OneBlock(a: int, h: Headers)
    requires a in h
    ensures Layout([a], h) == [SegmentOf(h[a])]
    ensures Extent(Layout([a], h)) == HEADER + h[a].size
    ensures UsedSize(Layout([a], h)) == UsedBy(SegmentOf(h[a])) && AskedSize(Layout([a], h)) == AskedBy(SegmentOf(h[a]))
    ensures Tiles([a], h, a, a + HEADER + h[a].size)
  {
    assert Tiles([a][1..], h, a + HEADER + h[a].size, a + HEADER + h[a].size);
  }

  lemma TwoBlocks(a: int, b: int, h: Headers)
    requires a in h && b in h && b == a + HEADER + h[a].size
    ensures Layout([a, b], h) == [SegmentOf(h[a]), SegmentOf(h[b])]
    ensures Extent(Layout([a, b], h)) == HEADER + h[a].size + HEADER + h[b].size
    ensures UsedSize(Layout([a, b], h)) == UsedBy(SegmentOf(h[a])) + UsedBy(SegmentOf(h[b]))
    ensures AskedSize(Layout([a, b], h)) == AskedBy(SegmentOf(h[a])) + AskedBy(SegmentOf(h[b]))
    ensures Tiles([a, b], h, a, b + HEADER + h[b].size)
  {
    OneBlock(b, h);
    assert [a, b][1..] == [b];
    assert Layout([a, b], h)[1..] == Layout([b], h);
  }

  lemma {:induction false} AllBelow(order: seq<int>, h: Headers, b: int, lo: int, hi: int)
    requires Tiles(order, h, lo, hi) && b < lo
    ensures b !in order
  {
    if order != [] {
      AllBelow(order[1..], h, b, lo + HEADER + h[lo].size, hi);
    }
  }

  /** No header lies inside a block. */
  lemma {:induction false} NoHeaderInside(order: seq<int>, h: Headers, i: nat, b: int, lo: int, hi: int)
    requires Tiles(order, h, lo, hi) && i < |order| && order[i] in h
    requires order[i] < b < order[i] + HEADER + h[order[i]].size
    ensures lo < b && b !in order
  {
    var rest, next := order[1..], lo + HEADER + h[lo].size;
    if i == 0 {
      AllBelow(rest, h, b, next, hi);
    } else {
      NoHeaderInside(rest, h, i - 1, b, next, hi);
    }
  }

  /** A free block is cut in two: the front gets header `s`, the rest header `r`. */
  lemma CutInTwo(p: seq<int>, a: int, b: int, q: seq<int>, h: Headers, s: Storage, r: Storage, lo: int, hi: int)
    requires Tiles(p + [a] + q, h, lo, hi)
    requires a in h && !h[a].alloc && !r.alloc
    requires b == a + HEADER + s.size && s.size + HEADER + r.size == h[a].size
    ensures var h' := h[b := r][a := s]; var l := Layout(p + [a] + q, h);
      && Tiles(p + [a, b] + q, h', lo, hi)
      && l == Layout(p, h) + [Free(h[a].size)] + Layout(q, h)
      && Layout(p + [a, b] + q, h') == Layout(p, h) + [SegmentOf(s), Free(r.size)] + Layout(q, h)
      && UsedSize(Layout(p + [a, b] + q, h')) == UsedSize(l) + UsedBy(SegmentOf(s))
      && AskedSize(Layout(p + [a, b] + q, h')) == AskedSize(l) + AskedBy(SegmentOf(s))
  {
    hide Tiles, Layout, UsedSize, AskedSize, Extent;
    var h' := h[b := r][a := s];
    var order := p + [a] + q;
    TilesFacts(order, h, lo, hi);
    assert order[|p|] == a;
    NoHeaderInside(order, h, |p|, b, lo, hi);
    Others(p, [a], q);
    OneBlock(a, h);
    TwoBlocks(a, b, h');
    Replaced(p, [a], [a, b], q, h, h', lo, hi);
  }

  /** Two free neighbours become one. */
  lemma JoinedToOne(p: seq<int>, a: int, b: int, q: seq<int>, h: Headers, h': Headers, z: nat, lo: int, hi: int)
    requires Tiles(p + [a, b] + q, h, lo, hi)
    requires a in h && b in h && !h[a].alloc && !h[b].alloc
    requires z == h[a].size + HEADER + h[b].size && h' == h[a := h[a].(size := z)] - {b}
    ensures Tiles(p + [a] + q, h', lo, hi)
    ensures Layout(p + [a, b] + q, h) == Layout(p, h) + [Free(h[a].size), Free(h[b].size)] + Layout(q, h)
    ensures Layout(p + [a] + q, h') == Layout(p, h) + [Free(z)] + Layout(q, h)
    ensures UsedSize(Layout(p + [a] + q, h')) == UsedSize(Layout(p + [a, b] + q, h))
    ensures AskedSize(Layout(p + [a] + q, h')) == AskedSize(Layout(p + [a, b] + q, h))
  {
    hide Tiles, Layout, UsedSize, AskedSize, Extent;
    var order := p + [a, b] + q;
    TilesFacts(order, h, lo, hi);
    assert order[|p|] == a && order[|p| + 1] == b;
    NextIs(order, h, |p|, lo, hi);
    Others(p, [a, b], q);
    OneBlock(a, h');
    TwoBlocks(a, b, h);
    Replaced(p, [a, b], [a], q, h, h', lo, hi);
  }

  /** In a list without repetitions the pieces have no members in common. */
  lemma Others(p: seq<int>, m: seq<int>, q: seq<int>)
    requires Unique(p + m + q)
    ensures forall x :: x in m ==> x !in p && x !in q
    ensures forall x :: x in p || x in q || x in m ==> x in p + m + q
  {
    var s := p + m + q;
    forall i, j | 0 <= i < |m| && 0 <= j < |p|
      ensures m[i] != p[j]
    {
      assert s[|p| + i] == m[i] && s[j] == p[j];
    }
    forall i, j | 0 <= i < |m| && 0 <= j < |q|
      ensures m[i] != q[j]
    {
      assert s[|p| + i] == m[i] && s[|p| + |m| + j] == q[j];
    }
  }

  lemma {:induction false} NextIs(order: seq<int>, h: Headers, i: nat, lo: int, hi: int)
    requires Tiles(order, h, lo, hi) && i + 1 < |order|
    ensures order[i] in h && order[i + 1] == order[i] + HEADER + h[order[i]].size
  {
    if i > 0 {
      NextIs(order[1..], h, i - 1, lo + HEADER + h[lo].size, hi);
    }
  }

  lemma LayoutLength(order: seq<int>, h: Headers)
    ensures |Layout(order, h)| == |order|
  {
  }

  // ----- the books of the allocator -----

  /** The block list, the headers and the statistics agree. */
  ghost predicate Book(order: seq<int>, h: Headers, lo: int, hi: int, used: int, asked: int, count: int) {
    && order != [] && Tiles(order, h, lo, hi) && (forall a :: a in h <==> a in order)
    && used == UsedSize(Layout(order, h)) && asked == AskedSize(Layout(order, h)) && count == |order|
  }

  lemma BookTouched(order: seq<int>, h: Headers, i: nat, st: Storage, lo: int, hi: int, used: int, asked: int, count: int)
    requires Book(order, h, lo, hi, used, asked, count) && i < |order| && st.size == h[order[i]].size
    ensures var x, y, h' := SegmentOf(h[order[i]]), SegmentOf(st), h[order[i] := st];
      && Book(order, h', lo, hi, used - UsedBy(x) + UsedBy(y), asked - AskedBy(x) + AskedBy(y), count)
      && Layout(order, h') == Layout(order, h)[i := y]
  {
    hide Tiles, Layout, UsedSize, AskedSize, Extent;
    LayoutLength(order, h);
    Retouched(order, h, i, st, lo, hi);
    SumsUpdated(Layout(order, h), i, SegmentOf(st));
  }

  lemma BookCut(p: seq<int>, a: int, b: int, q: seq<int>, h: Headers, n: nat, h': Headers,
                lo: int, hi: int, used: int, asked: int, count: int)
    requires Book(p + [a] + q, h, lo, hi, used, asked, count) && a in h && b == a + HEADER + n
    requires !h[a].alloc && n + HEADER <= h[a].size
    requires h' == h[b := h[a].(size := h[a].size - n - HEADER)][a := h[a].(alloc := true, size := n, act := n)]
    ensures b !in h && Book(p + [a, b] + q, h', lo, hi, used + n, asked + n, count + 1)
  {
    hide Tiles, Layout, UsedSize, AskedSize, Extent;
    var order := p + [a] + q;
    assert order[|p|] == a;
    NoHeaderInside(order, h, |p|, b, lo, hi);
    CutInTwo(p, a, b, q, h, h[a].(alloc := true, size := n, act := n), h[a].(size := h[a].size - n - HEADER), lo, hi);
  }

  lemma LayoutCut(p: seq<int>, a: int, b: int, q: seq<int>, h: Headers, n: nat, h': Headers, lo: int, hi: int)
    requires Tiles(p + [a] + q, h, lo, hi) && a in h && b == a + HEADER + n
    requires !h[a].alloc && n + HEADER <= h[a].size
    requires h' == h[b := h[a].(size := h[a].size - n - HEADER)][a := h[a].(alloc := true, size := n, act := n)]
    ensures Layout(p + [a, b] + q, h') == CutAt(Layout(p + [a] + q, h), |p|, n)
  {
    hide Tiles, Layout, UsedSize, AskedSize, Extent;
    LayoutLength(p, h);
    CutInTwo(p, a, b, q, h, h[a].(alloc := true, size := n, act := n), h[a].(size := h[a].size - n - HEADER), lo, hi);
    CutPieces(Layout(p + [a] + q, h), |p|, n, Layout(p, h), h[a].size, Layout(q, h));
  }

  lemma BookJoined(p: seq<int>, a: int, b: int, q: seq<int>, h: Headers, h': Headers, z: nat,
                   lo: int, hi: int, used: int, asked: int, count: int)
    requires Book(p + [a, b] + q, h, lo, hi, used, asked, count) && a in h && b in h
    requires !h[a].alloc && !h[b].alloc && z == h[a].size + HEADER + h[b].size && h' == h[a := h[a].(size := z)] - {b}
    ensures Book(p + [a] + q, h', lo, hi, used, asked, count - 1)
  {
    hide Tiles, Layout, UsedSize, AskedSize, Extent;
    TilesUnique(p + [a, b] + q, h, lo, hi);
    Others(p, [a, b], q);
    assert [a, b][0] == a && [a, b][1] == b;
    JoinedToOne(p, a, b, q, h, h', z, lo, hi);
  }

  lemma LayoutJoined(p: seq<int>, a: int, b: int, q: seq<int>, h: Headers, h': Headers, z: nat, lo: int, hi: int)
    requires Tiles(p + [a, b] + q, h, lo, hi) && a in h && b in h
    requires !h[a].alloc && !h[b].alloc && z == h[a].size + HEADER + h[b].size && h' == h[a := h[a].(size := z)] - {b}
    ensures Layout(p + [a] + q, h') == JoinedAt(Layout(p + [a, b] + q, h), |p|)
  {
    hide Tiles, Layout, UsedSize, AskedSize, Extent;
    LayoutLength(p, h);
    JoinedToOne(p, a, b, q, h, h', z, lo, hi);
    JoinedPieces(Layout(p + [a, b] + q, h), |p|, Layout(p, h), h[a].size, h[b].size, Layout(q, h));
  }

  /** Cutting block `order[i]` after `n` bytes. */
  lemma OrderCut(order: seq<int>, i: nat, a: int, b: int, h: Headers, n: nat, h': Headers,
                 lo: int, hi: int, used: int, asked: int, count: int)
    requires Book(order, h, lo, hi, used, asked, count) && i < |order| && order[i] == a
    requires a in h && !h[a].alloc && n + HEADER <= h[a].size && b == a + HEADER + n
    requires h' == h[b := h[a].(size := h[a].size - n - HEADER)][a := h[a].(alloc := true, size := n, act := n)]
    ensures var order' := InsertAfter(order, a, b);
      && b !in h && i < |order'| && order'[i] == a
      && Book(order', h', lo, hi, used + n, asked + n, count + 1)
      && Layout(order', h') == CutAt(Layout(order, h), i, n)
  {
    TilesUnique(order, h, lo, hi);
    assert Tiles(order, h, lo, hi);
    hide Book, Tiles, Layout, CutAt, InsertAfter, Unique;
    InsertAfterAt(order, i, b);
    BookCut(order[..i], a, b, order[i + 1..], h, n, h', lo, hi, used, asked, count);
    LayoutCut(order[..i], a, b, order[i + 1..], h, n, h', lo, hi);
  }

  /** Joining block `order[i]` with its successor. */
  lemma OrderJoined(order: seq<int>, i: nat, a: int, b: int, h: Headers, z: nat, h': Headers,
                    lo: int, hi: int, used: int, asked: int, count: int)
    requires Book(order, h, lo, hi, used, asked, count) && i + 1 < |order| && order[i] == a && order[i + 1] == b
    requires a in h && b in h && !h[a].alloc && !h[b].alloc
    requires z == h[a].size + HEADER + h[b].size && h' == h[a := h[a].(size := z)] - {b}
    ensures b in order && a != b
    ensures var order' := Remove(order, b);
      && i < |order'| && order'[i] == a
      && Book(order', h', lo, hi, used, asked, count - 1)
      && Layout(order', h') == JoinedAt(Layout(order, h), i)
  {
    TilesUnique(order, h, lo, hi);
    assert Tiles(order, h, lo, hi);
    hide Book, Tiles, Layout, JoinedAt, Remove, Unique;
    RemoveNext(order, i);
    BookJoined(order[..i], a, b, order[i + 2..], h, h', z, lo, hi, used, asked, count);
    LayoutJoined(order[..i], a, b, order[i + 2..], h, h', z, lo, hi);
  }

  lemma BookRehomed(order: seq<int>, h: Headers, a: int, home: Option<nat>,
                    lo: int, hi: int, used: int, asked: int, count: int)
    requires Book(order, h, lo, hi, used, asked, count) && a in h
    ensures var h' := h[a := h[a].(home := home)];
      Book(order, h', lo, hi, used, asked, count) && Layout(order, h') == Layout(order, h)
  {
    Rehomed(order, h, a, home, lo, hi);
  }

  // ----- merging -----

  /** Every run of free neighbours becomes one block: the reference for what freeing does. */
  ghost function Coalesce(l: seq<Segment>): (r: seq<Segment>)
    decreases |l|
  {
    if |l| < 2 then l
    else if l[0].Free? && l[1].Free? then Coalesce([Free(l[0].size + HEADER + l[1].size)] + l[2..])
    else [l[0]] + Coalesce(l[1..])
  }

  lemma {:induction false} CoalesceMerged(l: seq<Segment>)
    ensures Merged(Coalesce(l))
    ensures l != [] ==> Coalesce(l) != [] && (Coalesce(l)[0].Busy? <==> l[0].Busy?)
    ensures Extent(Coalesce(l)) == Extent(l)
    ensures UsedSize(Coalesce(l)) == UsedSize(l) && AskedSize(Coalesce(l)) == AskedSize(l)
    decreases |l|
  {
    if |l| >= 2 {
      if l[0].Free? && l[1].Free? {
        var m := [Free(l[0].size + HEADER + l[1].size)] + l[2..];
        assert m[1..] == l[1..][1..];
        CoalesceMerged(m);
      } else {
        CoalesceMerged(l[1..]);
      }
    }
  }

  lemma {:induction false} CoalesceFixed(l: seq<Segment>)
    requires Merged(l)
    ensures Coalesce(l) == l
  {
    if |l| >= 2 {
      CoalesceFixed(l[1..]);
    }
  }

  /** The busy blocks of a region, in order. */
  ghost function Busies(l: seq<Segment>): seq<Segment> {
    if l == [] then [] else (if l[0].Busy? then [l[0]] else []) + Busies(l[1..])
  }

  /** Merging touches no busy block. */
  lemma {:induction false} CoalesceKeepsBusies(l: seq<Segment>)
    ensures Busies(Coalesce(l)) == Busies(l)
    decreases |l|
  {
    if |l| >= 2 {
      if l[0].Free? && l[1].Free? {
        var joined := [Free(l[0].size + HEADER + l[1].size)] + l[2..];
        CoalesceKeepsBusies(joined);
        assert joined[1..] == l[2..] == l[1..][1..];
        assert Busies(l) == [] + Busies(l[1..]) && Busies(l[1..]) == [] + Busies(l[2..]);
      } else {
        CoalesceKeepsBusies(l[1..]);
        assert Coalesce(l)[1..] == Coalesce(l[1..]);
      }
    }
  }

  /** Joining two free neighbours early does not change the outcome. */
  lemma {:induction false} CoalesceJoin(p: seq<Segment>, x: nat, y: nat, q: seq<Segment>)
    ensures Coalesce(p + [Free(x), Free(y)] + q) == Coalesce(p + [Free(x + HEADER + y)] + q)
    decreases |p|
  {
    var l, r := p + [Free(x), Free(y)] + q, p + [Free(x + HEADER + y)] + q;
    if p == [] {
      assert l[2..] == q;
      assert r == [Free(x + HEADER + y)] + q;
    } else if p[0].Free? && (|p| == 1 || p[1].Free?) {
      JoinFirstTwo(p, x, y, q);
      var z := p[0].size + HEADER;
      if |p| == 1 {
        CoalesceJoin([], z + x, y, q);
      } else {
        CoalesceJoin([Free(z + p[1].size)] + p[2..], x, y, q);
      }
    } else {
      assert l[1..] == p[1..] + [Free(x), Free(y)] + q;
      assert r[1..] == p[1..] + [Free(x + HEADER + y)] + q;
      CoalesceJoin(p[1..], x, y, q);
    }
  }

  lemma CoalesceStep(l: seq<Segment>)
    requires |l| >= 2 && l[0].Free? && l[1].Free?
    ensures Coalesce(l) == Coalesce([Free(l[0].size + HEADER + l[1].size)] + l[2..])
  {
  }

  /** The first step when the list starts with two free blocks. */
  lemma JoinFirstTwo(p: seq<Segment>, x: nat, y: nat, q: seq<Segment>)
    requires p != [] && p[0].Free? && (|p| == 1 || p[1].Free?)
    ensures |p| == 1 ==> var z := p[0].size + HEADER;
      && Coalesce(p + [Free(x), Free(y)] + q) == Coalesce([] + [Free(z + x), Free(y)] + q)
      && Coalesce(p + [Free(x + HEADER + y)] + q) == Coalesce([] + [Free(z + x + HEADER + y)] + q)
    ensures |p| > 1 ==> var p' := [Free(p[0].size + HEADER + p[1].size)] + p[2..];
      && Coalesce(p + [Free(x), Free(y)] + q) == Coalesce(p' + [Free(x), Free(y)] + q)
      && Coalesce(p + [Free(x + HEADER + y)] + q) == Coalesce(p' + [Free(x + HEADER + y)] + q)
  {
    hide Coalesce;
    var z := p[0].size + HEADER;
    var l, r := p + [Free(x), Free(y)] + q, p + [Free(x + HEADER + y)] + q;
    CoalesceStep(l);
    CoalesceStep(r);
    if |p| == 1 {
      assert [Free(z + x)] + l[2..] == [] + [Free(z + x), Free(y)] + q;
      assert [Free(z + (x + HEADER + y))] + r[2..] == [] + [Free(z + x + HEADER + y)] + q;
    } else {
      assert [Free(z + p[1].size)] + l[2..] == [Free(z + p[1].size)] + p[2..] + [Free(x), Free(y)] + q;
      assert [Free(z + p[1].size)] + r[2..] == [Free(z + p[1].size)] + p[2..] + [Free(x + HEADER + y)] + q;
    }
  }

  /** No two free neighbours, except perhaps around the free block `l[i]`. */
  ghost predicate MergedAround(l: seq<Segment>, i: nat) {
    && i < |l| && l[i].Free?
    && forall j :: 0 <= j < |l| - 1 && j != i && j + 1 != i ==> l[j].Busy? || l[j + 1].Busy?
  }

  lemma FreedAround(l: seq<Segment>, i: nat, n: nat)
    requires Merged(l) && i < |l|
    ensures MergedAround(l[i := Free(n)], i)
  {
  }

  lemma JoinNext(l: seq<Segment>, i: nat)
    requires MergedAround(l, i) && i + 1 < |l| && l[i + 1].Free?
    ensures var l' := JoinedAt(l, i);
      MergedAround(l', i) && (i + 1 < |l'| ==> l'[i + 1].Busy?) && Coalesce(l') == Coalesce(l)
  {
    CoalesceJoin(l[..i], l[i].size, l[i + 1].size, l[i + 2..]);
    assert l == l[..i] + [l[i], l[i + 1]] + l[i + 2..];
  }

  lemma JoinPrevious(l: seq<Segment>, i: nat)
    requires MergedAround(l, i) && (i + 1 < |l| ==> l[i + 1].Busy?)
    ensures if i > 0 && l[i - 1].Free?
      then Merged(JoinedAt(l, i - 1)) && Coalesce(JoinedAt(l, i - 1)) == Coalesce(l)
      else Merged(l)
  {
    if i > 0 && l[i - 1].Free? {
      CoalesceJoin(l[..i - 1], l[i - 1].size, l[i].size, l[i + 1..]);
      assert l == l[..i - 1] + [l[i - 1], l[i]] + l[i + 1..];
    }
  }

  /** Freeing everything leaves one block that fills the region. */
  lemma AllFreeIsOne(l: seq<Segment>)
    requires l != [] && Merged(l) && forall i :: 0 <= i < |l| ==> l[i].Free?
    ensures l == [Free(Extent(l) - HEADER)]
  {
    assert |l| < 2;
    assert l[1..] == [];
  }

  /** Undoing an allocation: the carved block, marked free, merges back into what it was carved from. */
  lemma CarveUndone(l: seq<Segment>, i: nat, n: nat, rest: nat)
    requires i < |l| && Merged(l) && l[i] == Free(n + HEADER + rest)
    ensures Coalesce(l[..i] + [Free(n), Free(rest)] + l[i + 1..]) == l
  {
    CoalesceJoin(l[..i], n, rest, l[i + 1..]);
    assert l[..i] + [l[i]] + l[i + 1..] == l;
    CoalesceFixed(l);
  }
}
