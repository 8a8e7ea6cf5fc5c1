/**
  The bump-pointer memory pool of src/core/shs_memory_pool.cc:7-37, 68-128 and 143-213, on top of an allocator that
  grants any free place or refuses.
*/
module MemoryPool {

  const ALIGNMENT := 8
  const POOL_HEADER := 48
  const DATA_HEADER := 24
  const LARGE_NODE := 24

  // ----- the backing allocator -----

  predicate Apart(a: int, m: int, b: int, n: int) {
    a + m <= b || b + n <= a
  }

  /** The areas in use do not overlap. */
  ghost predicate Separate(live: map<int, int>) {
    && (forall a <- live :: a > 0 && a % ALIGNMENT == 0 && live[a] > 0)
    && (forall a <- live, b <- live :: a != b ==> Apart(a, live[a], b, live[b]))
  }

  /** The next place is free, and fit to start an area. */
  predicate Grants(live: map<int, int>, answers: seq<int>, size: int) {
    && answers != [] && size > 0 && answers[0] > 0 && answers[0] % ALIGNMENT == 0
    && forall b <- live :: Apart(answers[0], size, b, live[b])
  }

  class Memory {
    var live: map<int, int>
    /** Where the system would place the requests to come; a place that is not free stands for a refusal. */
    var answers: seq<int>

    constructor (places: seq<int>)
      ensures live == map[] && answers == places
    {
      live, answers := map[], places;
    }

    method Alloc(size: int) returns (a: int)
      requires Separate(live)
      modifies this
      ensures Separate(live)
      ensures a != 0 <==> old(Grants(live, answers, size))
      ensures a == 0 ==> live == old(live)
      ensures a != 0 ==> a == old(answers)[0] && size > 0 && a > 0 && a % ALIGNMENT == 0 && a !in old(live) && live == old(live)[a := size]
      ensures if old(answers) == [] then a == 0 && answers == [] else answers == old(answers)[1..]
    {
      if answers == [] {
        return 0;
      }
      a := answers[0];
      answers := answers[1..];
      if size <= 0 || a <= 0 || a % ALIGNMENT != 0 || exists b <- live :: !Apart(a, size, b, live[b]) {
        return 0;
      }
      live := live[a := size];
    }

    /** An area is given back once, with the size it was asked for. */
    method Free(a: int, size: int)
      requires Separate(live) && a in live && live[a] == size
      modifies this`live
      ensures Separate(live) && live == old(live) - {a}
    {
      live := live - {a};
    }
  }

  // ----- what a pool owns and has handed out -----

  /** A region handed out, inside the area of the allocator that starts at `home`. */
  datatype Region = Region(addr: int, size: int, home: int)

  /** A block of the pool; regions lie behind its header and below `last`. */
  datatype Info = Info(base: int, end: int, last: int)

  datatype Large = Large(alloc: int, size: int)

  /** The blocks in the order of the chain, the large areas and the regions handed out. */
  datatype Book = Book(infos: seq<Info>, larges: seq<Large>, handed: seq<Region>)

  function Header(i: nat): int {
    if i == 0 then POOL_HEADER else DATA_HEADER
  }

  ghost predicate InBlock(r: Region, infos: seq<Info>) {
    exists i :: 0 <= i < |infos| && r.home == infos[i].base && r.home + Header(i) <= r.addr && r.addr + r.size <= infos[i].last
  }

  ghost predicate InLarge(r: Region, larges: seq<Large>) {
    exists i :: 0 <= i < |larges| && r.home == r.addr == larges[i].alloc && r.size == larges[i].size
  }

  /** The blocks are areas of the allocator, all of one size. */
  ghost predicate BlocksOk(infos: seq<Info>, live: map<int, int>, psize: int) {
    && (forall i :: 0 <= i < |infos| ==>
          && infos[i].base + Header(i) <= infos[i].last <= infos[i].end == infos[i].base + psize
          && infos[i].base in live && live[infos[i].base] == psize)
    && (forall i, j :: 0 <= i < j < |infos| ==> infos[i].base != infos[j].base)
  }

  /** The large areas are areas of the allocator, none of them a block. */
  ghost predicate LargesOk(larges: seq<Large>, infos: seq<Info>, live: map<int, int>) {
    && (forall i :: 0 <= i < |larges| ==> larges[i].alloc in live && live[larges[i].alloc] == larges[i].size)
    && (forall i, j :: 0 <= i < j < |larges| ==> larges[i].alloc != larges[j].alloc)
    && (forall i, j :: 0 <= i < |larges| && 0 <= j < |infos| ==> larges[i].alloc != infos[j].base)
  }

  /** Every region is in its place, and those of one area do not overlap. */
  ghost predicate HandedOk(handed: seq<Region>, infos: seq<Info>, larges: seq<Large>) {
    && (forall r <- handed :: r.size > 0 && (InBlock(r, infos) || InLarge(r, larges)))
    && (forall i, j :: 0 <= i < j < |handed| && handed[i].home == handed[j].home ==>
          Apart(handed[i].addr, handed[i].size, handed[j].addr, handed[j].size))
  }

  ghost predicate Ok(b: Book, live: map<int, int>, psize: int) {
    BlocksOk(b.infos, live, psize) && LargesOk(b.larges, b.infos, live) && HandedOk(b.handed, b.infos, b.larges)
  }

  /** Where the areas of the pool start. */
  function Bases(infos: seq<Info>, larges: seq<Large>): set<int> {
    (set i | 0 <= i < |infos| :: infos[i].base) + (set i | 0 <= i < |larges| :: larges[i].alloc)
  }

  lemma HomeIsLive(r: Region, b: Book, live: map<int, int>, psize: int)
    requires Ok(b, live, psize) && r in b.handed
    ensures r.home in live && r.home <= r.addr && r.addr + r.size <= r.home + live[r.home]
    ensures r.home in Bases(b.infos, b.larges)
  {
    if InBlock(r, b.infos) {
    } else {
      assert InLarge(r, b.larges);
    }
  }

  /** No two regions overlap, and each lies inside an area the pool owns. */
  lemma RegionsApart(b: Book, live: map<int, int>, psize: int)
    requires Ok(b, live, psize) && Separate(live)
    ensures forall i, j :: 0 <= i < j < |b.handed| ==>
              Apart(b.handed[i].addr, b.handed[i].size, b.handed[j].addr, b.handed[j].size)
  {
    forall i, j | 0 <= i < j < |b.handed|
      ensures Apart(b.handed[i].addr, b.handed[i].size, b.handed[j].addr, b.handed[j].size)
    {
      var r, s := b.handed[i], b.handed[j];
      HomeIsLive(r, b, live, psize);
      HomeIsLive(s, b, live, psize);
      if r.home != s.home {
        assert Apart(r.home, live[r.home], s.home, live[s.home]);
      }
    }
  }

  // ----- the changes of the book -----

  function Bumped(b: Book, i: nat, m: int, size: int): Book
    requires i < |b.infos|
  {
    Book(b.infos[i := b.infos[i].(last := m + size)], b.larges, b.handed + [Region(m, size, b.infos[i].base)])
  }

  lemma BumpedOk(b: Book, live: map<int, int>, psize: int, i: nat, m: int, size: int)
    requires Ok(b, live, psize) && i < |b.infos| && size > 0 && b.infos[i].last <= m && m + size <= b.infos[i].end
    ensures Ok(Bumped(b, i, m, size), live, psize)
    ensures Bases(b.infos[i := b.infos[i].(last := m + size)], b.larges) == Bases(b.infos, b.larges)
  {
    var infos := b.infos[i := b.infos[i].(last := m + size)];
    var t := Region(m, size, b.infos[i].base);
    forall r | r in b.handed
      ensures InBlock(r, infos) || InLarge(r, b.larges)
      ensures r.home == t.home ==> Apart(r.addr, r.size, m, size)
    {
      if InBlock(r, b.infos) {
        var k :| 0 <= k < |b.infos| && r.home == b.infos[k].base && r.home + Header(k) <= r.addr && r.addr + r.size <= b.infos[k].last;
        assert infos[k].base == r.home && infos[k].last >= b.infos[k].last;
      }
    }
    assert infos[i].base == t.home;
    assert forall k :: 0 <= k < |infos| ==> infos[k].base == b.infos[k].base;
  }

  function WithBlock(b: Book, base: int, psize: int, m: int, size: int): Book {
    Book(b.infos + [Info(base, base + psize, m + size)], b.larges, b.handed + [Region(m, size, base)])
  }

  /** Areas of others come and go without touching the book. */
  lemma OthersChange(b: Book, live: map<int, int>, psize: int, a: int, size: int)
    requires Ok(b, live, psize)
    ensures a !in live ==> a !in Bases(b.infos, b.larges) && Ok(b, live[a := size], psize)
    ensures a !in Bases(b.infos, b.larges) ==> Ok(b, live - {a}, psize)
  {
    assert forall i :: 0 <= i < |b.infos| ==> b.infos[i].base in Bases(b.infos, b.larges);
    assert forall i :: 0 <= i < |b.larges| ==> b.larges[i].alloc in Bases(b.infos, b.larges);
  }

  lemma NewHome(b: Book, live: map<int, int>, psize: int, h: int)
    requires Ok(b, live, psize) && h !in live
    ensures h !in Bases(b.infos, b.larges) && forall r <- b.handed :: r.home != h
  {
    forall r | r in b.handed ensures r.home != h {
      HomeIsLive(r, b, live, psize);
    }
  }

  lemma WithBlockOk(b: Book, live: map<int, int>, psize: int, base: int, m: int, size: int)
    requires Ok(b, live, psize) && base !in live && |b.infos| > 0
    requires size > 0 && base + DATA_HEADER <= m && m + size <= base + psize
    ensures Ok(WithBlock(b, base, psize, m, size), live[base := psize], psize)
    ensures Bases(b.infos + [Info(base, base + psize, m + size)], b.larges) == Bases(b.infos, b.larges) + {base}
  {
    var c := WithBlock(b, base, psize, m, size);
    NewHome(b, live, psize, base);
    forall r | r in b.handed ensures InBlock(r, c.infos) || InLarge(r, c.larges) {
      if InBlock(r, b.infos) {
        var k :| 0 <= k < |b.infos| && r.home == b.infos[k].base && r.home + Header(k) <= r.addr && r.addr + r.size <= b.infos[k].last;
        assert c.infos[k] == b.infos[k];
      }
    }
    assert c.infos[|b.infos|].base == base;
    BasesOfMore(b.infos, b.larges, Info(base, base + psize, m + size));
  }

  lemma BasesOfMore(infos: seq<Info>, larges: seq<Large>, info: Info)
    ensures Bases(infos + [info], larges) == Bases(infos, larges) + {info.base}
  {
    var more := infos + [info];
    assert forall i :: 0 <= i < |infos| ==> more[i] == infos[i];
    assert more[|infos|] == info;
    forall h | h in Bases(infos, larges) + {info.base} ensures h in Bases(more, larges) {
      if i :| 0 <= i < |infos| && infos[i].base == h {
        assert more[i].base == h;
      }
    }
  }

  function WithLarge(b: Book, p: int, size: int): Book {
    Book(b.infos, [Large(p, size)] + b.larges, b.handed + [Region(p, size, p)])
  }

  lemma WithLargeOk(b: Book, live: map<int, int>, psize: int, p: int, size: int)
    requires Ok(b, live, psize) && p in live && live[p] == size > 0 && p !in Bases(b.infos, b.larges)
    ensures Ok(WithLarge(b, p, size), live, psize)
    ensures Bases(b.infos, [Large(p, size)] + b.larges) == Bases(b.infos, b.larges) + {p}
  {
    var c := WithLarge(b, p, size);
    forall r | r in b.handed
      ensures r.home != p && (InBlock(r, c.infos) || InLarge(r, c.larges))
    {
      HomeIsLive(r, b, live, psize);
      if InLarge(r, b.larges) {
        var k :| 0 <= k < |b.larges| && r.home == r.addr == b.larges[k].alloc && r.size == b.larges[k].size;
        assert c.larges[k + 1] == b.larges[k];
      }
    }
    assert c.larges[0].alloc == p;
    forall i | 0 <= i < |b.infos| ensures b.infos[i].base != p {
      assert b.infos[i].base in Bases(b.infos, b.larges);
    }
    forall i | 0 <= i < |b.larges| ensures b.larges[i].alloc != p {
      assert b.larges[i].alloc in Bases(b.infos, b.larges);
    }
    BasesOfLarger(b.infos, b.larges, Large(p, size));
  }

  lemma BasesOfLarger(infos: seq<Info>, larges: seq<Large>, l: Large)
    ensures Bases(infos, [l] + larges) == Bases(infos, larges) + {l.alloc}
  {
    var more := [l] + larges;
    assert more[0] == l && forall i :: 0 < i < |more| ==> more[i] == larges[i - 1];
    forall h | h in Bases(infos, larges) + {l.alloc} ensures h in Bases(infos, more) {
      if i :| 0 <= i < |larges| && larges[i].alloc == h {
        assert more[i + 1].alloc == h;
      }
    }
  }

  function Rest(live: map<int, int>, bases: set<int>): map<int, int> {
    live - bases
  }

  lemma NothingFreed(live: map<int, int>)
    ensures Rest(live, Bases([], [])) == live
  {
  }

  lemma LargeIsLeft(b: Book, live: map<int, int>, psize: int, k: nat)
    requires Ok(b, live, psize) && k < |b.larges|
    ensures var rest, l := Rest(live, Bases([], b.larges[..k])), b.larges[k];
      && l.alloc in rest && rest[l.alloc] == l.size
      && rest - {l.alloc} == Rest(live, Bases([], b.larges[..k + 1]))
  {
    assert b.larges[..k + 1] == b.larges[..k] + [b.larges[k]];
    assert Bases([], b.larges[..k + 1]) == Bases([], b.larges[..k]) + {b.larges[k].alloc};
  }

  lemma BlockIsLeft(b: Book, live: map<int, int>, psize: int, i: nat)
    requires Ok(b, live, psize) && i < |b.infos|
    ensures var rest, base := Rest(live, Bases(b.infos[..i], b.larges)), b.infos[i].base;
      && base in rest && rest[base] == b.infos[i].end - base
      && rest - {base} == Rest(live, Bases(b.infos[..i + 1], b.larges))
  {
    assert b.infos[..i + 1] == b.infos[..i] + [b.infos[i]];
    BasesOfMore(b.infos[..i], b.larges, b.infos[i]);
  }

  /** shs_align_ptr. */
  function Aligned(p: int): (q: int)
    ensures p <= q < p + ALIGNMENT && q % ALIGNMENT == 0
  {
    (p + ALIGNMENT - 1) / ALIGNMENT * ALIGNMENT
  }

  predicate Fits(last: int, end: int, size: int) {
    Aligned(last) < end && end - Aligned(last) >= size
  }

  predicate Full(b: Info) {
    b.end - b.last < ALIGNMENT
  }

  /**
    Where the search starts once a block has joined the chain `infos`: behind the last full block from `at` on, the
    last block of the chain left aside, or at the new block if there is none.
  */
  ghost predicate NextStart(infos: seq<Info>, at: nat, next: nat) {
    if next < |infos|
    then at < next && Full(infos[next - 1]) && forall j :: next <= j < |infos| - 1 ==> !Full(infos[j])
    else next == |infos| && forall j :: at <= j < |infos| - 1 ==> !Full(infos[j])
  }

  /** There is room exactly if an aligned region of that size lies between the two. */
  lemma FitsExactly(last: int, end: int, size: int)
    requires size > 0
    ensures Fits(last, end, size) <==> exists q :: q % ALIGNMENT == 0 && last <= q && q + size <= end
  {
    assert Aligned(last) % ALIGNMENT == 0;
    forall q | q % ALIGNMENT == 0 && last <= q
      ensures Aligned(last) <= q
    {
      assert Aligned(last) - q < ALIGNMENT && (Aligned(last) - q) % ALIGNMENT == 0;
    }
  }

  /** The first block from `at` on that has room. */
  ghost predicate FirstRoom(infos: seq<Info>, at: nat, size: int, i: nat) {
    at <= i < |infos| && Fits(infos[i].last, infos[i].end, size)
    && forall j :: at <= j < i ==> !Fits(infos[j].last, infos[j].end, size)
  }

  /** The region starts at the first aligned place of that block. */
  ghost predicate FromFirstRoom(b: Book, at: nat, size: int, b': Book, m: int) {
    exists i: nat :: FirstRoom(b.infos, at, size, i) && m == Aligned(b.infos[i].last) && b' == Bumped(b, i, m, size)
  }

  /**
    A request adds its region, behind the region of the node that remembers it if it is a large one; a refused one
    adds nothing.
  */
  ghost predicate Outcome(before: seq<Region>, after: seq<Region>, size: int, max: int, m: int) {
    if m == 0 then after == before
    else
      && var n := |before| + if size <= max then 0 else 1;
      && |after| == n + 1 && after[..|before|] == before
      && after[n].addr == m && after[n].size == size && m % ALIGNMENT == 0
      && (size > max ==> after[|before|].size == LARGE_NODE)
  }

  // ----- the pool -----

  class Block {
    const base: int
    const end: int
    var last: int
    var next: Block?

    constructor (base: int, end: int, last: int)
      ensures this.base == base && this.end == end && this.last == last && next == null
    {
      this.base, this.end, this.last, next := base, end, last, null;
    }
  }

  ghost function At(blocks: seq<Block>, i: nat): Block? {
    if i < |blocks| then blocks[i] else null
  }

  /** The chain of blocks, as the book has it. */
  ghost predicate Chain(blocks: seq<Block>, infos: seq<Info>)
    reads blocks
  {
    && |blocks| == |infos|
    && (forall i :: 0 <= i < |blocks| ==> blocks[i].base == infos[i].base && blocks[i].end == infos[i].end)
    && (forall i :: 0 <= i < |blocks| ==> blocks[i].last == infos[i].last && blocks[i].next == At(blocks, i + 1))
  }

  lemma BlocksDiffer(blocks: seq<Block>, b: Book, live: map<int, int>, psize: int)
    requires Chain(blocks, b.infos) && Ok(b, live, psize) && Separate(live)
    ensures |blocks| == |b.infos| && forall i :: 0 <= i < |blocks| ==> blocks[i].last > 0
    ensures forall i, j :: 0 <= i < j < |blocks| ==> blocks[i] != blocks[j]
    ensures forall i :: 0 <= i < |blocks| ==> blocks[i].end == blocks[i].base + psize
  {
  }

  lemma Longer(blocks: seq<Block>, infos: seq<Info>, np: Block, info: Info)
    requires |blocks| == |infos| > 0 && np !in blocks
    requires forall i :: 0 <= i < |blocks| ==> blocks[i].base == infos[i].base && blocks[i].end == infos[i].end
    requires forall i :: 0 <= i < |blocks| ==> blocks[i].last == infos[i].last
    requires forall i :: 0 <= i < |blocks| ==> blocks[i].next == if i == |blocks| - 1 then np else At(blocks, i + 1)
    requires np.base == info.base && np.end == info.end && np.last == info.last && np.next == null
    ensures Chain(blocks + [np], infos + [info])
  {
  }

  lemma Raised(blocks: seq<Block>, infos: seq<Info>, k: nat, top: int)
    requires |blocks| == |infos| && k < |blocks| && blocks[k].last == top
    requires forall i :: 0 <= i < |blocks| ==> blocks[i].base == infos[i].base && blocks[i].end == infos[i].end
    requires forall i :: 0 <= i < |blocks| && i != k ==> blocks[i].last == infos[i].last
    requires forall i :: 0 <= i < |blocks| ==> blocks[i].next == At(blocks, i + 1)
    ensures Chain(blocks, infos[k := infos[k].(last := top)])
  {
  }

  lemma SameRest(live: map<int, int>, bases: set<int>, a: int, size: int)
    requires a !in live
    ensures Rest(live[a := size], bases + {a}) == Rest(live, bases) && Rest(live, {}) == live && {} + {a} == {a}
  {
  }

  /** An area of its own is among the others, until it is taken into the book or given back. */
  lemma OneApart(live: map<int, int>, bases: set<int>, a: int, size: int)
    requires a !in live && a !in bases
    ensures a in Rest(live[a := size], bases) && Rest(live[a := size], bases)[a] == size
    ensures Rest(live[a := size], bases) - {a} == Rest(live, bases)
  {
  }

  lemma WithoutOne(live: map<int, int>, bases: set<int>, a: int)
    ensures Rest(live, bases + {a}) == Rest(live, bases) - {a} == Rest(live - {a}, bases)
    ensures a in Rest(live, bases) ==> a !in bases && a in live && live[a] == Rest(live, bases)[a]
  {
  }

  lemma TwoMore(before: seq<Region>, after: seq<Region>, r: Region, max: int, node: int)
    requires Outcome(before, after, LARGE_NODE, max, node) && node != 0 && LARGE_NODE <= max < r.size
    requires r.addr % ALIGNMENT == 0
    ensures Outcome(before, after + [r], r.size, max, r.addr) || r.addr == 0
  {
  }

  lemma Refused(before: seq<Region>, size: int, max: int)
    ensures Outcome(before, before, size, max, 0)
  {
  }

  lemma OneMore(before: seq<Region>, r: Region, max: int)
    requires r.size <= max && r.addr % ALIGNMENT == 0
    ensures Outcome(before, before + [r], r.size, max, r.addr) || r.addr == 0
  {
  }

  class Pool {
    const mem: Memory
    const max: int
    const first: Block
    var current: Block
    /** Newest first, as the nodes are linked. */
    var large: seq<Large>

    ghost var blocks: seq<Block>
    ghost var at: nat
    ghost var book: Book

    ghost function Size(): int {
      first.end - first.base
    }

    ghost predicate Linked()
      reads this, blocks
    {
      Chain(blocks, book.infos) && at < |blocks| && blocks[at] == current && blocks[0] == first
    }

    ghost predicate Valid()
      reads this, blocks, mem
    {
      && Separate(mem.live) && Ok(book, mem.live, Size()) && Linked() && large == book.larges
      && 0 <= max <= Size() - POOL_HEADER
    }

    /** What of the allocator's memory is not the pool's. */
    ghost function Others(): map<int, int>
      reads this, mem
    {
      Rest(mem.live, Bases(book.infos, book.larges))
    }

    constructor (mem: Memory, base: int, size: int, max: int)
      requires Separate(mem.live) && base in mem.live && mem.live[base] == size
      requires 0 <= max <= size - POOL_HEADER
      ensures Valid() && this.mem == mem && this.max == max && book.handed == [] && fresh(blocks)
      ensures Others() == Rest(mem.live, {base}) && Size() == size
    {
      var b := new Block(base, base + size, base + POOL_HEADER);
      this.mem, this.max, first, current, large := mem, max, b, b, [];
      blocks, at := [b], 0;
      book := Book([Info(base, base + size, base + POOL_HEADER)], [], []);
      new;
      assert book.infos[0].base == base;
      assert Bases(book.infos, book.larges) == {base};
    }

    /** Some block from the current one on has room. */
    ghost predicate HasRoom(size: int)
      reads this, blocks
    {
      exists i :: at <= i < |blocks| && Fits(blocks[i].last, blocks[i].end, size)
    }

    /** The allocator grants the area, and its node finds room in a block or in one that is granted next. */
    ghost predicate LargeGranted(size: int)
      reads this, blocks, mem
    {
      Grants(mem.live, mem.answers, size)
      && (HasRoom(LARGE_NODE) || Grants(mem.live[mem.answers[0] := size], mem.answers[1..], Size()))
    }

    /** The bump pointer of a block moves past a new region. */
    method Bump(p: Block, ghost i: nat, size: nat) returns (m: int)
      requires Valid() && i < |blocks| && p == blocks[i] && size > 0 && Fits(p.last, p.end, size)
      modifies this`book, p
      ensures Valid() && Others() == old(Others()) && at == old(at)
      ensures m == Aligned(old(book).infos[i].last) > 0 && book == Bumped(old(book), i, m, size)
    {
      hide Ok, Separate, Bases, Aligned, Rest, At;
      BlocksDiffer(blocks, book, mem.live, Size());
      m := Aligned(p.last);
      BumpedOk(book, mem.live, Size(), i, m, size);
      p.last := m + size;
      Raised(blocks, book.infos, i, m + size);
      book := Bumped(book, i, m, size);
    }

    /** The last block of the chain, and the block behind the last full one before it, if there is one. */
    method FindEnd() returns (p: Block, cur: Block?, ghost c: nat)
      requires Linked()
      ensures blocks != [] && p == blocks[|blocks| - 1]
      ensures cur != null ==> c < |blocks| && cur == blocks[c]
      ensures NextStart(book.infos, at, if cur != null then c else |blocks|)
    {
      p, cur, c := current, null, 0;
      ghost var i := at;
      while p.next != null
        invariant at <= i < |blocks| && p == blocks[i]
        invariant cur != null ==> at < c <= i && cur == blocks[c] && Full(book.infos[c - 1])
        invariant forall j :: (if cur != null then c else at) <= j < i ==> !Full(book.infos[j])
        decreases |blocks| - i
      {
        if p.end - p.last < ALIGNMENT {
          cur, c := p.next, i + 1;
        }
        p := p.next;
        i := i + 1;
      }
    }

    /** A block is linked behind the last one; the search starts behind the last full block from now on. */
    method Append(np: Block, ghost info: Info)
      requires Linked() && np !in blocks && np.next == null
      requires forall i, j :: 0 <= i < j < |blocks| ==> blocks[i] != blocks[j]
      requires np.base == info.base && np.end == info.end && np.last == info.last
      modifies this`current, this`at, this`blocks, blocks
      ensures blocks == old(blocks) + [np] && Chain(blocks, book.infos + [info])
      ensures at < |blocks| && blocks[at] == current && blocks[0] == first
      ensures NextStart(book.infos, old(at), at)
    {
      hide At, NextStart;
      var p, cur, c := FindEnd();
      p.next := np;
      current := if cur != null then cur else np;
      at := if cur != null then c else |blocks|;
      Longer(blocks, book.infos, np, info);
      blocks := blocks + [np];
    }

    /** The area nm just granted becomes a block that starts with a region. */
    method OpenBlock(nm: int, size: nat, ghost live: map<int, int>) returns (m: int)
      requires Separate(mem.live) && Ok(book, live, Size()) && Separate(live) && Linked() && large == book.larges
      requires nm > 0 && nm !in live && mem.live == live[nm := Size()] && 0 < size <= max <= Size() - POOL_HEADER
      modifies this, blocks
      ensures Valid() && Others() == Rest(live, Bases(old(book.infos), old(book.larges)))
      ensures forall b <- blocks :: b in old(blocks) || fresh(b)
      ensures m == Aligned(nm + DATA_HEADER) && book == WithBlock(old(book), nm, Size(), m, size)
      ensures NextStart(old(book.infos), old(at), at)
    {
      hide Ok, Separate, Bases, Rest, Chain, NextStart;
      BlocksDiffer(blocks, book, live, Size());
      var psize := first.end - first.base;
      m := Aligned(nm + DATA_HEADER);
      WithBlockOk(book, live, psize, nm, m, size);
      SameRest(live, Bases(book.infos, book.larges), nm, psize);
      var np := new Block(nm, nm + psize, m + size);
      Append(np, Info(nm, nm + psize, m + size));
      book := WithBlock(book, nm, psize, m, size);
    }

    /** A block of the size of the first joins the chain; the search starts behind the last full block from now on. */
    method AllocBlock(size: nat) returns (m: int)
      requires Valid() && 0 < size <= max
      modifies this, blocks, mem
      ensures Valid() && Others() == old(Others())
      ensures forall b <- blocks :: b in old(blocks) || fresh(b)
      ensures Outcome(old(book.handed), book.handed, size, max, m)
      ensures if old(mem.answers) == [] then m == 0 && mem.answers == [] else mem.answers == old(mem.answers)[1..]
      ensures m != 0 <==> old(Grants(mem.live, mem.answers, Size()))
      ensures m == 0 ==> book == old(book) && at == old(at)
      ensures m != 0 ==>
        var nm := old(mem.answers)[0];
        && m == Aligned(nm + DATA_HEADER) && book == WithBlock(old(book), nm, Size(), m, size)
        && book.infos == old(book).infos + [Info(nm, nm + Size(), m + size)] && book.larges == old(book).larges
      ensures m != 0 ==> NextStart(old(book.infos), old(at), at)
      ensures m != 0 ==>
        var infos := old(book.infos);
        && at <= |infos| && (at < |infos| ==> old(at) < at && infos[at - 1].end - infos[at - 1].last < ALIGNMENT)
        && forall j :: (if at < |infos| then at else old(at)) <= j < |infos| - 1 ==> infos[j].end - infos[j].last >= ALIGNMENT
    {
      hide Ok, Separate, Bases, Rest, Chain, Outcome, Grants;
      var nm := mem.Alloc(first.end - first.base);
      if nm == 0 {
        Refused(book.handed, size, max);
        return 0;
      }
      m := OpenBlock(nm, size, old(mem.live));
      OneMore(old(book.handed), Region(m, size, nm), max);
    }

    /** The loop of pool_alloc over the blocks from the current one on. */
    method FindRoom(size: int) returns (p: Block?, ghost i: nat)
      requires Linked()
      ensures p == null <==> !HasRoom(size)
      ensures p != null ==> i < |blocks| && p == blocks[i] && Fits(p.last, p.end, size)
      ensures p != null ==> FirstRoom(book.infos, at, size, i)
    {
      hide Fits;
      p, i := current, at;
      while p != null
        invariant at <= i <= |blocks| && p == At(blocks, i)
        invariant forall j :: at <= j < i ==> !Fits(blocks[j].last, blocks[j].end, size)
        decreases |blocks| - i
      {
        if Fits(p.last, p.end, size) {
          return;
        }
        p := p.next;
        i := i + 1;
      }
    }

    /** pool_alloc: the first block with room from the current one on, a new block, or an area of its own. */
    method Alloc(size: nat) returns (m: int)
      requires Valid()
      modifies this, blocks, mem
      ensures Valid() && Others() == old(Others())
      ensures forall b <- blocks :: b in old(blocks) || fresh(b)
      ensures Outcome(old(book.handed), book.handed, size, max, m)
      ensures size == 0 ==> m == 0
      ensures 0 < size <= max && old(HasRoom(size)) ==> m != 0 && mem.live == old(mem.live)
      ensures 0 < size <= max ==> (m != 0 <==> old(HasRoom(size) || Grants(mem.live, mem.answers, Size())))
      ensures size > max ==> (m != 0 <==> max >= LARGE_NODE && old(LargeGranted(size)))
      ensures 0 < size <= max && old(HasRoom(size)) ==>
        FromFirstRoom(old(book), old(at), size, book, m)
      ensures size > max && m != 0 ==> m == old(mem.answers)[0]
      ensures |mem.answers| <= |old(mem.answers)|
      ensures max >= LARGE_NODE ==> |mem.answers| + (if size <= max then 1 else 2) >= |old(mem.answers)|
      decreases |mem.answers|, 1
    {
      hide Ok, Separate, Bases, Rest, Chain, Fits, Grants, HasRoom;
      if size == 0 {
        return 0;
      }
      if size <= max {
        var p, i := FindRoom(size);
        if p != null {
          ghost var b := book;
          m := Bump(p, i, size);
          OneMore(b.handed, Region(m, size, b.infos[i].base), max);
          assert FromFirstRoom(b, at, size, book, m);
          return;
        }
        m := AllocBlock(size);
        return;
      }
      m := AllocLarge(size);
    }

    /**
      pool_alloc_large: the area is remembered in a node that itself comes from the pool, and goes back if there is no
      place for the node.
    */
    method AllocLarge(size: nat) returns (m: int)
      requires Valid() && size > max
      modifies this, blocks, mem
      ensures Valid() && Others() == old(Others())
      ensures forall b <- blocks :: b in old(blocks) || fresh(b)
      ensures Outcome(old(book.handed), book.handed, size, max, m)
      ensures m != 0 <==> max >= LARGE_NODE && old(LargeGranted(size))
      ensures m != 0 ==> m == old(mem.answers)[0]
      ensures |mem.answers| <= |old(mem.answers)|
      ensures max >= LARGE_NODE ==> |mem.answers| + 2 >= |old(mem.answers)|
      decreases |mem.answers|, 0
    {
      hide Ok, Separate, Bases, Rest, Chain, Fits, Grants, HasRoom;
      var p := mem.Alloc(size);
      if p == 0 {
        Refused(book.handed, size, max);
        return 0;
      }
      ghost var bases := Bases(book.infos, book.larges);
      OthersChange(book, old(mem.live), Size(), p, size);
      OneApart(old(mem.live), bases, p, size);
      var node := Alloc(LARGE_NODE);
      ghost var bases' := Bases(book.infos, book.larges);
      WithoutOne(mem.live, bases', p);
      if node == 0 {
        OthersChange(book, mem.live, Size(), p, size);
        mem.Free(p, size);
        Refused(book.handed, size, max);
        return 0;
      }
      WithLargeOk(book, mem.live, Size(), p, size);
      TwoMore(old(book.handed), book.handed, Region(p, size, p), max, node);
      large := [Large(p, size)] + large;
      book := WithLarge(book, p, size);
      m := p;
    }

    /** pool_destroy: every large area and every block goes back, once; nothing else does. */
    method Destroy()
      requires Valid()
      modifies mem
      ensures Separate(mem.live) && mem.live == old(Others())
    {
      hide Ok, Separate, Bases, Rest;
      var k := 0;
      NothingFreed(mem.live);
      while k < |large|
        invariant 0 <= k <= |large| && Separate(mem.live)
        invariant mem.live == Rest(old(mem.live), Bases([], large[..k]))
      {
        LargeIsLeft(book, old(mem.live), Size(), k);
        mem.Free(large[k].alloc, large[k].size);
        k := k + 1;
      }
      assert large[..k] == large && book.infos[..0] == [];
      var p := first;
      ghost var i := 0;
      while true
        invariant 0 <= i < |blocks| && p == blocks[i] && Separate(mem.live)
        invariant mem.live == Rest(old(mem.live), Bases(book.infos[..i], large))
        decreases |blocks| - i
      {
        var n := p.next;
        BlockIsLeft(book, old(mem.live), Size(), i);
        mem.Free(p.base, p.end - p.base);
        i := i + 1;
        if n == null {
          break;
        }
        p := n;
      }
      assert book.infos[..i] == book.infos;
    }
  }

  /** pool_create. */
  method Create(mem: Memory, size: nat, maxSize: nat) returns (pool: Pool?)
    requires Separate(mem.live)
    modifies mem
    ensures Separate(mem.live)
    ensures pool != null <==>
      size > 0 && old(Grants(mem.live, mem.answers, if size < POOL_HEADER then size + POOL_HEADER else size))
    ensures pool == null ==> mem.live == old(mem.live)
    ensures pool != null ==> fresh(pool) && fresh(pool.blocks) && pool.mem == mem && pool.Valid() && pool.book.handed == []
    ensures pool != null ==> pool.Others() == old(mem.live)
    ensures pool != null ==> pool.Size() == if size < POOL_HEADER then size + POOL_HEADER else size
    ensures pool != null ==> pool.max <= pool.Size() - POOL_HEADER && pool.max <= maxSize
    ensures pool != null ==> pool.max == maxSize || pool.max == pool.Size() - POOL_HEADER
  {
    hide Ok, Rest, Bases, Separate, Grants;
    pool := null;
    if size == 0 {
      return;
    }
    var s := size;
    if s < POOL_HEADER {
      s := s + POOL_HEADER;
    }
    var p := mem.Alloc(s);
    if p == 0 {
      return;
    }
    var room := s - POOL_HEADER;
    SameRest(old(mem.live), {}, p, s);
    pool := new Pool(mem, p, s, if room < maxSize then room else maxSize);
  }

  /** A pool made with size 50 keeps two bytes for requests: whatever the allocator grants, it serves nothing larger. */
  method PoolOfFifty(mem: Memory, maxSize: nat, size: nat) returns (pool: Pool?, m: int)
    requires Separate(mem.live) && size > 2
    modifies mem
    ensures pool != null <==> old(Grants(mem.live, mem.answers, 50))
    ensures pool != null ==> fresh(pool) && pool.Valid() && pool.max <= 2
    ensures m == 0
  {
    m := 0;
    pool := Create(mem, 50, maxSize);
    if pool != null {
      m := pool.Alloc(size);
    }
  }
}
