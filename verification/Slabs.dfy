/**
  src/core/shs_slabs.cc: the slab manager over a backing allocator that may refuse at any time.
*/
module Slabs {
  import opened Basics
  import opened Arithmetic
  import opened Lists
  import opened SlabClasses

  const SPLIT_ID: int := -5

  /** chunk_link_t without its link. */
  datatype Chunk = Chunk(size: int, reqSize: int, id: int)

  /** The backing allocator; `grants` decides each request from its number and size. */
  class Backing {
    const grants: (nat, nat) -> bool
    var calls: nat
    var live: set<nat>
    var unused: nat

    ghost predicate Valid()
      reads this
    {
      forall a :: a in live ==> a < unused
    }

    constructor (grants: (nat, nat) -> bool)
      ensures Valid() && live == {} && this.grants == grants
    {
      this.grants := grants;
      calls, live, unused := 0, {}, 0;
    }

    /** alloc and split_alloc: an address that is not in use. */
    method Alloc(size: nat) returns (p: Option<nat>)
      requires Valid()
      modifies this
      ensures Valid() && calls == old(calls) + 1
      ensures p.Some? <==> grants(old(calls), size)
      ensures p.Some? ==> p.value !in old(live) && live == old(live) + {p.value}
      ensures p.None? ==> live == old(live)
    {
      calls := calls + 1;
      if !grants(calls - 1, size) {
        return None;
      }
      p := Some(unused);
      live := live + {unused};
      unused := unused + 1;
    }

    method Free(a: nat)
      requires Valid() && a in live
      modifies `live
      ensures Valid() && live == old(live) - {a}
    {
      live := live - {a};
    }
  }

  lemma LiveIsKnown(chunks: map<nat, Chunk>, free: seq<seq<nat>>, t: Table, live: set<nat>)
    requires Shelved(chunks, free, t, live)
    ensures live <= chunks.Keys && |free| == t.count
    ensures forall a <- live :: chunks[a].id == SPLIT_ID || 0 <= chunks[a].id < t.count
    ensures forall a <- live :: chunks[a].id != SPLIT_ID ==> chunks[a].size == ClassSize(t, chunks[a].id) - LINK
  {
  }

  /** How many chunks the free lists hold. */
  ghost function Total(free: seq<seq<nat>>): nat {
    if free == [] then 0 else Total(free[..|free| - 1]) + |free[|free| - 1]|
  }

  lemma {:induction false} TotalUpdated(free: seq<seq<nat>>, i: nat, l: seq<nat>)
    requires i < |free|
    ensures Total(free[i := l]) == Total(free) - |free[i]| + |l|
  {
    var n := |free| - 1;
    if i == n {
      assert free[i := l][..n] == free[..n];
    } else {
      assert free[i := l][..n] == free[..n][i := l];
      TotalUpdated(free[..n], i, l);
    }
  }

  lemma {:induction false} TotalZero(free: seq<seq<nat>>)
    ensures Total(free) == 0 <==> forall i :: 0 <= i < |free| ==> free[i] == []
  {
    if free != [] {
      TotalZero(free[..|free| - 1]);
    }
  }

  /** The first list from `i` on that holds a chunk, or the number of lists. */
  ghost function FirstUsed(free: seq<seq<nat>>, i: nat): (j: nat)
    requires i <= |free|
    ensures i <= j <= |free| && (j < |free| ==> free[j] != []) && forall k :: i <= k < j ==> free[k] == []
    decreases |free| - i
  {
    if i == |free| || free[i] != [] then i else FirstUsed(free, i + 1)
  }

  /** The chunk `a` of class `i` is on that free list. */
  ghost predicate OnList(chunks: map<nat, Chunk>, t: Table, live: set<nat>, a: nat, i: nat) {
    a in chunks && a !in live && chunks[a].id == i && i < t.count
  }

  /** Every chunk is either live or on the free list of its class. */
  ghost predicate Shelved(chunks: map<nat, Chunk>, free: seq<seq<nat>>, t: Table, live: set<nat>) {
    && |free| == t.count && live <= chunks.Keys
    && (forall i: nat, a :: i < |free| ==> (a in free[i] <==> OnList(chunks, t, live, a, i)))
    && (forall i :: 0 <= i < |free| ==> Unique(free[i]))
    && (forall a :: a in chunks ==> (a in live && chunks[a].id == SPLIT_ID) || 0 <= chunks[a].id < t.count)
    && (forall a :: a in chunks && chunks[a].id != SPLIT_ID ==> chunks[a].size == ClassSize(t, chunks[a].id) - LINK)
  }

  lemma ShelvedPopped(chunks: map<nat, Chunk>, free: seq<seq<nat>>, t: Table, live: set<nat>, i: nat)
    requires Shelved(chunks, free, t, live) && i < |free| && free[i] != []
    ensures free[i][0] in chunks && free[i][0] !in live && chunks[free[i][0]].id == i
    ensures Shelved(chunks - {free[i][0]}, free[i := free[i][1..]], t, live)
    ensures Total(free[i := free[i][1..]]) == Total(free) - 1
  {
    var a, free' := free[i][0], free[i := free[i][1..]];
    assert OnList(chunks, t, live, a, i);
    TotalUpdated(free, i, free[i][1..]);
    assert free[i] == [a] + free[i][1..];
    forall j: nat, b | j < |free'|
      ensures b in free'[j] <==> OnList(chunks - {a}, t, live, b, j)
    {
      assert b in free[j] <==> OnList(chunks, t, live, b, j);
    }
  }

  lemma ShelvedTaken(chunks: map<nat, Chunk>, free: seq<seq<nat>>, t: Table, live: set<nat>, i: nat, req: int)
    requires Shelved(chunks, free, t, live) && i < |free| && free[i] != []
    ensures var a := free[i][0]; a in chunks && a !in live && chunks[a].id == i
    ensures var a := free[i][0];
      Shelved(chunks[a := chunks[a].(reqSize := req)], free[i := free[i][1..]], t, live + {a})
    ensures Total(free[i := free[i][1..]]) == Total(free) - 1
  {
    var a, free' := free[i][0], free[i := free[i][1..]];
    assert OnList(chunks, t, live, a, i);
    var chunks' := chunks[a := chunks[a].(reqSize := req)];
    TotalUpdated(free, i, free[i][1..]);
    assert free[i] == [a] + free[i][1..];
    forall j: nat, b | j < |free'|
      ensures b in free'[j] <==> OnList(chunks', t, live + {a}, b, j)
    {
      assert b in free[j] <==> OnList(chunks, t, live, b, j);
    }
  }

  lemma ShelvedAdded(chunks: map<nat, Chunk>, free: seq<seq<nat>>, t: Table, live: set<nat>, a: nat, c: Chunk)
    requires Shelved(chunks, free, t, live) && a !in chunks
    requires c.id == SPLIT_ID || (0 <= c.id < t.count && c.size == ClassSize(t, c.id) - LINK)
    ensures Shelved(chunks[a := c], free, t, live + {a})
  {
    forall j: nat, b | j < |free|
      ensures b in free[j] <==> OnList(chunks[a := c], t, live + {a}, b, j)
    {
      assert b in free[j] <==> OnList(chunks, t, live, b, j);
    }
  }

  lemma ShelvedReturned(chunks: map<nat, Chunk>, free: seq<seq<nat>>, t: Table, live: set<nat>, a: nat)
    requires Shelved(chunks, free, t, live) && a in live && chunks[a].id != SPLIT_ID
    ensures 0 <= chunks[a].id < |free|
    ensures var i := chunks[a].id; Shelved(chunks, free[i := [a] + free[i]], t, live - {a})
    ensures var i := chunks[a].id; Total(free[i := [a] + free[i]]) == Total(free) + 1
  {
    var i := chunks[a].id;
    var free' := free[i := [a] + free[i]];
    TotalUpdated(free, i, [a] + free[i]);
    assert a !in free[i] by { assert !OnList(chunks, t, live, a, i); }
    forall j: nat, b | j < |free'|
      ensures b in free'[j] <==> OnList(chunks, t, live - {a}, b, j)
    {
      assert b in free[j] <==> OnList(chunks, t, live, b, j);
    }
  }

  lemma ShelvedDropped(chunks: map<nat, Chunk>, free: seq<seq<nat>>, t: Table, live: set<nat>, a: nat)
    requires Shelved(chunks, free, t, live) && a in live
    ensures Shelved(chunks - {a}, free, t, live - {a})
  {
    forall j: nat, b | j < |free|
      ensures b in free[j] <==> OnList(chunks - {a}, t, live - {a}, b, j)
    {
      assert b in free[j] <==> OnList(chunks, t, live, b, j);
    }
  }

  // ----- the statistics -----

  /** The sizes of the chunks in `s` together. */
  ghost function Weight(chunks: map<nat, Chunk>, s: set<nat>): int
    requires s <= chunks.Keys
  {
    if s == {} then 0 else (var a :| a in s; chunks[a].size + Weight(chunks, s - {a}))
  }

  lemma {:induction false} WeightWithout(chunks: map<nat, Chunk>, s: set<nat>, a: nat)
    requires s <= chunks.Keys && a in s
    ensures Weight(chunks, s) == chunks[a].size + Weight(chunks, s - {a})
  {
    var b :| b in s && Weight(chunks, s) == chunks[b].size + Weight(chunks, s - {b});
    if b != a {
      WeightWithout(chunks, s - {b}, a);
      WeightWithout(chunks, s - {a}, b);
      assert s - {a} - {b} == s - {b} - {a};
    }
  }

  lemma {:induction false} WeightKept(chunks: map<nat, Chunk>, chunks': map<nat, Chunk>, s: set<nat>)
    requires s <= chunks.Keys && s <= chunks'.Keys && forall a <- s :: chunks'[a].size == chunks[a].size
    ensures Weight(chunks', s) == Weight(chunks, s)
  {
    if s != {} {
      var a :| a in s;
      WeightWithout(chunks, s, a);
      WeightWithout(chunks', s, a);
      WeightKept(chunks, chunks', s - {a});
    }
  }

  lemma {:induction false} WeightOfParts(chunks: map<nat, Chunk>, s: set<nat>, s': set<nat>)
    requires s !! s' && s <= chunks.Keys && s' <= chunks.Keys
    ensures Weight(chunks, s + s') == Weight(chunks, s) + Weight(chunks, s')
    decreases s
  {
    if s == {} {
      assert s + s' == s';
    } else {
      var a :| a in s;
      WeightOfParts(chunks, s - {a}, s');
      WeightWithout(chunks, s, a);
      WeightWithout(chunks, s + s', a);
      assert s + s' - {a} == (s - {a}) + s';
    }
  }

  lemma WeightWith(chunks: map<nat, Chunk>, s: set<nat>, a: nat)
    requires s <= chunks.Keys && a in chunks && a !in s
    ensures Weight(chunks, s + {a}) == Weight(chunks, s) + chunks[a].size
  {
    WeightWithout(chunks, s + {a}, a);
    assert s + {a} - {a} == s;
  }

  /**
    The statistics count what is live and what is on the free lists, but for the bytes that the early returns have left
    counted as live.
  */
  ghost predicate Tally(chunks: map<nat, Chunk>, live: set<nat>, used: int, freed: int, leaked: int) {
    live <= chunks.Keys && used == Weight(chunks, live) + leaked && freed == Weight(chunks, chunks.Keys - live) - leaked
  }

  lemma TallyReleased(chunks: map<nat, Chunk>, live: set<nat>, used: int, freed: int, leaked: int, a: nat)
    requires Tally(chunks, live, used, freed, leaked) && a in chunks && a !in live
    ensures Tally(chunks - {a}, live, used, freed - chunks[a].size, leaked)
  {
    WeightWithout(chunks, chunks.Keys - live, a);
    assert (chunks - {a}).Keys - live == chunks.Keys - live - {a};
    WeightKept(chunks, chunks - {a}, live);
    WeightKept(chunks, chunks - {a}, chunks.Keys - live - {a});
  }

  lemma TallyAdopted(chunks: map<nat, Chunk>, live: set<nat>, used: int, freed: int, leaked: int, a: nat, c: Chunk)
    requires Tally(chunks, live, used, freed, leaked) && a !in chunks
    ensures Tally(chunks[a := c], live + {a}, used + c.size, freed, leaked)
  {
    WeightWith(chunks[a := c], live, a);
    assert chunks[a := c].Keys - (live + {a}) == chunks.Keys - live;
    WeightKept(chunks, chunks[a := c], live);
    WeightKept(chunks, chunks[a := c], chunks.Keys - live);
  }

  lemma TallyTaken(chunks: map<nat, Chunk>, live: set<nat>, used: int, freed: int, leaked: int, a: nat, c: Chunk)
    requires Tally(chunks, live, used, freed, leaked) && a in chunks && a !in live && c.size == chunks[a].size
    ensures Tally(chunks[a := c], live + {a}, used + c.size, freed - c.size, leaked)
  {
    WeightWithout(chunks, chunks.Keys - live, a);
    WeightWith(chunks, live, a);
    assert chunks[a := c].Keys - (live + {a}) == chunks.Keys - live - {a};
    WeightKept(chunks, chunks[a := c], live + {a});
    WeightKept(chunks, chunks[a := c], chunks.Keys - live - {a});
  }

  lemma TallyReturned(chunks: map<nat, Chunk>, live: set<nat>, used: int, freed: int, leaked: int, a: nat)
    requires Tally(chunks, live, used, freed, leaked) && a in live
    ensures Tally(chunks, live - {a}, used - chunks[a].size, freed + chunks[a].size, leaked)
    ensures Tally(chunks, live - {a}, used, freed, leaked + chunks[a].size)
  {
    WeightWithout(chunks, live, a);
    WeightWith(chunks, chunks.Keys - live, a);
    assert chunks.Keys - (live - {a}) == chunks.Keys - live + {a};
  }

  lemma TallyDropped(chunks: map<nat, Chunk>, live: set<nat>, used: int, freed: int, leaked: int, a: nat)
    requires Tally(chunks, live, used, freed, leaked) && a in live
    ensures Tally(chunks - {a}, live - {a}, used - chunks[a].size, freed, leaked)
  {
    TallyReturned(chunks, live, used, freed, leaked, a);
    TallyReleased(chunks, live - {a}, used - chunks[a].size, freed + chunks[a].size, leaked, a);
  }

  predicate IsEmpty(free: seq<seq<nat>>, id: nat) {
    id < |free| && free[id] == []
  }

  /** The first chunk leaves that list. */
  predicate Popped(free: seq<seq<nat>>, free': seq<seq<nat>>, id: nat, p: Option<nat>) {
    id < |free| && free[id] != [] && p == Some(free[id][0]) && free' == free[id := free[id][1..]]
  }

  /** The class holds the request, and the one before it has no spare room. */
  ghost predicate Tightest(t: Table, size: nat, id: nat) {
    id < t.count && Room(size) <= ClassSize(t, id) && (id > 0 ==> ClassSize(t, id - 1) <= Room(size))
  }

  datatype Recovered = Freed | NotEnough | NoSpace

  datatype Error = BadParam | InvalidId | AllocFailed | TooLarge | Refused

  class Manager {
    const t: Table
    const backing: Backing
    var free: seq<seq<nat>>
    var chunks: map<nat, Chunk>
    ghost var live: set<nat>
    /** The bytes given back with an early return. */
    ghost var leaked: int
    var chunkCount: int
    var usedSize: int
    var reqsSize: int
    var freeSize: int
    var failed: nat
    var recover: nat
    var recoverFailed: nat
    var splitFailed: nat

    /** chunk_count is the number of live chunks and of chunks on the free lists; each is one allocation. */
    ghost predicate Valid()
      reads this, backing
    {
      && t.count >= 2 && backing.Valid() && backing.live == chunks.Keys
      && Shelved(chunks, free, t, live) && chunkCount == |live| + Total(free)
      && Tally(chunks, live, usedSize, freeSize, leaked)
    }

    /** shs_slabs_create, once the table is sized. */
    constructor (t: Table, backing: Backing)
      requires t.count >= 2 && backing.Valid() && backing.live == {}
      ensures Valid() && live == {} && this.t == t && this.backing == backing && leaked == freeSize == 0
      ensures Total(free) == 0 && free == seq(t.count, _ => [])
    {
      this.t, this.backing := t, backing;
      free, chunks, live := seq(t.count, _ => []), map[], {};
      chunkCount, usedSize, reqsSize, freeSize, leaked := 0, 0, 0, 0, 0;
      failed, recover, recoverFailed, splitFailed := 0, 0, 0, 0;
      new;
      TotalZero(free);
    }

    /** Lines 280-286 and 301-307: the first chunk of a free list goes back to the backing allocator. */
    method ReleaseFirst(i: nat)
      requires Valid() && i < |free| && free[i] != []
      modifies `free, `chunks, `chunkCount, `freeSize, backing`live
      ensures Valid() && free == old(free)[i := old(free)[i][1..]] && Total(free) == Total(old(free)) - 1
      ensures freeSize == old(freeSize) - (ClassSize(t, i) - LINK)
    {
      hide Shelved, Total, Tally, ClassSize;
      var a := free[i][0];
      SizeOfFirst(i);
      ShelvedPopped(chunks, free, t, live, i);
      TallyReleased(chunks, live, usedSize, freeSize, leaked, a);
      backing.Free(a);
      free := free[i := free[i][1..]];
      chunks := chunks - {a};
      freeSize := freeSize - (ClassSize(t, i) - LINK);
      chunkCount := chunkCount - 1;
    }

    lemma SizeOfFirst(i: nat)
      requires Valid() && i < |free| && free[i] != []
      ensures free[i][0] in chunks && chunks[free[i][0]].size == ClassSize(t, i) - LINK && chunks[free[i][0]].id == i
    {
      assert OnList(chunks, t, live, free[i][0], i);
    }

    /** shs_slabs_recover: one chunk of the next larger class in use, or smaller ones of twice the size together. */
    method Recover(chunkSize: nat, id: nat) returns (r: Recovered)
      requires Valid() && id < |free| && free[id] == [] && chunkSize == ClassSize(t, id)
      modifies `free, `chunks, `chunkCount, `freeSize, `recover, `recoverFailed, backing`live
      ensures Valid() && id < |free| == |old(free)| && free[id] == []
      ensures r.NoSpace? <==> Total(old(free)) == 0
      ensures r.NoSpace? ==> free == old(free) && chunks == old(chunks)
      ensures !r.NoSpace? ==> Total(free) < Total(old(free))
      ensures var j := FirstUsed(old(free), id + 1);
        if j < |old(free)| then r.Freed? && free == old(free)[j := old(free)[j][1..]]
        else
          && var given := old(freeSize) - freeSize + LINK * (Total(old(free)) - Total(free));
          && (r.Freed? <==> given >= 2 * chunkSize) && given < 3 * chunkSize
          && (!r.Freed? ==> Total(free) == 0)
      ensures recover == old(recover) + 1 && recoverFailed == old(recoverFailed) + if r.Freed? then 0 else 1
    {
      hide Shelved, Tally, Total, ClassSize;
      recover := recover + 1;
      var i := id + 1;
      while i < |free|
        invariant id + 1 <= i <= |free| && Valid() && free == old(free) && chunks == old(chunks) && freeSize == old(freeSize)
        invariant forall j :: id < j < i ==> free[j] == []
      {
        if free[i] != [] {
          TotalZero(free);
          ReleaseFirst(i);
          return Freed;
        }
        i := i + 1;
      }
      var space, enough := RecoverSmaller(chunkSize, id);
      TotalZero(free);
      TotalZero(old(free));
      if enough {
        return Freed;
      }
      recoverFailed := recoverFailed + 1;
      r := if space then NotEnough else NoSpace;
    }

    /** Lines 292-315: the smaller classes, from the next one down. */
    method RecoverSmaller(chunkSize: nat, id: nat) returns (space: bool, enough: bool)
      requires Valid() && id < |free| && free[id] == [] && chunkSize == ClassSize(t, id)
      modifies `free, `chunks, `chunkCount, `freeSize, backing`live
      ensures Valid() && |free| == |old(free)| && (enough ==> space)
      ensures forall j :: id <= j < |free| ==> free[j] == old(free)[j]
      ensures space <==> Total(free) < Total(old(free))
      ensures !space ==> free == old(free) && chunks == old(chunks)
      ensures !space <==> forall j :: 0 <= j < id ==> old(free)[j] == []
      ensures var given := old(freeSize) - freeSize + LINK * (Total(old(free)) - Total(free));
        (enough <==> given >= 2 * chunkSize) && given < 3 * chunkSize
      ensures !enough ==> forall j :: 0 <= j < id ==> free[j] == []
    {
      hide Shelved, Tally, Total, ClassSize;
      var i, size := id - 1, 0;
      space, enough := false, false;
      ClassIsPositive(t, id);
      while i >= 0
        invariant -1 <= i < id && Valid() && id < |free| == |old(free)| && Total(free) <= Total(old(free))
        invariant space <==> Total(free) < Total(old(free))
        invariant !space ==> free == old(free) && chunks == old(chunks)
        invariant forall j :: 0 <= j <= i || id <= j < |free| ==> free[j] == old(free)[j]
        invariant forall j :: i < j < id ==> free[j] == []
        invariant !space <==> forall j :: i < j < id ==> old(free)[j] == []
        invariant size == old(freeSize) - freeSize + LINK * (Total(old(free)) - Total(free)) < 2 * chunkSize
      {
        space := space || free[i] != [];
        ClassesMonotone(t, i, id);
        while free[i] != []
          invariant Valid() && id < |free| == |old(free)| && Total(free) <= Total(old(free))
          invariant space <==> Total(free) < Total(old(free)) || free[i] != []
          invariant !space ==> free == old(free) && chunks == old(chunks)
          invariant forall j :: 0 <= j < i || id <= j < |free| ==> free[j] == old(free)[j]
          invariant forall j :: i < j < id ==> free[j] == []
          invariant size == old(freeSize) - freeSize + LINK * (Total(old(free)) - Total(free)) < 2 * chunkSize
          decreases |free[i]|
        {
          ReleaseFirst(i);
          size := size + ClassSize(t, i);
          if size >= chunkSize * 2 {
            enough := true;
            return;
          }
        }
        i := i - 1;
      }
    }

    /** Between the backing allocator's answer and the new chunk's entry in the books. */
    ghost predicate Owning(p: Option<nat>)
      reads this, backing
    {
      && t.count >= 2 && backing.Valid() && Shelved(chunks, free, t, live) && chunkCount == |live| + Total(free)
      && backing.live == chunks.Keys + (if p.Some? then {p.value} else {}) && (p.Some? ==> p.value !in chunks)
      && Tally(chunks, live, usedSize, freeSize, leaked)
    }

    /** Lines 366-384: a chunk from the backing allocator, after releasing free chunks if need be. */
    method Obtain(chunkSize: nat, id: nat) returns (p: Option<nat>)
      requires Valid() && id < |free| && free[id] == [] && chunkSize == ClassSize(t, id)
      modifies `free, `chunks, `chunkCount, `freeSize, `recover, `recoverFailed, backing
      ensures Owning(p) && backing.calls > old(backing.calls)
      ensures p.Some? <==> backing.grants(backing.calls - 1, chunkSize)
      ensures p.None? ==> Total(free) == 0
      ensures backing.grants(old(backing.calls), chunkSize) ==> p.Some? && free == old(free) && freeSize == old(freeSize)
    {
      hide Shelved, Total, Tally, ClassSize, FirstUsed;
      p := backing.Alloc(chunkSize);
      var r := Freed;
      while p.None? && r != NoSpace
        invariant Owning(p) && id < |free| && free[id] == [] && backing.calls > old(backing.calls)
        invariant p.Some? <==> backing.grants(backing.calls - 1, chunkSize)
        invariant r == NoSpace ==> p.None? && Total(free) == 0
        invariant backing.grants(old(backing.calls), chunkSize) ==> p.Some? && free == old(free) && freeSize == old(freeSize)
        decreases Total(free), r != NoSpace
      {
        r := Recover(chunkSize, id);
        if r != NoSpace {
          p := backing.Alloc(chunkSize);
        }
      }
    }

    /** A chunk from the backing allocator becomes a live chunk. */
    method Adopt(a: nat, c: Chunk)
      requires Owning(Some(a)) && (c.id == SPLIT_ID || (0 <= c.id < t.count && c.size == ClassSize(t, c.id) - LINK))
      modifies `chunks, `chunkCount, `live, `usedSize, `reqsSize
      ensures Valid() && a !in old(live) && live == old(live) + {a} && chunks == old(chunks)[a := c]
      ensures usedSize == old(usedSize) + c.size && reqsSize == old(reqsSize) + c.reqSize
    {
      hide Shelved, Total, Tally, ClassSize;
      LiveIsKnown(chunks, free, t, live);
      TallyAdopted(chunks, live, usedSize, freeSize, leaked, a, c);
      ShelvedAdded(chunks, free, t, live, a, c);
      assert |live + {a}| == |live| + 1 && chunks[a := c].Keys == chunks.Keys + {a};
      chunkCount := chunkCount + 1;
      chunks := chunks[a := c];
      live := live + {a};
      usedSize := usedSize + c.size;
      reqsSize := reqsSize + c.reqSize;
    }

    /** Lines 394-395 and 398-410: the first chunk of a free list becomes live. */
    method TakeFirst(id: nat, slabSize: int) returns (a: nat)
      requires Valid() && id < |free| && free[id] != []
      modifies `free, `chunks, `live, `usedSize, `reqsSize, `freeSize
      ensures Valid() && a == old(free)[id][0] && a !in old(live) && live == old(live) + {a}
      ensures a in old(chunks) && chunks == old(chunks)[a := Chunk(ClassSize(t, id) - LINK, slabSize, id)]
      ensures freeSize == old(freeSize) - chunks[a].size && free == old(free)[id := old(free)[id][1..]]
      ensures usedSize == old(usedSize) + chunks[a].size && reqsSize == old(reqsSize) + slabSize
    {
      hide Shelved, Total, Tally, ClassSize;
      a := free[id][0];
      SizeOfFirst(id);
      ShelvedTaken(chunks, free, t, live, id, slabSize);
      TallyTaken(chunks, live, usedSize, freeSize, leaked, a, chunks[a].(reqSize := slabSize));
      free := free[id := free[id][1..]];
      freeSize := freeSize - chunks[a].size;
      chunks := chunks[a := chunks[a].(reqSize := slabSize)];
      live := live + {a};
      reqsSize := reqsSize + slabSize;
      usedSize := usedSize + chunks[a].size;
    }

    /**
      shs_slabs_alloc: a free chunk of the class found, or a new one; it fails only if all free lists are empty and the
      backing allocator has just refused.
    */
    method Alloc(actual: bool, reqSize: nat) returns (p: Option<nat>, slabSize: int, error: Option<Error>, ghost id: nat)
      requires Valid()
      modifies this, backing
      ensures Valid() && (p.Some? <==> error.None?)
      ensures p.Some? ==> p.value !in old(live) && live == old(live) + {p.value} && p.value in chunks
      ensures p.Some? ==> chunks[p.value].size >= reqSize && chunks[p.value].reqSize == slabSize
      ensures p.Some? ==> slabSize == if actual then chunks[p.value].size else reqSize
      ensures p.Some? ==> usedSize == old(usedSize) + chunks[p.value].size && reqsSize == old(reqsSize) + slabSize
      ensures p.None? ==> live == old(live) && usedSize == old(usedSize) && reqsSize == old(reqsSize)
      ensures leaked == old(leaked)
      ensures error == Some(BadParam) <==> reqSize == 0
      ensures error == Some(InvalidId) <==> reqSize > 0 && TurnedAway(t, reqSize)
      ensures p.Some? ==> chunks[p.value].id == id && chunks[p.value].size == ClassSize(t, id) - LINK
      ensures reqSize > 0 && !TurnedAway(t, reqSize) ==>
        Tightest(t, reqSize, id) && (IsEmpty(old(free), id) || Popped(old(free), free, id, p))
      ensures reqSize > 0 && !TurnedAway(t, reqSize) && !IsEmpty(old(free), id) ==>
        backing.calls == old(backing.calls) && freeSize == old(freeSize) - (ClassSize(t, id) - LINK)
      ensures reqSize > 0 && !TurnedAway(t, reqSize) && IsEmpty(old(free), id) ==>
        backing.calls > old(backing.calls) && (p.Some? <==> backing.grants(backing.calls - 1, ClassSize(t, id)))
      ensures
        && reqSize > 0 && !TurnedAway(t, reqSize) && IsEmpty(old(free), id)
        && backing.grants(old(backing.calls), ClassSize(t, id))
        ==> p.Some? && free == old(free) && freeSize == old(freeSize)
      ensures p.None? && reqSize > 0 && !TurnedAway(t, reqSize) ==>
        error == Some(AllocFailed) && IsEmpty(old(free), id) && Total(free) == 0
      ensures failed == old(failed) + if error == Some(AllocFailed) then 1 else 0
    {
      hide Shelved, Total, TurnedAway, ClassSize, Tally;
      slabSize, id := 0, 0;
      if reqSize == 0 {
        Table0(t);
        return None, 0, Some(BadParam), 0;
      }
      var cls := ClsId(t, reqSize);
      if cls == INVALID {
        return None, 0, Some(InvalidId), 0;
      }
      Rows(cls);
      id := cls;
      p, slabSize := Provide(cls, actual, reqSize);
      error := if p.Some? then None else Some(AllocFailed);
    }

    /** Lines 360-419: a chunk of the class `id`. */
    method Provide(id: nat, actual: bool, reqSize: nat) returns (p: Option<nat>, slabSize: int)
      requires Valid() && id < t.count && id < |free|
      modifies this, backing
      ensures Valid() && leaked == old(leaked)
      ensures p.Some? ==> p.value !in old(live) && live == old(live) + {p.value} && p.value in chunks
      ensures p.Some? ==> chunks[p.value] == Chunk(ClassSize(t, id) - LINK, slabSize, id)
      ensures failed == old(failed) + if p.None? then 1 else 0
      ensures slabSize == if p.None? then 0 else if actual then ClassSize(t, id) - LINK else reqSize
      ensures p.Some? ==> usedSize == old(usedSize) + chunks[p.value].size && reqsSize == old(reqsSize) + slabSize
      ensures p.None? ==> live == old(live) && usedSize == old(usedSize) && reqsSize == old(reqsSize)
      ensures !IsEmpty(old(free), id) ==>
        && Popped(old(free), free, id, p)
        && backing.calls == old(backing.calls) && freeSize == old(freeSize) - (ClassSize(t, id) - LINK)
      ensures IsEmpty(old(free), id) ==>
        && backing.calls > old(backing.calls) && (p.Some? <==> backing.grants(backing.calls - 1, ClassSize(t, id)))
        && (p.None? ==> Total(free) == 0)
      ensures IsEmpty(old(free), id) && backing.grants(old(backing.calls), ClassSize(t, id)) ==>
        p.Some? && free == old(free) && freeSize == old(freeSize)
    {
      hide Shelved, Total, ClassSize, Tally;
      slabSize := if actual then ClassSize(t, id) - LINK else reqSize;
      if free[id] == [] {
        p := Obtain(ClassSize(t, id), id);
        if p.None? {
          failed := failed + 1;
          return None, 0;
        }
        Adopt(p.value, Chunk(ClassSize(t, id) - LINK, slabSize, id));
      } else {
        var a := TakeFirst(id, slabSize);
        p := Some(a);
      }
    }

    lemma Rows(id: nat)
      requires Valid() && id < t.count
      ensures id < |free|
    {
    }

    lemma Table0(t: Table)
      requires t.count >= 2
      ensures TurnedAway(t, 0)
    {
    }

    /** shs_slabs_free; the early return of lines 550-555 comes after the chunk is back on its list. */
    method Free(a: nat) returns (ok: bool)
      requires Valid() && a in live
      modifies this, backing`live
      ensures Valid() && live == old(live) - {a}
      ensures a in old(chunks) && (old(chunks)[a].id == SPLIT_ID || 0 <= old(chunks)[a].id < |old(free)|)
      ensures var c := old(chunks)[a];
        ok <==> c.id == SPLIT_ID || old(usedSize) >= ClassSize(t, c.id)
      ensures var c := old(chunks)[a];
        usedSize == old(usedSize) - (if ok then c.size else 0) && reqsSize == old(reqsSize) - (if ok then c.reqSize else 0)
      ensures var c := old(chunks)[a];
        && freeSize == old(freeSize) + (if ok && c.id != SPLIT_ID then c.size else 0)
        && leaked == old(leaked) + (if ok then 0 else c.size)
      ensures old(chunks)[a].id == SPLIT_ID ==> free == old(free) && chunks == old(chunks) - {a}
      ensures old(chunks)[a].id != SPLIT_ID ==>
        var i := old(chunks)[a].id; free == old(free)[i := [a] + old(free)[i]] && chunks == old(chunks)
    {
      hide Shelved, Total, Tally, ClassSize;
      LiveIsKnown(chunks, free, t, live);
      var c := chunks[a];
      if c.id == SPLIT_ID {
        ShelvedDropped(chunks, free, t, live, a);
        TallyDropped(chunks, live, usedSize, freeSize, leaked, a);
        chunkCount := chunkCount - 1;
        usedSize := usedSize - c.size;
        reqsSize := reqsSize - c.reqSize;
        backing.Free(a);
        chunks := chunks - {a};
        live := live - {a};
        return true;
      }
      ok := Return(a);
    }

    /** A chunk of a class goes back on its list. */
    method Return(a: nat) returns (ok: bool)
      requires Valid() && a in live && a in chunks && chunks[a].id != SPLIT_ID && 0 <= chunks[a].id < |free|
      modifies `free, `live, `leaked, `freeSize, `usedSize, `reqsSize
      ensures Valid() && live == old(live) - {a}
      ensures var c := chunks[a];
        && free == old(free)[c.id := [a] + old(free)[c.id]] && (ok <==> old(usedSize) >= ClassSize(t, c.id))
        && usedSize == old(usedSize) - (if ok then c.size else 0)
        && reqsSize == old(reqsSize) - (if ok then c.reqSize else 0)
        && freeSize == old(freeSize) + (if ok then c.size else 0)
        && leaked == old(leaked) + (if ok then 0 else c.size)
    {
      hide Shelved, Total, Tally, ClassSize;
      var c := chunks[a];
      ShelvedReturned(chunks, free, t, live, a);
      TallyReturned(chunks, live, usedSize, freeSize, leaked, a);
      free := free[c.id := [a] + free[c.id]];
      live := live - {a};
      if usedSize < ClassSize(t, c.id) {
        leaked := leaked + c.size;
        return false;
      }
      freeSize := freeSize + c.size;
      usedSize := usedSize - c.size;
      reqsSize := reqsSize - c.reqSize;
      ok := true;
    }

    /** shs_slabs_split_alloc; `actual` is the size the backing allocator hands out, at least what it is asked for. */
    method SplitAlloc(reqSize: nat, least: nat, actual: nat) returns (p: Option<nat>, slabSize: int, error: Option<Error>)
      requires Valid() && actual >= Room(least)
      modifies this, backing
      ensures Valid() && free == old(free) && freeSize == old(freeSize) && leaked == old(leaked)
      ensures p.Some? <==> error.None?
      ensures p.Some? <==>
        reqSize > 0 && Room(reqSize) <= ClassSize(t, t.count - 1) && backing.grants(old(backing.calls), Room(least))
      ensures p.Some? ==> p.value !in old(live) && live == old(live) + {p.value} && slabSize == actual - LINK >= least
      ensures p.Some? ==>
        && var asked := if reqSize < slabSize then reqSize else slabSize;
        && chunks == old(chunks)[p.value := Chunk(slabSize, asked, SPLIT_ID)]
        && usedSize == old(usedSize) + slabSize && reqsSize == old(reqsSize) + asked
      ensures p.None? ==> live == old(live) && chunks == old(chunks)
      ensures error == Some(BadParam) <==> reqSize == 0
      ensures error == Some(TooLarge) <==> reqSize > 0 && Room(reqSize) > ClassSize(t, t.count - 1)
      ensures splitFailed == old(splitFailed) + if error == Some(Refused) then 1 else 0
    {
      hide Shelved, Total, ClassSize, Tally, Room;
      slabSize := 0;
      if reqSize == 0 {
        return None, 0, Some(BadParam);
      }
      if Room(reqSize) > ClassSize(t, t.count - 1) {
        return None, 0, Some(TooLarge);
      }
      p := backing.Alloc(Room(least));
      if p.None? {
        splitFailed := splitFailed + 1;
        return None, 0, Some(Refused);
      }
      slabSize := actual - LINK;
      RoomHolds(least);
      var asked := if reqSize >= slabSize then slabSize else reqSize;
      Adopt(p.value, Chunk(slabSize, asked, SPLIT_ID));
      error := None;
    }

    lemma RoomHolds(size: nat)
      ensures size + LINK <= Room(size)
    {
    }

    /**
      Exactly when giving a chunk of a class back is reported as an error: the other live chunks and the bytes leaked
      before come to less than a link.
    */
    lemma ReportedExactly(a: nat)
      requires Valid() && a in live && chunks[a].id != SPLIT_ID
      ensures live <= chunks.Keys && 0 <= chunks[a].id
      ensures usedSize < ClassSize(t, chunks[a].id) <==> Weight(chunks, live - {a}) + leaked < LINK
    {
      hide Weight, ClassSize;
      WeightWithout(chunks, live, a);
    }

    /** So the only live chunk cannot be given back without an error while nothing has leaked. */
    lemma LastFreeIsReported(a: nat)
      requires Valid() && live == {a} && chunks[a].id != SPLIT_ID && leaked == 0
      ensures 0 <= chunks[a].id && usedSize < ClassSize(t, chunks[a].id)
    {
      ReportedExactly(a);
      assert live - {a} == {};
    }

    /** What is live and what is on the free lists add up, whatever has leaked; the part of the lists may sink below 0. */
    lemma SizesAddUp()
      requires Valid()
      ensures live <= chunks.Keys && usedSize + freeSize == Weight(chunks, chunks.Keys)
      ensures freeSize == Weight(chunks, chunks.Keys - live) <==> leaked == 0
      ensures freeSize < 0 <==> Weight(chunks, chunks.Keys - live) < leaked
    {
      WeightOfParts(chunks, live, chunks.Keys - live);
      assert live + (chunks.Keys - live) == chunks.Keys;
    }
  }

  /**
    A small chunk is taken, given back and taken again.  Giving it back is reported as an error, and taking it again
    brings the count of the bytes on the free lists below 0.
  */
  method TakenTwice(t: Table, backing: Backing, size: nat) returns (m: Manager, ok: bool)
    requires t.count >= 2 && backing.Valid() && backing.live == {} && forall n, s :: backing.grants(n, s)
    requires size > 0 && Room(size) < ClassSize(t, 0) && !TurnedAway(t, size)
    modifies backing
    ensures fresh(m) && m.Valid() && !ok && m.freeSize < 0
  {
    hide Shelved, Total, Tally, TurnedAway, ClassSize, Room;
    m := new Manager(t, backing);
    var p, got, error, id := m.Alloc(false, size);
    OnlyTheFirst(t, size, id);
    m.LastFreeIsReported(p.value);
    ok := m.Free(p.value);
    p, got, error, id := m.Alloc(false, size);
    OnlyTheFirst(t, size, id);
  }

  lemma OnlyTheFirst(t: Table, size: nat, id: nat)
    requires Tightest(t, size, id) && Room(size) < ClassSize(t, 0)
    ensures id == 0
  {
    if id > 0 { ClassesMonotone(t, 0, id - 1); }
  }
}
