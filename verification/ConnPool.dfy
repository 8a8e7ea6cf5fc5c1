/**
  The connection pools of src/core/shs_conn_pool.cc: each pool's list of free connections, and the common list
  through which pools that gave connections away are made up for by pools that were given some.
*/
module ConnPool {
  import opened ConnExchange

  class Conn {
    var next: Conn?

    constructor ()
      ensures next == null
    {
      next := null;
    }
  }

  ghost function At(s: seq<Conn>, i: nat): Conn? {
    if i < |s| then s[i] else null
  }

  /** The links from `head` run through the connections of `s`, each once, and end. */
  ghost predicate Chain(head: Conn?, s: seq<Conn>)
    reads s
  {
    && head == At(s, 0)
    && (forall i :: 0 <= i < |s| ==> s[i].next == At(s, i + 1))
    && (forall i, j :: 0 <= i < j < |s| ==> s[i] != s[j])
  }

  lemma Longer(c: Conn, s: seq<Conn>)
    requires Chain(c.next, s) && c !in s
    ensures Chain(c, [c] + s)
  {
    var t := [c] + s;
    forall i | 0 <= i < |t| ensures t[i].next == At(t, i + 1) {
      if i > 0 { assert t[i] == s[i - 1] && s[i - 1].next == At(s, i); }
    }
  }

  lemma Shorter(head: Conn?, s: seq<Conn>)
    requires Chain(head, s) && s != []
    ensures head == s[0] && Chain(s[0].next, s[1..]) && s == [s[0]] + s[1..]
  {
    var t := s[1..];
    forall i | 0 <= i < |t| ensures t[i].next == At(t, i + 1) {
      assert t[i] == s[i + 1];
    }
  }

  /** A chain whose n-th link has been cleared is two chains. */
  lemma TwoChains(s: seq<Conn>, n: nat)
    requires 0 < n < |s| && forall i, j :: 0 <= i < j < |s| ==> s[i] != s[j]
    requires forall i :: 0 <= i < |s| ==> s[i].next == if i == n - 1 then null else At(s, i + 1)
    ensures Chain(s[0], s[..n]) && Chain(s[n], s[n..])
  {
    var a, b := s[..n], s[n..];
    forall i | 0 <= i < |a| ensures a[i].next == At(a, i + 1) {
      assert a[i] == s[i];
    }
    forall i | 0 <= i < |b| ensures b[i].next == At(b, i + 1) {
      assert b[i] == s[n + i];
    }
  }

  ghost function One(c: Conn?): seq<Conn> {
    if c == null then [] else [c]
  }

  /** The list of free connections and its count, of a pool or of the common list. */
  class FreeList {
    var head: Conn?
    var count: int
    ghost var conns: seq<Conn>

    ghost predicate Valid()
      reads this, conns
    {
      Chain(head, conns) && count == |conns| && (head == null <==> conns == [])
    }

    constructor ()
      ensures Valid() && conns == []
    {
      head, count, conns := null, 0, [];
    }

    /** put_comm_conn, and the tail of conn_pool_free_connection. */
    method Push(c: Conn)
      requires Valid() && c !in conns
      modifies this, c
      ensures Valid() && conns == [c] + old(conns)
    {
      count := count + 1;
      c.next := head;
      head := c;
      Longer(c, conns);
      conns := [c] + conns;
    }

    /** The tail of conn_pool_get_connection. */
    method Pop() returns (c: Conn)
      requires Valid() && conns != []
      modifies this
      ensures Valid() && [c] + conns == old(conns)
    {
      Shorter(head, conns);
      c := head;
      head := c.next;
      count := count - 1;
      conns := conns[1..];
    }

    /** The loop of get_comm_conn over the first n links. */
    method Walk(n: nat) returns (p: Conn, plast: Conn)
      requires Valid() && 0 < n < count
      ensures p == conns[n] && plast == conns[n - 1]
    {
      var at: Conn? := head;
      var last := at;
      var i := n;
      while at != null && i > 0
        invariant 0 <= i <= n
        invariant at == conns[n - i]
        invariant last == if i == n then head else conns[n - i - 1]
      {
        last := at;
        at := at.next;
        i := i - 1;
      }
      p, plast := at, last;
    }

    /** The first n links are cut off. */
    method CutOff(n: nat) returns (ghost taken: seq<Conn>)
      requires Valid() && 0 < n < count
      modifies this, conns
      ensures Valid() && taken == old(conns)[..n] && conns == old(conns)[n..] && Chain(old(head), taken)
    {
      var p, plast := Walk(n);
      head := p;
      count := count - n;
      plast.next := null;
      TwoChains(conns, n);
      taken, conns := conns[..n], conns[n..];
    }

    /** get_comm_conn: the first n connections, or all there are. */
    method Take(n: nat) returns (c: Conn?, num: int, ghost taken: seq<Conn>)
      requires Valid() && n > 0
      modifies this, conns
      ensures Valid() && taken + conns == old(conns) && Chain(c, taken) && (c == null <==> taken == [])
      ensures num == |taken| == if n < |old(conns)| then n else |old(conns)|
    {
      if count == 0 {
        return null, 0, [];
      }
      if n >= count {
        c, num, taken := head, count, conns;
        head, count, conns := null, 0, [];
        return;
      }
      c := head;
      taken := CutOff(n);
      num := n;
    }
  }

  class Pool {
    const connectionN: nat
    const free: FreeList
    var changeN: int
    var usedN: int

    constructor (n: nat, list: FreeList)
      ensures connectionN == n && free == list && changeN == 0 && usedN == 0
    {
      connectionN, free, changeN, usedN := n, list, 0, 0;
    }

    /** An empty pool is refilled from the common list with up to as many as it gave away. */
    method Refill(comm: FreeList) returns (ok: bool)
      requires free.Valid() && comm.Valid() && free != comm && free.conns == [] && changeN < 0
      modifies this`changeN, free, comm, comm.conns
      ensures free.Valid() && comm.Valid()
      ensures ok == (old(comm.conns) != []) && changeN == old(changeN) + |free.conns|
      ensures free.conns + comm.conns == old(comm.conns)
      ensures |free.conns| == if -old(changeN) < |old(comm.conns)| then -old(changeN) else |old(comm.conns)|
    {
      hide Chain;
      var first, num, taken := comm.Take(-changeN);
      if first == null {
        return false;
      }
      free.head := first;
      free.count := free.count + num;
      free.conns := taken;
      changeN := changeN + num;
      ok := true;
    }

    /** conn_pool_get_connection: the first free one; none when nothing was given away or nothing has come back. */
    method GetConnection(comm: FreeList) returns (c: Conn?)
      requires free.Valid() && comm.Valid() && free != comm
      modifies this, free, comm, comm.conns
      ensures free.Valid() && comm.Valid()
      ensures Got(old(free.conns), old(changeN), old(comm.conns), One(c), free.conns, changeN, comm.conns)
      ensures old(free.conns) != [] ==>
        One(c) + free.conns == old(free.conns) && c != null && comm.conns == old(comm.conns) && changeN == old(changeN)
      ensures old(free.conns) == [] && (old(changeN) >= 0 || old(comm.conns) == []) ==>
        c == null && free.conns == [] && comm.conns == old(comm.conns) && changeN == old(changeN)
      ensures old(free.conns) == [] && old(changeN) < 0 && old(comm.conns) != [] ==>
        && c != null && One(c) + free.conns + comm.conns == old(comm.conns) && changeN == old(changeN) + 1 + |free.conns|
        && 1 + |free.conns| == if -old(changeN) < |old(comm.conns)| then -old(changeN) else |old(comm.conns)|
      ensures usedN == old(usedN) + if c == null then 0 else 1
    {
      hide Chain;
      if free.head == null {
        if changeN >= 0 {
          return null;
        }
        var ok := Refill(comm);
        if !ok {
          return null;
        }
      }
      c := free.Pop();
      usedN := usedN + 1;
    }

    /** conn_pool_free_connection: while the pool holds connections it was given, they go to the common list. */
    method FreeConnection(comm: FreeList, c: Conn)
      requires free.Valid() && comm.Valid() && free != comm
      requires c !in free.conns && c !in comm.conns
      modifies this, free, comm, c
      ensures free.Valid() && comm.Valid() && usedN == old(usedN) - 1
      ensures old(changeN) > 0 ==>
                free.conns == old(free.conns) && comm.conns == [c] + old(comm.conns) && changeN == old(changeN) - 1
      ensures old(changeN) <= 0 ==>
                free.conns == [c] + old(free.conns) && comm.conns == old(comm.conns) && changeN == old(changeN)
    {
      if changeN > 0 {
        usedN := usedN - 1;
        comm.Push(c);
        changeN := changeN - 1;
        return;
      }
      free.Push(c);
      usedN := usedN - 1;
    }

    /** conn_pool_out: n connections in use leave for another pool. */
    method Out(n: int)
      modifies this
      ensures changeN == old(changeN) - n && usedN == old(usedN) - n
    {
      changeN := changeN - n;
      usedN := usedN - n;
    }

    /** conn_pool_in: n connections in use arrive from another pool. */
    method In(n: int)
      modifies this
      ensures changeN == old(changeN) + n && usedN == old(usedN) + n
    {
      changeN := changeN + n;
      usedN := usedN + n;
    }
  }

  /** conn_pool_init: the connections are linked in order; a pool of none is refused. */
  method Init(n: nat) returns (pool: Pool?, conns: seq<Conn>)
    ensures n == 0 <==> pool == null
    ensures pool != null ==> fresh(pool) && fresh(pool.free) && pool.free.Valid() && pool.free.conns == conns
    ensures pool != null ==> |conns| == n == pool.connectionN && pool.changeN == 0 && pool.usedN == 0
    ensures forall c <- conns :: fresh(c)
  {
    pool, conns := null, [];
    if n == 0 {
      return;
    }
    for i := 0 to n
      invariant |conns| == i && forall c <- conns :: fresh(c)
      invariant forall j, k :: 0 <= j < k < i ==> conns[j] != conns[k]
    {
      var c := new Conn();
      conns := conns + [c];
    }
    for i := 0 to n
      invariant forall c <- conns :: fresh(c)
      invariant forall j :: 0 <= j < i ==> conns[j].next == At(conns, j + 1)
    {
      assert conns[i] in conns;
      conns[i].next := if i == n - 1 then null else conns[i + 1];
    }
    var list := new FreeList();
    list.head := conns[0];
    list.count := n;
    list.conns := conns;
    pool := new Pool(n, list);
  }
}
