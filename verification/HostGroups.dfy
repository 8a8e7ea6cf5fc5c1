/**
  src/downstream/host.cc: the hash ring of a host group, and how a host is chosen.
*/
module HostGroups {
  import opened Arithmetic
  import opened HashRing

  /** Virtual nodes per master. */
  const REPLICAS: nat := 200
  const UINT32: nat := 0x1_0000_0000

  datatype VirtualNode = VirtualNode(idx: nat, offset: nat)

  ghost function Offsets(nodes: seq<VirtualNode>): (o: seq<nat>)
    ensures |o| == |nodes| && forall i :: 0 <= i < |o| ==> o[i] == nodes[i].offset
  {
    seq(|nodes|, i requires 0 <= i < |nodes| => nodes[i].offset)
  }

  ghost function Owners(nodes: seq<VirtualNode>): (o: seq<nat>)
    ensures |o| == |nodes| && forall i :: 0 <= i < |o| ==> o[i] == nodes[i].idx
  {
    seq(|nodes|, i requires 0 <= i < |nodes| => nodes[i].idx)
  }

  ghost predicate SortedNodes(nodes: seq<VirtualNode>) {
    forall i, j :: 0 <= i < j < |nodes| ==> nodes[i].offset <= nodes[j].offset
  }

  lemma OwnersInserted(nodes: seq<VirtualNode>, pos: nat, n: VirtualNode, m: nat)
    requires pos <= |nodes|
    ensures CountOf(Owners(nodes[..pos] + [n] + nodes[pos..]), m) == CountOf(Owners(nodes), m) + if n.idx == m then 1 else 0
  {
    var o := Owners(nodes);
    CountInserted(o, pos, n.idx, m);
    assert Owners(nodes[..pos] + [n] + nodes[pos..]) == o[..pos] + [n.idx] + o[pos..];
  }

  // ----- the nodes that HashInit sorts -----

  ghost function MasterNodes(hashOf: (nat, nat) -> nat, m: nat, count: nat): multiset<VirtualNode> {
    if count == 0 then multiset{} else MasterNodes(hashOf, m, count - 1) + multiset{VirtualNode(m, hashOf(m, count - 1))}
  }

  ghost function AllNodes(hashOf: (nat, nat) -> nat, masters: nat): multiset<VirtualNode> {
    if masters == 0 then multiset{} else AllNodes(hashOf, masters - 1) + MasterNodes(hashOf, masters - 1, REPLICAS)
  }

  lemma {:induction false} InMasterNodes(hashOf: (nat, nat) -> nat, m: nat, count: nat, n: VirtualNode)
    ensures n in MasterNodes(hashOf, m, count) <==> exists i: nat :: i < count && n == VirtualNode(m, hashOf(m, i))
  {
    if count > 0 { InMasterNodes(hashOf, m, count - 1, n); }
  }

  lemma {:induction false} InAllNodes(hashOf: (nat, nat) -> nat, masters: nat, n: VirtualNode)
    ensures n in AllNodes(hashOf, masters)
            <==> exists m: nat, i: nat :: m < masters && i < REPLICAS && n == VirtualNode(m, hashOf(m, i))
  {
    if masters > 0 {
      InAllNodes(hashOf, masters - 1, n);
      InMasterNodes(hashOf, masters - 1, REPLICAS, n);
    }
  }

  /** Line 361: the largest hash, over the number of nodes. */
  function Average(nodes: seq<VirtualNode>): nat
    requires nodes != []
  {
    nodes[|nodes| - 1].offset / |nodes|
  }

  lemma AverageFits(nodes: seq<VirtualNode>)
    requires nodes != []
    ensures |nodes| * Average(nodes) <= nodes[|nodes| - 1].offset < |nodes| * (Average(nodes) + 1)
  {
    QuotientAtLeast(nodes[|nodes| - 1].offset, |nodes|, Average(nodes));
    QuotientAtLeast(nodes[|nodes| - 1].offset, |nodes|, Average(nodes) + 1);
  }

  /** The average is not 0 exactly when some hash reaches the number of nodes. */
  lemma AverageIsPositive(hashOf: (nat, nat) -> nat, masters: nat, sorted: seq<VirtualNode>)
    requires sorted != [] && SortedNodes(sorted) && multiset(sorted) == AllNodes(hashOf, masters)
    ensures Average(sorted) >= 1
            <==> exists m: nat, i: nat :: m < masters && i < REPLICAS && hashOf(m, i) >= |sorted|
  {
    var n := sorted[|sorted| - 1];
    QuotientAtLeast(n.offset, |sorted|, 1);
    assert n in multiset(sorted);
    InAllNodes(hashOf, masters, n);
    forall m: nat, i: nat | m < masters && i < REPLICAS
      ensures hashOf(m, i) <= n.offset
    {
      InAllNodes(hashOf, masters, VirtualNode(m, hashOf(m, i)));
      assert VirtualNode(m, hashOf(m, i)) in multiset(sorted);
      var k :| 0 <= k < |sorted| && sorted[k] == VirtualNode(m, hashOf(m, i));
    }
  }

  lemma NodesBelong(hashOf: (nat, nat) -> nat, masters: nat, nodes: seq<VirtualNode>)
    requires multiset(nodes) == AllNodes(hashOf, masters) && forall m, i :: hashOf(m, i) < UINT32
    ensures forall i :: 0 <= i < |nodes| ==> nodes[i].idx < masters && nodes[i].offset < UINT32
  {
    forall i | 0 <= i < |nodes|
      ensures nodes[i].idx < masters && nodes[i].offset < UINT32
    {
      assert nodes[i] in multiset(nodes);
      InAllNodes(hashOf, masters, nodes[i]);
    }
  }

  lemma SameOwners(nodes: seq<VirtualNode>, sorted: seq<VirtualNode>)
    requires Owners(nodes) == Owners(sorted)
    ensures |nodes| == |sorted| && forall i :: 0 <= i < |nodes| ==> nodes[i].idx == sorted[i].idx
  {
    forall i | 0 <= i < |nodes|
      ensures nodes[i].idx == sorted[i].idx
    {
      assert Owners(nodes)[i] == Owners(sorted)[i];
    }
  }

  datatype Choice = Master(idx: nat) | Slave(idx: nat) | NoHost

  /** What the search of the ring touches for this hash. */
  ghost predicate InBounds(nodes: seq<VirtualNode>, hash: nat) {
    nodes != [] ==> GetHashIdx(Offsets(nodes), 0, |nodes|, hash).Index?
  }

  /** `idx` is the first slave without failures, going round from `start`. */
  ghost predicate FirstSound(start: nat, failures: seq<nat>, idx: nat)
    requires |failures| > 0
  {
    exists k: nat {:trigger k % |failures|} :: start <= k < start + |failures| && idx == k % |failures| && failures[idx] == 0
      && forall j: nat {:trigger j % |failures|} :: start <= j < k ==> failures[j % |failures|] > 0
  }

  /** `idx` is the first slave that is alive, going round from `start`. */
  ghost predicate FirstAlive(start: nat, alive: seq<bool>, idx: nat)
    requires |alive| > 0
  {
    exists k: nat {:trigger k % |alive|} :: start <= k < start + |alive| && idx == k % |alive| && alive[idx]
      && forall j: nat {:trigger j % |alive|} :: start <= j < k ==> !alive[j % |alive|]
  }

  /** The slave to take: on a retry the round starts later, and without a sound slave the first living one will do. */
  ghost predicate SlaveFor(hash: nat, retry: nat, failures: seq<nat>, alive: seq<bool>, idx: nat)
    requires |failures| == |alive|
  {
    |alive| > 0 &&
    if exists j :: 0 <= j < |alive| && failures[j] == 0
    then FirstSound(hash % |alive| + retry, failures, idx)
    else FirstAlive(hash % |alive|, alive, idx)
  }

  class HostGroup {
    var masters: nat
    var slaves: nat
    var nodes: seq<VirtualNode>

    constructor (masters: nat, slaves: nat)
      ensures this.masters == masters && this.slaves == slaves && nodes == []
    {
      this.masters, this.slaves, nodes := masters, slaves, [];
    }

    /** Every node belongs to a master, and every master has its nodes. */
    ghost predicate Populated()
      reads this
    {
      && |nodes| == masters * REPLICAS
      && (forall i :: 0 <= i < |nodes| ==> nodes[i].idx < masters)
      && (forall m: nat :: m < masters ==> CountOf(Owners(nodes), m) == REPLICAS)
    }

    /** GetPos: the place after all nodes with an offset that is not larger. */
    method GetPos(hash: nat) returns (pos: nat)
      requires SortedNodes(nodes)
      ensures pos <= |nodes|
      ensures forall i :: 0 <= i < pos ==> nodes[i].offset <= hash
      ensures forall i :: pos <= i < |nodes| ==> hash < nodes[i].offset
    {
      pos := |nodes|;
      var i := 0;
      while i < |nodes|
        invariant 0 <= i <= |nodes| && pos == |nodes|
        invariant forall j :: 0 <= j < i ==> nodes[j].offset <= hash
      {
        if hash < nodes[i].offset {
          return i;
        }
        i := i + 1;
      }
    }

    /** One node is inserted in order: lines 350-357. */
    method AddNode(idx: nat, hash: nat)
      requires SortedNodes(nodes)
      modifies `nodes
      ensures SortedNodes(nodes) && |nodes| == |old(nodes)| + 1
      ensures forall m: nat :: CountOf(Owners(nodes), m) == CountOf(Owners(old(nodes)), m) + if m == idx then 1 else 0
      ensures multiset(nodes) == multiset(old(nodes)) + multiset{VirtualNode(idx, hash)}
    {
      var pos := GetPos(hash);
      forall m: nat
        ensures CountOf(Owners(nodes[..pos] + [VirtualNode(idx, hash)] + nodes[pos..]), m)
             == CountOf(Owners(nodes), m) + if m == idx then 1 else 0
      {
        OwnersInserted(nodes, pos, VirtualNode(idx, hash), m);
      }
      assert nodes == nodes[..pos] + nodes[pos..];
      nodes := nodes[..pos] + [VirtualNode(idx, hash)] + nodes[pos..];
    }

    /** The nodes of one master: lines 348-358. */
    method AddMasterNodes(idx: nat, hashOf: (nat, nat) -> nat)
      requires SortedNodes(nodes)
      modifies `nodes
      ensures SortedNodes(nodes) && multiset(nodes) == multiset(old(nodes)) + MasterNodes(hashOf, idx, REPLICAS)
      ensures |nodes| == |old(nodes)| + REPLICAS
      ensures forall m: nat :: CountOf(Owners(nodes), m) == CountOf(Owners(old(nodes)), m) + if m == idx then REPLICAS else 0
    {
      var i := 0;
      while i < REPLICAS
        invariant 0 <= i <= REPLICAS && SortedNodes(nodes) && |nodes| == |old(nodes)| + i
        invariant multiset(nodes) == multiset(old(nodes)) + MasterNodes(hashOf, idx, i)
        invariant forall m: nat :: CountOf(Owners(nodes), m) == CountOf(Owners(old(nodes)), m) + if m == idx then i else 0
      {
        AddNode(idx, hashOf(idx, i));
        i := i + 1;
      }
    }

    /**
      HashInit; `hashOf` stands for CalcHash of the name of a node.  The nodes keep the order of their hashes and are
      spaced by the largest hash over their number; with no master, line 361 has no last node.
    */
    method HashInit(hashOf: (nat, nat) -> nat) returns (ghost avg: nat, ghost sorted: seq<VirtualNode>)
      requires masters >= 1 && forall m, i :: hashOf(m, i) < UINT32
      modifies `nodes
      ensures SortedNodes(sorted) && multiset(sorted) == AllNodes(hashOf, masters)
      ensures Owners(nodes) == Owners(sorted) && sorted != []
      ensures |sorted| * avg <= sorted[|sorted| - 1].offset < |sorted| * (avg + 1)
      ensures Populated() && Spaced(Offsets(nodes), avg)
      ensures avg >= 1 <==> exists m: nat, i: nat :: m < masters && i < REPLICAS && hashOf(m, i) >= masters * REPLICAS
      ensures forall i :: 0 <= i < |nodes| ==> nodes[i].offset <= |nodes| * avg < UINT32
    {
      hide CountOf, AllNodes, MasterNodes, Offsets, Owners, Spaced, SortedNodes, Average;
      Collect(hashOf);
      sorted := nodes;
      AverageIsPositive(hashOf, masters, sorted);
      NodesBelong(hashOf, masters, sorted);
      AverageFits(sorted);
      var a := Average(nodes);
      avg := a;
      Respace(a);
      SameOwners(nodes, sorted);
    }

    /** Lines 342-359: the nodes of all masters, by their hashes. */
    method Collect(hashOf: (nat, nat) -> nat)
      modifies `nodes
      ensures SortedNodes(nodes) && multiset(nodes) == AllNodes(hashOf, masters) && |nodes| == masters * REPLICAS
      ensures forall m: nat :: CountOf(Owners(nodes), m) == if m < masters then REPLICAS else 0
    {
      nodes := [];
      var idx := 0;
      while idx < masters
        invariant 0 <= idx <= masters && SortedNodes(nodes) && |nodes| == idx * REPLICAS
        invariant multiset(nodes) == AllNodes(hashOf, idx)
        invariant forall m: nat :: CountOf(Owners(nodes), m) == if m < idx then REPLICAS else 0
      {
        AddMasterNodes(idx, hashOf);
        idx := idx + 1;
      }
    }

    /** Lines 362-365: the offsets become multiples of `a`, in the same order. */
    method Respace(a: nat)
      requires |nodes| * a < UINT32
      modifies `nodes
      ensures Spaced(Offsets(nodes), a) && Owners(nodes) == Owners(old(nodes))
      ensures forall i :: 0 <= i < |nodes| ==> nodes[i].offset <= |nodes| * a
    {
      var l := 0;
      while l < |nodes|
        invariant 0 <= l <= |nodes| == |old(nodes)|
        invariant forall i :: 0 <= i < |nodes| ==> nodes[i].idx == old(nodes)[i].idx
        invariant forall i :: 0 <= i < l ==> nodes[i].offset == (i + 1) * a <= |nodes| * a
      {
        MulMonotoneLeft(l + 1, |nodes|, a);
        var offset := (l + 1) * a;
        // unsigned arithmetic does not wrap
        assert offset % UINT32 == offset;
        nodes := nodes[l := nodes[l].(offset := offset % UINT32)];
        l := l + 1;
      }
    }

    /** After HashInit every master serves 200 * avg of the hash values 1..n * avg. */
    lemma EqualShares(avg: nat, m: nat)
      requires Populated() && Spaced(Offsets(nodes), avg) && m < masters
      ensures Served(Offsets(nodes), Owners(nodes), m, |nodes| * avg) == REPLICAS * avg
    {
      FairShare(Offsets(nodes), Owners(nodes), avg, m);
    }

    /** The hashes for which the search stays inside the ring. */
    lemma SafeHashes(avg: nat, hash: nat)
      requires Populated() && masters >= 1 && Spaced(Offsets(nodes), avg) && avg >= 1
      ensures InBounds(nodes, hash) <==> hash <= |nodes| * avg || WrapsSafely(|nodes|)
    {
      SpacedIncreasing(Offsets(nodes), avg);
      StaysInBounds(Offsets(nodes), hash);
    }

    // ----- choosing a master -----

    /** The place `k` steps round the ring from `start`. */
    ghost function PlaceAfter(start: nat, k: nat): (p: nat)
      reads this
      ensures start < |nodes| && k <= |nodes| ==> p == (start + k) % |nodes|
    {
      if start + k < |nodes| then start + k else start + k - |nodes|
    }

    /** The owner of the node `k` places after node `start`. */
    ghost function OwnerAfter(start: nat, k: nat): nat
      requires start < |nodes| && k <= |nodes|
      reads this
    {
      nodes[PlaceAfter(start, k)].idx
    }

    /** A master none of whose nodes is left unvisited has none. */
    lemma AllVisited(start: nat, failed: set<nat>, m: nat)
      requires Populated() && start < |nodes| && m < masters
      requires forall k :: 0 <= k < |nodes| ==> OwnerAfter(start, k) in failed
      ensures m in failed
    {
      var i := OwnedNode(Owners(nodes), m);
      var k := if i >= start then i - start else i - start + |nodes|;
      assert OwnerAfter(start, k) in failed;
    }

    /** `m` is the first owner, going round from node `start`, that has not been tried. */
    ghost predicate NextUntried(start: nat, tried: set<nat>, m: nat)
      requires start < |nodes|
      reads this
    {
      exists k: nat :: k <= |nodes| && OwnerAfter(start, k) == m && m !in tried
        && forall j :: 0 <= j < k ==> OwnerAfter(start, j) in tried
    }

    /** Lines 430-466: round the ring from `start`. */
    method GoRound(start: nat, tried: set<nat>) returns (c: Choice)
      requires Populated() && start < |nodes|
      ensures c.NoHost? <==> forall m: nat :: m < masters ==> m in tried
      ensures !c.NoHost? ==> c.Master? && c.idx < masters && c.idx !in tried && NextUntried(start, tried, c.idx)
    {
      assert OwnerAfter(start, 0) == nodes[start].idx;
      var idx, host := start, nodes[start].idx;
      if host !in tried {
        return Choice.Master(host);
      }
      var i := 0;
      while i < |nodes|
        invariant 0 <= i <= |nodes| && idx == PlaceAfter(start, i)
        invariant forall j :: 0 <= j <= i ==> OwnerAfter(start, j) in tried
      {
        NextInCircle(idx, |nodes|);
        idx := (idx + 1) % |nodes|;
        host := nodes[idx].idx;
        assert OwnerAfter(start, i + 1) == host;
        if host !in tried {
          return Choice.Master(host);
        }
        i := i + 1;
      }
      c := NoHost;
      forall m: nat | m < masters
        ensures m in tried
      {
        AllVisited(start, tried, m);
      }
    }

    /** Master: the first master clockwise from the hash that has not been tried. */
    method Master(hash: nat, history: set<nat>) returns (c: Choice, history': set<nat>)
      requires nodes != [] ==> Populated() && InBounds(nodes, hash)
      ensures c.NoHost? <==> nodes == [] || forall m: nat :: m < masters ==> m in history
      ensures c.NoHost? ==> history' == history
      ensures !c.NoHost? ==> c.Master? && c.idx < masters && c.idx !in history && history' == history + {c.idx}
      ensures !c.NoHost? ==>
        NextUntried(GetHashIdx(Offsets(nodes), 0, |nodes|, hash).i % |nodes|, history, c.idx)
    {
      if nodes == [] {
        return NoHost, history;
      }
      var idx := FindNode(hash);
      c := GoRound(idx, history);
      history' := if c.Master? then history + {c.idx} else history;
    }

    /** Line 421: the search, reduced to a node. */
    method FindNode(hash: nat) returns (idx: nat)
      requires nodes != [] && InBounds(nodes, hash)
      ensures idx < |nodes| && idx == GetHashIdx(Offsets(nodes), 0, |nodes|, hash).i % |nodes|
    {
      var offsets := seq(|nodes|, i requires 0 <= i < |nodes| reads this => nodes[i].offset);
      assert offsets == Offsets(nodes);
      idx := GetHashIdx(offsets, 0, |nodes|, hash).i % |nodes|;
    }

    // ----- choosing a slave -----

    /** Slave: first one without failures, starting later on a retry; then one that is alive. */
    method Slave(hash: nat, retry: nat, failures: seq<nat>, alive: seq<bool>) returns (c: Choice)
      requires |failures| == |alive| == slaves
      ensures c.NoHost? <==> forall j :: 0 <= j < slaves ==> failures[j] > 0 && !alive[j]
      ensures !c.NoHost? ==> c.Slave? && c.idx < slaves
      ensures !c.NoHost? ==> SlaveFor(hash, retry, failures, alive, c.idx)
      ensures !c.NoHost? && (exists j :: 0 <= j < slaves && failures[j] == 0) ==>
        FirstSound(hash % slaves + retry, failures, c.idx)
      ensures !c.NoHost? && (forall j :: 0 <= j < slaves ==> failures[j] > 0) ==> FirstAlive(hash % slaves, alive, c.idx)
    {
      hide FirstSound, FirstAlive;
      if slaves == 0 {
        return NoHost;
      }
      var legal := hash % slaves;
      var found, idx := FindSound(legal + retry, failures);
      if !found {
        found, idx := FindAlive(legal, alive);
      }
      c := if found then Choice.Slave(idx) else NoHost;
    }

    /** Lines 484-491: from `start` round to a slave without failures. */
    method FindSound(start: nat, failures: seq<nat>) returns (found: bool, idx: nat)
      requires |failures| == slaves > 0
      ensures found <==> exists j :: 0 <= j < slaves && failures[j] == 0
      ensures found ==> idx < slaves && FirstSound(start, failures, idx)
    {
      found, idx := false, 0;
      var i := start;
      while i < start + slaves
        invariant start <= i <= start + slaves
        invariant forall k :: start <= k < i ==> failures[k % slaves] > 0
      {
        if failures[i % slaves] == 0 {
          return true, i % slaves;
        }
        i := i + 1;
      }
      forall j | 0 <= j < slaves
        ensures failures[j] > 0
      {
        var k := RemainderReached(start, slaves, j);
      }
    }

    /** Lines 493-500: from `start` round to a slave that is alive. */
    method FindAlive(start: nat, alive: seq<bool>) returns (found: bool, idx: nat)
      requires |alive| == slaves > 0
      ensures found <==> exists j :: 0 <= j < slaves && alive[j]
      ensures found ==> idx < slaves && FirstAlive(start, alive, idx)
    {
      found, idx := false, 0;
      var i := start;
      while i < start + slaves
        invariant start <= i <= start + slaves
        invariant forall k :: start <= k < i ==> !alive[k % slaves]
      {
        if alive[i % slaves] {
          return true, i % slaves;
        }
        i := i + 1;
      }
      forall j | 0 <= j < slaves
        ensures !alive[j]
      {
        var k := RemainderReached(start, slaves, j);
      }
    }

    /** SelectHost: a slave only when every master has been tried. */
    method SelectHost(hash: nat, history: set<nat>, retry: nat, failures: seq<nat>, alive: seq<bool>)
      returns (c: Choice, history': set<nat>)
      requires nodes != [] ==> Populated() && InBounds(nodes, hash)
      requires |failures| == |alive| == slaves
      ensures c.Master? ==> c.idx < masters && c.idx !in history && history' == history + {c.idx}
      ensures c.Master? ==> nodes != [] && NextUntried(GetHashIdx(Offsets(nodes), 0, |nodes|, hash).i % |nodes|, history, c.idx)
      ensures !c.Master? ==> history' == history && (nodes == [] || forall m: nat :: m < masters ==> m in history)
      ensures c.NoHost? ==> forall j :: 0 <= j < slaves ==> failures[j] > 0 && !alive[j]
      ensures c.Slave? ==> c.idx < slaves && SlaveFor(hash, retry, failures, alive, c.idx)
    {
      c, history' := Master(hash, history);
      if c.NoHost? {
        c := Slave(hash, retry, failures, alive);
      }
    }
  }

  /** A node of a master that owns some. */
  lemma {:induction false} OwnedNode(owners: seq<nat>, m: nat) returns (i: nat)
    requires CountOf(owners, m) > 0
    ensures i < |owners| && owners[i] == m
  {
    if owners[|owners| - 1] == m {
      i := |owners| - 1;
    } else {
      i := OwnedNode(owners[..|owners| - 1], m);
    }
  }
}
