/**
  Any number of connection pools, each used by its own thread, exchanging connections through the common list and
  through matched conn_pool_out and conn_pool_in calls: src/core/shs_conn_pool.cc:108-251. Only the sections under
  the lock of the common list are atomic; a thread updates its own pool's counters before or after them.
*/
module ConnExchange {

  /** Where a pool's thread is within a call: it may hold a taken list, or have put a connection on the common list. */
  datatype Hand = Idle | Taken(list: seq<int>) | Given

  datatype Pool = Pool(size: int, change: int, usedN: int, free: seq<int>, used: multiset<int>, hand: Hand)

  /** `moving` are the connections that have left one pool by conn_pool_out and not yet arrived by conn_pool_in. */
  datatype System = System(pools: seq<Pool>, comm: seq<int>, moving: multiset<int>)

  datatype Step =
    | GetOwn(p: nat)
    | TakeCommon(p: nat)
    | FinishGet(p: nat)
    | FreeOwn(p: nat, c: int)
    | GiveCommon(p: nat, c: int)
    | FinishFree(p: nat)
    | Out(p: nat, cs: multiset<int>)
    | In(p: nat, cs: multiset<int>)

  function Min(a: int, b: int): int {
    if a < b then a else b
  }

  /** The branch of the call that the step belongs to is the one taken in this state. */
  predicate Enabled(s: System, step: Step) {
    && step.p < |s.pools|
    && var pool := s.pools[step.p];
      match step
      case GetOwn(p) => pool.hand.Idle? && pool.free != []
      case TakeCommon(p) => pool.hand.Idle? && pool.free == [] && pool.change < 0 && s.comm != []
      case FinishGet(p) => pool.hand.Taken? && pool.hand.list != []
      case FreeOwn(p, c) => pool.hand.Idle? && pool.change <= 0 && c in pool.used
      case GiveCommon(p, c) => pool.hand.Idle? && pool.change > 0 && c in pool.used
      case FinishFree(p) => pool.hand.Given?
      case Out(p, cs) => pool.hand.Idle? && cs <= pool.used
      case In(p, cs) => pool.hand.Idle? && cs <= s.moving
  }

  function Next(s: System, step: Step): System
    requires Enabled(s, step)
  {
    var q := s.pools[step.p];
    match step
    case GetOwn(p) =>
      s.(pools := s.pools[p := q.(free := q.free[1..], used := q.used + multiset{q.free[0]}, usedN := q.usedN + 1)])
    case TakeCommon(p) =>
      var k := Min(-q.change, |s.comm|);
      s.(pools := s.pools[p := q.(hand := Taken(s.comm[..k]))], comm := s.comm[k..])
    case FinishGet(p) =>
      var list := q.hand.list;
      s.(pools := s.pools[p := q.(free := list[1..], used := q.used + multiset{list[0]}, usedN := q.usedN + 1,
                                  change := q.change + |list|, hand := Idle)])
    case FreeOwn(p, c) =>
      s.(pools := s.pools[p := q.(free := [c] + q.free, used := q.used - multiset{c}, usedN := q.usedN - 1)])
    case GiveCommon(p, c) =>
      s.(pools := s.pools[p := q.(used := q.used - multiset{c}, usedN := q.usedN - 1, hand := Given)],
         comm := [c] + s.comm)
    case FinishFree(p) =>
      s.(pools := s.pools[p := q.(change := q.change - 1, hand := Idle)])
    case Out(p, cs) =>
      s.(pools := s.pools[p := q.(change := q.change - |cs|, usedN := q.usedN - |cs|, used := q.used - cs)],
         moving := s.moving + cs)
    case In(p, cs) =>
      s.(pools := s.pools[p := q.(change := q.change + |cs|, usedN := q.usedN + |cs|, used := q.used + cs)],
         moving := s.moving - cs)
  }

  /** The outcome of a whole call for a connection, on the pool's list and the common list before and after it. */
  ghost predicate Got<C>(free: seq<C>, change: int, comm: seq<C>, got: seq<C>, free': seq<C>, change': int, comm': seq<C>) {
    if free != [] then
      |got| == 1 && got + free' == free && change' == change && comm' == comm
    else if change >= 0 || comm == [] then
      got == [] && free' == free && change' == change && comm' == comm
    else
      && |got| == 1 && got + free' + comm' == comm
      && change' == change + 1 + |free'| && 1 + |free'| == Min(-change, |comm|)
  }

  /** Uninterrupted, the steps of a call have that outcome. */
  lemma StepsOfOneCall(s: System, p: nat)
    requires p < |s.pools| && s.pools[p].hand.Idle?
    ensures var q := s.pools[p];
      if Enabled(s, GetOwn(p)) then
        var t := Next(s, GetOwn(p));
        Got(q.free, q.change, s.comm, [q.free[0]], t.pools[p].free, t.pools[p].change, t.comm)
      else if Enabled(s, TakeCommon(p)) then
        var t := Next(s, TakeCommon(p));
        Enabled(t, FinishGet(p)) && var u := Next(t, FinishGet(p));
        Got(q.free, q.change, s.comm, [s.comm[0]], u.pools[p].free, u.pools[p].change, u.comm)
      else Got(q.free, q.change, s.comm, [], q.free, q.change, s.comm)
  {
    var q := s.pools[p];
    if q.free == [] && Enabled(s, TakeCommon(p)) {
      var k := Min(-q.change, |s.comm|);
      assert s.comm[..k] == [s.comm[0]] + s.comm[..k][1..];
      assert s.comm == s.comm[..k] + s.comm[k..];
    }
  }

  /** Uninterrupted, the steps of giving a connection back put it on the common list while the pool has a surplus. */
  lemma StepsOfGivingBack(s: System, p: nat, c: int)
    requires p < |s.pools| && s.pools[p].hand.Idle? && c in s.pools[p].used
    ensures var q := s.pools[p];
      if q.change > 0 then
        Enabled(s, GiveCommon(p, c)) && var t := Next(s, GiveCommon(p, c));
        Enabled(t, FinishFree(p)) && var u := Next(t, FinishFree(p));
        u.pools[p].free == q.free && u.comm == [c] + s.comm && u.pools[p].change == q.change - 1
        && u.pools[p].usedN == q.usedN - 1 && u.pools[p].hand.Idle?
      else
        Enabled(s, FreeOwn(p, c)) && var t := Next(s, FreeOwn(p, c));
        t.pools[p].free == [c] + q.free && t.comm == s.comm && t.pools[p].change == q.change
        && t.pools[p].usedN == q.usedN - 1 && t.pools[p].hand.Idle?
  {
  }

  // ----- what is conserved -----

  ghost function Held(q: Pool): multiset<int> {
    multiset(q.free) + q.used + if q.hand.Taken? then multiset(q.hand.list) else multiset{}
  }

  ghost function HeldByAll(pools: seq<Pool>): multiset<int> {
    if pools == [] then multiset{} else Held(pools[0]) + HeldByAll(pools[1..])
  }

  /** Every place a connection can be in, with repetitions. */
  ghost function Contents(s: System): multiset<int> {
    HeldByAll(s.pools) + multiset(s.comm) + s.moving
  }

  /** What the counter `change` is late by while its thread is within a call. */
  function Late(hand: Hand): int {
    match hand
    case Idle => 0
    case Taken(list) => |list|
    case Given => -1
  }

  function ChangeOfAll(pools: seq<Pool>): int {
    if pools == [] then 0 else pools[0].change + Late(pools[0].hand) + ChangeOfAll(pools[1..])
  }

  ghost predicate PoolInv(q: Pool) {
    && q.usedN == |q.used|
    && |q.free| + q.usedN + (if q.hand.Given? then 1 else 0) == q.size + q.change
    && |q.free| <= q.size
    && (q.hand.Taken? ==> q.free == [] && 0 < |q.hand.list| <= -q.change)
    && (q.hand.Given? ==> q.change > 0)
  }

  ghost predicate Inv(s: System) {
    && (forall i :: 0 <= i < |s.pools| ==> PoolInv(s.pools[i]))
    && ChangeOfAll(s.pools) + |s.comm| + |s.moving| == 0
  }

  ghost predicate Initial(s: System) {
    && s.comm == [] && s.moving == multiset{}
    && forall i :: 0 <= i < |s.pools| ==>
         var q := s.pools[i];
         q.size == |q.free| && q.change == 0 && q.usedN == 0 && q.used == multiset{} && q.hand.Idle?
  }

  // ----- sums over the pools -----

  lemma Exchange(a: multiset<int>, b: multiset<int>, c: multiset<int>, d: multiset<int>, e: multiset<int>)
    requires a + b == c + d
    ensures (e + a) + b == (e + c) + d
  {
    assert (e + a) + b == e + (a + b);
    assert (e + c) + d == e + (c + d);
  }

  lemma {:induction false} OneChanges(pools: seq<Pool>, p: nat, q: Pool)
    requires p < |pools|
    ensures ChangeOfAll(pools[p := q]) ==
            ChangeOfAll(pools) - pools[p].change - Late(pools[p].hand) + q.change + Late(q.hand)
    ensures HeldByAll(pools[p := q]) + Held(pools[p]) == HeldByAll(pools) + Held(q)
  {
    hide Late, Held;
    if p == 0 {
      assert pools[0 := q][1..] == pools[1..];
    } else {
      OneChanges(pools[1..], p - 1, q);
      assert pools[p := q][1..] == pools[1..][p - 1 := q] && pools[p := q][0] == pools[0];
      Exchange(HeldByAll(pools[1..][p - 1 := q]), Held(pools[p]), HeldByAll(pools[1..]), Held(q), Held(pools[0]));
    }
  }

  lemma {:induction false} ChangeAtStart(pools: seq<Pool>)
    requires forall i :: 0 <= i < |pools| ==> pools[i].change == 0 && pools[i].hand.Idle?
    ensures ChangeOfAll(pools) == 0
  {
    if pools != [] { ChangeAtStart(pools[1..]); }
  }

  // ----- every step -----

  lemma InitialInv(s: System)
    requires Initial(s)
    ensures Inv(s)
  {
    ChangeAtStart(s.pools);
  }

  lemma HeadAndTail(s: seq<int>)
    requires s != []
    ensures multiset(s) == multiset{s[0]} + multiset(s[1..])
  {
    assert s == [s[0]] + s[1..];
  }

  lemma TwoParts(s: seq<int>, k: nat)
    requires k <= |s|
    ensures multiset(s) == multiset(s[..k]) + multiset(s[k..])
  {
    assert s == s[..k] + s[k..];
  }

  ghost function Together(s: System, p: nat): multiset<int>
    requires p < |s.pools|
  {
    Held(s.pools[p]) + (multiset(s.comm) + s.moving)
  }

  lemma GetMoves(s: System, step: Step)
    requires Enabled(s, step) && step.GetOwn?
    ensures Together(Next(s, step), step.p) == Together(s, step.p)
  {
    HeadAndTail(s.pools[step.p].free);
  }

  lemma TakeShape(s: System, step: Step)
    requires Enabled(s, step) && step.TakeCommon?
    ensures var k, q, t := Min(-s.pools[step.p].change, |s.comm|), s.pools[step.p], Next(s, step);
      && 0 < k <= |s.comm| && |t.pools| == |s.pools| && t.comm == s.comm[k..] && t.moving == s.moving
      && t.pools[step.p] == q.(hand := Taken(s.comm[..k]))
  {
  }

  lemma TakeMoves(s: System, step: Step)
    requires Enabled(s, step) && step.TakeCommon?
    ensures step.p < |Next(s, step).pools| && Together(Next(s, step), step.p) == Together(s, step.p)
  {
    hide Next, Min;
    TakeShape(s, step);
    var k, q := Min(-s.pools[step.p].change, |s.comm|), s.pools[step.p];
    TwoParts(s.comm, k);
    FirstToThird(multiset(q.free) + q.used, multiset(s.comm[..k]), multiset(s.comm[k..]), s.moving);
  }

  lemma FinishMoves(s: System, step: Step)
    requires Enabled(s, step) && step.FinishGet? && PoolInv(s.pools[step.p])
    ensures Together(Next(s, step), step.p) == Together(s, step.p)
  {
    HeadAndTail(s.pools[step.p].hand.list);
  }

  lemma FreeMoves(s: System, step: Step)
    requires Enabled(s, step) && step.FreeOwn?
    ensures Together(Next(s, step), step.p) == Together(s, step.p)
  {
    var q := s.pools[step.p];
    HeadAndTail([step.c] + q.free);
    assert ([step.c] + q.free)[1..] == q.free && q.used == (q.used - multiset{step.c}) + multiset{step.c};
  }

  lemma GiveMoves(s: System, step: Step)
    requires Enabled(s, step) && step.GiveCommon?
    ensures Together(Next(s, step), step.p) == Together(s, step.p)
  {
    HeadAndTail([step.c] + s.comm);
    assert ([step.c] + s.comm)[1..] == s.comm;
  }

  lemma OutMoves(s: System, step: Step)
    requires Enabled(s, step) && step.Out?
    ensures Together(Next(s, step), step.p) == Together(s, step.p)
  {
    var q := s.pools[step.p];
    assert q.used == (q.used - step.cs) + step.cs;
  }

  lemma InMoves(s: System, step: Step)
    requires Enabled(s, step) && step.In?
    ensures Together(Next(s, step), step.p) == Together(s, step.p)
  {
    assert s.moving == (s.moving - step.cs) + step.cs;
  }

  lemma CountMoves(s: System, step: Step)
    requires Enabled(s, step) && step.FinishFree?
    ensures Together(Next(s, step), step.p) == Together(s, step.p)
  {
  }

  lemma FirstToThird(own: multiset<int>, a: multiset<int>, b: multiset<int>, moving: multiset<int>)
    ensures (own + a) + (b + moving) == (own + multiset{}) + ((a + b) + moving)
  {
  }

  /** What the pool of a step, the common list and the moving connections hold together. */
  lemma StepMoves(s: System, step: Step)
    requires Enabled(s, step) && PoolInv(s.pools[step.p])
    ensures |Next(s, step).pools| == |s.pools| && Together(Next(s, step), step.p) == Together(s, step.p)
  {
    hide Held, PoolInv, Together;
    match step
    case GetOwn(_) => GetMoves(s, step);
    case TakeCommon(_) => TakeMoves(s, step);
    case FinishGet(_) => FinishMoves(s, step);
    case FreeOwn(_, _) => FreeMoves(s, step);
    case GiveCommon(_, _) => GiveMoves(s, step);
    case FinishFree(_) => CountMoves(s, step);
    case Out(_, _) => OutMoves(s, step);
    case In(_, _) => InMoves(s, step);
  }

  lemma OnePool(s: System, step: Step)
    requires Enabled(s, step)
    ensures |Next(s, step).pools| == |s.pools| && Next(s, step).pools == s.pools[step.p := Next(s, step).pools[step.p]]
  {
  }

  lemma Balance(a: multiset<int>, a': multiset<int>, h: multiset<int>, h': multiset<int>, c: multiset<int>, c': multiset<int>)
    requires a' + h == a + h' && h' + c' == h + c
    ensures a' + c' == a + c
  {
    forall x ensures (a' + c')[x] == (a + c)[x] {
      assert (a' + h)[x] == (a + h')[x] && (h' + c')[x] == (h + c)[x];
    }
  }

  /** Nothing is lost or doubled by a step. */
  lemma StepConserves(s: System, step: Step)
    requires Enabled(s, step) && PoolInv(s.pools[step.p])
    ensures Contents(Next(s, step)) == Contents(s)
  {
    hide HeldByAll, ChangeOfAll, Held, Next;
    StepMoves(s, step);
    OnePool(s, step);
    var t := Next(s, step);
    OneChanges(s.pools, step.p, t.pools[step.p]);
    Balance(HeldByAll(s.pools), HeldByAll(t.pools), Held(s.pools[step.p]), Held(t.pools[step.p]),
            multiset(s.comm) + s.moving, multiset(t.comm) + t.moving);
    assert Contents(t) == HeldByAll(t.pools) + (multiset(t.comm) + t.moving);
    assert Contents(s) == HeldByAll(s.pools) + (multiset(s.comm) + s.moving);
  }

  /**
    The counters of the pool of a step stay right, and so does the balance with the common list and the moving
    connections.
  */
  lemma StepCounts(s: System, step: Step)
    requires Enabled(s, step) && PoolInv(s.pools[step.p])
    ensures var t := Next(s, step); var q, r := s.pools[step.p], t.pools[step.p];
      && |t.pools| == |s.pools| && t.pools == s.pools[step.p := r] && PoolInv(r)
      && r.change + Late(r.hand) + |t.comm| + |t.moving| == q.change + Late(q.hand) + |s.comm| + |s.moving|
  {
  }

  lemma StepKeeps(s: System, step: Step)
    requires Enabled(s, step) && Inv(s)
    ensures Inv(Next(s, step))
  {
    hide HeldByAll, ChangeOfAll, Next, Late, PoolInv;
    StepCounts(s, step);
    OneChanges(s.pools, step.p, Next(s, step).pools[step.p]);
  }

  // ----- every run -----

  ghost predicate RunOf(s: System, steps: seq<Step>, t: System)
    decreases |steps|
  {
    if steps == [] then s == t else Enabled(s, steps[0]) && RunOf(Next(s, steps[0]), steps[1..], t)
  }

  lemma {:induction false} RunKeeps(s: System, steps: seq<Step>, t: System)
    requires Inv(s) && RunOf(s, steps, t)
    ensures Inv(t) && Contents(t) == Contents(s)
    decreases |steps|
  {
    if steps != [] {
      StepKeeps(s, steps[0]);
      StepConserves(s, steps[0]);
      RunKeeps(Next(s, steps[0]), steps[1..], t);
    }
  }

  /** In every run the counters fit, and each connection there was at the start is in exactly one place. */
  lemma EveryRun(s: System, steps: seq<Step>, t: System)
    requires Initial(s) && RunOf(s, steps, t)
    requires forall c :: Contents(s)[c] <= 1
    ensures forall i :: 0 <= i < |t.pools| ==> PoolInv(t.pools[i])
    ensures ChangeOfAll(t.pools) + |t.comm| + |t.moving| == 0
    ensures forall c :: Contents(t)[c] == if c in Contents(s) then 1 else 0
  {
    InitialInv(s);
    RunKeeps(s, steps, t);
  }

  /** The connections some pool lacks. */
  function Lacking(pools: seq<Pool>): int {
    if pools == [] then 0 else pools[0].size - |pools[0].free| + Lacking(pools[1..])
  }

  lemma {:induction false} LackingIsChange(pools: seq<Pool>)
    requires forall i :: 0 <= i < |pools| ==> PoolInv(pools[i]) && pools[i].used == multiset{} && pools[i].hand.Idle?
    ensures Lacking(pools) == -ChangeOfAll(pools)
  {
    if pools != [] {
      assert PoolInv(pools[0]);
      LackingIsChange(pools[1..]);
    }
  }

  /**
    With nothing in use and nothing on the way, the common list holds exactly what the pools lack, and each pool that
    lacks some can take them.
  */
  lemma AtRestTheRestIsCommon(s: System)
    requires Inv(s) && s.moving == multiset{}
    requires forall i :: 0 <= i < |s.pools| ==> s.pools[i].used == multiset{} && s.pools[i].hand.Idle?
    ensures |s.comm| == Lacking(s.pools)
    ensures forall i :: 0 <= i < |s.pools| && s.pools[i].free == [] && s.pools[i].size > 0 && s.comm != [] ==>
              Enabled(s, TakeCommon(i))
  {
    LackingIsChange(s.pools);
    forall i | 0 <= i < |s.pools| && s.pools[i].free == [] && s.pools[i].size > 0 && s.comm != []
      ensures Enabled(s, TakeCommon(i))
    {
      assert PoolInv(s.pools[i]);
    }
  }
}
