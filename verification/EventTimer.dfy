/**
  src/core/shs_event_timer.cc: a timer queue on top of the red-black tree.

  The clock is a parameter: `time_handler` returns a cached time that does not change
  while one of these functions runs.
*/
module EventTimer {
  import opened RbShape
  import opened RbMem
  import RbTree

  const EVENT_TIMER_INFINITE: int := -1
  const EVENT_TIMER_LAZY_DELAY: int := 300

  /** event_t, as far as timers are concerned.  The tree node is embedded in it. */
  class Event {
    const timer: RbNode
    var timer_set: bool
    var timedout: bool

    constructor (n: RbNode)
      ensures timer == n && !timer_set && !timedout
    {
      timer := n;
      timer_set, timedout := false, false;
    }
  }

  type Later = d: int | d > 0 witness 1

  /** A call of event_timer_add made by an event handler, for the event that embeds `n`. */
  datatype Add = Add(n: RbNode, delay: Later)

  function Abs(x: int): int {
    if x < 0 then -x else x
  }

  // ----- the queue as a sequence -----

  /** The entries that are due, of a queue in key order. */
  ghost function Due(q: seq<Entry>, now: int): seq<Entry> {
    if q == [] || q[0].key > now then [] else [q[0]] + Due(q[1..], now)
  }

  /** The queue after one call of event_timer_add. */
  ghost function Added(q: seq<Entry>, now: int, n: RbNode, delay: int): seq<Entry> {
    if Lazy(q, now, n, delay) then q
    else InsertSorted(Without(q, n), Entry(n, now + delay))
  }

  ghost function AddedAll(q: seq<Entry>, now: int, adds: seq<Add>): seq<Entry>
    decreases |adds|
  {
    if adds == [] then q else AddedAll(Added(q, now, adds[0].n, adds[0].delay), now, adds[1..])
  }

  /** `a` puts off the timer `x`, instead of leaving it where it is. */
  ghost predicate PutsOff(a: Add, x: Entry, now: int) {
    a.n == x.n && now + a.delay - x.key >= EVENT_TIMER_LAZY_DELAY
  }

  /** The due entries that `adds` do not put off. */
  ghost function Remaining(due: seq<Entry>, now: int, adds: seq<Add>): (r: seq<Entry>)
    ensures |r| <= |due|
  {
    if due == [] then []
    else if exists a :: a in adds && PutsOff(a, due[0], now) then Remaining(due[1..], now, adds)
    else [due[0]] + Remaining(due[1..], now, adds)
  }

  /**
    The timers that fire, in order: the first due one, and then those that are left after its handler
    has put some of them off.
  */
  ghost function Fires(due: seq<Entry>, now: int, handler: RbNode -> seq<Add>): seq<Entry>
    decreases |due|
  {
    if due == [] then []
    else [due[0]] + Fires(Remaining(due[1..], now, handler(due[0].n)), now, handler)
  }

  // ----- what these say -----

  ghost predicate Subsequence(s: seq<Entry>, t: seq<Entry>) {
    if s == [] then true
    else if t == [] then false
    else (s[0] == t[0] && Subsequence(s[1..], t[1..])) || Subsequence(s, t[1..])
  }

  lemma {:induction false} SubsequenceTrans(a: seq<Entry>, b: seq<Entry>, c: seq<Entry>)
    requires Subsequence(a, b) && Subsequence(b, c)
    ensures Subsequence(a, c)
    decreases |b| + |c|
  {
    if a != [] {
      if b[0] == c[0] && Subsequence(b[1..], c[1..]) {
        if a[0] == b[0] && Subsequence(a[1..], b[1..]) {
          SubsequenceTrans(a[1..], b[1..], c[1..]);
        } else {
          SubsequenceTrans(a, b[1..], c[1..]);
        }
      } else {
        SubsequenceTrans(a, b, c[1..]);
      }
    }
  }

  lemma {:induction false} RemainingInOrder(due: seq<Entry>, now: int, adds: seq<Add>)
    ensures Subsequence(Remaining(due, now, adds), due)
  {
    if due != [] {
      RemainingInOrder(due[1..], now, adds);
    }
  }

  /** Timers fire in the order of the queue: by key, and in insertion order among equal keys. */
  lemma {:induction false} FiresInOrder(due: seq<Entry>, now: int, handler: RbNode -> seq<Add>)
    ensures Subsequence(Fires(due, now, handler), due)
    decreases |due|
  {
    if due != [] {
      var rest := Remaining(due[1..], now, handler(due[0].n));
      FiresInOrder(rest, now, handler);
      RemainingInOrder(due[1..], now, handler(due[0].n));
      SubsequenceTrans(Fires(rest, now, handler), rest, due[1..]);
    }
  }

  /** A due timer is missed only if the handler of a timer that fired put it off. */
  lemma {:induction false} OnlyPutOffIsMissed(due: seq<Entry>, now: int, handler: RbNode -> seq<Add>, x: Entry)
    requires x in due && x !in Fires(due, now, handler)
    ensures exists y, a :: y in Fires(due, now, handler) && a in handler(y.n) && PutsOff(a, x, now)
    decreases |due|
  {
    var adds := handler(due[0].n);
    var rest := Remaining(due[1..], now, adds);
    var fires := Fires(due, now, handler);
    assert due[0] in fires && x in due[1..];
    if x in rest {
      OnlyPutOffIsMissed(rest, now, handler, x);
      var y, a :| y in Fires(rest, now, handler) && a in handler(y.n) && PutsOff(a, x, now);
      assert y in fires;
    } else {
      RemainingMisses(due[1..], now, adds, x);
    }
  }

  lemma {:induction false} RemainingMisses(due: seq<Entry>, now: int, adds: seq<Add>, x: Entry)
    requires x in due && x !in Remaining(due, now, adds)
    ensures exists a :: a in adds && PutsOff(a, x, now)
  {
    if !(exists a :: a in adds && PutsOff(a, due[0], now)) || x != due[0] {
      assert x in due[1..];
      RemainingMisses(due[1..], now, adds, x);
    }
  }

  /** When no handler puts a due timer off, exactly the due timers fire. */
  lemma {:induction false} AllDueFire(due: seq<Entry>, now: int, handler: RbNode -> seq<Add>)
    requires forall x, y, a :: x in due && y in due && a in handler(x.n) ==> !PutsOff(a, y, now)
    ensures Fires(due, now, handler) == due
    decreases |due|
  {
    if due != [] {
      var adds, rest := handler(due[0].n), due[1..];
      NothingPutOff(rest, now, adds);
      AllDueFire(rest, now, handler);
    }
  }

  lemma {:induction false} NothingPutOff(due: seq<Entry>, now: int, adds: seq<Add>)
    requires forall y, a :: y in due && a in adds ==> !PutsOff(a, y, now)
    ensures Remaining(due, now, adds) == due
  {
    if due != [] { NothingPutOff(due[1..], now, adds); }
  }

  // ----- one pass over the queue -----

  /** In key order, and no node twice. */
  ghost predicate WellFormed(q: seq<Entry>) {
    Sorted(q) && NoRepeats(q)
  }

  ghost predicate NoRepeats(q: seq<Entry>) {
    q == [] || (q[0].n !in NodesOf(q[1..]) && NoRepeats(q[1..]))
  }

  lemma {:induction false} UniqueWithout(q: seq<Entry>, n: RbNode)
    requires NoRepeats(q)
    ensures NoRepeats(Without(q, n))
  {
    if q != [] {
      UniqueWithout(q[1..], n);
      WithoutNodes(q[1..], n);
      assert ([q[0]] + Without(q[1..], n))[1..] == Without(q[1..], n);
    }
  }

  lemma {:induction false} UniqueInsert(q: seq<Entry>, x: Entry)
    requires NoRepeats(q) && x.n !in NodesOf(q)
    ensures NoRepeats(InsertSorted(q, x))
  {
    if q != [] {
      NodesOfCons(q[0], q[1..]);
      assert q == [q[0]] + q[1..];
      if x.key < q[0].key {
        assert ([x] + q)[1..] == q;
      } else {
        UniqueInsert(q[1..], x);
        InsertSortedNodes(q[1..], x);
        assert ([q[0]] + InsertSorted(q[1..], x))[1..] == InsertSorted(q[1..], x);
      }
    }
  }

  lemma WellFormedAdded(q: seq<Entry>, now: int, n: RbNode, delay: int)
    requires WellFormed(q)
    ensures WellFormed(Added(q, now, n, delay))
  {
    WithoutProps(q, n);
    WithoutNodes(q, n);
    UniqueWithout(q, n);
    UniqueInsert(Without(q, n), Entry(n, now + delay));
    InsertSortedProps(Without(q, n), Entry(n, now + delay));
  }

  lemma {:induction false} UniqueEntry(q: seq<Entry>, x: Entry, y: Entry)
    requires NoRepeats(q) && x in q && y in q && x.n == y.n
    ensures x == y
  {
    var r := q[1..];
    assert forall z :: z in q ==> z == q[0] || z in r;
    assert forall z :: z in r ==> z.n in NodesOf(r);
    if x in r && y in r {
      UniqueEntry(r, x, y);
    }
  }

  lemma {:induction false} DueInserted(q: seq<Entry>, x: Entry, now: int)
    requires now < x.key
    ensures Due(InsertSorted(q, x), now) == Due(q, now)
  {
    if q != [] && q[0].key <= x.key {
      DueInserted(q[1..], x, now);
      assert ([q[0]] + InsertSorted(q[1..], x))[1..] == InsertSorted(q[1..], x);
    }
  }

  lemma {:induction false} DueWithout(q: seq<Entry>, n: RbNode, now: int)
    requires Sorted(q)
    ensures Due(Without(q, n), now) == Without(Due(q, now), n)
  {
    if q != [] {
      DueWithout(q[1..], n, now);
      assert ([q[0]] + Without(q[1..], n))[1..] == Without(q[1..], n);
      if q[0].key <= now {
        assert ([q[0]] + Due(q[1..], now))[1..] == Due(q[1..], now);
      } else {
        NothingDue(q, now);
        NothingDue(q[1..], now);
        WithoutProps(q, n);
        NothingDueLater(Without(q, n), now);
      }
    }
  }

  lemma NothingDue(q: seq<Entry>, now: int)
    requires Sorted(q) && (q == [] || now < q[0].key)
    ensures Due(q, now) == []
    ensures forall x :: x in q ==> now < x.key
  {
  }

  lemma NothingDueLater(q: seq<Entry>, now: int)
    requires forall x :: x in q ==> now < x.key
    ensures Due(q, now) == []
  {
    assert q != [] ==> q[0] in q;
  }

  lemma {:induction false} DueMembers(q: seq<Entry>, now: int)
    ensures forall x :: x in Due(q, now) ==> x in q && x.key <= now
  {
    if q != [] && q[0].key <= now {
      DueMembers(q[1..], now);
    }
  }

  lemma {:induction false} RemainingOne(due: seq<Entry>, now: int, a: Add)
    ensures (forall x :: x in due && x.n == a.n ==> PutsOff(a, x, now)) ==> Remaining(due, now, [a]) == Without(due, a.n)
    ensures (forall x :: x in due && x.n == a.n ==> !PutsOff(a, x, now)) ==> Remaining(due, now, [a]) == due
  {
    if due != [] {
      RemainingOne(due[1..], now, a);
      assert forall x :: x in due[1..] ==> x in due;
      assert due[0] in due;
      assert a in [a];
      assert due == [due[0]] + due[1..];
    }
  }

  /** The timer of `n` is armed within the lazy delay of the requested time. */
  ghost predicate Lazy(q: seq<Entry>, now: int, n: RbNode, delay: int) {
    exists x :: x in q && x.n == n && Abs(now + delay - x.key) < EVENT_TIMER_LAZY_DELAY
  }

  lemma LazyIsNotPutOff(q: seq<Entry>, now: int, a: Add)
    requires NoRepeats(q)
    ensures Lazy(q, now, a.n, a.delay) ==> forall y :: y in Due(q, now) && y.n == a.n ==> !PutsOff(a, y, now)
    ensures !Lazy(q, now, a.n, a.delay) ==> forall y :: y in Due(q, now) && y.n == a.n ==> PutsOff(a, y, now)
  {
    DueMembers(q, now);
    if Lazy(q, now, a.n, a.delay) {
      var x :| x in q && x.n == a.n && Abs(now + a.delay - x.key) < EVENT_TIMER_LAZY_DELAY;
      forall y | y in Due(q, now) && y.n == a.n
        ensures !PutsOff(a, y, now)
      {
        UniqueEntry(q, x, y);
      }
    }
  }

  lemma DueMoved(q: seq<Entry>, now: int, n: RbNode, key: int)
    requires Sorted(q) && now < key
    ensures Due(InsertSorted(Without(q, n), Entry(n, key)), now) == Without(Due(q, now), n)
  {
    DueWithout(q, n, now);
    DueInserted(Without(q, n), Entry(n, key), now);
  }

  /** One call of event_timer_add takes at most the timer it names out of the due ones. */
  lemma DueAdded(q: seq<Entry>, now: int, a: Add)
    requires WellFormed(q)
    ensures Due(Added(q, now, a.n, a.delay), now) == Remaining(Due(q, now), now, [a])
  {
    hide Due, InsertSorted, Without, Remaining, PutsOff, Lazy, Sorted, NoRepeats;
    LazyIsNotPutOff(q, now, a);
    RemainingOne(Due(q, now), now, a);
    DueMoved(q, now, a.n, now + a.delay);
  }

  lemma {:induction false} RemainingTwice(due: seq<Entry>, now: int, a: seq<Add>, b: seq<Add>)
    ensures Remaining(Remaining(due, now, a), now, b) == Remaining(due, now, a + b)
  {
    if due != [] {
      RemainingTwice(due[1..], now, a, b);
      assert forall x :: x in a + b <==> x in a || x in b;
      var r := Remaining(due[1..], now, a);
      assert ([due[0]] + r)[1..] == r;
    }
  }

  lemma {:induction false} DueAddedAll(q: seq<Entry>, now: int, adds: seq<Add>)
    requires WellFormed(q)
    ensures WellFormed(AddedAll(q, now, adds))
    ensures Due(AddedAll(q, now, adds), now) == Remaining(Due(q, now), now, adds)
    decreases |adds|
  {
    if adds == [] {
      NothingPutOff(Due(q, now), now, adds);
    } else {
      WellFormedAdded(q, now, adds[0].n, adds[0].delay);
      DueAdded(q, now, adds[0]);
      DueAddedAll(Added(q, now, adds[0].n, adds[0].delay), now, adds[1..]);
      RemainingTwice(Due(q, now), now, [adds[0]], adds[1..]);
      assert [adds[0]] + adds[1..] == adds;
    }
  }

  /** The queue at the end of event_timers_expire. */
  ghost function Expired(q: seq<Entry>, now: int, handler: RbNode -> seq<Add>): seq<Entry>
    requires WellFormed(q)
    decreases |Due(q, now)|
  {
    if q == [] || q[0].key > now then q
    else
      DueAddedAll(q[1..], now, handler(q[0].n));
      Expired(AddedAll(q[1..], now, handler(q[0].n)), now, handler)
  }

  /** Nothing due is left behind. */
  lemma {:induction false} NothingDueIsLeft(q: seq<Entry>, now: int, handler: RbNode -> seq<Add>)
    requires WellFormed(q)
    ensures forall x :: x in Expired(q, now, handler) ==> now < x.key
    decreases |Due(q, now)|
  {
    if q == [] || q[0].key > now {
      NothingDue(q, now);
    } else {
      DueAddedAll(q[1..], now, handler(q[0].n));
      NothingDueIsLeft(AddedAll(q[1..], now, handler(q[0].n)), now, handler);
    }
  }

  // ----- the timer queue -----

  lemma {:induction false} UniqueJoin(a: seq<Entry>, b: seq<Entry>)
    requires NoRepeats(a) && NoRepeats(b) && NodesOf(a) !! NodesOf(b)
    ensures NoRepeats(a + b)
  {
    if a == [] {
      assert a + b == b;
    } else {
      assert (a + b)[1..] == a[1..] + b;
      assert a[0] in a && NodesOf(a[1..] + b) == NodesOf(a[1..]) + NodesOf(b);
      UniqueJoin(a[1..], b);
    }
  }

  lemma UniqueMiddle(a: seq<Entry>, x: Entry, b: seq<Entry>)
    requires NoRepeats(a) && NoRepeats(b) && NodesOf(a) !! NodesOf(b) && x.n !in NodesOf(a) && x.n !in NodesOf(b)
    ensures NoRepeats(a + [x] + b)
  {
    assert ([x] + b)[1..] == b;
    NodesOfCons(x, b);
    UniqueJoin(a, [x] + b);
    assert a + [x] + b == a + ([x] + b);
  }

  lemma {:induction false} DistinctUnique(t: Tree)
    requires Distinct(t)
    ensures NoRepeats(Entries(t))
  {
    if t.Node? {
      DistinctUnique(t.left);
      DistinctUnique(t.right);
      NodesAreEntries(t.left);
      NodesAreEntries(t.right);
      UniqueMiddle(Entries(t.left), t.e, Entries(t.right));
    }
  }

  lemma WithoutFirst(q: seq<Entry>)
    requires q != [] && NoRepeats(q)
    ensures Without(q, q[0].n) == q[1..]
  {
    assert forall y :: y in q[1..] ==> y.n in NodesOf(q[1..]);
    WithoutAbsent(q[1..], q[0].n);
  }

  lemma {:induction false} InsertSortedHas(q: seq<Entry>, x: Entry)
    ensures x in InsertSorted(q, x)
  {
    if q != [] { InsertSortedHas(q[1..], x); }
  }

  /** event_timer_t. */
  class TimerQueue {
    const tree: RbTree.RbTree
    /** The event around each embedded node: stands for the offsetof computation of line 33. */
    const owner: map<RbNode, Event>

    /** Each event is filed under the node it embeds. */
    ghost predicate Registered() {
      tree.sentinel !in owner && forall n :: n in owner ==> owner[n].timer == n
    }

    ghost function Armed(): set<RbNode>
      reads owner.Values
    {
      set n | n in owner && owner[n].timer_set
    }

    ghost function TimedOut(): set<RbNode>
      reads owner.Values
    {
      set n | n in owner && owner[n].timedout
    }

    /** timer_set holds exactly for the events whose node is in the tree. */
    ghost predicate Valid()
      reads tree, tree.sentinel, Nodes(tree.shape), owner.Values
    {
      tree.Valid() && Registered() && Armed() == Nodes(tree.shape)
    }

    /** The armed timers in key order, older ones first among equal keys. */
    ghost function Queue(): seq<Entry>
      reads tree
    {
      Entries(tree.shape)
    }

    lemma QueueWellFormed()
      requires Valid()
      ensures WellFormed(Queue())
      ensures NodesOf(Queue()) == Nodes(tree.shape)
      ensures forall x :: x in Queue() ==> x.n in Nodes(tree.shape) && x.n.key == x.key
      ensures tree.root == tree.sentinel <==> Queue() == []
    {
      DistinctUnique(tree.shape);
      NodesAreEntries(tree.shape);
      EntryKeys(Snap(Nodes(tree.shape)), tree.shape, tree.sentinel);
    }

    /** event_timer_init. */
    constructor (s: RbNode, events: map<RbNode, Event>)
      requires s !in events
      requires forall n :: n in events ==> events[n].timer == n && !events[n].timer_set
      modifies s
      ensures Valid() && Queue() == [] && owner == events && tree.sentinel == s
    {
      tree := new RbTree.RbTree(s);
      owner := events;
    }

    /** Writes the two flags of an event. */
    method SetFlags(ev: Event, timer_set: bool, timedout: bool)
      requires Registered() && ev.timer in owner && owner[ev.timer] == ev
      modifies ev
      ensures Armed() == if timer_set then old(Armed()) + {ev.timer} else old(Armed()) - {ev.timer}
      ensures TimedOut() == if timedout then old(TimedOut()) + {ev.timer} else old(TimedOut()) - {ev.timer}
      ensures timedout == old(ev.timedout) ==> TimedOut() == old(TimedOut())
      ensures ev.timer_set == timer_set && ev.timedout == timedout
      ensures tree.Valid() == old(tree.Valid())
    {
      ev.timer_set := timer_set;
      ev.timedout := timedout;
    }

    lemma Filed(ev: Event)
      requires Valid() && ev.timer in owner && owner[ev.timer] == ev
      ensures ev.timer_set <==> ev.timer in Nodes(tree.shape)
      ensures !ev.timer_set ==> Without(Queue(), ev.timer) == Queue()
    {
      QueueWellFormed();
      assert ev.timer_set <==> ev.timer in Armed();
      if !ev.timer_set {
        WithoutAbsent(Queue(), ev.timer);
      }
    }

    /** An armed timer leaves the tree: lines 33-38 and 61-67. */
    method Unfile(ev: Event, timedout: bool)
      requires Valid() && ev.timer in owner && owner[ev.timer] == ev && ev.timer_set
      modifies tree, tree.sentinel, Nodes(tree.shape), ev
      ensures Valid() && Queue() == Without(old(Queue()), ev.timer)
      ensures !ev.timer_set && ev.timedout == timedout
      ensures TimedOut() == if timedout then old(TimedOut()) + {ev.timer} else old(TimedOut()) - {ev.timer}
      ensures timedout == old(ev.timedout) ==> TimedOut() == old(TimedOut())
      ensures Nodes(tree.shape) == old(Nodes(tree.shape)) - {ev.timer}
    {
      hide Armed, TimedOut, Without;
      Filed(ev);
      TakeOut(ev.timer);
      SetFlags(ev, false, timedout);
    }

    /** The tree gives up a node, whatever the flags of the events say. */
    method TakeOut(n: RbNode)
      requires tree.Valid() && n in Nodes(tree.shape)
      modifies tree, tree.sentinel, Nodes(tree.shape)
      ensures tree.Valid() && Queue() == Without(old(Queue()), n)
      ensures Nodes(tree.shape) == old(Nodes(tree.shape)) - {n}
      ensures Armed() == old(Armed()) && TimedOut() == old(TimedOut())
    {
      tree.Delete(n);
    }

    /** event_timer_del. */
    method Del(ev: Event)
      requires Valid() && ev.timer in owner && owner[ev.timer] == ev
      modifies tree, tree.sentinel, Nodes(tree.shape), ev
      ensures Valid() && Queue() == Without(old(Queue()), ev.timer)
      ensures !ev.timer_set && TimedOut() == old(TimedOut())
      ensures Nodes(tree.shape) == old(Nodes(tree.shape)) - {ev.timer}
    {
      Filed(ev);
      if !ev.timer_set {
        return;
      }
      Unfile(ev, ev.timedout);
    }

    /** A timer that is not armed enters the tree under a new key: the end of event_timer_add, lines 104-108. */
    method Arm(key: int, ev: Event)
      requires Valid() && ev.timer in owner && owner[ev.timer] == ev && !ev.timer_set
      modifies tree, Nodes(tree.shape), ev, ev.timer
      ensures Valid() && Queue() == InsertSorted(old(Queue()), Entry(ev.timer, key))
      ensures ev.timer_set && ev.timer.key == key && TimedOut() == old(TimedOut())
      ensures Nodes(tree.shape) == old(Nodes(tree.shape)) + {ev.timer}
    {
      hide Armed, TimedOut, InsertSorted;
      Filed(ev);
      FileUnder(key, ev.timer);
      SetFlags(ev, true, ev.timedout);
    }

    /** The tree takes a node under a new key, whatever the flags of the events say: lines 104-106. */
    method FileUnder(key: int, n: RbNode)
      requires tree.Valid() && n !in Nodes(tree.shape) && n != tree.sentinel
      modifies tree, Nodes(tree.shape), n
      ensures tree.Valid() && Queue() == InsertSorted(old(Queue()), Entry(n, key)) && n.key == key
      ensures Nodes(tree.shape) == old(Nodes(tree.shape)) + {n}
      ensures Armed() == old(Armed()) && TimedOut() == old(TimedOut())
    {
      hide InsertSorted;
      n.key := key;
      tree.Insert(n);
      KeyKept(old(Queue()), Entry(n, key));
    }

    lemma KeyKept(q: seq<Entry>, x: Entry)
      requires tree.Valid() && Queue() == InsertSorted(q, x)
      ensures x.n.key == x.key
    {
      InsertSortedHas(q, x);
      tree.KeyOf(x);
    }

    /** event_timer_add: a timer that is already armed close to the requested time stays where it is. */
    method Add(now: int, ev: Event, delay: int)
      requires Valid() && ev.timer in owner && owner[ev.timer] == ev
      modifies tree, tree.sentinel, Nodes(tree.shape), ev, ev.timer
      ensures Valid() && Queue() == Added(old(Queue()), now, ev.timer, delay)
      ensures ev.timer_set && TimedOut() == old(TimedOut())
      ensures
        if old(ev.timer_set && Abs(now + delay - ev.timer.key) < EVENT_TIMER_LAZY_DELAY)
        then ev.timer.key == old(ev.timer.key) && Queue() == old(Queue())
        else ev.timer.key == now + delay && Queue() == InsertSorted(Without(old(Queue()), ev.timer), Entry(ev.timer, now + delay))
      ensures Nodes(tree.shape) == old(Nodes(tree.shape)) + {ev.timer}
    {
      hide InsertSorted, Without;
      LazyMeansArmed(now, ev, delay);
      var key := now + delay;
      if ev.timer_set {
        var diff := key - ev.timer.key;
        if Abs(diff) < EVENT_TIMER_LAZY_DELAY {
          return;
        }
        Del(ev);
      }
      Arm(key, ev);
    }

    lemma LazyMeansArmed(now: int, ev: Event, delay: int)
      requires Valid() && ev.timer in owner && owner[ev.timer] == ev
      ensures Lazy(Queue(), now, ev.timer, delay) <==>
        ev.timer_set && Abs(now + delay - ev.timer.key) < EVENT_TIMER_LAZY_DELAY
      ensures !ev.timer_set ==> Without(Queue(), ev.timer) == Queue()
    {
      Filed(ev);
      QueueWellFormed();
      assert ev.timer_set ==> ev.timer in NodesOf(Queue());
    }

    /** event_find_timer: how long to wait for the first timer. */
    method FindTimer(now: int) returns (timer: int)
      requires Valid()
      ensures Queue() == [] ==> timer == EVENT_TIMER_INFINITE
      ensures Queue() != [] ==> timer >= 0
      ensures Queue() != [] ==> timer == 0 || exists x :: x in Queue() && x.key == now + timer
      ensures forall x :: x in Queue() ==> x.key <= now || now + timer <= x.key
      ensures timer == 0 ==> exists x :: x in Queue() && x.key <= now
    {
      QueueWellFormed();
      if tree.root == tree.sentinel {
        return EVENT_TIMER_INFINITE;
      }
      var node := tree.First();
      timer := node.key - now;
      assert Queue()[0] in Queue();
      timer := if timer > 0 then timer else 0;
    }

    /** The timer calls of one event handler. */
    method RunHandler(now: int, adds: seq<Add>)
      requires Valid() && forall a :: a in adds ==> a.n in owner
      modifies tree, tree.sentinel, owner.Keys, owner.Values
      ensures Valid() && Queue() == AddedAll(old(Queue()), now, adds)
      ensures TimedOut() == old(TimedOut())
    {
      var i := 0;
      while i < |adds|
        invariant 0 <= i <= |adds| && Valid()
        invariant AddedAll(Queue(), now, adds[i..]) == AddedAll(old(Queue()), now, adds)
        invariant TimedOut() == old(TimedOut())
      {
        Add(now, owner[adds[i].n], adds[i].delay);
        assert adds[i..][1..] == adds[i + 1..];
        i := i + 1;
      }
    }

    /** Lines 21-31: is the first timer due? */
    method FirstDue(now: int) returns (due: bool, node: RbNode)
      requires Valid()
      ensures Valid() && Queue() == old(Queue()) && WellFormed(Queue())
      ensures due <==> Queue() != [] && Queue()[0].key <= now
      ensures due ==> Queue()[0].n == node
      ensures TimedOut() == old(TimedOut())
    {
      QueueWellFormed();
      due, node := false, tree.root;
      if tree.root == tree.sentinel {
        return;
      }
      node := tree.First();
      due := node.key <= now;
    }

    lemma FirstFiled(node: RbNode)
      requires Valid() && Queue() != [] && Queue()[0].n == node
      ensures node in owner && owner[node].timer == node && owner[node].timer_set
      ensures Without(Queue(), node) == Queue()[1..]
    {
      QueueWellFormed();
      WithoutFirst(Queue());
      assert Queue()[0] in Queue();
    }

    /** Lines 33-38: the first timer leaves the queue. */
    method PopFirst(node: RbNode)
      requires Valid() && Queue() != [] && Queue()[0].n == node
      modifies tree, tree.sentinel, owner.Keys, owner.Values
      ensures Valid() && Queue() == old(Queue())[1..]
      ensures TimedOut() == old(TimedOut()) + {node}
    {
      FirstFiled(node);
      Unfile(owner[node], true);
    }

    /** Lines 33-40: the first timer leaves the queue and its handler runs. */
    method FireFirst(now: int, node: RbNode, handler: RbNode -> seq<Add>)
      requires Valid() && Queue() != [] && Queue()[0].n == node
      requires forall n, a :: n in owner && a in handler(n) ==> a.n in owner
      modifies tree, tree.sentinel, owner.Keys, owner.Values
      ensures Valid() && Queue() == AddedAll(old(Queue())[1..], now, handler(node))
      ensures TimedOut() == old(TimedOut()) + {node}
    {
      PopFirst(node);
      RunHandler(now, handler(node));
    }

    /** One turn of the loop. */
    method Turn(now: int, node: RbNode, handler: RbNode -> seq<Add>) returns (due: bool, next: RbNode)
      requires Valid() && Queue() != [] && Queue()[0].n == node
      requires forall n, a :: n in owner && a in handler(n) ==> a.n in owner
      modifies tree, tree.sentinel, owner.Keys, owner.Values
      ensures Valid() && Queue() == AddedAll(old(Queue())[1..], now, handler(node))
      ensures TimedOut() == old(TimedOut()) + {node}
      ensures due <==> Queue() != [] && Queue()[0].key <= now
      ensures due ==> Queue()[0].n == next
    {
      FireFirst(now, node, handler);
      due, next := FirstDue(now);
    }

    /** The loop of event_timers_expire: lines 19-46. */
    method ExpireLoop(now: int, handler: RbNode -> seq<Add>, ghost q0: seq<Entry>, ghost out: set<RbNode>)
      returns (ghost fired: seq<Entry>)
      requires Valid() && forall n, a :: n in owner && a in handler(n) ==> a.n in owner
      requires q0 == Queue() && out == TimedOut() && WellFormed(q0)
      modifies tree, tree.sentinel, owner.Keys, owner.Values
      ensures Valid() && Queue() == Expired(q0, now, handler)
      ensures fired == Fires(Due(q0, now), now, handler)
      ensures TimedOut() == Marked(out, fired)
    {
      hide Expired, AddedAll, Fires, OnTrack, Marked, Armed, TimedOut;
      BeforeFirst(q0, now, handler, out);
      ghost var q := q0;
      fired := [];
      var due, node := FirstDue(now);
      while due
        invariant Valid() && Queue() == q && TimedOut() == Marked(out, fired)
        invariant OnTrack(q0, q, fired, now, handler)
        invariant due <==> q != [] && q[0].key <= now
        invariant due ==> q[0].n == node
        decreases |Due(q, now)|
      {
        OneFired(q0, q, fired, now, handler, out);
        due, node := Turn(now, node, handler);
        fired, q := fired + [q[0]], AddedAll(q[1..], now, handler(q[0].n));
      }
      AfterLast(q0, q, fired, now, handler);
    }

    /**
      event_timers_expire: `handler` gives, for the event that embeds a node, the calls of
      event_timer_add that its handler makes.
    */
    method Expire(now: int, handler: RbNode -> seq<Add>) returns (ghost fired: seq<Entry>)
      requires Valid() && forall n, a :: n in owner && a in handler(n) ==> a.n in owner
      modifies tree, tree.sentinel, owner.Keys, owner.Values
      ensures Valid() && WellFormed(old(Queue()))
      ensures Queue() == Expired(old(Queue()), now, handler)
      ensures fired == Fires(Due(old(Queue()), now), now, handler)
      ensures TimedOut() == old(TimedOut()) + NodesOf(fired)
    {
      QueueWellFormed();
      fired := ExpireLoop(now, handler, Queue(), TimedOut());
    }
  }

  lemma NodesOfSnoc(s: seq<Entry>, x: Entry)
    ensures NodesOf(s + [x]) == NodesOf(s) + {x.n}
  {
    assert x in s + [x];
    assert forall y :: y in s + [x] <==> y in s || y == x;
  }

  /** `fired` timers have fired since the queue was `q0`; the rest will behave as from `q`. */
  ghost predicate OnTrack(q0: seq<Entry>, q: seq<Entry>, fired: seq<Entry>, now: int, handler: RbNode -> seq<Add>) {
    && WellFormed(q0) && WellFormed(q) && Expired(q, now, handler) == Expired(q0, now, handler)
    && fired + Fires(Due(q, now), now, handler) == Fires(Due(q0, now), now, handler)
  }

  /** The events marked as timed out, after `fired` have fired. */
  ghost function Marked(out: set<RbNode>, fired: seq<Entry>): set<RbNode> {
    out + NodesOf(fired)
  }

  lemma BeforeFirst(q0: seq<Entry>, now: int, handler: RbNode -> seq<Add>, out: set<RbNode>)
    requires WellFormed(q0)
    ensures OnTrack(q0, q0, [], now, handler) && Marked(out, []) == out
  {
    assert [] + Fires(Due(q0, now), now, handler) == Fires(Due(q0, now), now, handler);
  }

  lemma AfterLast(q0: seq<Entry>, q: seq<Entry>, fired: seq<Entry>, now: int, handler: RbNode -> seq<Add>)
    requires OnTrack(q0, q, fired, now, handler) && (q == [] || now < q[0].key)
    ensures q == Expired(q0, now, handler) && fired == Fires(Due(q0, now), now, handler)
  {
    assert Due(q, now) == [] && fired + [] == fired;
  }

  /** One turn of the loop of event_timers_expire. */
  lemma OneFired(q0: seq<Entry>, q: seq<Entry>, fired: seq<Entry>, now: int, handler: RbNode -> seq<Add>, out: set<RbNode>)
    requires OnTrack(q0, q, fired, now, handler) && q != [] && q[0].key <= now
    ensures var q1 := AddedAll(q[1..], now, handler(q[0].n));
      OnTrack(q0, q1, fired + [q[0]], now, handler) && |Due(q1, now)| < |Due(q, now)|
    ensures Marked(out, fired + [q[0]]) == Marked(out, fired) + {q[0].n}
  {
    DueAddedAll(q[1..], now, handler(q[0].n));
    var d := Due(q, now);
    assert d[1..] == Due(q[1..], now);
    var rest := Fires(Due(AddedAll(q[1..], now, handler(q[0].n)), now), now, handler);
    assert fired + ([q[0]] + rest) == fired + [q[0]] + rest;
    NodesOfSnoc(fired, q[0]);
  }
}
