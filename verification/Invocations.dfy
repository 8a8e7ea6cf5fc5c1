/**
  src/framework.cc:330-544 as an interleaving: invocations, their timeouts, and the results
  that module threads hand to the event loop through the wake-up queue of `WakeUp`.

  A module may call back any number of times, from any thread, also after the timeout.
*/
module Invocations {
  import opened WakeUp

  /** ResultWrapper: the result of one callback. */
  datatype Posted = Posted(id: nat, value: int)

  datatype Outcome = Reply(value: int) | TimedOut | InvalidModule | TimerFailed

  /** One call of a complete_handler. */
  datatype Call = Call(id: nat, outcome: Outcome)

  /** `timers` are the keys of timers_, `armed` the ids whose timeout is in the event timer. */
  datatype Loop = Loop(
    next: nat,
    timers: set<nat>,
    armed: set<nat>,
    length: int,
    inbox: State<Posted>,
    calls: seq<Call>)

  datatype Action =
    | Invoke(known: bool)
    | Post(id: nat, value: int)
    | Expire(id: nat)
    | Relay(x: Step<Posted>)

  ghost function Begin(): Loop {
    Loop(0, {}, {}, 0, Start(Unbounded), [])
  }

  predicate Possible(s: Loop, a: Action) {
    match a
    case Invoke(_) => true
    case Post(id, _) => id < s.next
    case Expire(id) => id in s.armed
    case Relay(x) => !x.Push? && Enabled(s.inbox, x)
  }

  /** Lines 503-514: a result counts only while its timer is still there. */
  function Deliver(s: Loop, p: Posted): Loop {
    if p.id !in s.timers then s
    else s.(timers := s.timers - {p.id}, armed := s.armed - {p.id}, length := s.length - 1,
            calls := s.calls + [Call(p.id, Reply(p.value))])
  }

  function Act(s: Loop, a: Action): Loop
    requires Possible(s, a)
  {
    match a
    case Invoke(known) =>
      var id, s1 := s.next, s.(next := s.next + 1);
      if !known then s1.(calls := s.calls + [Call(id, InvalidModule)])
      else if id in s.timers then s1.(armed := s.armed + {id}, calls := s.calls + [Call(id, TimerFailed)])
      else s1.(timers := s.timers + {id}, armed := s.armed + {id}, length := s.length + 1)
    case Post(id, v) => s.(inbox := Apply(s.inbox, Push(Posted(id, v))))
    case Expire(id) =>
      s.(timers := s.timers - {id}, armed := s.armed - {id}, length := s.length - 1, calls := s.calls + [Call(id, TimedOut)])
    case Relay(x) =>
      var s1 := if x.RunOne? then Deliver(s, s.inbox.consumer.batch[0]) else s;
      s1.(inbox := Apply(s.inbox, x))
  }

  // ----- what always holds -----

  /** How often the complete_handler of an invocation has been called. */
  ghost function Completions(calls: seq<Call>, id: nat): nat {
    if calls == [] then 0 else Completions(calls[..|calls| - 1], id) + if calls[|calls| - 1].id == id then 1 else 0
  }

  /** `p` is the first result for its invocation. */
  ghost predicate FirstFor(posts: seq<Posted>, p: Posted) {
    exists k :: 0 <= k < |posts| && posts[k] == p && forall j :: 0 <= j < k ==> posts[j].id != p.id
  }

  lemma FirstStays(posts: seq<Posted>, more: seq<Posted>)
    ensures forall p :: FirstFor(posts, p) ==> FirstFor(posts + more, p)
  {
    forall p | FirstFor(posts, p)
      ensures FirstFor(posts + more, p)
    {
      var k :| 0 <= k < |posts| && posts[k] == p && forall j :: 0 <= j < k ==> posts[j].id != p.id;
      assert (posts + more)[k] == p && forall j :: 0 <= j < k ==> (posts + more)[j] == posts[j];
    }
  }

  lemma FirstAtEnd(posts: seq<Posted>, p: Posted)
    requires forall q :: q in posts ==> q.id != p.id
    ensures FirstFor(posts + [p], p)
  {
    assert (posts + [p])[|posts|] == p && forall j :: 0 <= j < |posts| ==> (posts + [p])[j] == posts[j];
  }

  ghost predicate Steady(s: Loop) {
    && Inv(s.inbox) && s.inbox.limit == Unbounded
    && s.armed == s.timers && s.length == |s.timers|
    && (forall id :: id in s.timers ==> id < s.next)
    && (forall id: nat :: Completions(s.calls, id) == if id < s.next && id !in s.timers then 1 else 0)
    && (forall p :: p in s.inbox.accepted ==> p.id < s.next)
    && (forall p :: p in s.inbox.handed ==> p.id !in s.timers)
    && (forall c :: c in s.calls && c.outcome.Reply? ==> FirstFor(s.inbox.handed, Posted(c.id, c.outcome.value)))
    && (forall c :: c in s.calls ==> c.outcome != TimerFailed)
  }

  lemma OneMoreCall(calls: seq<Call>, c: Call)
    ensures forall id: nat :: Completions(calls + [c], id) == Completions(calls, id) + if c.id == id then 1 else 0
  {
    assert (calls + [c])[..|calls|] == calls;
  }

  lemma InvokeKeeps(s: Loop, known: bool)
    requires Steady(s)
    ensures Steady(Act(s, Invoke(known)))
  {
    if !known {
      OneMoreCall(s.calls, Call(s.next, InvalidModule));
    }
  }

  lemma PostKeeps(s: Loop, id: nat, v: int)
    requires Steady(s) && Possible(s, Post(id, v))
    ensures Steady(Act(s, Post(id, v)))
  {
    StepKeeps(s.inbox, Push(Posted(id, v)));
  }

  lemma ExpireKeeps(s: Loop, id: nat)
    requires Steady(s) && Possible(s, Expire(id))
    ensures id in s.timers && Steady(Act(s, Expire(id)))
  {
    OneMoreCall(s.calls, Call(id, TimedOut));
  }

  lemma RelayKeeps(s: Loop, x: Step<Posted>)
    requires Steady(s) && Possible(s, Relay(x))
    ensures Steady(Act(s, Relay(x)))
  {
    StepKeeps(s.inbox, x);
    if x.RunOne? {
      var p := s.inbox.consumer.batch[0];
      assert p in s.inbox.accepted;
      FirstStays(s.inbox.handed, [p]);
      if p.id in s.timers {
        OneMoreCall(s.calls, Call(p.id, Reply(p.value)));
        FirstAtEnd(s.inbox.handed, p);
      }
    }
  }

  lemma ActKeeps(s: Loop, a: Action)
    requires Steady(s) && Possible(s, a)
    ensures Steady(Act(s, a))
  {
    match a
    case Invoke(known) => InvokeKeeps(s, known);
    case Post(id, v) => PostKeeps(s, id, v);
    case Expire(id) => ExpireKeeps(s, id);
    case Relay(x) => RelayKeeps(s, x);
  }

  // ----- runs -----

  ghost predicate CanRun(s: Loop, xs: seq<Action>)
    decreases |xs|
  {
    xs == [] || (Possible(s, xs[0]) && CanRun(Act(s, xs[0]), xs[1..]))
  }

  ghost function Then(s: Loop, xs: seq<Action>): Loop
    requires CanRun(s, xs)
    decreases |xs|
  {
    if xs == [] then s else Then(Act(s, xs[0]), xs[1..])
  }

  lemma Nothing(s: Loop)
    ensures CanRun(s, []) && Then(s, []) == s
  {
  }

  lemma {:induction false} RunExtended(s: Loop, xs: seq<Action>, a: Action)
    requires CanRun(s, xs) && Possible(Then(s, xs), a)
    ensures CanRun(s, xs + [a]) && Then(s, xs + [a]) == Act(Then(s, xs), a)
    decreases |xs|
  {
    if xs == [] {
      assert (xs + [a])[1..] == [];
    } else {
      assert (xs + [a])[1..] == xs[1..] + [a];
      RunExtended(Act(s, xs[0]), xs[1..], a);
    }
  }

  lemma {:induction false} RunSteady(s: Loop, xs: seq<Action>)
    requires Steady(s) && CanRun(s, xs)
    ensures Steady(Then(s, xs))
    decreases |xs|
  {
    if xs == [] {
    } else {
      ActKeeps(s, xs[0]);
      RunSteady(Act(s, xs[0]), xs[1..]);
    }
  }

  /** Over every interleaving: at most one completion, exactly one once the id has left timers_. */
  lemma CompletedOnce(xs: seq<Action>, id: nat)
    requires CanRun(Begin(), xs)
    ensures var s := Then(Begin(), xs);
      && Completions(s.calls, id) <= 1
      && (Completions(s.calls, id) == 1 <==> id < s.next && id !in s.timers)
      && s.armed == s.timers && s.length == |s.timers|
      && (forall c :: c in s.calls ==> c.outcome != TimerFailed)
  {
    RunSteady(Begin(), xs);
  }

  /** The timeout handler always finds its timer. */
  lemma TimeoutFindsTimer(xs: seq<Action>, id: nat)
    requires CanRun(Begin(), xs) && Possible(Then(Begin(), xs), Expire(id))
    ensures id in Then(Begin(), xs).timers
  {
    RunSteady(Begin(), xs);
  }

  /** A reply is the first result that the module posted for that invocation. */
  lemma RepliesArePosted(xs: seq<Action>, c: Call)
    requires CanRun(Begin(), xs) && c in Then(Begin(), xs).calls && c.outcome.Reply?
    ensures FirstFor(Posts(xs), Posted(c.id, c.outcome.value))
  {
    PostsAreAccepted(xs);
    RunSteady(Begin(), xs);
    var i := Then(Begin(), xs).inbox;
    FirstStays(i.handed, Batch(i.consumer) + i.queue);
    assert i.accepted == i.handed + (Batch(i.consumer) + i.queue);
  }

  /** The results posted in a run, in order. */
  ghost function Posts(xs: seq<Action>): seq<Posted> {
    if xs == [] then [] else (if xs[0].Post? then [Posted(xs[0].id, xs[0].value)] else []) + Posts(xs[1..])
  }

  lemma {:induction false} PostsFrom(s: Loop, xs: seq<Action>)
    requires CanRun(s, xs) && s.inbox.limit == Unbounded
    ensures Then(s, xs).inbox.accepted == s.inbox.accepted + Posts(xs)
    decreases |xs|
  {
    if xs != [] {
      PostsFrom(Act(s, xs[0]), xs[1..]);
      var a, rest := s.inbox.accepted, Posts(xs[1..]);
      if xs[0].Post? {
        assert a + [Posted(xs[0].id, xs[0].value)] + rest == a + ([Posted(xs[0].id, xs[0].value)] + rest);
      } else {
        assert a + ([] + rest) == a + rest;
      }
    }
  }

  /** Every result posted is let in, and nothing else. */
  lemma PostsAreAccepted(xs: seq<Action>)
    requires CanRun(Begin(), xs)
    ensures Then(Begin(), xs).inbox.accepted == Posts(xs)
  {
    PostsFrom(Begin(), xs);
    assert [] + Posts(xs) == Posts(xs);
  }

  /** Whether the module of each invocation was known, in the order of the ids. */
  ghost function Invokes(xs: seq<Action>): seq<bool> {
    if xs == [] then [] else (if xs[0].Invoke? then [xs[0].known] else []) + Invokes(xs[1..])
  }

  lemma InvokesCons(xs: seq<Action>)
    requires xs != []
    ensures Invokes(xs) == (if xs[0].Invoke? then [xs[0].known] else []) + Invokes(xs[1..])
  {
  }

  lemma {:induction false} TimedOutFrom(s: Loop, xs: seq<Action>, id: nat)
    requires CanRun(s, xs)
    ensures Call(id, TimedOut) in Then(s, xs).calls <==> Call(id, TimedOut) in s.calls || Expire(id) in xs
    decreases |xs|
  {
    if xs != [] {
      TimedOutFrom(Act(s, xs[0]), xs[1..], id);
      assert xs == [xs[0]] + xs[1..];
    }
  }

  /** One action tells of a module that is not known exactly if it is such an invocation. */
  lemma InvalidOnce(s: Loop, a: Action, id: nat)
    requires Possible(s, a)
    ensures Act(s, a).next == s.next + if a.Invoke? then 1 else 0
    ensures Call(id, InvalidModule) in Act(s, a).calls
            <==> Call(id, InvalidModule) in s.calls || (id == s.next && a == Invoke(false))
  {
  }

  lemma {:induction false} InvalidFrom(s: Loop, xs: seq<Action>, id: nat)
    requires CanRun(s, xs)
    ensures Then(s, xs).next == s.next + |Invokes(xs)|
    ensures Call(id, InvalidModule) in Then(s, xs).calls
            <==> Call(id, InvalidModule) in s.calls || (s.next <= id < s.next + |Invokes(xs)| && !Invokes(xs)[id - s.next])
    decreases |xs|
  {
    if xs != [] {
      hide Act, Possible;
      InvalidOnce(s, xs[0], id);
      InvalidFrom(Act(s, xs[0]), xs[1..], id);
      InvokesCons(xs);
    }
  }

  lemma {:induction false} CalledOnce(calls: seq<Call>, c: Call)
    requires c in calls
    ensures Completions(calls, c.id) >= 1
  {
    var last := calls[|calls| - 1];
    if c != last {
      assert calls == calls[..|calls| - 1] + [last];
      CalledOnce(calls[..|calls| - 1], c);
    }
  }

  lemma {:induction false} CallOf(calls: seq<Call>, id: nat) returns (c: Call)
    requires Completions(calls, id) >= 1
    ensures c in calls && c.id == id
  {
    c := calls[|calls| - 1];
    if c.id != id {
      c := CallOf(calls[..|calls| - 1], id);
    }
  }

  lemma {:induction false} OnlyCall(calls: seq<Call>, c: Call, d: Call)
    requires c in calls && d in calls && c.id == d.id && Completions(calls, c.id) <= 1
    ensures c == d
  {
    var last, rest := calls[|calls| - 1], calls[..|calls| - 1];
    assert calls == rest + [last];
    if c == last && d != last {
      CalledOnce(rest, d);
    } else if c != last && d == last {
      CalledOnce(rest, c);
    } else if c != last {
      OnlyCall(rest, c, d);
    }
  }

  /**
    What a handler is told: that its time is out exactly if its timeout fired, that the module is invalid exactly if it
    was not known, and otherwise the first result posted for it.
  */
  lemma OutcomeExactly(xs: seq<Action>, id: nat) returns (c: Call)
    requires CanRun(Begin(), xs) && Completions(Then(Begin(), xs).calls, id) == 1
    ensures c in Then(Begin(), xs).calls && c.id == id < |Invokes(xs)|
    ensures forall d :: d in Then(Begin(), xs).calls && d.id == id ==> d == c
    ensures c.outcome == TimedOut <==> Expire(id) in xs
    ensures c.outcome == InvalidModule <==> !Invokes(xs)[id]
    ensures Expire(id) !in xs && Invokes(xs)[id] ==>
      c.outcome.Reply? && FirstFor(Posts(xs), Posted(id, c.outcome.value))
  {
    var calls := Then(Begin(), xs).calls;
    RunSteady(Begin(), xs);
    c := CallOf(calls, id);
    TimedOutFrom(Begin(), xs, id);
    InvalidFrom(Begin(), xs, id);
    forall d | d in calls && d.id == id
      ensures d == c
    {
      OnlyCall(calls, c, d);
    }
    if c.outcome.Reply? {
      RepliesArePosted(xs, c);
    }
  }

  /** Once the loop is at rest, every invocation that was ever answered has been completed. */
  lemma AnsweredIsCompleted(xs: seq<Action>, p: Posted)
    requires CanRun(Begin(), xs)
    requires var s := Then(Begin(), xs); AtRest(s.inbox) && !s.inbox.consumer.Stopped? && p in Posts(xs)
    ensures Completions(Then(Begin(), xs).calls, p.id) == 1
  {
    PostsAreAccepted(xs);
    RunSteady(Begin(), xs);
    AtRestAllHanded(Then(Begin(), xs).inbox);
  }

  /** Once no timeout is armed, every invocation has been completed. */
  lemma NothingArmedAllCompleted(xs: seq<Action>, id: nat)
    requires CanRun(Begin(), xs) && Then(Begin(), xs).armed == {} && id < Then(Begin(), xs).next
    ensures Completions(Then(Begin(), xs).calls, id) == 1
  {
    RunSteady(Begin(), xs);
  }
}
