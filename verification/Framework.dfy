/**
  src/framework.cc: the invocation table of the event loop and its queue of results.
  The methods are runs of the interleaving in `Invocations`.
*/
module Framework {
  import opened WakeUp
  import opened Invocations

  class Framework {
    /** timers_, from invocation id to module name. */
    var timers: map<nat, string>
    /** The invocations whose timeout event is in the event timer. */
    var armed: set<nat>
    var queueLength: int
    var invokeId: nat
    var results: seq<Posted>
    var pipe: nat
    ghost var owing: nat
    ghost var consumer: Consumer<Posted>
    ghost var accepted: seq<Posted>
    ghost var handed: seq<Posted>
    ghost var calls: seq<Call>

    ghost function Inbox(): State<Posted>
      reads this
    {
      State(Unbounded, results, owing, pipe, 0, consumer, accepted, handed)
    }

    ghost function View(): Loop
      reads this
    {
      Loop(invokeId, timers.Keys, armed, queueLength, Inbox(), calls)
    }

    constructor ()
      ensures View() == Begin() && Steady(View())
    {
      timers, armed, queueLength, invokeId := map[], {}, 0, 0;
      results, pipe := [], 0;
      owing, consumer, accepted, handed, calls := 0, Waiting, [], [], [];
    }

    /** complete_handler is called. */
    method Complete(id: nat, outcome: Outcome)
      modifies `calls
      ensures calls == old(calls) + [Call(id, outcome)]
    {
      calls := calls + [Call(id, outcome)];
    }

    /** AddInvokeTimer: the timer is armed by its constructor, before the insertion is tried. */
    method AddInvokeTimer(id: nat, name: string) returns (ok: bool)
      modifies `timers, `armed, `queueLength
      ensures ok <==> id !in old(timers)
      ensures armed == old(armed) + {id}
      ensures timers == if ok then old(timers)[id := name] else old(timers)
      ensures queueLength == old(queueLength) + if ok then 1 else 0
    {
      armed := armed + {id};
      if id in timers {
        return false;
      }
      timers := timers[id := name];
      queueLength := queueLength + 1;
      ok := true;
    }

    /** Invoke, up to the call into the module. */
    method Invoke(known: bool, name: string)
      requires Steady(View())
      modifies this
      ensures View() == Act(old(View()), Action.Invoke(known)) && Steady(View())
      ensures known ==> timers == old(timers)[old(invokeId) := name] && old(invokeId) in armed && calls == old(calls)
    {
      InvokeKeeps(View(), known);
      assert invokeId !in timers;
      hide Steady;
      var id := invokeId;
      invokeId := invokeId + 1;
      if !known {
        Complete(id, InvalidModule);
        return;
      }
      var ok := AddInvokeTimer(id, name);
      // ids are handed out once, so lines 362-375 are never reached
      assert ok;
    }

    /** The part of InvokeComplete under the mutex: lines 414-423. */
    method PostLocked(id: nat, value: int) returns (needNotify: bool)
      requires id < invokeId
      modifies `results, `owing, `accepted
      ensures View() == Act(old(View()), Post(id, value)) && owing == old(owing) + if needNotify then 1 else 0
      ensures needNotify <==> old(results) == []
    {
      needNotify := results == [];
      owing := owing + if needNotify then 1 else 0;
      accepted := accepted + [Posted(id, value)];
      results := results + [Posted(id, value)];
    }

    /** PipedEventWatcher::Notify on the result pipe. */
    method Notify()
      requires owing > 0
      modifies `pipe, `owing
      ensures View() == Act(old(View()),
        Relay(if old(pipe) < PIPE_CAPACITY then Step<Posted>.Notify else NotifyFull))
    {
      if pipe < PIPE_CAPACITY {
        pipe := pipe + 1;
      }
      owing := owing - 1;
    }

    /** HandleInvokeTimeout, entered from the event timer, which has taken the event out. */
    method HandleInvokeTimeout(id: nat)
      requires Steady(View()) && id in armed
      modifies this
      ensures View() == Act(old(View()), Expire(id)) && Steady(View())
      ensures id in old(timers)
    {
      ExpireKeeps(View(), id);
      hide Steady;
      armed := armed - {id};
      timers := timers - {id};
      queueLength := queueLength - 1;
      Complete(id, TimedOut);
    }

    /** One result completes its invocation if its timer is still there: lines 503-514. */
    method Settle(p: Posted)
      modifies `timers, `armed, `queueLength, `calls
      ensures View() == Deliver(old(View()), p)
    {
      if p.id in timers {
        timers := timers - {p.id};
        queueLength := queueLength - 1;
        armed := armed - {p.id};
        Complete(p.id, Reply(p.value));
      }
    }

    /** One turn of the loop over the results. */
    method DeliverOne(ghost rest: seq<Posted>, p: Posted)
      requires Steady(View()) && consumer == Running([p] + rest, false)
      modifies `timers, `armed, `queueLength, `calls, `handed, `consumer
      ensures View() == Act(old(View()), Relay(RunOne)) && Steady(View()) && consumer == Running(rest, false)
      ensures handed == old(handed) + [p]
    {
      RelayKeeps(View(), RunOne);
      hide Steady, Deliver;
      assert ([p] + rest)[0] == p && ([p] + rest)[1..] == rest;
      Settle(p);
      handed := handed + [p];
      consumer := Running(rest, false);
    }

    /** HandleInvokeComplete, once the pipe has been drained. */
    method HandleInvokeComplete() returns (ghost xs: seq<Action>)
      requires Steady(View()) && consumer == Drained(false)
      modifies this
      ensures CanRun(old(View()), xs) && View() == Then(old(View()), xs) && Steady(View())
      ensures results == [] && handed == old(handed) + old(results) && consumer == Waiting
    {
      hide Steady, CanRun, Then, Deliver;
      ghost var s0 := View();
      Nothing(s0);
      RelayKeeps(View(), Swap);
      RunExtended(s0, [], Relay(Swap));
      xs := [] + [Relay(Swap)];
      var batch := results;
      results := [];
      consumer := Running(batch, false);
      xs := RunBatch(batch, s0, xs);
      RelayKeeps(View(), Finish);
      RunExtended(s0, xs, Relay(Finish));
      xs := xs + [Relay(Finish)];
      consumer := Waiting;
    }

    /** The loop of HandleInvokeComplete over the results it took. */
    method RunBatch(batch: seq<Posted>, ghost s0: Loop, ghost before: seq<Action>) returns (ghost xs: seq<Action>)
      requires consumer == Running(batch, false) && results == [] && handed == s0.inbox.handed
      requires CanRun(s0, before) && View() == Then(s0, before) && Steady(View())
      modifies this
      ensures consumer == Running([], false) && results == [] && handed == s0.inbox.handed + batch
      ensures CanRun(s0, xs) && View() == Then(s0, xs) && Steady(View())
    {
      hide Steady, CanRun, Then, Deliver;
      xs := before;
      var i := 0;
      while i < |batch|
        invariant 0 <= i <= |batch| && consumer == Running(batch[i..], false) && results == []
        invariant handed == s0.inbox.handed + batch[..i]
        invariant CanRun(s0, xs) && View() == Then(s0, xs) && Steady(View())
      {
        assert batch[i..] == [batch[i]] + batch[i + 1..] && batch[..i + 1] == batch[..i] + [batch[i]];
        RunExtended(s0, xs, Relay(RunOne));
        xs := xs + [Relay(RunOne)];
        DeliverOne(batch[i + 1..], batch[i]);
        i := i + 1;
      }
      assert batch[..i] == batch;
    }
  }
}
