/**
  src/worker.cc and src/event_watcher.cc: the worker's task queue and its two pipes.

  Each method between two lock or system calls is one atomic step of the state machine in
  `WakeUp`; the longer methods are runs of it.
*/
module Workers {
  import opened WakeUp

  class Worker<T> {
    var tasks: seq<T>
    var queueSize: nat
    var taskPipe: nat
    var stopPipe: nat
    var running: bool
    ghost var owing: nat
    ghost var consumer: Consumer<T>
    ghost var accepted: seq<T>
    ghost var handed: seq<T>

    ghost function View(): State<T>
      reads this
    {
      State(AtMost(queueSize), tasks, owing, taskPipe, stopPipe, consumer, accepted, handed)
    }

    /** Worker::Init: lines 13 and 37-42. */
    constructor (queueSize: int)
      ensures View() == Start(AtMost(if queueSize > 0 then queueSize else 4096)) && running
    {
      this.queueSize := if queueSize > 0 then queueSize else 4096;
      tasks, taskPipe, stopPipe, running := [], 0, 0, true;
      owing, consumer, accepted, handed := 0, Waiting, [], [];
    }

    /** The part of AddTask under the mutex: lines 148-161. */
    method PushLocked(task: T) returns (ok: bool, needNotify: bool)
      modifies `tasks, `owing, `accepted
      ensures View() == Apply(old(View()), Push(task)) && ok == !Full(old(View()))
      ensures owing == old(owing) + if needNotify then 1 else 0
      ensures needNotify <==> old(tasks) == []
      ensures needNotify ==> ok
    {
      needNotify := false;
      if tasks == [] {
        needNotify := true;
      } else if |tasks| >= queueSize {
        return false, false;
      }
      owing := owing + if needNotify then 1 else 0;
      accepted := accepted + [task];
      tasks := tasks + [task];
      ok := true;
    }

    /** PipedEventWatcher::Notify on the task pipe; a write to a full pipe fails. */
    method Notify()
      requires owing > 0
      modifies `taskPipe, `owing
      ensures View() == Apply(old(View()), if old(taskPipe) < PIPE_CAPACITY then WakeUp.Step<T>.Notify else NotifyFull)
    {
      if taskPipe < PIPE_CAPACITY {
        taskPipe := taskPipe + 1;
      }
      owing := owing - 1;
    }

    /** AddTask without interference: it fails exactly if the queue is full. */
    method AddTask(task: T) returns (ok: bool, ghost xs: seq<Step<T>>)
      requires Inv(View())
      modifies this
      ensures IsRun(old(View()), xs) && View() == After(old(View()), xs) && Inv(View())
      ensures ok <==> old(tasks) == [] || |old(tasks)| < queueSize
      ensures taskPipe == if old(tasks) == [] && old(taskPipe) < PIPE_CAPACITY then old(taskPipe) + 1 else old(taskPipe)
      ensures ok ==> tasks == old(tasks) + [task] && accepted == old(accepted) + [task]
      ensures !ok ==> tasks == old(tasks) && accepted == old(accepted)
      ensures consumer == old(consumer) && handed == old(handed) && owing == old(owing)
    {
      ghost var s0 := View();
      var needNotify;
      ok, needNotify := PushLocked(task);
      ghost var s1 := View();
      OneStep(s0, Push(task));
      xs := [Push(task)];
      if needNotify {
        Notify();
        ghost var y := if s1.pipe < PIPE_CAPACITY then WakeUp.Step<T>.Notify else NotifyFull;
        OneStep(s1, y);
        RunAppend(s0, xs, [y]);
        xs := xs + [y];
      }
      RunKeeps(s0, xs);
    }

    /** The read loop of PipedEventWatcher::HandlerFn on the task pipe: lines 133-156. */
    method Drain() returns (ghost xs: seq<Step<T>>)
      requires consumer == Draining(false)
      modifies `taskPipe, `consumer
      ensures IsRun(old(View()), xs) && View() == After(old(View()), xs)
      ensures View() == old(View()).(pipe := 0, consumer := Drained(false))
    {
      ghost var s0 := View();
      xs := [];
      var n := if taskPipe < BUFFER then taskPipe else BUFFER;
      while n > 0
        invariant n == if taskPipe < BUFFER then taskPipe else BUFFER
        invariant consumer == Draining(false)
        invariant IsRun(s0, xs) && View() == After(s0, xs) && View() == s0.(pipe := taskPipe)
        decreases taskPipe
      {
        ghost var s := View();
        taskPipe := taskPipe - n;
        OneStep(s, Read(n));
        RunAppend(s0, xs, [Read(n)]);
        xs := xs + [Read(n)];
        n := if taskPipe < BUFFER then taskPipe else BUFFER;
      }
      ghost var s := View();
      consumer := Drained(false);
      OneStep(s, SawEmpty);
      RunAppend(s0, xs, [SawEmpty]);
      xs := xs + [SawEmpty];
    }

    /** HandleTask: the whole queue is taken under the mutex and run in order; each task is told how many are left. */
    method HandleTask(stopping: bool) returns (sizes: seq<nat>, ghost xs: seq<Step<T>>)
      requires consumer == Drained(stopping) && (stopping ==> tasks != [])
      modifies `tasks, `consumer, `handed
      ensures IsRun(old(View()), xs) && View() == After(old(View()), xs)
      ensures View() == old(View()).(queue := [], handed := old(handed) + old(tasks),
                                     consumer := if stopping then Drained(true) else Waiting)
      ensures |sizes| == |old(tasks)| && forall i :: 0 <= i < |sizes| ==> sizes[i] == |sizes| - i
    {
      ghost var s0 := View();
      var batch := tasks;
      tasks := [];
      consumer := Running(batch, stopping);
      OneStep(s0, Swap);
      xs := [Swap];
      sizes := [];
      var i := 0;
      while i < |batch|
        invariant 0 <= i <= |batch| == i + |batch[i..]| && |sizes| == i
        invariant forall j :: 0 <= j < i ==> sizes[j] == |batch| - j
        invariant IsRun(s0, xs) && View() == After(s0, xs)
        invariant View() == s0.(queue := [], handed := s0.handed + batch[..i], consumer := Running(batch[i..], stopping))
      {
        ghost var s := View();
        sizes := sizes + [|batch| - i];
        handed := handed + [batch[i]];
        consumer := Running(batch[i..][1..], stopping);
        OneStep(s, RunOne);
        RunAppend(s0, xs, [RunOne]);
        xs := xs + [RunOne];
        assert batch[i..][1..] == batch[i + 1..] && batch[..i + 1] == batch[..i] + [batch[i]];
        i := i + 1;
      }
      ghost var s := View();
      consumer := if stopping then Drained(true) else Waiting;
      OneStep(s, Finish);
      RunAppend(s0, xs, [Finish]);
      xs := xs + [Finish];
      assert batch[..i] == batch;
    }

    /** HandleStop, once the stop pipe has been drained: everything still queued is run first. */
    method HandleStop() returns (ghost xs: seq<Step<T>>)
      requires consumer == Drained(true)
      modifies `tasks, `consumer, `handed, `running
      ensures IsRun(old(View()), xs) && View() == After(old(View()), xs)
      ensures tasks == [] && handed == old(handed) + old(tasks) && consumer == Stopped && !running
    {
      ghost var s0 := View();
      xs := [];
      while tasks != []
        invariant IsRun(s0, xs) && View() == After(s0, xs) && consumer == Drained(true)
        invariant handed + tasks == s0.handed + s0.queue
        decreases |tasks|
      {
        ghost var ys;
        var sizes;
        sizes, ys := HandleTask(true);
        RunAppend(s0, xs, ys);
        xs := xs + ys;
      }
      ghost var s := View();
      consumer := Stopped;
      OneStep(s, Leave);
      RunAppend(s0, xs, [Leave]);
      xs := xs + [Leave];
      running := false;
    }
  }
}
