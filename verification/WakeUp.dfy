/**
  The batch queue with a wake-up pipe of src/worker.cc and src/event_watcher.cc, as an
  interleaving of atomic steps.  src/framework.cc:411-429 and 493-499 hand results to the
  event loop by the same scheme, without a bound.

  Any number of producer threads push under the mutex; one that found the queue empty
  still owes a byte to the pipe.  The consumer thread sleeps until a pipe is readable,
  drains it to the last byte, and only then takes the whole queue.
*/
module WakeUp {
  import opened Basics

  datatype Limit = Unbounded | AtMost(n: nat)

  /** What the consumer thread is doing; `stopping` once it handles the stop pipe. */
  datatype Consumer<T> =
    | Waiting
    | Draining(stopping: bool)
    | Drained(stopping: bool)
    | Running(batch: seq<T>, stopping: bool)
    | Stopped

  /** `accepted` and `handed` record the tasks let in and the tasks run, in order. */
  datatype State<T> = State(
    limit: Limit,
    queue: seq<T>,
    owing: nat,
    pipe: nat,
    stopPipe: nat,
    consumer: Consumer<T>,
    accepted: seq<T>,
    handed: seq<T>)

  datatype Step<T> =
    | Push(task: T)
    | Notify
    | NotifyFull
    | AskStop
    | Wake
    | WakeStop
    | Read(n: nat)
    | SawEmpty
    | Swap
    | RunOne
    | Finish
    | Leave

  const BUFFER: nat := 1024
  const PIPE_CAPACITY: nat := 65536

  ghost function Start<T>(limit: Limit): State<T> {
    State(limit, [], 0, 0, 0, Waiting, [], [])
  }

  predicate Full<T>(s: State<T>) {
    s.queue != [] && s.limit.AtMost? && |s.queue| >= s.limit.n
  }

  /** Bytes in the pipe that the consumer is draining. */
  function Readable<T>(s: State<T>): nat {
    if s.consumer.Draining? && s.consumer.stopping then s.stopPipe else s.pipe
  }

  predicate Enabled<T>(s: State<T>, x: Step<T>) {
    match x
    case Push(_) => true
    case Notify => s.owing > 0
    case NotifyFull => s.owing > 0 && s.pipe >= PIPE_CAPACITY
    case AskStop => true
    case Wake => s.consumer.Waiting? && s.pipe > 0
    case WakeStop => s.consumer.Waiting? && s.stopPipe > 0
    case Read(n) => s.consumer.Draining? && 0 < n <= BUFFER && n <= Readable(s)
    case SawEmpty => s.consumer.Draining? && Readable(s) == 0
    case Swap => s.consumer.Drained? && (s.consumer.stopping ==> s.queue != [])
    case RunOne => s.consumer.Running? && s.consumer.batch != []
    case Finish => s.consumer.Running? && s.consumer.batch == []
    case Leave => s.consumer.Drained? && s.consumer.stopping && s.queue == []
  }

  /** One atomic step; a push to a full queue is refused. */
  function Apply<T>(s: State<T>, x: Step<T>): State<T>
    requires Enabled(s, x)
  {
    match x
    case Push(t) =>
      if Full(s) then s
      else s.(queue := s.queue + [t], accepted := s.accepted + [t], owing := s.owing + if s.queue == [] then 1 else 0)
    case Notify => s.(owing := s.owing - 1, pipe := s.pipe + 1)
    case NotifyFull => s.(owing := s.owing - 1)
    case AskStop => s.(stopPipe := s.stopPipe + 1)
    case Wake => s.(consumer := Draining(false))
    case WakeStop => s.(consumer := Draining(true))
    case Read(n) => if s.consumer.stopping then s.(stopPipe := s.stopPipe - n) else s.(pipe := s.pipe - n)
    case SawEmpty => s.(consumer := Drained(s.consumer.stopping))
    case Swap => s.(queue := [], consumer := Running(s.queue, s.consumer.stopping))
    case RunOne =>
      s.(handed := s.handed + [s.consumer.batch[0]], consumer := Running(s.consumer.batch[1..], s.consumer.stopping))
    case Finish => s.(consumer := if s.consumer.stopping then Drained(true) else Waiting)
    case Leave => s.(consumer := Stopped)
  }

  /** Steps that happen by themselves, without a new task or a request to stop. */
  predicate Internal<T>(x: Step<T>) {
    !x.Push? && !x.AskStop?
  }

  ghost function Batch<T>(c: Consumer<T>): seq<T> {
    if c.Running? then c.batch else []
  }

  /** Someone is still going to look at the queue. */
  ghost predicate Attended<T>(s: State<T>) {
    || s.pipe > 0 || s.owing > 0
    || s.consumer.Draining? || s.consumer.Drained? || (s.consumer.Running? && s.consumer.stopping) || s.consumer.Stopped?
  }

  ghost predicate Inv<T>(s: State<T>) {
    && s.accepted == s.handed + Batch(s.consumer) + s.queue
    && (s.limit.AtMost? && s.limit.n > 0 ==> |s.queue| <= s.limit.n)
    && (s.queue != [] ==> Attended(s))
  }

  lemma StepKeeps<T>(s: State<T>, x: Step<T>)
    requires Inv(s) && Enabled(s, x)
    ensures Inv(Apply(s, x))
  {
    var s' := Apply(s, x);
    match x
    case Push(t) =>
      assert s.handed + Batch(s.consumer) + (s.queue + [t]) == s.handed + Batch(s.consumer) + s.queue + [t];
    case Swap =>
      assert s.handed + s.queue + [] == s.handed + [] + s.queue;
    case RunOne =>
      assert s'.handed + s.consumer.batch[1..] == s.handed + s.consumer.batch;
    case _ =>
  }

  // ----- runs -----

  ghost predicate IsRun<T>(s: State<T>, xs: seq<Step<T>>)
    decreases |xs|
  {
    xs == [] || (Enabled(s, xs[0]) && IsRun(Apply(s, xs[0]), xs[1..]))
  }

  ghost function After<T>(s: State<T>, xs: seq<Step<T>>): State<T>
    requires IsRun(s, xs)
    decreases |xs|
  {
    if xs == [] then s else After(Apply(s, xs[0]), xs[1..])
  }

  /** The tasks that the run tried to push and that were let in. */
  ghost function LetIn<T>(s: State<T>, xs: seq<Step<T>>): seq<T>
    requires IsRun(s, xs)
    decreases |xs|
  {
    if xs == [] then []
    else (if xs[0].Push? && !Full(s) then [xs[0].task] else []) + LetIn(Apply(s, xs[0]), xs[1..])
  }

  lemma {:induction false} RunAppend<T>(s: State<T>, xs: seq<Step<T>>, ys: seq<Step<T>>)
    requires IsRun(s, xs) && IsRun(After(s, xs), ys)
    ensures IsRun(s, xs + ys) && After(s, xs + ys) == After(After(s, xs), ys)
    decreases |xs|
  {
    if xs == [] {
      assert xs + ys == ys;
    } else {
      assert (xs + ys)[1..] == xs[1..] + ys;
      RunAppend(Apply(s, xs[0]), xs[1..], ys);
    }
  }

  lemma OneStep<T>(s: State<T>, x: Step<T>)
    requires Enabled(s, x)
    ensures IsRun(s, [x]) && After(s, [x]) == Apply(s, x)
  {
    assert [x][1..] == [];
  }

  lemma {:induction false} RunKeeps<T>(s: State<T>, xs: seq<Step<T>>)
    requires Inv(s) && IsRun(s, xs)
    ensures Inv(After(s, xs)) && After(s, xs).limit == s.limit
    decreases |xs|
  {
    if xs == [] {
    } else {
      StepKeeps(s, xs[0]);
      RunKeeps(Apply(s, xs[0]), xs[1..]);
    }
  }

  lemma {:induction false} AcceptedGrows<T>(s: State<T>, xs: seq<Step<T>>)
    requires IsRun(s, xs)
    ensures After(s, xs).accepted == s.accepted + LetIn(s, xs)
    decreases |xs|
  {
    if xs == [] {
    } else {
      var s' := Apply(s, xs[0]);
      var rest := LetIn(s', xs[1..]);
      AcceptedGrows(s', xs[1..]);
      if xs[0].Push? && !Full(s) {
        assert s.accepted + [xs[0].task] + rest == s.accepted + ([xs[0].task] + rest);
      } else {
        assert [] + rest == rest;
      }
    }
  }

  /** Over every interleaving: no lost wake-up, a bounded queue, and every accepted task once, in push order. */
  lemma EveryRun<T>(limit: Limit, xs: seq<Step<T>>)
    requires IsRun(Start(limit), xs)
    ensures var s := After(Start(limit), xs);
      && (s.queue != [] ==> Attended(s))
      && (limit.AtMost? && limit.n > 0 ==> |s.queue| <= limit.n)
      && s.handed + Batch(s.consumer) + s.queue == LetIn(Start(limit), xs)
  {
    RunKeeps(Start(limit), xs);
    AcceptedGrows(Start(limit), xs);
    var l := LetIn(Start(limit), xs);
    assert [] + l == l;
  }

  // ----- progress -----

  /** Phases in the order in which the consumer passes them before it sleeps or drains more bytes. */
  ghost function Phase<T>(s: State<T>): nat {
    match s.consumer
    case Stopped => 0
    case Waiting => 1
    case Draining(_) => if Readable(s) > 0 then 0 else 6
    case Drained(stopping) => if !stopping then 5 else if s.queue == [] then 2 else 5
    case Running(_, stopping) => if !stopping then 4 else if s.queue == [] then 3 else 6
  }

  ghost predicate Smaller<T>(s': State<T>, s: State<T>) {
    || s'.owing < s.owing
    || (s'.owing == s.owing && s'.pipe + s'.stopPipe < s.pipe + s.stopPipe)
    || (s'.owing == s.owing && s'.pipe + s'.stopPipe == s.pipe + s.stopPipe
      && (Phase(s') < Phase(s) || (Phase(s') == Phase(s) && |Batch(s'.consumer)| < |Batch(s.consumer)|)))
  }

  /** Every step that happens by itself brings the system closer to rest. */
  lemma InternalStepsEnd<T>(s: State<T>, x: Step<T>)
    requires Enabled(s, x) && Internal(x)
    ensures Smaller(Apply(s, x), s)
  {
  }

  ghost predicate AtRest<T(!new)>(s: State<T>) {
    forall x: Step<T> :: Internal(x) ==> !Enabled(s, x)
  }

  /** At rest, every accepted task has been run, unless the worker has been stopped. */
  lemma AtRestAllHanded<T(!new)>(s: State<T>)
    requires Inv(s) && AtRest(s)
    ensures if s.consumer.Stopped? then s.handed + s.queue == s.accepted else s.queue == [] && s.handed == s.accepted
  {
    assert !Enabled(s, Notify) && !Enabled(s, Wake) && !Enabled(s, SawEmpty) && !Enabled(s, Swap);
    assert !Enabled(s, RunOne) && !Enabled(s, Finish) && !Enabled(s, Leave) && !Enabled(s, Read(1));
    assert s.handed + [] + [] == s.handed;
  }

  /** A step that happens by itself, when there is one. */
  lemma SomeStep<T(!new)>(s: State<T>) returns (x: Option<Step<T>>)
    ensures x.Some? ==> Internal(x.value) && Enabled(s, x.value)
    ensures x.None? ==> AtRest(s)
  {
    if s.owing > 0 { return Some(Notify); }
    match s.consumer
    case Waiting => x := if s.pipe > 0 then Some(Wake) else if s.stopPipe > 0 then Some(WakeStop) else None;
    case Draining(_) => x := if Readable(s) > 0 then Some(Read(1)) else Some(SawEmpty);
    case Drained(stopping) => x := if stopping && s.queue == [] then Some(Leave) else Some(Swap);
    case Running(batch, _) => x := if batch != [] then Some(RunOne) else Some(Finish);
    case Stopped => x := None;
  }

  /** From every reachable state the system comes to rest by itself, with every accepted task run. */
  lemma {:induction false} Settles<T(!new)>(s: State<T>) returns (xs: seq<Step<T>>)
    requires Inv(s)
    ensures IsRun(s, xs) && (forall i :: 0 <= i < |xs| ==> Internal(xs[i]))
    ensures AtRest(After(s, xs)) && After(s, xs).accepted == s.accepted
    ensures var r := After(s, xs); if r.consumer.Stopped? then r.handed + r.queue == s.accepted else r.handed == s.accepted
    decreases s.owing, s.pipe + s.stopPipe, Phase(s), |Batch(s.consumer)|
  {
    var x := SomeStep(s);
    if x.None? {
      AtRestAllHanded(s);
      xs := [];
    } else {
      StepKeeps(s, x.value);
      InternalStepsEnd(s, x.value);
      var rest := Settles(Apply(s, x.value));
      xs := [x.value] + rest;
      assert xs[1..] == rest;
    }
  }

  // ----- tasks that come too late -----

  /** Once the worker has left, tasks are still let in, and stay in the queue. */
  lemma {:induction false} NothingAfterStop<T>(s: State<T>, xs: seq<Step<T>>)
    requires s.consumer.Stopped? && IsRun(s, xs)
    ensures var r := After(s, xs); r.consumer.Stopped? && r.handed == s.handed && r.queue == s.queue + LetIn(s, xs)
    decreases |xs|
  {
    if xs != [] {
      var rest := LetIn(Apply(s, xs[0]), xs[1..]);
      NothingAfterStop(Apply(s, xs[0]), xs[1..]);
      if xs[0].Push? && !Full(s) {
        assert s.queue + [xs[0].task] + rest == s.queue + ([xs[0].task] + rest);
      } else {
        assert [] + rest == rest;
      }
    }
  }

  /** The step with which the worker leaves: until then it has run every task let in. */
  lemma {:induction false} LeavingStep<T>(s: State<T>, xs: seq<Step<T>>) returns (k: nat)
    requires Inv(s) && !s.consumer.Stopped? && IsRun(s, xs) && After(s, xs).consumer.Stopped?
    ensures k < |xs| && xs[k].Leave? && IsRun(s, xs[..k]) && After(s, xs).handed == After(s, xs[..k]).accepted
    decreases |xs|
  {
    if xs[0].Leave? {
      k := 0;
      assert s.handed + [] + [] == s.handed && xs[..0] == [];
      NothingAfterStop(Apply(s, xs[0]), xs[1..]);
    } else {
      StepKeeps(s, xs[0]);
      var j := LeavingStep(Apply(s, xs[0]), xs[1..]);
      k := j + 1;
      assert xs[..k][1..] == xs[1..][..j];
    }
  }

  /** Of the tasks let in, a stopped worker has run exactly those from before it left. */
  lemma RunExactlyBeforeLeaving<T>(limit: Limit, xs: seq<Step<T>>) returns (k: nat)
    requires IsRun(Start(limit), xs) && After(Start(limit), xs).consumer.Stopped?
    ensures k < |xs| && xs[k].Leave? && IsRun(Start(limit), xs[..k])
    ensures var s := After(Start(limit), xs);
      s.handed == LetIn(Start(limit), xs[..k]) && s.handed + s.queue == LetIn(Start(limit), xs)
  {
    k := LeavingStep(Start(limit), xs);
    AcceptedGrows(Start(limit), xs[..k]);
    var l := LetIn(Start(limit), xs[..k]);
    assert [] + l == l;
    RunKeeps(Start(limit), xs);
    EveryRun(limit, xs);
    var h := After(Start(limit), xs).handed;
    assert h + [] == h;
  }

  /** A task that is let in and never run, with nothing left to happen. */
  lemma PushedTooLate<T(!new)>(task: T)
    ensures var xs := [AskStop, WakeStop, Read(1), SawEmpty, Leave, Push(task), Notify];
      && IsRun(Start(Unbounded), xs)
      && var s := After(Start(Unbounded), xs); AtRest(s) && s.accepted == [task] && s.handed == []
  {
    hide IsRun, After, Apply, Enabled, AtRest;
    var s: State<T> := Start(Unbounded);
    var xs: seq<Step<T>> := [AskStop, WakeStop, Read(1), SawEmpty, Leave];
    Stopping(s);
    PushedToStopped(s.(consumer := Stopped), task);
    RunAppend(s, xs, [Push(task), Notify]);
    assert xs + [Push(task), Notify] == [AskStop, WakeStop, Read(1), SawEmpty, Leave, Push(task), Notify];
  }

  lemma PushedToStopped<T(!new)>(s: State<T>, task: T)
    requires s.consumer.Stopped? && s.queue == [] && s.owing == 0
    ensures var xs := [Push(task), Notify]; IsRun(s, xs) && var r := After(s, xs);
      AtRest(r) && r.accepted == s.accepted + [task] && r.handed == s.handed
  {
    var xs: seq<Step<T>> := [Push(task), Notify];
    assert xs[1..] == [Step<T>.Notify];
    OneStep(Apply(s, Push(task)), Step<T>.Notify);
  }

  /** An idle worker is asked to stop, and leaves. */
  lemma Stopping<T>(s: State<T>)
    requires s.consumer.Waiting? && s.queue == [] && s.stopPipe == 0
    ensures var xs := [AskStop, WakeStop, Read(1), SawEmpty, Leave];
      IsRun(s, xs) && After(s, xs) == s.(consumer := Stopped)
  {
    var xs: seq<Step<T>> := [AskStop, WakeStop, Read(1), SawEmpty, Leave];
    var s1 := s.(stopPipe := 1);
    var s2 := s1.(consumer := Draining(true));
    var s3 := s.(consumer := Draining(true));
    var s4 := s.(consumer := Drained(true));
    assert xs[1..][1..][1..][1..] == [Step<T>.Leave];
    assert Apply(s, xs[0]) == s1 && Apply(s1, xs[1]) == s2 && Apply(s2, xs[2]) == s3 && Apply(s3, xs[3]) == s4;
    OneStep(s4, Step<T>.Leave);
    assert IsRun(s3, xs[1..][1..][1..]) && IsRun(s2, xs[1..][1..]) && IsRun(s1, xs[1..]);
  }
}
