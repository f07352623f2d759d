/**
 The task worker as a protocol over all interleavings: callers add tasks and stop the
 worker, notifications are delivered late, and the worker thread checks, executes or
 drains. Every critical section is one step; draining keeps the lock between its steps.
 */
module WorkerProtocol {
  import opened Bytes
  import R = Runs

  /** Tasks are numbered in the order in which they are accepted. */
  type Id = nat

  datatype Outcome = Value | Failed | Cancelled

  datatype Thread = Ready | Asleep | Executing(task: Id) | Draining | Exited

  /** What the worker object holds, with the log of the promises it has resolved. */
  datatype Core = Core(running: bool, tasks: seq<Id>, log: seq<(Id, Outcome)>)

  datatype State = State(core: Core, thread: Thread, notices: nat,
                         accepted: nat, executed: seq<Id>, cancelled: seq<Id>)

  datatype Step =
    | Add                // add_task, up to leaving the critical section
    | Stop               // stop, up to leaving the critical section
    | Notify             // a pending notification is delivered
    | Spurious           // the condition variable wakes for no reason
    | Check              // the thread evaluates the wait predicate and acts on it
    | Finish(ok: bool)   // the task in flight resolves its promise
    | Drain              // one round of the cancelling loop, or its exit

  /** add_task: None is the worker_stopped exception. */
  function AddTask(c: Core, task: Id): (c': Option<Core>) {
    if !c.running then None else Some(c.(tasks := c.tasks + [task]))
  }

  function Cancel(c: Core): (c': Core)
    requires c.tasks != []
  {
    c.(tasks := c.tasks[1..], log := c.log + [(c.tasks[0], Cancelled)])
  }

  function Resolve(c: Core, task: Id, ok: bool): (c': Core) {
    c.(log := c.log + [(task, if ok then Value else Failed)])
  }

  predicate Enabled(s: State, step: Step) {
    match step
    case Add => s.thread != Draining
    case Stop => s.thread != Draining
    case Notify => s.notices > 0
    case Spurious => s.thread == Asleep
    case Check => s.thread == Ready
    case Finish(_) => s.thread.Executing?
    case Drain => s.thread == Draining
  }

  function Next(s: State, step: Step): (s': State)
    requires Enabled(s, step)
  {
    match step
    case Add =>
      var c := AddTask(s.core, s.accepted);
      if c.None? then s
      else s.(core := c.value, accepted := s.accepted + 1, notices := s.notices + 1)
    case Stop =>
      if !s.core.running then s
      else s.(core := s.core.(running := false), notices := s.notices + 1)
    case Notify =>
      s.(notices := s.notices - 1, thread := if s.thread == Asleep then Ready else s.thread)
    case Spurious =>
      s.(thread := Ready)
    case Check =>
      if !s.core.running then s.(thread := Draining)
      else if s.core.tasks == [] then s.(thread := Asleep)
      else s.(core := s.core.(tasks := s.core.tasks[1..]), thread := Executing(s.core.tasks[0]))
    case Finish(ok) =>
      s.(core := Resolve(s.core, s.thread.task, ok), thread := Ready, executed := s.executed + [s.thread.task])
    case Drain =>
      if s.core.tasks == [] then s.(thread := Exited)
      else s.(core := Cancel(s.core), cancelled := s.cancelled + [s.core.tasks[0]])
  }

  const START: State := State(Core(true, [], []), Ready, 0, 0, [], [])

  function TryNext(s: State, step: Step): (s': Option<State>) {
    if Enabled(s, step) then Some(Next(s, step)) else None
  }

  ghost predicate Possible(s: State, steps: seq<Step>) {
    R.Run(TryNext, s, steps).Some?
  }

  ghost function After(s: State, steps: seq<Step>): (s': State)
    requires Possible(s, steps)
  {
    R.Run(TryNext, s, steps).value
  }

  // ---------- the invariant ----------

  function Numbers(n: nat): (ids: seq<Id>)
    ensures |ids| == n && forall i :: 0 <= i < n ==> ids[i] == i
  {
    seq(n, i => i)
  }

  function InFlight(s: State): (ids: seq<Id>) {
    if s.thread.Executing? then [s.thread.task] else []
  }

  function Ids(log: seq<(Id, Outcome)>): (ids: seq<Id>)
    ensures |ids| == |log|
  {
    seq(|log|, i requires 0 <= i < |log| => log[i].0)
  }

  /**
   The accepted tasks are, in submission order: executed, in flight, cancelled, queued.
   Promises are resolved in that order too.
   */
  ghost predicate InOrder(s: State) {
    && Numbers(s.accepted) == s.executed + InFlight(s) + s.cancelled + s.core.tasks
    && Ids(s.core.log) == s.executed + s.cancelled
    && |s.executed| <= |s.core.log|
    && (forall i :: 0 <= i < |s.core.log| ==> (s.core.log[i].1 == Cancelled <==> i >= |s.executed|))
  }

  ghost predicate Inv(s: State) {
    && InOrder(s)
    && (s.cancelled != [] ==> s.thread == Draining || s.thread == Exited)
    && (s.thread == Draining || s.thread == Exited ==> !s.core.running)
    && (s.thread == Exited ==> s.core.tasks == [])
    // no lost wake-up
    && (s.thread == Asleep && (s.core.tasks != [] || !s.core.running) ==> s.notices > 0)
  }

  lemma AddInv(s: State)
    requires Inv(s) && Enabled(s, Add)
    ensures Inv(Next(s, Add))
  {
    assert Numbers(s.accepted + 1) == Numbers(s.accepted) + [s.accepted];
    Assoc(s.executed + InFlight(s) + s.cancelled, s.core.tasks, [s.accepted]);
  }

  lemma CheckInv(s: State)
    requires Inv(s) && Enabled(s, Check)
    ensures Inv(Next(s, Check))
  {
    if s.core.tasks != [] {
      assert s.core.tasks == [s.core.tasks[0]] + s.core.tasks[1..];
      assert s.executed + InFlight(s) + s.cancelled + s.core.tasks
          == s.executed + [s.core.tasks[0]] + [] + s.core.tasks[1..];
    }
  }

  lemma ResolveIds(log: seq<(Id, Outcome)>, entry: (Id, Outcome))
    ensures Ids(log + [entry]) == Ids(log) + [entry.0]
  {
  }

  lemma FinishInv(s: State, ok: bool)
    requires Inv(s) && Enabled(s, Finish(ok))
    ensures Inv(Next(s, Finish(ok)))
  {
    ResolveIds(s.core.log, (s.thread.task, if ok then Value else Failed));
    var s' := Next(s, Finish(ok));
    assert s'.executed + InFlight(s') + s'.cancelled + s'.core.tasks
        == s.executed + InFlight(s) + s.cancelled + s.core.tasks;
    assert s'.executed + s'.cancelled == s'.executed;
  }

  lemma DrainInv(s: State)
    requires Inv(s) && Enabled(s, Drain)
    ensures Inv(Next(s, Drain))
  {
    if s.core.tasks != [] {
      var task := s.core.tasks[0];
      ResolveIds(s.core.log, (task, Cancelled));
      assert s.core.tasks == [task] + s.core.tasks[1..];
      Assoc(s.executed, s.cancelled, [task]);
      assert s.executed + [] + s.cancelled + s.core.tasks
          == s.executed + [] + (s.cancelled + [task]) + s.core.tasks[1..];
    }
  }

  lemma StepInv(s: State, step: Step)
    requires Inv(s) && Enabled(s, step)
    ensures Inv(Next(s, step))
  {
    match step
    case Add => AddInv(s);
    case Check => CheckInv(s);
    case Finish(ok) => FinishInv(s, ok);
    case Drain => DrainInv(s);
    case _ =>
  }

  lemma EveryStepInv()
    ensures R.Keeps(TryNext, _ => true, Inv)
  {
    forall s, step | Inv(s) && Enabled(s, step)
      ensures Inv(Next(s, step))
    {
      StepInv(s, step);
    }
  }

  // ---------- what every run guarantees ----------

  /** In every reachable state, tasks are neither lost nor reordered, and no wake-up is lost. */
  lemma ReachableInOrder(steps: seq<Step>)
    requires Possible(START, steps)
    ensures Inv(After(START, steps))
  {
    EveryStepInv();
    R.RunsKeep(TryNext, _ => true, Inv, START, steps);
  }

  /** No promise is resolved twice. */
  lemma ResolvedAtMostOnce(steps: seq<Step>, i: nat, j: nat)
    requires Possible(START, steps)
    requires i < j < |After(START, steps).core.log|
    ensures After(START, steps).core.log[i].0 != After(START, steps).core.log[j].0
  {
    var s := After(START, steps);
    ReachableInOrder(steps);
    LogIsPrefix(s);
    assert Ids(s.core.log)[i] == i && Ids(s.core.log)[j] == j;
  }

  /** The promises are resolved in the order in which the tasks were accepted. */
  lemma LogIsPrefix(s: State)
    requires Inv(s)
    ensures |s.core.log| <= s.accepted
    ensures forall i :: 0 <= i < |s.core.log| ==> Ids(s.core.log)[i] == i
  {
    var all := Numbers(s.accepted);
    if s.cancelled == [] {
      assert Ids(s.core.log) == s.executed;
    } else {
      assert InFlight(s) == [];
    }
    assert forall i :: 0 <= i < |s.core.log| ==> Ids(s.core.log)[i] == all[i];
  }

  /** Whether the executed tasks returned, in the order in which they finished. */
  function Returns(steps: seq<Step>): (oks: seq<bool>) {
    if steps == [] then []
    else
      var before, step := Returns(steps[..|steps| - 1]), steps[|steps| - 1];
      if step.Finish? then before + [step.ok] else before
  }

  /** The log entries of the executed tasks: a value if the task returned, the exception if it threw. */
  ghost predicate OutcomesAre(s: State, oks: seq<bool>) {
    && |oks| == |s.executed| <= |s.core.log|
    && forall i :: 0 <= i < |oks| ==> s.core.log[i] == (s.executed[i], if oks[i] then Value else Failed)
  }

  lemma FinishOutcome(s: State, oks: seq<bool>, ok: bool)
    requires Inv(s) && Enabled(s, Finish(ok)) && OutcomesAre(s, oks)
    ensures OutcomesAre(Next(s, Finish(ok)), oks + [ok])
  {
    assert s.cancelled == [] && |Ids(s.core.log)| == |s.executed|;
  }

  /** In every run, each executed task's promise gets what its own execution came to. */
  lemma {:induction false} ExecutedGetOutcomes(steps: seq<Step>)
    requires Possible(START, steps)
    ensures OutcomesAre(After(START, steps), Returns(steps))
  {
    if steps != [] {
      var n := |steps| - 1;
      var s := After(START, steps[..n]);
      ExecutedGetOutcomes(steps[..n]);
      ReachableInOrder(steps[..n]);
      if steps[n].Finish? {
        FinishOutcome(s, Returns(steps[..n]), steps[n].ok);
      }
    }
  }

  /** The promise that is resolved next, by the task in flight or by cancelling, is still unresolved. */
  lemma UnresolvedUntilNow(steps: seq<Step>)
    requires Possible(START, steps)
    ensures var s := After(START, steps);
            && (s.thread.Executing? ==> s.thread.task !in Ids(s.core.log))
            && forall i :: 0 <= i < |s.core.tasks| ==> s.core.tasks[i] !in Ids(s.core.log)
  {
    var s := After(START, steps);
    ReachableInOrder(steps);
    LogIsPrefix(s);
    var waiting := InFlight(s) + s.core.tasks;
    assert Numbers(s.accepted) == Ids(s.core.log) + waiting;
    forall i | 0 <= i < |waiting|
      ensures waiting[i] !in Ids(s.core.log)
    {
      assert waiting[i] == Numbers(s.accepted)[|s.core.log| + i];
    }
    assert s.thread.Executing? ==> waiting[0] == s.thread.task;
    assert forall i :: 0 <= i < |s.core.tasks| ==> s.core.tasks[i] == waiting[|InFlight(s)| + i];
  }

  /**
   Once the thread has exited, every accepted promise has been resolved exactly once, the
   executed tasks are the first ones accepted and all later ones were cancelled.
   */
  lemma ExitResolvesAll(steps: seq<Step>)
    requires Possible(START, steps) && After(START, steps).thread == Exited
    ensures var s := After(START, steps);
            && Ids(s.core.log) == Numbers(s.accepted)
            && s.executed == Numbers(|s.executed|) && |s.executed| <= s.accepted
            && forall i :: 0 <= i < s.accepted ==> (s.core.log[i].1 == Cancelled <==> i >= |s.executed|)
  {
    var s := After(START, steps);
    ReachableInOrder(steps);
    assert s.executed == Numbers(s.accepted)[..|s.executed|];
  }

  predicate ThreadMoves(s: State, step: Step) {
    step.Check? || step.Finish? || step.Drain? || (s.thread == Asleep && (step.Notify? || step.Spurious?))
  }

  /**
   While the worker runs it rests only when its work is done: with no notice pending and no
   move left but a spurious wake-up, every accepted task has been executed, in order.
   */
  lemma RestsOnlyWhenDone(steps: seq<Step>)
    requires Possible(START, steps) && After(START, steps).core.running && After(START, steps).notices == 0
    requires forall step ::
               Enabled(After(START, steps), step) && ThreadMoves(After(START, steps), step) ==> step.Spurious?
    ensures var s := After(START, steps);
            && s.thread == Asleep && s.core.tasks == []
            && s.executed == Numbers(s.accepted) == Ids(s.core.log)
  {
    var s := After(START, steps);
    ReachableInOrder(steps);
    assert ThreadMoves(s, Check) && ThreadMoves(s, Finish(true)) && ThreadMoves(s, Drain);
  }

  /** Work the thread and the notices still have before them. */
  function Work(s: State): (n: nat) {
    3 * |s.core.tasks| + 2 * s.notices
    + match s.thread
      case Exited => 0
      case Draining => 1
      case Asleep => 1
      case Ready => 2
      case Executing(_) => 3
  }

  /** What callers and spurious wake-ups add to it. */
  function Weight(step: Step): (n: nat) {
    match step
    case Add => 6
    case Stop => 3
    case Spurious => 2
    case _ => 0
  }

  function Requested(steps: seq<Step>): (n: nat) {
    if steps == [] then 0 else Requested(steps[..|steps| - 1]) + Weight(steps[|steps| - 1])
  }

  /**
   In any run, before and after stop, the worker takes only as many steps as the work at
   the start and the callers' requests and spurious wake-ups since then account for.
   */
  lemma {:induction false} StepsBounded(s: State, steps: seq<Step>)
    requires Possible(s, steps)
    ensures |steps| + Work(After(s, steps)) <= Work(s) + Requested(steps)
  {
    if steps != [] {
      StepsBounded(s, steps[..|steps| - 1]);
    }
  }

  /** From `s` to `t`, the queue only lost tasks from its front and no task was started. */
  ghost predicate OnlyDrained(s: State, t: State) {
    && !t.core.running && t.accepted == s.accepted
    && |t.core.tasks| <= |s.core.tasks|
    && t.core.tasks == s.core.tasks[|s.core.tasks| - |t.core.tasks|..]
    && t.executed + InFlight(t) == s.executed + InFlight(s)
  }

  lemma OnlyDrainedStep(s: State, t: State, step: Step)
    requires OnlyDrained(s, t) && Enabled(t, step)
    ensures OnlyDrained(s, Next(t, step))
  {
    var n := |s.core.tasks| - |t.core.tasks|;
    if step == Drain && t.core.tasks != [] {
      assert s.core.tasks[n..][1..] == s.core.tasks[n + 1..];
    }
  }

  /**
   Once the running flag is clear, nothing enters the queue again and no task starts: at
   most the one already in flight is still executed.
   */
  lemma StopIsFinal(s: State, steps: seq<Step>)
    requires Possible(s, steps) && !s.core.running
    ensures OnlyDrained(s, After(s, steps))
  {
    forall t, step | OnlyDrained(s, t) && Enabled(t, step)
      ensures OnlyDrained(s, Next(t, step))
    {
      OnlyDrainedStep(s, t, step);
    }
    assert s.core.tasks[0..] == s.core.tasks;
    R.RunsKeep(TryNext, _ => true, (t: State) => OnlyDrained(s, t), s, steps);
  }

  /** Steps the worker thread can still take once it has been told to stop. */
  function Remaining(s: State): (n: nat) {
    match s.thread
    case Exited => 0
    case Draining => |s.core.tasks| + 1
    case Ready => |s.core.tasks| + 2
    case Asleep => |s.core.tasks| + 3
    case Executing(_) => |s.core.tasks| + 3
  }

  ghost predicate Stopped(s: State) {
    Inv(s) && !s.core.running
  }

  /** After stop, the thread can always move until it has exited: a sleeper has a wake-up coming. */
  lemma StopNeverHangs(s: State)
    requires Stopped(s) && s.thread != Exited
    ensures exists step :: Enabled(s, step) && ThreadMoves(s, step) && !step.Spurious?
  {
    var step := match s.thread
      case Ready => Check
      case Asleep => Notify
      case Executing(_) => Finish(true)
      case _ => Drain;
    assert Enabled(s, step) && ThreadMoves(s, step);
  }

  /**
   In any run after stop, whatever else happens in it, the thread takes only as many moves
   as its state and the queue allow, the drain loop included; and a run after which it
   cannot move any more has taken it to its exit.
   */
  lemma StopEnds(s: State, steps: seq<Step>)
    requires Stopped(s) && Possible(s, steps)
    ensures R.Moves(TryNext, ThreadMoves, s, steps) + Remaining(After(s, steps)) <= Remaining(s)
    ensures (forall step :: Enabled(After(s, steps), step) ==> !ThreadMoves(After(s, steps), step))
            <==> After(s, steps).thread == Exited
  {
    forall t, step | Stopped(t) && Enabled(t, step)
      ensures Stopped(Next(t, step))
      ensures Remaining(Next(t, step)) + (if ThreadMoves(t, step) then 1 else 0) <= Remaining(t)
    {
      StepInv(t, step);
    }
    R.MovesDescend(TryNext, Stopped, ThreadMoves, Remaining, s, steps);
    R.RunsKeep(TryNext, _ => true, Stopped, s, steps);
    if After(s, steps).thread != Exited {
      StopNeverHangs(After(s, steps));
    }
  }
}

/** The worker object; each method is a critical section or the body run between two. */
module WorkerObject {
  import P = WorkerProtocol
  import opened Bytes

  /** How a call ended: it returned or it threw. */
  datatype Result<+T> = Returned(value: T) | Threw

  class Worker {
    var running: bool
    var tasks: seq<P.Id>
    // The promises resolved so far, in order.
    var log: seq<(P.Id, P.Outcome)>

    ghost function View(): (c: P.Core)
      reads this
    {
      P.Core(running, tasks, log)
    }

    constructor ()
      ensures View() == P.START.core
    {
      running, tasks, log := true, [], [];
    }

    /** Rejects the task, without a trace, exactly when the worker has been stopped. */
    method AddTask(task: P.Id) returns (accepted: bool)
      modifies this`tasks
      ensures accepted == old(running) && tasks == if accepted then old(tasks) + [task] else old(tasks)
      ensures accepted <==> P.AddTask(old(View()), task).Some?
      ensures View() == if accepted then P.AddTask(old(View()), task).value else old(View())
    {
      if !running {
        return false;
      }
      tasks := tasks + [task];
      return true;
    }

    /** True if this call cleared the flag and so must notify and join. */
    method RequestStop() returns (first: bool)
      modifies this`running
      ensures first == old(running) && View() == old(View()).(running := false)
    {
      if !running {
        return false;
      }
      running := false;
      return true;
    }

    /** The critical section of the thread's loop after the wait; None ends the loop. */
    method TakeOrDrain() returns (task: Option<P.Id>)
      requires !running || tasks != []
      modifies this`tasks, this`log
      ensures old(running) ==>
                task == Some(old(tasks)[0]) && View() == old(View()).(tasks := old(tasks)[1..])
      ensures !old(running) ==>
                task == None && tasks == [] && P.Ids(log) == P.Ids(old(log)) + old(tasks)
                && log[..|old(log)|] == old(log) && forall i :: |old(log)| <= i < |log| ==> log[i].1 == P.Cancelled
    {
      if !running {
        while tasks != []
          invariant |old(log)| <= |log| && log[..|old(log)|] == old(log)
          invariant P.Ids(log) + tasks == P.Ids(old(log)) + old(tasks)
          invariant forall i :: |old(log)| <= i < |log| ==> log[i].1 == P.Cancelled
          decreases |tasks|
        {
          P.ResolveIds(log, (tasks[0], P.Cancelled));
          assert tasks == [tasks[0]] + tasks[1..];
          Assoc(P.Ids(log), [tasks[0]], tasks[1..]);
          log := log + [(tasks[0], P.Cancelled)];
          tasks := tasks[1..];
        }
        return None;
      }
      task := Some(tasks[0]);
      tasks := tasks[1..];
    }

    /** A promise accepts one outcome; resolving it again throws and changes nothing. */
    method Fulfil(task: P.Id, outcome: P.Outcome) returns (r: Result<()>)
      modifies this`log
      ensures r.Threw? <==> task in P.Ids(old(log))
      ensures log == if r.Threw? then old(log) else old(log) + [(task, outcome)]
    {
      for i := 0 to |log|
        invariant log == old(log) && forall j :: 0 <= j < i ==> log[j].0 != task
      {
        if log[i].0 == task {
          assert P.Ids(log)[i] == task;
          return Threw;
        }
      }
      log := log + [(task, outcome)];
      return Returned(());
    }

    /**
     Runs the task: `call` is how the inference ended. Whatever it was, and although setting
     the value is itself inside the try block, an unresolved promise is resolved exactly
     once, by that outcome; an exception leaves only when it was resolved before.
     */
    method ExecuteTask<T>(task: P.Id, call: Result<T>) returns (r: Result<()>)
      modifies this`log
      ensures r.Threw? <==> task in P.Ids(old(log))
      ensures task in P.Ids(log)
      ensures r.Returned? ==> log == old(log) + [(task, if call.Returned? then P.Value else P.Failed)]
      ensures View() == if r.Threw? then old(View()) else P.Resolve(old(View()), task, call.Returned?)
    {
      r := Threw;
      if call.Returned? {
        r := Fulfil(task, P.Value);
      }
      if r.Threw? {
        r := Fulfil(task, P.Failed);
      }
      assert r.Returned? ==> P.Ids(log)[|log| - 1] == task;
    }
  }
}
