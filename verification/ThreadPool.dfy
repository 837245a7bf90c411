/** The thread pool of src/thread-pool: worker phases, the FIFO task queue and two
    condition variables, over every interleaving of their critical sections. */
module ThreadPool {
  import opened Bytes

  /** A task, named by the caller that enqueued it. */
  type TaskId = nat

  /** Where a worker stands in workerThread. */
  datatype Phase =
    | Ready                  // about to lock queueMutex and test the predicate of `condition`
    | Asleep                 // blocked in condition.wait
    | PauseReady             // about to re-test the predicate of `pauseCondition`
    | PauseAsleep            // blocked in pauseCondition.wait
    | Running(task: TaskId)  // between pop and the decrement, lock released
    | Returned

  /** A caller of waitForCompletion; `seen` is the number of tasks accepted when it
      returned. */
  datatype Waiter = Calling | Blocked | Done(seen: nat)

  datatype State = State(
    tasks: seq<TaskId>,
    workers: seq<Phase>,
    waiters: seq<Waiter>,
    stop: bool,
    paused: bool,
    activeThreads: nat,
    enqueueNotifies: nat,    // enqueue calls between unlock and notify_one
    resumeNotifies: nat,     // resume calls between unlock and notify_all
    stopNotified: bool,      // shutdown has called condition.notify_all
    // history
    accepted: seq<TaskId>,
    started: seq<TaskId>,
    finished: seq<TaskId>)

  datatype Action =
    | Enqueue(task: TaskId)
    | EnqueueNotify(w: nat)  // notify_one; `w` is the sleeper it picks, if there is one
    | WorkerLock(w: nat)     // lines 15-27 of workerThread, from Ready
    | PauseRetest(w: nat)
    | TaskDone(w: nat)       // the task returns; lines 29-35
    | Spurious(w: nat)       // a wait returns without a notification
    | Stop
    | StopNotify
    | Pause
    | Resume
    | ResumeNotify
    | AddWorker
    | CallWait               // another thread enters waitForCompletion
    | WaitTest(i: nat)
    | SpuriousWaiter(i: nat)

  function Initial(threads: nat): State {
    State([], Repeat(Ready, threads), [], false, false, 0, 0, 0, false, [], [], [])
  }

  predicate IsPhase(s: State, w: nat, p: Phase) {
    w < |s.workers| && s.workers[w] == p
  }

  predicate IsRunning(s: State, w: nat) {
    w < |s.workers| && s.workers[w].Running?
  }

  predicate IsWaiter(s: State, i: nat, x: Waiter) {
    i < |s.waiters| && s.waiters[i] == x
  }

  function SetWorker(s: State, w: nat, p: Phase): State
    requires w < |s.workers|
  {
    s.(workers := s.workers[w := p])
  }

  /** The predicate a worker waits for. */
  predicate MayRun(s: State) {
    s.stop || (!s.paused && s.tasks != [])
  }

  /** The predicate waitForCompletion waits for. */
  predicate AllDone(s: State) {
    s.tasks == [] && s.activeThreads == 0
  }

  function WakeWorkers(ws: seq<Phase>): (r: seq<Phase>)
    ensures |r| == |ws|
    ensures forall i :: 0 <= i < |ws| ==> r[i] == if ws[i].PauseAsleep? then PauseReady else ws[i]
  {
    seq(|ws|, i requires 0 <= i < |ws| => if ws[i].PauseAsleep? then PauseReady else ws[i])
  }

  function WakeWaiters(xs: seq<Waiter>): (r: seq<Waiter>)
    ensures |r| == |xs|
    ensures forall i :: 0 <= i < |xs| ==> r[i] == if xs[i].Blocked? then Calling else xs[i]
  {
    seq(|xs|, i requires 0 <= i < |xs| => if xs[i].Blocked? then Calling else xs[i])
  }

  /** pauseCondition.notify_all */
  function WakePause(s: State): State {
    s.(workers := WakeWorkers(s.workers), waiters := WakeWaiters(s.waiters))
  }

  /** condition.notify_all */
  function WakeAll(ws: seq<Phase>): (r: seq<Phase>)
    ensures |r| == |ws|
    ensures forall i :: 0 <= i < |ws| ==> r[i] == if ws[i].Asleep? then Ready else ws[i]
  {
    seq(|ws|, i requires 0 <= i < |ws| => if ws[i].Asleep? then Ready else ws[i])
  }

  function Accept(s: State, t: TaskId): State {
    if s.stop then s  // enqueue throws
    else s.(tasks := s.tasks + [t], accepted := s.accepted + [t], enqueueNotifies := s.enqueueNotifies + 1)
  }

  function NotifyOne(s: State, w: nat): State
    requires s.enqueueNotifies > 0
  {
    var t := s.(enqueueNotifies := s.enqueueNotifies - 1);
    if IsPhase(s, w, Asleep) then SetWorker(t, w, Ready) else t
  }

  function LockSection(s: State, w: nat): State
    requires IsPhase(s, w, Ready)
  {
    if !MayRun(s) then SetWorker(s, w, Asleep)
    else if s.stop && s.tasks == [] then SetWorker(s, w, Returned)
    else if s.paused then SetWorker(s, w, PauseAsleep)
    else
      SetWorker(s, w, Running(s.tasks[0])).(
        tasks := s.tasks[1..], started := s.started + [s.tasks[0]], activeThreads := s.activeThreads + 1)
  }

  function DoneSection(s: State, w: nat): State
    requires IsRunning(s, w) && s.activeThreads > 0
  {
    var t := SetWorker(s, w, Ready).(
      activeThreads := s.activeThreads - 1, finished := s.finished + [s.workers[w].task]);
    if AllDone(t) then WakePause(t) else t
  }

  predicate Enabled(s: State, a: Action) {
    match a
    case Enqueue(_) => true
    case EnqueueNotify(w) =>
      s.enqueueNotifies > 0 && (IsPhase(s, w, Asleep) || Asleep !in s.workers)
    case WorkerLock(w) => IsPhase(s, w, Ready)
    case PauseRetest(w) => IsPhase(s, w, PauseReady)
    case TaskDone(w) => IsRunning(s, w) && s.activeThreads > 0
    case Spurious(w) => IsPhase(s, w, Asleep) || IsPhase(s, w, PauseAsleep)
    case Stop => !s.stop
    case StopNotify => s.stop && !s.stopNotified
    case Pause => true
    case Resume => true
    case ResumeNotify => s.resumeNotifies > 0
    case AddWorker => true
    case CallWait => true
    case WaitTest(i) => IsWaiter(s, i, Calling)
    case SpuriousWaiter(i) => IsWaiter(s, i, Blocked)
  }

  /** One critical section or notification; one that is not enabled changes nothing. */
  function Next(s: State, a: Action): State {
    if !Enabled(s, a) then s
    else match a
      case Enqueue(t) => Accept(s, t)
      case EnqueueNotify(w) => NotifyOne(s, w)
      case WorkerLock(w) => LockSection(s, w)
      case PauseRetest(w) => SetWorker(s, w, if s.paused then PauseAsleep else Ready)
      case TaskDone(w) => DoneSection(s, w)
      case Spurious(w) => SetWorker(s, w, if s.workers[w].Asleep? then Ready else PauseReady)
      case Stop => s.(stop := true)
      case StopNotify => s.(stopNotified := true, workers := WakeAll(s.workers))
      case Pause => s.(paused := true)
      case Resume => s.(paused := false, resumeNotifies := s.resumeNotifies + 1)
      case ResumeNotify => WakePause(s.(resumeNotifies := s.resumeNotifies - 1))
      case AddWorker => s.(workers := s.workers + [Ready])
      case CallWait => s.(waiters := s.waiters + [Calling])
      case WaitTest(i) => s.(waiters := s.waiters[i := if AllDone(s) then Done(|s.accepted|) else Blocked])
      case SpuriousWaiter(i) => s.(waiters := s.waiters[i := Calling])
  }

  function Run(s: State, acts: seq<Action>): State
    decreases |acts|
  {
    if acts == [] then s else Next(Run(s, acts[..|acts|-1]), acts[|acts|-1])
  }

  // ---------------------------------------------------------------------------
  // Sums over workers

  function Sum(ws: seq<Phase>, f: Phase -> nat): nat
    decreases |ws|
  {
    if ws == [] then 0 else Sum(ws[..|ws|-1], f) + f(ws[|ws|-1])
  }

  lemma {:induction false} SumUpdate(ws: seq<Phase>, f: Phase -> nat, w: nat, p: Phase)
    requires w < |ws|
    ensures Sum(ws[w := p], f) + f(ws[w]) == Sum(ws, f) + f(p)
    decreases |ws|
  {
    var n := |ws| - 1;
    if w == n {
      assert ws[w := p][..n] == ws[..n];
    } else {
      assert ws[w := p][..n] == ws[..n][w := p];
      SumUpdate(ws[..n], f, w, p);
    }
  }

  lemma SumAppend(ws: seq<Phase>, f: Phase -> nat, p: Phase)
    ensures Sum(ws + [p], f) == Sum(ws, f) + f(p)
  {
    assert (ws + [p])[..|ws|] == ws;
  }

  lemma {:induction false} SumMonotone(ws: seq<Phase>, vs: seq<Phase>, f: Phase -> nat)
    requires |ws| == |vs| && forall i :: 0 <= i < |ws| ==> f(ws[i]) <= f(vs[i])
    ensures Sum(ws, f) <= Sum(vs, f)
    decreases |ws|
  {
    if ws != [] { SumMonotone(ws[..|ws|-1], vs[..|vs|-1], f); }
  }

  lemma {:induction false} SumZero(ws: seq<Phase>, f: Phase -> nat)
    ensures Sum(ws, f) == 0 <==> forall i :: 0 <= i < |ws| ==> f(ws[i]) == 0
    decreases |ws|
  {
    if ws != [] { SumZero(ws[..|ws|-1], f); }
  }

  /** How many workers run task `t`, or any task; how many are ready; how many sleep. */
  function Runs(t: TaskId): Phase -> nat {
    (p: Phase) => if p == Running(t) then 1 else 0
  }

  const BUSY: Phase -> nat := (p: Phase) => if p.Running? then 1 else 0
  const READY: Phase -> nat := (p: Phase) => if p.Ready? then 1 else 0
  const ASLEEP: Phase -> nat := (p: Phase) => if p.Asleep? then 1 else 0

  // ---------------------------------------------------------------------------
  // Conservation of tasks

  /** Accepted tasks are the started ones followed by the queue; every started task
      is running or finished, as often as it was started; the counter counts the
      workers between pop and decrement. */
  ghost predicate Conserved(s: State) {
    && s.accepted == s.started + s.tasks
    && s.activeThreads == Sum(s.workers, BUSY)
    && forall t: TaskId :: Count(t, s.started) == Sum(s.workers, Runs(t)) + Count(t, s.finished)
  }

  /** No worker begins or ends a task. */
  predicate SameRunning(ws: seq<Phase>, vs: seq<Phase>) {
    |ws| == |vs| && forall i :: 0 <= i < |ws| ==> vs[i] == ws[i] || (!ws[i].Running? && !vs[i].Running?)
  }

  lemma SameRunningSums(ws: seq<Phase>, vs: seq<Phase>)
    requires SameRunning(ws, vs)
    ensures Sum(vs, BUSY) == Sum(ws, BUSY)
    ensures forall t: TaskId :: Sum(vs, Runs(t)) == Sum(ws, Runs(t))
  {
    SumMonotone(ws, vs, BUSY);
    SumMonotone(vs, ws, BUSY);
    forall t: TaskId ensures Sum(vs, Runs(t)) == Sum(ws, Runs(t)) {
      SumMonotone(ws, vs, Runs(t));
      SumMonotone(vs, ws, Runs(t));
    }
  }

  lemma PopConserves(s: State, w: nat)
    requires Conserved(s) && IsPhase(s, w, Ready) && s.tasks != [] && !s.paused
    ensures Conserved(LockSection(s, w))
  {
    var t := s.tasks[0];
    SumUpdate(s.workers, BUSY, w, Running(t));
    assert s.accepted == (s.started + [t]) + s.tasks[1..];
    forall x: TaskId
      ensures Count(x, s.started + [t]) == Sum(s.workers[w := Running(t)], Runs(x)) + Count(x, s.finished)
    {
      PopCounts(s, w, x);
    }
    assert LockSection(s, w).workers == s.workers[w := Running(t)];
  }

  lemma PopCounts(s: State, w: nat, x: TaskId)
    requires Conserved(s) && IsPhase(s, w, Ready) && s.tasks != []
    ensures var t := s.tasks[0];
      Count(x, s.started + [t]) == Sum(s.workers[w := Running(t)], Runs(x)) + Count(x, s.finished)
  {
    SumUpdate(s.workers, Runs(x), w, Running(s.tasks[0]));
    CountSnoc(x, s.started, s.tasks[0]);
  }

  lemma DoneConserves(s: State, w: nat)
    requires Conserved(s) && IsRunning(s, w) && s.activeThreads > 0
    ensures Conserved(DoneSection(s, w))
  {
    var t := s.workers[w].task;
    var vs := s.workers[w := Ready];
    SumUpdate(s.workers, BUSY, w, Ready);
    SameRunningSums(vs, WakeWorkers(vs));
    forall x: TaskId
      ensures Count(x, s.started) == Sum(vs, Runs(x)) + Count(x, s.finished + [t])
    {
      SumUpdate(s.workers, Runs(x), w, Ready);
      CountSnoc(x, s.finished, t);
    }
  }

  lemma AddConserves(s: State)
    requires Conserved(s)
    ensures Conserved(s.(workers := s.workers + [Ready]))
  {
    SumAppend(s.workers, BUSY, Ready);
    forall t: TaskId ensures Sum(s.workers + [Ready], Runs(t)) == Sum(s.workers, Runs(t)) {
      SumAppend(s.workers, Runs(t), Ready);
    }
  }

  /** Every other step leaves the running workers and the history alone. */
  lemma OtherConserves(s: State, u: State)
    requires Conserved(s) && SameRunning(s.workers, u.workers)
    requires u.started == s.started && u.finished == s.finished && u.activeThreads == s.activeThreads
    requires u.accepted == u.started + u.tasks
    ensures Conserved(u)
  {
    SameRunningSums(s.workers, u.workers);
  }

  lemma ConservedStep(s: State, a: Action)
    requires Conserved(s)
    ensures Conserved(Next(s, a))
  {
    if Enabled(s, a) {
      if a.TaskDone? {
        DoneConserves(s, a.w);
      } else if a.WorkerLock? {
        LockConserves(s, a.w);
      } else if a.AddWorker? {
        AddConserves(s);
      } else {
        OtherStep(s, a);
      }
    }
  }

  lemma LockConserves(s: State, w: nat)
    requires Conserved(s) && IsPhase(s, w, Ready)
    ensures Conserved(LockSection(s, w))
  {
    if MayRun(s) && s.tasks != [] && !s.paused {
      PopConserves(s, w);
    } else {
      OtherConserves(s, LockSection(s, w));
    }
  }

  lemma OtherStep(s: State, a: Action)
    requires Conserved(s) && !a.TaskDone? && !a.WorkerLock? && !a.AddWorker?
    ensures Conserved(Next(s, a))
  {
    RunningStays(s, a);
    HistoryStays(s, a);
    OtherConserves(s, Next(s, a));
  }

  lemma RunningStays(s: State, a: Action)
    requires !a.TaskDone? && !a.WorkerLock? && !a.AddWorker?
    ensures SameRunning(s.workers, Next(s, a).workers)
  {
  }

  lemma HistoryStays(s: State, a: Action)
    requires !a.TaskDone? && !a.WorkerLock? && s.accepted == s.started + s.tasks
    ensures var u := Next(s, a);
      && u.started == s.started && u.finished == s.finished && u.activeThreads == s.activeThreads
      && u.accepted == u.started + u.tasks
  {
  }

  /** A worker that runs a task makes the counter positive: the decrement of a
      size_t never wraps. */
  lemma RunningIsCounted(s: State, w: nat)
    requires Conserved(s) && IsRunning(s, w)
    ensures s.activeThreads > 0
  {
    SumZero(s.workers, BUSY);
  }

  // ---------------------------------------------------------------------------
  // Draining, waiting, pausing, stopping

  /** A worker returns only when the pool is stopped and its queue is empty, and
      the queue stays empty. */
  predicate Drained(s: State) {
    (exists i :: 0 <= i < |s.workers| && s.workers[i].Returned?) ==> s.stop && s.tasks == []
  }

  /** No caller of waitForCompletion is blocked while its predicate holds. */
  predicate WaitersAwake(s: State) {
    AllDone(s) ==> forall i :: 0 <= i < |s.waiters| ==> !s.waiters[i].Blocked?
  }

  /** Whoever returned from waitForCompletion left with everything accepted before
      that moment finished. */
  ghost predicate WaitsKept(s: State) {
    forall i :: 0 <= i < |s.waiters| && s.waiters[i].Done? ==> KeptUpTo(s, s.waiters[i].seen)
  }

  ghost predicate KeptUpTo(s: State, n: nat) {
    n <= |s.accepted| && forall t: TaskId :: Count(t, s.accepted[..n]) <= Count(t, s.finished)
  }

  /** When the pool is not paused, a worker asleep on pauseCondition is about to be
      notified. */
  predicate PauseEnds(s: State) {
    !s.paused && s.resumeNotifies == 0 ==>
      forall i :: 0 <= i < |s.workers| ==> !s.workers[i].PauseAsleep?
  }

  /** After shutdown's notify_all no worker sleeps on `condition`. */
  predicate StopHeard(s: State) {
    s.stopNotified ==>
      s.stop && forall i :: 0 <= i < |s.workers| ==> !s.workers[i].Asleep?
  }

  ghost predicate Inv(s: State) {
    Conserved(s) && Drained(s) && WaitersAwake(s) && WaitsKept(s) && PauseEnds(s) && StopHeard(s)
  }

  lemma DrainedStep(s: State, a: Action)
    requires Drained(s)
    ensures Drained(Next(s, a))
  {
    var u := Next(s, a);
    forall i | 0 <= i < |u.workers| && u.workers[i].Returned? ensures u.stop && u.tasks == [] {
      if i < |s.workers| && s.workers[i].Returned? {
        StaysDrained(s, a);
      } else {
        assert a == WorkerLock(i);
      }
    }
  }

  lemma StaysDrained(s: State, a: Action)
    requires s.stop && s.tasks == []
    ensures Next(s, a).stop && Next(s, a).tasks == []
  {
  }

  lemma WaitersAwakeStep(s: State, a: Action)
    requires WaitersAwake(s)
    ensures WaitersAwake(Next(s, a))
  {
  }

  lemma AllDoneMeansFinished(s: State)
    requires Conserved(s) && AllDone(s)
    ensures s.accepted == s.started
    ensures forall t: TaskId :: Count(t, s.accepted) == Count(t, s.finished)
  {
    forall t: TaskId ensures Count(t, s.accepted) == Count(t, s.finished) {
      SumMonotoneIn(s.workers, Runs(t), BUSY);
      assert s.accepted == s.started;
    }
  }

  lemma {:induction false} SumMonotoneIn(ws: seq<Phase>, f: Phase -> nat, g: Phase -> nat)
    requires forall p: Phase :: f(p) <= g(p)
    ensures Sum(ws, f) <= Sum(ws, g)
    decreases |ws|
  {
    if ws != [] { SumMonotoneIn(ws[..|ws|-1], f, g); }
  }

  lemma WaitsKeptStep(s: State, a: Action)
    requires Conserved(s) && WaitsKept(s)
    ensures WaitsKept(Next(s, a))
  {
    var u := Next(s, a);
    forall i | 0 <= i < |u.waiters| && u.waiters[i].Done? ensures KeptUpTo(u, u.waiters[i].seen) {
      if i < |s.waiters| && s.waiters[i] == u.waiters[i] {
        KeptStep(s, a, s.waiters[i].seen);
      } else {
        assert a == WaitTest(i) && AllDone(s);
        AllDoneMeansFinished(s);
        assert s.accepted[..|s.accepted|] == s.accepted;
      }
    }
  }

  lemma KeptStep(s: State, a: Action, n: nat)
    requires KeptUpTo(s, n)
    ensures KeptUpTo(Next(s, a), n)
  {
    HistoryGrows(s, a);
    var u := Next(s, a);
    assert u.accepted[..n] == s.accepted[..n];
    if u.finished != s.finished {
      var t :| u.finished == s.finished + [t];
      forall x: TaskId ensures Count(x, s.finished) <= Count(x, u.finished) {
        CountSnoc(x, s.finished, t);
      }
    }
  }

  lemma HistoryGrows(s: State, a: Action)
    ensures s.accepted <= Next(s, a).accepted
    ensures Next(s, a).finished == s.finished || exists t :: Next(s, a).finished == s.finished + [t]
  {
    if Enabled(s, a) && a.TaskDone? {
      assert Next(s, a).finished == s.finished + [s.workers[a.w].task];
    }
  }

  lemma PauseEndsStep(s: State, a: Action)
    requires PauseEnds(s)
    ensures PauseEnds(Next(s, a))
  {
  }

  lemma StopHeardStep(s: State, a: Action)
    requires StopHeard(s)
    ensures StopHeard(Next(s, a))
  {
  }

  lemma InvStep(s: State, a: Action)
    requires Inv(s)
    ensures Inv(Next(s, a))
  {
    ConservedStep(s, a);
    DrainedStep(s, a);
    WaitersAwakeStep(s, a);
    WaitsKeptStep(s, a);
    PauseEndsStep(s, a);
    StopHeardStep(s, a);
  }

  lemma InitialInv(threads: nat)
    ensures Inv(Initial(threads))
  {
    var s := Initial(threads);
    SumZero(s.workers, BUSY);
    forall t: TaskId ensures Sum(s.workers, Runs(t)) == 0 {
      SumZero(s.workers, Runs(t));
    }
  }

  /** The invariant holds in every state of every run. */
  lemma {:induction false} AlwaysInv(threads: nat, acts: seq<Action>)
    ensures Inv(Run(Initial(threads), acts))
    decreases |acts|
  {
    if acts == [] {
      InitialInv(threads);
    } else {
      AlwaysInv(threads, acts[..|acts|-1]);
      InvStep(Run(Initial(threads), acts[..|acts|-1]), acts[|acts|-1]);
    }
  }

  /** The tasks enqueued before the pool was stopped: a function of what the callers did. */
  function Requested(acts: seq<Action>): seq<TaskId>
    decreases |acts|
  {
    if acts == [] then []
    else
      var before, a := acts[..|acts|-1], acts[|acts|-1];
      Requested(before) + if a.Enqueue? && Stop !in before then [a.task] else []
  }

  /** Just these were accepted, and every other call of enqueue was refused. */
  lemma {:induction false} AcceptedAsRequested(threads: nat, acts: seq<Action>)
    ensures var s := Run(Initial(threads), acts);
      s.accepted == Requested(acts) && (s.stop <==> Stop in acts)
    decreases |acts|
  {
    if acts != [] {
      var before, a := acts[..|acts|-1], acts[|acts|-1];
      AcceptedAsRequested(threads, before);
      AcceptStep(Run(Initial(threads), before), a);
      assert acts == before + [a];
    }
  }

  lemma AcceptStep(s: State, a: Action)
    ensures Next(s, a).accepted == s.accepted + if a.Enqueue? && !s.stop then [a.task] else []
    ensures Next(s, a).stop <==> s.stop || a == Stop
  {
  }

  /** The tasks whose function was running on a worker when it returned. */
  function RunToEnd(threads: nat, acts: seq<Action>): seq<TaskId>
    decreases |acts|
  {
    if acts == [] then []
    else
      var before, a := acts[..|acts|-1], acts[|acts|-1];
      var s := Run(Initial(threads), before);
      RunToEnd(threads, before) + if a.TaskDone? && IsRunning(s, a.w) then [s.workers[a.w].task] else []
  }

  lemma {:induction false} FinishedWereRunning(threads: nat, acts: seq<Action>)
    ensures Run(Initial(threads), acts).finished == RunToEnd(threads, acts)
    decreases |acts|
  {
    if acts != [] {
      var before := acts[..|acts|-1];
      FinishedWereRunning(threads, before);
      AlwaysInv(threads, before);
      FinishStep(Run(Initial(threads), before), acts[|acts|-1]);
    }
  }

  lemma FinishStep(s: State, a: Action)
    requires Conserved(s)
    ensures Next(s, a).finished == s.finished + if a.TaskDone? && IsRunning(s, a.w) then [s.workers[a.w].task] else []
  {
    if a.TaskDone? && IsRunning(s, a.w) { RunningIsCounted(s, a.w); }
  }

  /** When shutdown's joins are over, the tasks enqueued before the stop were started in that
      order, and each has run to its end on a worker, once for each time it was enqueued. */
  lemma JoinedMeansDrained(threads: nat, acts: seq<Action>)
    requires var s := Run(Initial(threads), acts);
      |s.workers| > 0 && forall i :: 0 <= i < |s.workers| ==> s.workers[i].Returned?
    ensures var s := Run(Initial(threads), acts);
      && s.stop && s.tasks == [] && s.started == Requested(acts)
      && forall t: TaskId :: Count(t, RunToEnd(threads, acts)) == Count(t, Requested(acts))
  {
    var s := Run(Initial(threads), acts);
    AlwaysInv(threads, acts);
    AcceptedAsRequested(threads, acts);
    FinishedWereRunning(threads, acts);
    assert s.workers[0].Returned?;
    SumZero(s.workers, BUSY);
    AllDoneMeansFinished(s);
  }

  /** Whoever returned from waitForCompletion did so when every task enqueued by then had run
      to its end. */
  lemma WaitMeansFinished(threads: nat, acts: seq<Action>, i: nat)
    requires IsWaiter(Run(Initial(threads), acts), i, Calling)
    requires Run(Initial(threads), acts + [WaitTest(i)]).waiters[i].Done?
    ensures forall t: TaskId :: Count(t, RunToEnd(threads, acts)) == Count(t, Requested(acts))
  {
    var s := Run(Initial(threads), acts);
    assert (acts + [WaitTest(i)])[..|acts|] == acts;
    AlwaysInv(threads, acts);
    AcceptedAsRequested(threads, acts);
    FinishedWereRunning(threads, acts);
    AllDoneMeansFinished(s);
  }

  /** While the pool stays paused and is not stopped no task is started, and a worker that
      waits for the pause to end goes on waiting. */
  lemma PausedPoolRests(s: State, a: Action)
    requires s.paused && a != Resume
    ensures Next(s, a).paused && Next(s, a).started == s.started
    ensures forall w: nat :: w < |s.workers| && (s.workers[w].PauseAsleep? || s.workers[w].PauseReady?) ==>
      w < |Next(s, a).workers| && (Next(s, a).workers[w].PauseAsleep? || Next(s, a).workers[w].PauseReady?)
  {
  }

  /** What a worker does when it gets the lock: it returns from a stopped and empty pool, even
      a paused one; waits out a pause, on pauseCondition only once the pool is stopped; waits
      for a task; or takes the oldest. Nobody else is touched. */
  lemma WorkerDecides(s: State, w: nat)
    requires IsPhase(s, w, Ready)
    ensures var u := Next(s, WorkerLock(w));
      && |u.workers| == |s.workers| && (forall v: nat :: v < |s.workers| && v != w ==> u.workers[v] == s.workers[v])
      && match (s.stop, s.paused, s.tasks == [])
         case (true, _, true) => u.workers[w] == Returned
         case (true, true, false) => u.workers[w] == PauseAsleep
         case (false, true, _) => u.workers[w] == Asleep
         case (false, false, true) => u.workers[w] == Asleep
         case (_, false, false) => u.workers[w] == Running(s.tasks[0]) && u.tasks == s.tasks[1..]
  {
  }

  /** Whoever calls waitForCompletion waits there until it has tested the predicate. */
  lemma CallersWait(s: State, a: Action)
    ensures |s.waiters| + (if a.CallWait? then 1 else 0) == |Next(s, a).waiters|
    ensures a.CallWait? ==> Next(s, a).waiters == s.waiters + [Calling]
    ensures forall i: nat :: i < |s.waiters| && !s.waiters[i].Done? && Next(s, a).waiters[i].Done? ==>
      a == WaitTest(i) && s.tasks == [] && s.activeThreads == 0
  {
  }

  // ---------------------------------------------------------------------------
  // Wakeups

  predicate PauseFree(acts: seq<Action>) {
    forall i :: 0 <= i < |acts| ==> !acts[i].Pause?
  }

  /** Either no worker sleeps, or every queued task has a wakeup of its own: a
      notification about to be sent, or a worker about to take the lock. */
  predicate WakeupsCover(s: State) {
    Sum(s.workers, ASLEEP) == 0 || |s.tasks| <= s.enqueueNotifies + Sum(s.workers, READY)
  }

  predicate NeverPaused(s: State) {
    && !s.paused
    && forall i :: 0 <= i < |s.workers| ==> !s.workers[i].PauseAsleep? && !s.workers[i].PauseReady?
  }

  lemma NeverPausedStep(s: State, a: Action)
    requires NeverPaused(s) && !a.Pause?
    ensures NeverPaused(Next(s, a))
  {
  }

  lemma SetWorkerCounts(s: State, w: nat, p: Phase)
    requires w < |s.workers|
    ensures Sum(s.workers[w := p], READY) + READY(s.workers[w]) == Sum(s.workers, READY) + READY(p)
    ensures Sum(s.workers[w := p], ASLEEP) + ASLEEP(s.workers[w]) == Sum(s.workers, ASLEEP) + ASLEEP(p)
  {
    SumUpdate(s.workers, READY, w, p);
    SumUpdate(s.workers, ASLEEP, w, p);
  }

  lemma NotifyCovers(s: State, w: nat)
    requires WakeupsCover(s) && Enabled(s, EnqueueNotify(w))
    ensures WakeupsCover(NotifyOne(s, w))
  {
    if IsPhase(s, w, Asleep) {
      SetWorkerCounts(s, w, Ready);
    } else {
      SumZero(s.workers, ASLEEP);
    }
  }

  lemma LockCovers(s: State, w: nat)
    requires WakeupsCover(s) && NeverPaused(s) && IsPhase(s, w, Ready)
    ensures WakeupsCover(LockSection(s, w))
  {
    SetWorkerCounts(s, w, LockSection(s, w).workers[w]);
  }

  lemma WakeIsQuiet(s: State)
    requires NeverPaused(s)
    ensures WakeWorkers(s.workers) == s.workers
  {
  }

  lemma DoneCovers(s: State, w: nat)
    requires WakeupsCover(s) && NeverPaused(s) && IsRunning(s, w) && s.activeThreads > 0
    ensures WakeupsCover(DoneSection(s, w))
  {
    SetWorkerCounts(s, w, Ready);
    WakeIsQuiet(SetWorker(s, w, Ready));
  }

  lemma CoverStep(s: State, a: Action)
    requires WakeupsCover(s) && NeverPaused(s) && !a.Pause?
    ensures WakeupsCover(Next(s, a))
  {
    if Enabled(s, a) {
      match a
      case EnqueueNotify(w) => NotifyCovers(s, w);
      case WorkerLock(w) => LockCovers(s, w);
      case TaskDone(w) => DoneCovers(s, w);
      case Spurious(w) => SetWorkerCounts(s, w, Ready);
      case StopNotify => SumZero(WakeAll(s.workers), ASLEEP);
      case ResumeNotify => WakeIsQuiet(s);
      case AddWorker =>
        SumAppend(s.workers, READY, Ready);
        SumAppend(s.workers, ASLEEP, Ready);
      case _ =>
    }
  }

  lemma {:induction false} AlwaysCovered(threads: nat, acts: seq<Action>)
    requires PauseFree(acts)
    ensures WakeupsCover(Run(Initial(threads), acts)) && NeverPaused(Run(Initial(threads), acts))
    decreases |acts|
  {
    if acts == [] {
      SumZero(Initial(threads).workers, ASLEEP);
    } else {
      var before := Run(Initial(threads), acts[..|acts|-1]);
      AlwaysCovered(threads, acts[..|acts|-1]);
      NeverPausedStep(before, acts[|acts|-1]);
      CoverStep(before, acts[|acts|-1]);
    }
  }

  /** No lost wakeup: in a run without pause, a queued task always has a
      notification on its way or a worker that is neither asleep nor gone. */
  lemma NoLostWakeup(threads: nat, acts: seq<Action>)
    requires PauseFree(acts)
    requires var s := Run(Initial(threads), acts); s.tasks != [] && |s.workers| > 0
    ensures var s := Run(Initial(threads), acts);
      s.enqueueNotifies > 0 ||
      exists w :: 0 <= w < |s.workers| && (s.workers[w].Ready? || s.workers[w].Running?)
  {
    var s := Run(Initial(threads), acts);
    AlwaysCovered(threads, acts);
    AlwaysInv(threads, acts);
    SumZero(s.workers, ASLEEP);
    SumZero(s.workers, READY);
    if Sum(s.workers, ASLEEP) == 0 {
      assert !s.workers[0].Asleep?;
    }
  }

  /** Worker `w` will look at the queue: it is awake, or about to be woken from a pause. */
  predicate WillLook(s: State, w: nat) {
    w < |s.workers| &&
    match s.workers[w]
    case Asleep => false
    case Returned => false
    case PauseAsleep => s.resumeNotifies > 0
    case _ => true
  }

  /** Unless the pool is paused, a queued task has a notification on its way or a worker
      that will look. */
  ghost predicate Live(s: State) {
    !s.paused && s.tasks != [] && s.workers != [] ==>
      s.enqueueNotifies > 0 || exists w :: WillLook(s, w)
  }

  /** resume is called on a paused pool with a task queued, every worker asleep on
      `condition` and no notify_one under way. resume itself notifies pauseCondition only. */
  predicate BadResume(s: State, a: Action) {
    && a.Resume? && s.paused && s.tasks != [] && s.workers != [] && s.enqueueNotifies == 0
    && forall w :: 0 <= w < |s.workers| ==> s.workers[w].Asleep? || s.workers[w].Returned?
  }

  lemma BadResumeStrands(s: State, a: Action)
    requires BadResume(s, a)
    ensures !Live(Next(s, a))
  {
  }

  /** With a task queued no worker has returned, so one that is not asleep will look. */
  lemma Looks(s: State, w: nat)
    requires Inv(s) && !s.paused && s.tasks != [] && w < |s.workers| && !s.workers[w].Asleep?
    ensures WillLook(s, w)
  {
  }

  /** The worker an action is about. */
  function Worker(a: Action): nat {
    match a
    case EnqueueNotify(w) => w
    case WorkerLock(w) => w
    case PauseRetest(w) => w
    case TaskDone(w) => w
    case Spurious(w) => w
    case _ => 0
  }

  lemma LiveStep(s: State, a: Action)
    requires Inv(s) && Live(s) && !BadResume(s, a)
    ensures Live(Next(s, a))
  {
    var u := Next(s, a);
    InvStep(s, a);
    if !u.paused && u.tasks != [] && u.workers != [] && u.enqueueNotifies == 0 {
      var w := SomeoneLooks(s, a);
      assert WillLook(u, w);
    }
  }

  lemma SomeoneLooks(s: State, a: Action) returns (w: nat)
    requires Inv(s) && Live(s) && !BadResume(s, a) && Inv(Next(s, a))
    requires var u := Next(s, a); !u.paused && u.tasks != [] && u.workers != [] && u.enqueueNotifies == 0
    ensures WillLook(Next(s, a), w)
  {
    if a.AddWorker? {
      w := |s.workers|;
    } else if a.Resume? && s.paused {
      w := ResumedLooks(s);
    } else if a.EnqueueNotify? && Enabled(s, a) {
      w := NotifiedLooks(s, a.w);
    } else {
      UnpausedBefore(s, a);
      w :| WillLook(s, w);
      StillLooks(s, a, w);
    }
  }

  lemma ResumedLooks(s: State) returns (w: nat)
    requires !BadResume(s, Resume) && s.paused && s.tasks != [] && s.workers != [] && s.enqueueNotifies == 0
    requires Inv(Next(s, Resume))
    ensures WillLook(Next(s, Resume), w)
  {
    w :| 0 <= w < |s.workers| && !s.workers[w].Asleep? && !s.workers[w].Returned?;
    Looks(Next(s, Resume), w);
  }

  lemma NotifiedLooks(s: State, v: nat) returns (w: nat)
    requires Enabled(s, EnqueueNotify(v)) && !s.paused && s.tasks != [] && s.workers != []
    requires Inv(Next(s, EnqueueNotify(v)))
    ensures WillLook(Next(s, EnqueueNotify(v)), w)
  {
    w := if IsPhase(s, v, Asleep) then v else 0;
    assert s.workers[0] in s.workers;
    Looks(Next(s, EnqueueNotify(v)), w);
  }

  /** Other steps neither end a pause nor leave a task or worker that was not there, nor
      use up a notification; enqueue leaves one. */
  lemma UnpausedBefore(s: State, a: Action)
    requires !(a.Resume? && s.paused) && !a.AddWorker? && !(a.EnqueueNotify? && Enabled(s, a))
    requires var u := Next(s, a); !u.paused && u.tasks != [] && u.workers != [] && u.enqueueNotifies == 0
    ensures !s.paused && s.tasks != [] && s.workers != [] && s.enqueueNotifies == 0
  {
  }

  lemma StillLooks(s: State, a: Action, w: nat)
    requires WillLook(s, w) && Inv(Next(s, a)) && !s.paused && s.tasks != []
    requires var u := Next(s, a); !u.paused && u.tasks != []
    ensures WillLook(Next(s, a), w)
  {
    Looks(Next(s, a), w) by {
      assert !Next(s, a).workers[w].Asleep? by { NotPutToSleep(s, a, w); }
    }
  }

  lemma NotPutToSleep(s: State, a: Action, w: nat)
    requires w < |s.workers| && !s.workers[w].Asleep? && !s.paused && s.tasks != []
    ensures w < |Next(s, a).workers| && !Next(s, a).workers[w].Asleep?
  {
  }

  ghost predicate LiveThroughout(threads: nat, acts: seq<Action>) {
    forall n :: 0 <= n <= |acts| ==> Live(Run(Initial(threads), acts[..n]))
  }

  predicate NoBadResume(threads: nat, acts: seq<Action>) {
    forall n :: 0 <= n < |acts| ==> !BadResume(Run(Initial(threads), acts[..n]), acts[n])
  }

  /** No wakeup is lost in a run, pauses and all, exactly when it has no bad resume. */
  lemma {:induction false} LiveIff(threads: nat, acts: seq<Action>)
    ensures LiveThroughout(threads, acts) <==> NoBadResume(threads, acts)
  {
    if NoBadResume(threads, acts) {
      forall n | 0 <= n <= |acts| ensures Live(Run(Initial(threads), acts[..n])) {
        LiveUpTo(threads, acts, n);
      }
    } else {
      var n :| 0 <= n < |acts| && BadResume(Run(Initial(threads), acts[..n]), acts[n]);
      BadResumeStrands(Run(Initial(threads), acts[..n]), acts[n]);
      assert acts[..n+1][..n] == acts[..n];
      assert !Live(Run(Initial(threads), acts[..n+1]));
    }
  }

  lemma {:induction false} LiveUpTo(threads: nat, acts: seq<Action>, n: nat)
    requires NoBadResume(threads, acts) && n <= |acts|
    ensures Live(Run(Initial(threads), acts[..n]))
    decreases n
  {
    if n > 0 {
      LiveUpTo(threads, acts, n - 1);
      assert acts[..n][..n-1] == acts[..n-1];
      AlwaysInv(threads, acts[..n-1]);
      LiveStep(Run(Initial(threads), acts[..n-1]), acts[n-1]);
    }
  }

  /** A rule callers can keep: resume only an empty queue, or a pool that is not paused. */
  lemma ResumeEmptyIsSafe(threads: nat, acts: seq<Action>)
    requires forall n :: 0 <= n < |acts| && acts[n].Resume? ==>
      var s := Run(Initial(threads), acts[..n]); s.tasks == [] || !s.paused
    ensures LiveThroughout(threads, acts)
  {
    LiveIff(threads, acts);
  }

  lemma RunTwo(s: State, a: Action, b: Action)
    ensures Run(s, [a, b]) == Next(Next(s, a), b)
  {
    assert [a, b][..1] == [a] && [a][..0] == [];
    assert Run(s, [a]) == Next(s, a);
  }

  lemma {:induction false} RunConcat(s: State, a: seq<Action>, b: seq<Action>)
    ensures Run(s, a + b) == Run(Run(s, a), b)
    decreases |b|
  {
    if b == [] {
      assert a + b == a;
    } else {
      var n := |b| - 1;
      assert (a + b)[..|a| + n] == a + b[..n];
      RunConcat(s, a, b[..n]);
    }
  }

  /** Pause, enqueue, and let the worker look. */
  function PauseAndSleep(t: TaskId): seq<Action> {
    [Pause, Enqueue(t)] + [EnqueueNotify(0), WorkerLock(0)]
  }

  /** One worker, paused, one task queued, `notifies` calls of notify_one to come. */
  function Queued(t: TaskId, p: Phase, notifies: nat): State {
    State([t], [p], [], false, true, 0, notifies, 0, false, [t], [], [])
  }

  lemma QueuedWhilePaused(t: TaskId)
    ensures Run(Initial(1), [Pause, Enqueue(t)]) == Queued(t, Ready, 1)
  {
    RunTwo(Initial(1), Pause, Enqueue(t));
    assert Initial(1).workers == [Ready];
  }

  lemma GoesToSleep(t: TaskId)
    ensures Run(Queued(t, Ready, 1), [EnqueueNotify(0), WorkerLock(0)]) == Queued(t, Asleep, 0)
  {
    RunTwo(Queued(t, Ready, 1), EnqueueNotify(0), WorkerLock(0));
    assert Enabled(Queued(t, Ready, 1), EnqueueNotify(0));
    assert Next(Queued(t, Ready, 1), EnqueueNotify(0)) == Queued(t, Ready, 0);
    assert [Ready][0 := Asleep] == [Asleep];
  }

  /** A bad resume is reachable. */
  lemma BadResumeReached(t: TaskId)
    ensures BadResume(Run(Initial(1), PauseAndSleep(t)), Resume)
  {
    QueuedWhilePaused(t);
    GoesToSleep(t);
    RunConcat(Initial(1), [Pause, Enqueue(t)], [EnqueueNotify(0), WorkerLock(0)]);
  }

  /** So there is a run that strands a task. */
  lemma ResumeStrands(t: TaskId)
    ensures !LiveThroughout(1, PauseAndSleep(t) + [Resume])
  {
    var acts := PauseAndSleep(t) + [Resume];
    var n := |PauseAndSleep(t)|;
    BadResumeReached(t);
    assert acts[..n] == PauseAndSleep(t) && acts[n] == Resume;
    LiveIff(1, acts);
  }

  // ---------------------------------------------------------------------------
  // Shutdown terminates

  const COST: Phase -> nat := (p: Phase) =>
    match p
    case Returned => 0
    case Ready => 1
    case Running(_) => 2
    case PauseReady => 2
    case Asleep => 2
    case PauseAsleep => 3

  function Measure(s: State): nat {
    2 * |s.tasks| + Sum(s.workers, COST) + s.resumeNotifies
  }

  /** Shutdown has been announced and the pool is not paused. */
  predicate Stopping(s: State) {
    s.stop && s.stopNotified && !s.paused
  }

  /** What the pool itself still does while it stops: steps of its workers, and the
      notification a resume has yet to send. */
  predicate PoolStep(a: Action) {
    a.WorkerLock? || a.PauseRetest? || a.TaskDone? || a.Spurious? || a.ResumeNotify?
  }

  lemma StoppingStep(s: State, a: Action)
    requires Stopping(s) && Inv(s) && PoolStep(a) && Enabled(s, a)
    ensures Stopping(Next(s, a)) && Measure(Next(s, a)) < Measure(s)
  {
    match a
    case WorkerLock(w) => SumUpdate(s.workers, COST, w, LockSection(s, w).workers[w]);
    case PauseRetest(w) => SumUpdate(s.workers, COST, w, Ready);
    case TaskDone(w) => DoneCosts(s, w);
    case Spurious(w) => SumUpdate(s.workers, COST, w, Next(s, a).workers[w]);
    case ResumeNotify => SumMonotone(WakeWorkers(s.workers), s.workers, COST);
  }

  lemma DoneCosts(s: State, w: nat)
    requires IsRunning(s, w) && s.activeThreads > 0
    ensures Measure(DoneSection(s, w)) < Measure(s)
  {
    var vs := s.workers[w := Ready];
    SumUpdate(s.workers, COST, w, Ready);
    SumMonotone(WakeWorkers(vs), vs, COST);
  }

  /** While a worker has not returned, the pool can step. */
  lemma StoppingProgress(s: State, w: nat) returns (a: Action)
    requires Stopping(s) && Inv(s) && w < |s.workers| && !s.workers[w].Returned?
    ensures PoolStep(a) && Enabled(s, a)
  {
    match s.workers[w]
    case Ready => a := WorkerLock(w);
    case PauseReady => a := PauseRetest(w);
    case PauseAsleep => a := ResumeNotify;
    case Running(_) =>
      RunningIsCounted(s, w);
      a := TaskDone(w);
    case Asleep => a := Spurious(w);
  }

  /** What other threads may do meanwhile without prolonging the shutdown. */
  predicate Harmless(a: Action) {
    !a.Pause? && !a.Resume? && !a.AddWorker?
  }

  lemma HarmlessStep(s: State, a: Action)
    requires Stopping(s) && Inv(s) && Harmless(a) && !PoolStep(a)
    ensures Stopping(Next(s, a)) && Measure(Next(s, a)) == Measure(s)
  {
  }

  /** How many steps of the run were taken by the pool. */
  function PoolSteps(s: State, acts: seq<Action>): nat
    decreases |acts|
  {
    if acts == [] then 0
    else
      var before, a := acts[..|acts|-1], acts[|acts|-1];
      PoolSteps(s, before) + if PoolStep(a) && Enabled(Run(s, before), a) then 1 else 0
  }

  lemma {:induction false} PoolStepsBounded(s: State, acts: seq<Action>)
    requires Stopping(s) && Inv(s) && forall i :: 0 <= i < |acts| ==> Harmless(acts[i])
    ensures var u := Run(s, acts);
      Stopping(u) && Inv(u) && PoolSteps(s, acts) + Measure(u) <= Measure(s)
    decreases |acts|
  {
    if acts != [] {
      var before, a := acts[..|acts|-1], acts[|acts|-1];
      var u := Run(s, before);
      PoolStepsBounded(s, before);
      InvStep(u, a);
      if !PoolStep(a) {
        HarmlessStep(u, a);
      } else if Enabled(u, a) {
        StoppingStep(u, a);
      }
    }
  }

  predicate AtRest(s: State) {
    && (forall w :: 0 <= w < |s.workers| ==> s.workers[w].Returned?)
    && s.tasks == []
  }

  /** Shutdown ends: from any reachable state in which it was announced and the pool
      is not paused, the pool takes at most Measure(s) more steps, in any order and
      interleaved with any callers that do not pause, resume or add workers; and when
      it can take no more, all workers have returned, and every task that was enqueued before
      the stop has run to its end. */
  lemma ShutdownTerminates(threads: nat, earlier: seq<Action>, acts: seq<Action>)
    requires var s := Run(Initial(threads), earlier); Stopping(s) && |s.workers| > 0
    requires forall i :: 0 <= i < |acts| ==> Harmless(acts[i])
    ensures var s := Run(Initial(threads), earlier);
      var u := Run(s, acts);
      && PoolSteps(s, acts) <= Measure(s)
      && ((forall a :: PoolStep(a) ==> !Enabled(u, a)) ==>
            AtRest(u) && u.started == Requested(earlier + acts) &&
            forall t: TaskId :: Count(t, RunToEnd(threads, earlier + acts)) == Count(t, Requested(earlier + acts)))
  {
    var s := Run(Initial(threads), earlier);
    AlwaysInv(threads, earlier);
    PoolStepsBounded(s, acts);
    var u := Run(s, acts);
    if forall a :: PoolStep(a) ==> !Enabled(u, a) {
      RunConcat(Initial(threads), earlier, acts);
      WorkersStay(s, acts);
      RestReached(threads, earlier + acts);
    }
  }

  lemma {:induction false} WorkersStay(s: State, acts: seq<Action>)
    ensures |s.workers| <= |Run(s, acts).workers|
    decreases |acts|
  {
    if acts != [] { WorkersStay(s, acts[..|acts|-1]); }
  }

  lemma RestReached(threads: nat, acts: seq<Action>)
    requires var u := Run(Initial(threads), acts);
      Stopping(u) && |u.workers| > 0 && forall a :: PoolStep(a) ==> !Enabled(u, a)
    ensures var u := Run(Initial(threads), acts);
      && AtRest(u) && u.started == Requested(acts)
      && forall t: TaskId :: Count(t, RunToEnd(threads, acts)) == Count(t, Requested(acts))
  {
    var u := Run(Initial(threads), acts);
    AlwaysInv(threads, acts);
    forall w: nat | w < |u.workers| ensures u.workers[w].Returned? {
      if !u.workers[w].Returned? {
        var a := StoppingProgress(u, w);
      }
    }
    JoinedMeansDrained(threads, acts);
  }

  // ---------------------------------------------------------------------------
  // Sizing (server.cpp, adjustThreadPoolSize)

  /** The size adjustThreadPoolSize asks resize for, from two separate reads that
      may both be stale. */
  function AdjustedSize(queueSize: nat, currentSize: nat): nat {
    if queueSize > currentSize then
      if currentSize * 2 < queueSize + currentSize then currentSize * 2 else queueSize + currentSize
    else if queueSize < currentSize / 2 then
      if currentSize / 2 > 10 then currentSize / 2 else 10
    else currentSize
  }

  function Doubled(k: nat): nat {
    if k == 0 then 10 else 2 * Doubled(k - 1)
  }

  lemma {:induction false} DoubledAtLeast(k: nat)
    ensures Doubled(k) >= 10
  {
    if k > 0 { DoubledAtLeast(k - 1); }
  }

  /** Starting from 10 workers, every size ever requested is 10, 20, 40, ...: twice the size
      when more tasks were read than workers, half of it, but not less than 10, when less than
      half as many, and the same otherwise. */
  lemma RequestsDoubleOrHalve(queueSize: nat, k: nat)
    ensures var size := AdjustedSize(queueSize, Doubled(k));
      if queueSize > Doubled(k) then size == Doubled(k + 1)
      else if 2 * queueSize < Doubled(k) then size == if k == 0 then 10 else Doubled(k - 1)
      else size == Doubled(k)
  {
    DoubledAtLeast(k);
    if k > 0 { DoubledAtLeast(k - 1); }
    AdjustedTo(queueSize, if k == 0 then 5 else Doubled(k - 1));
  }

  lemma AdjustedTo(queueSize: nat, half: nat)
    ensures var n := 2 * half;
      AdjustedSize(queueSize, n) ==
        if queueSize > n then 2 * n else if 2 * queueSize < n then (if half > 10 then half else 10) else n
  {
    assert 2 * half / 2 == half;
  }

  // ---------------------------------------------------------------------------
  // The pool in place

  /** The fields of ThreadPool, one method per critical section or notification. */
  class Pool {
    var tasks: seq<TaskId>
    var workers: seq<Phase>
    var waiters: seq<Waiter>
    var stop: bool
    var paused: bool
    var activeThreads: nat
    var enqueueNotifies: nat
    var resumeNotifies: nat
    var stopNotified: bool
    // history, written and never read by the pool
    var accepted: seq<TaskId>
    var started: seq<TaskId>
    var finished: seq<TaskId>

    ghost function Now(): State
      reads this
    {
      State(tasks, workers, waiters, stop, paused, activeThreads,
            enqueueNotifies, resumeNotifies, stopNotified, accepted, started, finished)
    }

    constructor (threads: nat)
      ensures Now() == Initial(threads) && Inv(Now())
    {
      tasks, waiters := [], [];
      stop, paused, activeThreads := false, false, 0;
      enqueueNotifies, resumeNotifies, stopNotified := 0, 0, false;
      accepted, started, finished := [], [], [];
      var ws: seq<Phase> := [];
      var i := 0;
      while i < threads
        invariant 0 <= i <= threads && ws == Repeat(Ready, i)
      {
        ws := ws + [Ready];
        i := i + 1;
      }
      workers := ws;
      new;
      InitialInv(threads);
    }

    /** Returns false where the source throws. */
    method Enqueue(task: TaskId) returns (ok: bool)
      requires Inv(Now())
      modifies this
      ensures Now() == Next(old(Now()), Action.Enqueue(task)) && Inv(Now())
      ensures ok <==> !old(stop)
      ensures if ok then
          && tasks == old(tasks) + [task] && accepted == old(accepted) + [task]
          && enqueueNotifies == old(enqueueNotifies) + 1
        else Now() == old(Now())
    {
      InvStep(Now(), Action.Enqueue(task));
      if stop { return false; }
      tasks := tasks + [task];
      accepted := accepted + [task];
      enqueueNotifies := enqueueNotifies + 1;
      return true;
    }

    /** condition.notify_one at the end of enqueue, with the sleeper it picks. */
    method NotifyOne(w: nat)
      requires Inv(Now()) && Enabled(Now(), EnqueueNotify(w))
      modifies this
      ensures Now() == Next(old(Now()), EnqueueNotify(w)) && Inv(Now())
    {
      InvStep(Now(), EnqueueNotify(w));
      if w < |workers| && workers[w] == Asleep {
        workers := workers[w := Ready];
      }
      enqueueNotifies := enqueueNotifies - 1;
    }

    /** workerThread from taking the lock to releasing it. */
    method WorkerSection(w: nat)
      requires Inv(Now()) && Enabled(Now(), WorkerLock(w))
      modifies this
      ensures Now() == Next(old(Now()), WorkerLock(w)) && Inv(Now())
    {
      InvStep(Now(), WorkerLock(w));
      if !(stop || (!paused && tasks != [])) {
        workers := workers[w := Asleep];
      } else if stop && tasks == [] {
        workers := workers[w := Returned];
      } else if paused {
        workers := workers[w := PauseAsleep];
      } else {
        var task := tasks[0];
        tasks := tasks[1..];
        activeThreads := activeThreads + 1;
        workers := workers[w := Running(task)];
        started := started + [task];
      }
    }

    /** The worker's second critical section, after its task returned. */
    method FinishSection(w: nat)
      requires Inv(Now()) && IsRunning(Now(), w)
      modifies this
      ensures Now() == Next(old(Now()), TaskDone(w)) && Inv(Now())
    {
      RunningIsCounted(Now(), w);
      InvStep(Now(), TaskDone(w));
      finished := finished + [workers[w].task];
      activeThreads := activeThreads - 1;
      workers := workers[w := Ready];
      if tasks == [] && activeThreads == 0 {
        NotifyPause();
      }
    }

    /** pauseCondition.notify_all */
    method NotifyPause()
      modifies this`workers, this`waiters
      ensures Now() == WakePause(old(Now()))
    {
      ghost var s := Now();
      var ws, xs := workers, waiters;
      var i := 0;
      while i < |ws|
        invariant 0 <= i <= |ws| == |s.workers|
        invariant forall j :: 0 <= j < |ws| ==> ws[j] == if j < i then WakeWorkers(s.workers)[j] else s.workers[j]
      {
        if ws[i].PauseAsleep? { ws := ws[i := PauseReady]; }
        i := i + 1;
      }
      i := 0;
      while i < |xs|
        invariant 0 <= i <= |xs| == |s.waiters|
        invariant forall j :: 0 <= j < |xs| ==> xs[j] == if j < i then WakeWaiters(s.waiters)[j] else s.waiters[j]
      {
        if xs[i].Blocked? { xs := xs[i := Calling]; }
        i := i + 1;
      }
      assert ws == WakeWorkers(s.workers) && xs == WakeWaiters(s.waiters);
      workers, waiters := ws, xs;
    }

    method SetStop()
      requires Inv(Now())
      modifies this
      ensures Now() == Next(old(Now()), Stop) && Inv(Now())
    {
      InvStep(Now(), Stop);
      stop := true;
    }

    /** condition.notify_all in shutdown */
    method NotifyStop()
      requires Inv(Now()) && stop
      modifies this
      ensures Now() == Next(old(Now()), StopNotify) && Inv(Now())
    {
      ghost var s := Now();
      InvStep(s, StopNotify);
      var ws := workers;
      var i := 0;
      while i < |ws|
        invariant 0 <= i <= |ws| == |s.workers|
        invariant forall j :: 0 <= j < |ws| ==> ws[j] == if j < i then WakeAll(s.workers)[j] else s.workers[j]
      {
        if ws[i].Asleep? { ws := ws[i := Ready]; }
        i := i + 1;
      }
      assert ws == WakeAll(s.workers);
      workers := ws;
      stopNotified := true;
    }

    method SetPaused()
      requires Inv(Now())
      modifies this
      ensures Now() == Next(old(Now()), Pause) && Inv(Now())
    {
      InvStep(Now(), Pause);
      paused := true;
    }

    method ClearPaused()
      requires Inv(Now())
      modifies this
      ensures Now() == Next(old(Now()), Resume) && Inv(Now())
    {
      InvStep(Now(), Resume);
      paused := false;
      resumeNotifies := resumeNotifies + 1;
    }

    method NotifyResume()
      requires Inv(Now()) && resumeNotifies > 0
      modifies this
      ensures Now() == Next(old(Now()), ResumeNotify) && Inv(Now())
    {
      InvStep(Now(), ResumeNotify);
      resumeNotifies := resumeNotifies - 1;
      NotifyPause();
    }

    method AddWorker()
      requires Inv(Now())
      modifies this`workers
      ensures Now() == Next(old(Now()), Action.AddWorker) && Inv(Now())
    {
      ghost var s := Now();
      InvStep(s, Action.AddWorker);
      workers := workers + [Ready];
      assert Now() == Next(s, Action.AddWorker);
    }

    /** The growing branch of resize. */
    method Resize(newSize: nat)
      requires Inv(Now()) && |workers| <= newSize
      modifies this`workers
      ensures Inv(Now()) && workers == old(workers) + Repeat(Ready, newSize - |old(workers)|)
    {
      ghost var before := workers;
      var currentSize := |workers|;
      var i := currentSize;
      while i < newSize
        invariant currentSize <= i <= newSize && Inv(Now())
        invariant workers == before + Repeat(Ready, i - currentSize)
      {
        AddWorker();
        i := i + 1;
      }
    }

    /** One pass through the wait loop of waitForCompletion by caller `i`. */
    method WaitForCompletion(i: nat) returns (done: bool)
      requires Inv(Now()) && IsWaiter(Now(), i, Calling)
      modifies this
      ensures Now() == Next(old(Now()), WaitTest(i)) && Inv(Now())
      ensures done ==> forall t: TaskId :: Count(t, finished) == Count(t, accepted)
    {
      InvStep(Now(), WaitTest(i));
      done := tasks == [] && activeThreads == 0;
      if done { AllDoneMeansFinished(Now()); }
      waiters := waiters[i := if done then Done(|accepted|) else Blocked];
    }
  }
}
