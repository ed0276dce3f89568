/**
 The worker pool as a step system: what happens while the mutex is held is one step, and each
 notification is a later step of its own. Any worker may move at any time.
 */
module ThreadPool {

  type Task = nat

  datatype Worker =
    | Checking          // about to take the mutex and test the wait condition
    | Waiting           // asleep in cv.wait
    | Running(task: Task)
    | Exited

  /**
   accepted, popped and finished are the history: tasks in the order they were pushed, in the
   order they were taken, and the ones that have run.
   */
  datatype Pool = Pool(
    tasks: seq<Task>,
    stop: bool,
    workers: seq<Worker>,
    notifyOnes: nat,       // pushes that have released the mutex and not yet called notify_one
    notifyAll: bool,       // the destructor has released the mutex and not yet called notify_all
    accepted: seq<Task>,
    popped: seq<Task>,
    finished: multiset<Task>)

  // ---------- steps ----------

  datatype Step =
    | Push(task: Task)         // the locked part of push
    | NotifyOne(woken: nat)    // wakes a waiting worker, if there is one
    | SetStop                  // the locked part of the destructor
    | NotifyAll
    | Spurious(worker: nat)    // cv.wait may return unasked
    | Check(worker: nat)       // the locked part of the worker loop
    | Finish(worker: nat)      // task() returns

  /** num_threads, or the hardware's number, or one. */
  function NumThreads(requested: nat, hardware: nat): (n: nat)
    ensures n >= 1
  {
    if requested != 0 then requested else if hardware != 0 then hardware else 1
  }

  function Initial(n: nat): Pool {
    Pool([], false, seq(n, i => Checking), 0, false, [], [], multiset{})
  }

  predicate Is(p: Pool, i: nat, w: Worker) {
    i < |p.workers| && p.workers[i] == w
  }

  predicate Enabled(p: Pool, s: Step) {
    match s
    case Push(_) => true
    case NotifyOne(i) => p.notifyOnes > 0 && (Is(p, i, Waiting) || Waiting !in p.workers)
    case SetStop => !p.stop
    case NotifyAll => p.notifyAll
    case Spurious(i) => Is(p, i, Waiting)
    case Check(i) => Is(p, i, Checking)
    case Finish(i) => i < |p.workers| && p.workers[i].Running?
  }

  function WakeAll(ws: seq<Worker>): (r: seq<Worker>)
    ensures |r| == |ws|
  {
    seq(|ws|, i requires 0 <= i < |ws| => if ws[i].Waiting? then Checking else ws[i])
  }

  function Next(p: Pool, s: Step): Pool
    requires Enabled(p, s)
  {
    match s
    case Push(t) =>
      if p.stop then p
      else p.(tasks := p.tasks + [t], accepted := p.accepted + [t], notifyOnes := p.notifyOnes + 1)
    case NotifyOne(i) =>
      var p' := p.(notifyOnes := p.notifyOnes - 1);
      if Waiting in p.workers then p'.(workers := p.workers[i := Checking]) else p'
    case SetStop => p.(stop := true, notifyAll := true)
    case NotifyAll => p.(notifyAll := false, workers := WakeAll(p.workers))
    case Spurious(i) => p.(workers := p.workers[i := Checking])
    case Check(i) =>
      if !p.stop && p.tasks == [] then p.(workers := p.workers[i := Waiting])
      else if p.stop && p.tasks == [] then p.(workers := p.workers[i := Exited])
      else p.(workers := p.workers[i := Running(p.tasks[0])], tasks := p.tasks[1..], popped := p.popped + [p.tasks[0]])
    case Finish(i) =>
      p.(workers := p.workers[i := Checking], finished := p.finished + multiset{p.workers[i].task})
  }

  predicate IsRun(p: Pool, steps: seq<Step>)
    decreases |steps|
  {
    steps == [] || (Enabled(p, steps[0]) && IsRun(Next(p, steps[0]), steps[1..]))
  }

  function Run(p: Pool, steps: seq<Step>): Pool
    requires IsRun(p, steps)
    decreases |steps|
  {
    if steps == [] then p else Run(Next(p, steps[0]), steps[1..])
  }

  // ---------- counting workers ----------

  /** How many workers are in a state like w (running ones whatever their task). */
  function Count(ws: seq<Worker>, w: Worker): nat {
    if ws == [] then 0 else (if Like(ws[0], w) then 1 else 0) + Count(ws[1..], w)
  }

  predicate Like(a: Worker, b: Worker) {
    a == b || (a.Running? && b.Running?)
  }

  lemma {:induction false} CountUpdate(ws: seq<Worker>, i: nat, x: Worker, w: Worker)
    requires i < |ws|
    ensures Count(ws[i := x], w) == Count(ws, w) - (if Like(ws[i], w) then 1 else 0) + (if Like(x, w) then 1 else 0)
  {
    if i == 0 {
      assert ws[0 := x][1..] == ws[1..];
    } else {
      assert ws[i := x][1..] == ws[1..][i - 1 := x];
      CountUpdate(ws[1..], i - 1, x, w);
    }
  }

  lemma {:induction false} CountZero(ws: seq<Worker>, w: Worker)
    ensures Count(ws, w) == 0 <==> forall i :: 0 <= i < |ws| ==> !Like(ws[i], w)
  {
    if ws != [] {
      CountZero(ws[1..], w);
      assert forall i :: 0 < i < |ws| ==> ws[i] == ws[1..][i - 1];
    }
  }

  lemma {:induction false} CountWakeAll(ws: seq<Worker>)
    ensures Count(WakeAll(ws), Waiting) == 0
    ensures Count(WakeAll(ws), Checking) == Count(ws, Checking) + Count(ws, Waiting)
    ensures Count(WakeAll(ws), Running(0)) == Count(ws, Running(0))
    ensures Count(WakeAll(ws), Exited) == Count(ws, Exited)
  {
    if ws != [] {
      CountWakeAll(ws[1..]);
      assert WakeAll(ws)[1..] == WakeAll(ws[1..]);
    }
  }

  /** The tasks that workers are running. */
  function RunningTasks(ws: seq<Worker>): multiset<Task> {
    if ws == [] then multiset{}
    else TaskOf(ws[0]) + RunningTasks(ws[1..])
  }

  function TaskOf(w: Worker): multiset<Task> {
    if w.Running? then multiset{w.task} else multiset{}
  }

  lemma Exchange<T>(h: multiset<T>, a: multiset<T>, c: multiset<T>, b: multiset<T>, d: multiset<T>)
    requires a + c == b + d
    ensures (h + a) + c == (h + b) + d
  {
    assert (h + a) + c == h + (a + c);
  }

  lemma {:induction false} RunningUpdate(ws: seq<Worker>, i: nat, x: Worker)
    requires i < |ws|
    ensures RunningTasks(ws[i := x]) + TaskOf(ws[i]) == RunningTasks(ws) + TaskOf(x)
  {
    if i == 0 {
      assert ws[0 := x][1..] == ws[1..];
    } else {
      assert ws[i := x][1..] == ws[1..][i - 1 := x];
      RunningUpdate(ws[1..], i - 1, x);
      Exchange(TaskOf(ws[0]), RunningTasks(ws[1..][i - 1 := x]), TaskOf(ws[i]), RunningTasks(ws[1..]), TaskOf(x));
    }
  }

  lemma {:induction false} RunningWakeAll(ws: seq<Worker>)
    ensures RunningTasks(WakeAll(ws)) == RunningTasks(ws)
  {
    if ws != [] {
      RunningWakeAll(ws[1..]);
      assert WakeAll(ws)[1..] == WakeAll(ws[1..]);
    }
  }

  // ---------- the invariant ----------

  function Checkers(p: Pool): nat { Count(p.workers, Checking) }
  function Sleepers(p: Pool): nat { Count(p.workers, Waiting) }
  function Runners(p: Pool): nat { Count(p.workers, Running(0)) }
  function Gone(p: Pool): nat { Count(p.workers, Exited) }

  /** While a worker sleeps, every queued task has a worker on its way to it or a notification due. */
  predicate NoTaskForgotten(p: Pool) {
    Sleepers(p) > 0 ==> |p.tasks| <= Checkers(p) + p.notifyOnes
  }

  /** Once the pool is stopping nobody sleeps except until the pending notify_all. */
  predicate NoSleepAfterStop(p: Pool) {
    p.stop && Sleepers(p) > 0 ==> p.notifyAll
  }

  /** Workers leave only a stopping pool without tasks. */
  predicate ExitsAreFinal(p: Pool) {
    (Gone(p) > 0 ==> p.stop && p.tasks == []) && (p.notifyAll ==> p.stop)
  }

  /** Every accepted task is queued, running or finished, and they are taken in the order pushed. */
  predicate Conserved(p: Pool) {
    p.accepted == p.popped + p.tasks && multiset(p.popped) == RunningTasks(p.workers) + p.finished
  }

  predicate Inv(p: Pool) {
    NoTaskForgotten(p) && NoSleepAfterStop(p) && ExitsAreFinal(p) && Conserved(p)
  }

  lemma {:induction false} AllChecking(n: nat)
    ensures var ws := seq(n, i => Checking);
            Count(ws, Waiting) == 0 && Count(ws, Exited) == 0 && RunningTasks(ws) == multiset{}
  {
    if n > 0 {
      AllChecking(n - 1);
      assert seq(n, i => Checking)[1..] == seq(n - 1, i => Checking);
    }
  }

  lemma InitialInv(n: nat)
    ensures Inv(Initial(n))
  {
    AllChecking(n);
  }

  lemma StepInv(p: Pool, s: Step)
    requires Inv(p) && Enabled(p, s)
    ensures Inv(Next(p, s))
  {
    hide Next, Enabled, NoTaskForgotten, NoSleepAfterStop, ExitsAreFinal, Conserved;
    StepConserves(p, s);
    StepKeepsCounts(p, s);
  }

  lemma StepKeepsCounts(p: Pool, s: Step)
    requires NoTaskForgotten(p) && NoSleepAfterStop(p) && ExitsAreFinal(p) && Enabled(p, s)
    ensures var q := Next(p, s); NoTaskForgotten(q) && NoSleepAfterStop(q) && ExitsAreFinal(q)
  {
    hide Count, WakeAll;
    match s
    case Push(_) =>
    case NotifyOne(i) =>
      if Waiting in p.workers {
        MoveOne(p, i, Checking);
      } else {
        CountZero(p.workers, Waiting);
      }
    case SetStop =>
    case NotifyAll => CountWakeAll(p.workers);
    case Spurious(i) => MoveOne(p, i, Checking);
    case Check(i) => MoveOne(p, i, Next(p, s).workers[i]);
    case Finish(i) => MoveOne(p, i, Checking);
  }

  lemma StepConserves(p: Pool, s: Step)
    requires Conserved(p) && Enabled(p, s)
    ensures Conserved(Next(p, s))
  {
    hide RunningTasks, WakeAll;
    match s
    case Push(t) =>
      assert p.accepted + [t] == p.popped + (p.tasks + [t]);
    case NotifyOne(i) =>
      if Waiting in p.workers { MoveTask(p.workers, i, Checking); }
    case SetStop =>
    case NotifyAll => RunningWakeAll(p.workers);
    case Spurious(i) => MoveTask(p.workers, i, Checking);
    case Check(i) => CheckConserves(p, i);
    case Finish(i) =>
      MoveTask(p.workers, i, Checking);
      Move(RunningTasks(Next(p, s).workers), p.finished, TaskOf(p.workers[i]));
  }

  lemma CheckConserves(p: Pool, i: nat)
    requires Conserved(p) && Is(p, i, Checking)
    ensures Conserved(Next(p, Check(i)))
  {
    hide RunningTasks;
    MoveTask(p.workers, i, Next(p, Check(i)).workers[i]);
    if p.tasks != [] {
      assert p.popped + p.tasks == (p.popped + [p.tasks[0]]) + p.tasks[1..];
    }
  }

  lemma Move<T>(a: multiset<T>, b: multiset<T>, c: multiset<T>)
    ensures (a + c) + b == a + (b + c)
  {
  }

  lemma MoveTask(ws: seq<Worker>, i: nat, x: Worker)
    requires i < |ws|
    ensures !ws[i].Running? ==> RunningTasks(ws[i := x]) == RunningTasks(ws) + TaskOf(x)
    ensures !x.Running? ==> RunningTasks(ws[i := x]) + TaskOf(ws[i]) == RunningTasks(ws)
    ensures !x.Running? && !ws[i].Running? ==> RunningTasks(ws[i := x]) == RunningTasks(ws)
  {
    hide RunningTasks;
    RunningUpdate(ws, i, x);
  }

  /** What one worker's change of state does to all the counts. */
  lemma MoveOne(p: Pool, i: nat, x: Worker)
    requires i < |p.workers|
    ensures var ws := p.workers[i := x];
            var w := p.workers[i];
            && Count(ws, Checking) == Checkers(p) - (if w.Checking? then 1 else 0) + (if x.Checking? then 1 else 0)
            && Count(ws, Waiting) == Sleepers(p) - (if w.Waiting? then 1 else 0) + (if x.Waiting? then 1 else 0)
            && Count(ws, Running(0)) == Runners(p) - (if w.Running? then 1 else 0) + (if x.Running? then 1 else 0)
            && Count(ws, Exited) == Gone(p) - (if w.Exited? then 1 else 0) + (if x.Exited? then 1 else 0)
  {
    hide Count;
    CountUpdate(p.workers, i, x, Checking);
    CountUpdate(p.workers, i, x, Waiting);
    CountUpdate(p.workers, i, x, Running(0));
    CountUpdate(p.workers, i, x, Exited);
  }

  lemma {:induction false} RunInv(p: Pool, steps: seq<Step>)
    requires Inv(p) && IsRun(p, steps)
    ensures Inv(Run(p, steps))
    decreases |steps|
  {
    hide Inv, Enabled, Next;
    if steps != [] {
      StepInv(p, steps[0]);
      RunInv(Next(p, steps[0]), steps[1..]);
    }
  }

  lemma NextKeepsSize(p: Pool, s: Step)
    requires Enabled(p, s)
    ensures |Next(p, s).workers| == |p.workers|
  {
  }

  lemma {:induction false} RunKeepsSize(p: Pool, steps: seq<Step>)
    requires IsRun(p, steps)
    ensures |Run(p, steps).workers| == |p.workers|
    decreases |steps|
  {
    hide Enabled, Next;
    if steps != [] {
      NextKeepsSize(p, steps[0]);
      RunKeepsSize(Next(p, steps[0]), steps[1..]);
    }
  }

  // ---------- no lost wake-up ----------

  lemma {:induction false} CountTotal(ws: seq<Worker>)
    ensures Count(ws, Checking) + Count(ws, Waiting) + Count(ws, Running(0)) + Count(ws, Exited) == |ws|
  {
    if ws != [] { CountTotal(ws[1..]); }
  }

  /**
   In every reachable state: with a task queued somebody is awake or about to be notified, and
   in fact no fewer than there are tasks while anybody sleeps; after stop nobody sleeps
   unless notify_all is still to come.
   */
  lemma NoLostWakeup(requested: nat, hardware: nat, steps: seq<Step>)
    requires IsRun(Initial(NumThreads(requested, hardware)), steps)
    ensures var p := Run(Initial(NumThreads(requested, hardware)), steps);
            && (p.tasks != [] ==> Checkers(p) + Runners(p) + p.notifyOnes > 0)
            && (Sleepers(p) > 0 ==> |p.tasks| <= Checkers(p) + p.notifyOnes)
            && (p.stop && Sleepers(p) > 0 ==> p.notifyAll)
  {
    hide Count, IsRun, Run;
    var p0 := Initial(NumThreads(requested, hardware));
    InitialInv(NumThreads(requested, hardware));
    RunInv(p0, steps);
    RunKeepsSize(p0, steps);
    CountTotal(Run(p0, steps).workers);
  }

  // ---------- order and conservation ----------

  /** The tasks a run pushes before it sets stop, in order: read off the steps alone. */
  function Pushed(steps: seq<Step>): seq<Task> {
    if steps == [] || steps[0].SetStop? then []
    else (if steps[0].Push? then [steps[0].task] else []) + Pushed(steps[1..])
  }

  /** The pool accepts exactly the tasks pushed before stop, in the order of the pushes. */
  lemma {:induction false} PushedAreAccepted(p: Pool, steps: seq<Step>)
    requires IsRun(p, steps)
    ensures Run(p, steps).accepted == p.accepted + (if p.stop then [] else Pushed(steps))
    decreases |steps|
  {
    hide WakeAll;
    if steps != [] {
      PushedAreAccepted(Next(p, steps[0]), steps[1..]);
      if !p.stop && steps[0].Push? {
        assert p.accepted + ([steps[0].task] + Pushed(steps[1..])) == p.accepted + [steps[0].task] + Pushed(steps[1..]);
      }
    }
  }

  lemma PushedFromTheStart(n: nat, steps: seq<Step>)
    requires IsRun(Initial(n), steps)
    ensures Run(Initial(n), steps).accepted == Pushed(steps)
  {
    hide Run, IsRun, Pushed;
    PushedAreAccepted(Initial(n), steps);
    assert [] + Pushed(steps) == Pushed(steps);
  }

  /**
   In every reachable state the tasks taken are a prefix of the tasks pushed before stop, in the same
   order, the queue is the rest, and each taken task is running or has finished, once.
   */
  lemma TasksRunOnceInOrder(n: nat, steps: seq<Step>)
    requires IsRun(Initial(n), steps)
    ensures var p := Run(Initial(n), steps);
            && Pushed(steps) == p.popped + p.tasks
            && multiset(Pushed(steps)) == multiset(p.tasks) + RunningTasks(p.workers) + p.finished
  {
    hide Count, RunningTasks, IsRun, Run, Pushed;
    InitialInv(n);
    RunInv(Initial(n), steps);
    PushedFromTheStart(n, steps);
  }

  /** A push after stop changes nothing, and stop is never taken back. */
  lemma {:induction false} StopIsFinal(p: Pool, steps: seq<Step>)
    requires p.stop && IsRun(p, steps)
    ensures Run(p, steps).stop && Run(p, steps).accepted == p.accepted
    decreases |steps|
  {
    if steps != [] { StopIsFinal(Next(p, steps[0]), steps[1..]); }
  }

  // ---------- progress ----------

  /** The steps by which a pool gets its tasks done, stopping or not. */
  predicate IsWork(s: Step) {
    s.NotifyOne? || s.Check? || s.Finish?
  }

  /** Falls with each of them. */
  function Work(p: Pool): nat {
    2 * |p.tasks| + Checkers(p) + 2 * Runners(p) + 2 * p.notifyOnes
  }

  lemma WorkStep(p: Pool, s: Step)
    requires Enabled(p, s) && IsWork(s)
    ensures Work(Next(p, s)) < Work(p)
  {
    hide Count, RunningTasks, WakeAll;
    match s
    case NotifyOne(i) =>
      if Waiting in p.workers { MoveOne(p, i, Checking); }
    case Check(i) => MoveOne(p, i, Next(p, s).workers[i]);
    case Finish(i) => MoveOne(p, i, Checking);
  }

  /** However they interleave, a pool left alone takes at most Work(p) of them. */
  lemma {:induction false} WorkIsBounded(p: Pool, steps: seq<Step>)
    requires IsRun(p, steps) && forall s <- steps :: IsWork(s)
    ensures |steps| + Work(Run(p, steps)) <= Work(p)
    decreases |steps|
  {
    hide Work, Enabled, Next, IsWork;
    if steps != [] {
      assert steps[0] in steps && forall s <- steps[1..] :: s in steps;
      WorkStep(p, steps[0]);
      WorkIsBounded(Next(p, steps[0]), steps[1..]);
    }
  }

  /** A running pool in which no work step is left has run every task it accepted, once. */
  lemma QuietPoolIsDone(p: Pool)
    requires Inv(p) && !p.stop && p.workers != []
    requires forall s: Step :: IsWork(s) ==> !Enabled(p, s)
    ensures p.tasks == [] && p.finished == multiset(p.accepted)
  {
    hide Count, RunningTasks;
    if Waiting in p.workers {
      var i: nat :| i < |p.workers| && p.workers[i] == Waiting;
      assert !Enabled(p, NotifyOne(i));
    } else {
      assert !Enabled(p, NotifyOne(0));
    }
    forall i: nat | i < |p.workers| ensures !p.workers[i].Checking? && !p.workers[i].Running? {
      assert !Enabled(p, Check(i)) && !Enabled(p, Finish(i));
    }
    CountZero(p.workers, Checking);
    CountZero(p.workers, Running(0));
    CountZero(p.workers, Exited);
    CountZero(p.workers, Waiting);
    CountTotal(p.workers);
    NoRunners(p.workers);
    assert p.popped + [] == p.popped;
  }

  lemma {:induction false} NoRunners(ws: seq<Worker>)
    requires forall i :: 0 <= i < |ws| ==> !ws[i].Running?
    ensures RunningTasks(ws) == multiset{}
  {
    if ws != [] {
      assert forall i :: 0 <= i < |ws| - 1 ==> ws[1..][i] == ws[i + 1];
      NoRunners(ws[1..]);
    }
  }

  lemma {:induction false} WorkGetsDone(p: Pool) returns (steps: seq<Step>)
    requires Inv(p) && !p.stop && p.workers != []
    ensures IsRun(p, steps) && |steps| <= Work(p) && forall s <- steps :: IsWork(s)
    ensures Run(p, steps).tasks == [] && Run(p, steps).finished == multiset(p.accepted)
    decreases Work(p)
  {
    hide Inv, Work;
    if s: Step :| IsWork(s) && Enabled(p, s) {
      StepInv(p, s);
      WorkStep(p, s);
      NextKeepsSize(p, s);
      WorkAcceptsNothing(p, s);
      var rest := WorkGetsDone(Next(p, s));
      steps := [s] + rest;
      assert steps[1..] == rest;
    } else {
      QuietPoolIsDone(p);
      steps := [];
    }
  }

  lemma WorkAcceptsNothing(p: Pool, s: Step)
    requires Enabled(p, s) && IsWork(s)
    ensures Next(p, s).stop == p.stop && Next(p, s).accepted == p.accepted
  {
  }

  lemma {:induction false} RunConcat(p: Pool, a: seq<Step>, b: seq<Step>)
    requires IsRun(p, a) && IsRun(Run(p, a), b)
    ensures IsRun(p, a + b) && Run(p, a + b) == Run(Run(p, a), b)
    decreases |a|
  {
    hide Next, Enabled;
    if a == [] {
      assert a + b == b;
    } else {
      assert (a + b)[1..] == a[1..] + b;
      RunConcat(Next(p, a[0]), a[1..], b);
    }
  }

  /**
   A running pool left alone gets its tasks done: from every reachable state some work steps, no more
   than Work allows, bring it to a state in which each task pushed has run exactly once.
   */
  lemma PoolGetsDone(n: nat, steps: seq<Step>) returns (more: seq<Step>)
    requires n > 0 && IsRun(Initial(n), steps) && !Run(Initial(n), steps).stop
    ensures IsRun(Initial(n), steps + more) && forall s <- more :: IsWork(s)
    ensures |more| <= Work(Run(Initial(n), steps))
    ensures var p := Run(Initial(n), steps + more); p.tasks == [] && p.finished == multiset(Pushed(steps))
  {
    hide Run, IsRun, Inv, Pushed, Work;
    InitialInv(n);
    RunInv(Initial(n), steps);
    RunKeepsSize(Initial(n), steps);
    PushedFromTheStart(n, steps);
    more := WorkGetsDone(Run(Initial(n), steps));
    RunConcat(Initial(n), steps, more);
  }

  // ---------- shutdown ----------

  /** Falls with every step a stopping pool takes, except the pushes it ignores. */
  function Remaining(p: Pool): nat {
    2 * |p.tasks| + Checkers(p) + 2 * Runners(p) + 2 * Sleepers(p) + p.notifyOnes + (if p.notifyAll then 1 else 0)
  }

  lemma ShutdownStep(p: Pool, s: Step)
    requires p.stop && Enabled(p, s)
    ensures s.Push? ==> Next(p, s) == p
    ensures !s.Push? ==> Remaining(Next(p, s)) < Remaining(p)
  {
    hide Count, RunningTasks, WakeAll;
    match s
    case Push(_) =>
    case NotifyOne(i) =>
      if Waiting in p.workers { MoveOne(p, i, Checking); }
    case SetStop =>
    case NotifyAll => CountWakeAll(p.workers);
    case Spurious(i) => MoveOne(p, i, Checking);
    case Check(i) => MoveOne(p, i, if p.tasks == [] then Exited else Running(p.tasks[0]));
    case Finish(i) => MoveOne(p, i, Checking);
  }

  function WithoutPushes(steps: seq<Step>): nat {
    if steps == [] then 0 else (if steps[0].Push? then 0 else 1) + WithoutPushes(steps[1..])
  }

  /** However the steps interleave, a stopping pool takes at most Remaining(p) of them. */
  lemma {:induction false} ShutdownIsBounded(p: Pool, steps: seq<Step>)
    requires p.stop && IsRun(p, steps)
    ensures WithoutPushes(steps) + Remaining(Run(p, steps)) <= Remaining(p)
    decreases |steps|
  {
    hide Remaining;
    if steps != [] {
      ShutdownStep(p, steps[0]);
      ShutdownIsBounded(Next(p, steps[0]), steps[1..]);
    }
  }

  predicate AllExited(p: Pool) {
    forall w <- p.workers :: w == Exited
  }

  /** A stopping pool is never stuck before all its workers have left. */
  lemma ShutdownNeverSticks(p: Pool) returns (s: Step)
    requires Inv(p) && p.stop && !AllExited(p)
    ensures Enabled(p, s) && !s.Push?
  {
    var w :| w in p.workers && w != Exited;
    var i :| 0 <= i < |p.workers| && p.workers[i] == w;
    match w
    case Checking => s := Check(i);
    case Running(_) => s := Finish(i);
    case Waiting =>
      CountZero(p.workers, Waiting);
      s := NotifyAll;
  }

  /** When every worker of a pool that had one has left, every accepted task has run exactly once. */
  lemma ExitMeansDrained(p: Pool)
    requires Inv(p) && p.workers != [] && AllExited(p)
    ensures p.stop && p.tasks == [] && p.finished == multiset(p.accepted)
  {
    CountZero(p.workers, Exited);
    assert p.workers[0] in p.workers;
    NobodyRuns(p.workers);
    assert p.popped + [] == p.popped;
  }

  lemma {:induction false} NobodyRuns(ws: seq<Worker>)
    requires forall w <- ws :: w == Exited
    ensures RunningTasks(ws) == multiset{}
  {
    if ws != [] {
      assert ws[0] in ws && forall w <- ws[1..] :: w in ws;
      NobodyRuns(ws[1..]);
    }
  }

  lemma {:induction false} StoppingGetsDone(p: Pool) returns (steps: seq<Step>)
    requires Inv(p) && p.stop && p.workers != []
    ensures IsRun(p, steps) && |steps| <= Remaining(p)
    ensures AllExited(Run(p, steps))
    ensures Run(p, steps).tasks == [] && Run(p, steps).finished == multiset(p.accepted)
    decreases Remaining(p)
  {
    if AllExited(p) {
      ExitMeansDrained(p);
      steps := [];
    } else {
      hide Inv, Remaining, AllExited;
      var s := ShutdownNeverSticks(p);
      StepInv(p, s);
      ShutdownStep(p, s);
      NextKeepsSize(p, s);
      StopIsFinalStep(p, s);
      var rest := StoppingGetsDone(Next(p, s));
      steps := [s] + rest;
      assert steps[1..] == rest;
    }
  }

  lemma StopIsFinalStep(p: Pool, s: Step)
    requires p.stop && Enabled(p, s)
    ensures Next(p, s).stop && Next(p, s).accepted == p.accepted
  {
  }

  /** In every reachable state in which all workers have left, each task pushed before stop has run exactly once. */
  lemma AllPushedHaveRun(n: nat, steps: seq<Step>)
    requires n > 0 && IsRun(Initial(n), steps) && AllExited(Run(Initial(n), steps))
    ensures Run(Initial(n), steps).finished == multiset(Pushed(steps))
  {
    hide Run, IsRun, Inv, Pushed, AllExited;
    InitialInv(n);
    RunInv(Initial(n), steps);
    RunKeepsSize(Initial(n), steps);
    PushedFromTheStart(n, steps);
    ExitMeansDrained(Run(Initial(n), steps));
  }

  /**
   The destructor's join returns: from every reachable state of a stopping pool some steps, no more than
   Remaining allows, end with all workers gone and each task pushed before stop run exactly once.
   */
  lemma ShutdownDrains(n: nat, steps: seq<Step>) returns (more: seq<Step>)
    requires n > 0 && IsRun(Initial(n), steps) && Run(Initial(n), steps).stop
    ensures IsRun(Initial(n), steps + more) && |more| <= Remaining(Run(Initial(n), steps))
    ensures var p := Run(Initial(n), steps + more);
            AllExited(p) && p.tasks == [] && p.finished == multiset(Pushed(steps))
  {
    hide Run, IsRun, Inv, Pushed, Remaining, AllExited;
    InitialInv(n);
    RunInv(Initial(n), steps);
    RunKeepsSize(Initial(n), steps);
    PushedFromTheStart(n, steps);
    more := StoppingGetsDone(Run(Initial(n), steps));
    RunConcat(Initial(n), steps, more);
  }
}
