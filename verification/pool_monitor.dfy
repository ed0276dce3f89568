/** The worker pool as an object: each method is what one thread does without giving up the mutex. */
module PoolMonitor {
  import opened ThreadPool

  class Monitor {
    var tasks: seq<Task>
    var stop: bool
    var workers: seq<Worker>
    var notifyOnes: nat
    var notifyAllDue: bool
    ghost var accepted: seq<Task>
    ghost var popped: seq<Task>
    ghost var finished: multiset<Task>

    ghost function State(): Pool
      reads this
    {
      Pool(tasks, stop, workers, notifyOnes, notifyAllDue, accepted, popped, finished)
    }

    constructor (requested: nat, hardware: nat)
      ensures State() == Initial(NumThreads(requested, hardware)) && Inv(State())
      ensures |workers| == if requested > 0 then requested else if hardware > 0 then hardware else 1
      ensures forall w <- workers :: w == Checking
    {
      var n := requested;
      if n == 0 {
        n := hardware;
        if n == 0 { n := 1; }
      }
      tasks, stop, notifyOnes, notifyAllDue := [], false, 0, false;
      accepted, popped, finished := [], [], multiset{};
      workers := [];
      new;
      for i := 0 to n
        invariant workers == seq(i, k => Checking)
        invariant State() == Initial(n).(workers := workers)
      {
        workers := workers + [Checking];
      }
      InitialInv(n);
    }

    /** push: the locked part; the answer says whether notify_one is still to come. */
    method Push(task: Task) returns (notify: bool)
      modifies this
      ensures State() == Next(old(State()), Step.Push(task))
      ensures notify == !old(stop)
    {
      if stop { return false; }
      tasks := tasks + [task];
      accepted := accepted + [task];
      notifyOnes := notifyOnes + 1;
      return true;
    }

    /** cv.notify_one: the system picks the sleeper. */
    method NotifyOne() returns (woken: nat)
      requires notifyOnes > 0
      modifies this
      ensures Enabled(old(State()), Step.NotifyOne(woken))
      ensures State() == Next(old(State()), Step.NotifyOne(woken))
    {
      woken := 0;
      notifyOnes := notifyOnes - 1;
      if Waiting in workers {
        woken :| woken < |workers| && workers[woken] == Waiting;
        workers := workers[woken := Checking];
      }
    }

    /** The locked part of the destructor. */
    method SetStop()
      requires !stop
      modifies this
      ensures State() == Next(old(State()), Step.SetStop)
    {
      stop := true;
      notifyAllDue := true;
    }

    /** cv.notify_all. */
    method NotifyAll()
      requires notifyAllDue
      modifies this
      ensures State() == Next(old(State()), Step.NotifyAll)
    {
      notifyAllDue := false;
      for i := 0 to |workers|
        invariant State() == old(State()).(notifyAll := false, workers := workers)
        invariant |workers| == |old(workers)|
        invariant forall k :: 0 <= k < |workers| ==>
          workers[k] == if k < i && old(workers)[k].Waiting? then Checking else old(workers)[k]
      {
        if workers[i].Waiting? { workers := workers[i := Checking]; }
      }
      assert workers == WakeAll(old(workers));
    }

    /** One turn of worker i in its loop with the mutex held: sleep, leave, or take the front task. */
    method Check(i: nat)
      requires Is(State(), i, Checking)
      modifies this
      ensures State() == Next(old(State()), Step.Check(i))
    {
      if !(stop || tasks != []) {
        workers := workers[i := Waiting];
        return;
      }
      if stop && tasks == [] {
        workers := workers[i := Exited];
        return;
      }
      var task := tasks[0];
      tasks := tasks[1..];
      popped := popped + [task];
      workers := workers[i := Running(task)];
    }

    /** task() returns, outside the mutex. */
    method Finish(i: nat)
      requires i < |workers| && workers[i].Running?
      modifies this
      ensures State() == Next(old(State()), Step.Finish(i))
    {
      finished := finished + multiset{workers[i].task};
      workers := workers[i := Checking];
    }

    /** cv.wait may return unasked. */
    method Wake(i: nat)
      requires Is(State(), i, Waiting)
      modifies this
      ensures State() == Next(old(State()), Step.Spurious(i))
    {
      workers := workers[i := Checking];
    }

    /** Some other thread moves: a worker in whatever state, or a push still to notify. */
    method Move() returns (ghost s: Step)
      requires notifyOnes > 0 || exists w <- workers :: w != Exited
      modifies this
      ensures Enabled(old(State()), s) && !s.Push? && !s.SetStop? && !s.NotifyAll?
      ensures State() == Next(old(State()), s)
    {
      var notifier: bool := *;
      if notifyOnes > 0 && (notifier || forall w <- workers :: w == Exited) {
        var woken := NotifyOne();
        return Step.NotifyOne(woken);
      }
      var w :| w in workers && w != Exited;
      var i: nat :| i < |workers| && workers[i] == w;
      match w
      case Checking =>
        Check(i);
        s := Step.Check(i);
      case Running(_) =>
        Finish(i);
        s := Step.Finish(i);
      case Waiting =>
        Wake(i);
        s := Step.Spurious(i);
    }

    /**
     The destructor. Between setting stop and notify_all, and while it joins the workers, the other
     threads move in any order and any number of times: it returns, every worker has left, and every
     task ever accepted has run exactly once.
     */
    method Destroy()
      requires Inv(State()) && !stop && workers != []
      modifies this
      ensures AllExited(State()) && tasks == [] && finished == multiset(accepted)
      ensures accepted == old(accepted) && Inv(State())
    {
      hide Inv, Remaining, Next, Enabled;
      StopKeeps(State());
      SetStop();
      var othersMove: bool := *;
      while othersMove && (notifyOnes > 0 || exists w :: w in workers && w != Exited)
        invariant Inv(State()) && stop && notifyAllDue && workers != [] && accepted == old(accepted)
        decreases Remaining(State())
      {
        ghost var before := State();
        ghost var s := Move();
        OthersKeep(before, s);
        othersMove := *;
      }
      AllKeeps(State());
      NotifyAll();
      while exists w :: w in workers && w != Exited
        invariant Inv(State()) && stop && workers != [] && accepted == old(accepted)
        decreases Remaining(State())
      {
        ghost var before := State();
        ghost var s := Move();
        OthersKeep(before, s);
      }
      ExitMeansDrained(State());
    }
  }

  lemma StopKeeps(p: Pool)
    requires Inv(p) && !p.stop
    ensures Enabled(p, SetStop)
    ensures var q := Next(p, SetStop); Inv(q) && q == p.(stop := true, notifyAll := true)
  {
    StepInv(p, SetStop);
  }

  lemma AllKeeps(p: Pool)
    requires Inv(p) && p.notifyAll
    ensures Enabled(p, NotifyAll)
    ensures var q := Next(p, NotifyAll);
            Inv(q) && q == p.(notifyAll := false, workers := q.workers) && |q.workers| == |p.workers|
  {
    StepInv(p, NotifyAll);
  }

  /** A move of another thread keeps a stopping pool stopping and brings the end closer. */
  lemma OthersKeep(p: Pool, s: Step)
    requires Inv(p) && p.stop && Enabled(p, s) && !s.Push? && !s.SetStop? && !s.NotifyAll?
    ensures var q := Next(p, s);
            && Inv(q) && Remaining(q) < Remaining(p)
            && q.stop && q.notifyAll == p.notifyAll && q.accepted == p.accepted && |q.workers| == |p.workers|
  {
    hide Inv, Remaining;
    StepInv(p, s);
    ShutdownStep(p, s);
    NextKeepsSize(p, s);
  }
}
