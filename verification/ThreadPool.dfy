/** The thread pool as a step system: what happens under the lock is one step, and the steps of
    workers, callers and the destructor interleave freely (ThreadPool.h). */
module ThreadPool {
  type Task = nat

  /** Awake: about to take the lock and look at the queue. Waiting: asleep on the condition. */
  datatype Worker = Awake | Waiting | Running(task: Task) | Exited

  /** Besides the pool's own fields: notifications announced but not sent yet, and what has been
      accepted, started and finished so far, in order. */
  datatype Pool = Pool(
    workers: seq<Worker>,
    queue: seq<Task>,
    stop: bool,
    notify_one: nat,
    notify_all: bool,
    accepted: seq<Task>,
    started: seq<Task>,
    finished: seq<Task>)

  datatype Step =
    | Look(w: nat)             // a worker takes the lock and looks at the queue
    | Finish(w: nat)           // a worker is done with its task
    | Enqueue(task: Task)
    | Notify(w: nat)           // notify_one reaches worker w
    | NotifyNobody             // notify_one while nobody waits
    | Spurious(w: nat)         // a wait returns for no reason
    | Stop
    | NotifyAll

  function Begin(threads: nat): Pool {
    Pool(seq(threads, _ => Awake), [], false, 0, false, [], [], [])
  }

  predicate AnyWaiting(ws: seq<Worker>) { exists i :: 0 <= i < |ws| && ws[i] == Waiting }

  predicate Enabled(p: Pool, s: Step) {
    match s
    case Look(w) => w < |p.workers| && p.workers[w] == Awake
    case Finish(w) => w < |p.workers| && p.workers[w].Running?
    case Enqueue(_) => !p.stop
    case Notify(w) => p.notify_one > 0 && w < |p.workers| && p.workers[w] == Waiting
    case NotifyNobody => p.notify_one > 0 && !AnyWaiting(p.workers)
    case Spurious(w) => w < |p.workers| && p.workers[w] == Waiting
    case Stop => !p.stop
    case NotifyAll => p.notify_all
  }

  function Woken(w: Worker): Worker { if w == Waiting then Awake else w }

  function WakeAll(ws: seq<Worker>): (r: seq<Worker>)
    ensures |r| == |ws| && forall i :: 0 <= i < |ws| ==> r[i] == Woken(ws[i])
  {
    if ws == [] then [] else WakeAll(ws[..|ws| - 1]) + [Woken(ws[|ws| - 1])]
  }

  function Next(p: Pool, s: Step): Pool
    requires Enabled(p, s)
  {
    match s
    case Look(w) =>
      if p.queue == [] then p.(workers := p.workers[w := if p.stop then Exited else Waiting])
      else
        p.(workers := p.workers[w := Running(p.queue[0])], queue := p.queue[1..], started := p.started + [p.queue[0]])
    case Finish(w) => p.(workers := p.workers[w := Awake], finished := p.finished + [p.workers[w].task])
    case Enqueue(t) => p.(queue := p.queue + [t], accepted := p.accepted + [t], notify_one := p.notify_one + 1)
    case Notify(w) => p.(workers := p.workers[w := Awake], notify_one := p.notify_one - 1)
    case NotifyNobody => p.(notify_one := p.notify_one - 1)
    case Spurious(w) => p.(workers := p.workers[w := Awake])
    case Stop => p.(stop := true, notify_all := true)
    case NotifyAll => p.(workers := WakeAll(p.workers), notify_all := false)
  }

  // ----- Counting workers -----

  function Sum(ws: seq<Worker>, f: Worker -> nat): nat {
    if ws == [] then 0 else Sum(ws[..|ws| - 1], f) + f(ws[|ws| - 1])
  }

  lemma {:induction false} SumUpdate(ws: seq<Worker>, i: nat, w: Worker, f: Worker -> nat)
    requires i < |ws|
    ensures Sum(ws[i := w], f) + f(ws[i]) == Sum(ws, f) + f(w)
  {
    var n := |ws| - 1;
    if i < n {
      SumUpdate(ws[..n], i, w, f);
      assert ws[i := w][..n] == ws[..n][i := w];
    } else {
      assert ws[i := w][..n] == ws[..n];
    }
  }

  lemma {:induction false} SumAtLeast(ws: seq<Worker>, i: nat, f: Worker -> nat)
    requires i < |ws|
    ensures Sum(ws, f) >= f(ws[i])
  {
    var n := |ws| - 1;
    if i < n {
      SumAtLeast(ws[..n], i, f);
    }
  }

  function IsAwake(w: Worker): nat { if w == Awake then 1 else 0 }

  function Runs(w: Worker, t: Task): nat { if w == Running(t) then 1 else 0 }

  /** How many workers are running a task. */
  function RunningCount(ws: seq<Worker>, t: Task): nat {
    if ws == [] then 0 else RunningCount(ws[..|ws| - 1], t) + Runs(ws[|ws| - 1], t)
  }

  lemma {:induction false} RunningUpdate(ws: seq<Worker>, i: nat, w: Worker, t: Task)
    requires i < |ws|
    ensures RunningCount(ws[i := w], t) + Runs(ws[i], t) == RunningCount(ws, t) + Runs(w, t)
  {
    var n := |ws| - 1;
    if i < n {
      RunningUpdate(ws[..n], i, w, t);
      assert ws[i := w][..n] == ws[..n][i := w];
    } else {
      assert ws[i := w][..n] == ws[..n];
    }
  }

  // ----- What every run keeps -----

  /** Tasks start in the order they were accepted. */
  ghost predicate InOrder(p: Pool) { p.accepted == p.started + p.queue }

  /** What was started is finished or still running. */
  ghost predicate Counted(p: Pool, t: Task) {
    Times(p.started, t) == Times(p.finished, t) + RunningCount(p.workers, t)
  }

  ghost predicate Conserved(p: Pool) { InOrder(p) && forall t: Task :: Counted(p, t) }

  /** While a worker sleeps, every queued task has an awake worker or a pending notification to
      itself; so a non-empty queue is never left to sleepers alone. */
  ghost predicate SleepersCovered(p: Pool) {
    AnyWaiting(p.workers) ==> |p.queue| <= Sum(p.workers, IsAwake) + p.notify_one
  }

  /** Workers only exit after the stop, from an empty queue. */
  ghost predicate ExitedLate(p: Pool) {
    forall i :: 0 <= i < |p.workers| && p.workers[i] == Exited ==> p.stop && p.queue == []
  }

  ghost predicate NoLostWakeup(p: Pool) { SleepersCovered(p) && ExitedLate(p) }

  /** Once everyone has been notified of the stop, nobody sleeps any more. */
  ghost predicate StopHeard(p: Pool) {
    (p.notify_all ==> p.stop) && (p.stop && !p.notify_all ==> !AnyWaiting(p.workers))
  }

  ghost predicate Inv(p: Pool) { Conserved(p) && NoLostWakeup(p) && StopHeard(p) }

  lemma {:induction false} SumZero(ws: seq<Worker>, f: Worker -> nat)
    requires Sum(ws, f) == 0
    ensures forall i :: 0 <= i < |ws| ==> f(ws[i]) == 0
  {
    if ws != [] {
      SumZero(ws[..|ws| - 1], f);
    }
  }

  lemma {:induction false} NobodyRunning(ws: seq<Worker>, t: Task)
    requires forall i :: 0 <= i < |ws| ==> !ws[i].Running?
    ensures RunningCount(ws, t) == 0
  {
    if ws != [] {
      NobodyRunning(ws[..|ws| - 1], t);
    }
  }

  lemma BeginInv(threads: nat)
    ensures Inv(Begin(threads))
  {
    forall t: Task ensures Counted(Begin(threads), t) {
      NobodyRunning(Begin(threads).workers, t);
    }
  }

  lemma {:induction false} WakeAllRuns(ws: seq<Worker>, t: Task)
    ensures RunningCount(WakeAll(ws), t) == RunningCount(ws, t)
  {
    if ws != [] {
      WakeAllRuns(ws[..|ws| - 1], t);
      assert WakeAll(ws)[..|ws| - 1] == WakeAll(ws[..|ws| - 1]);
    }
  }

  lemma {:induction false} WakeAllWakes(ws: seq<Worker>)
    ensures Sum(WakeAll(ws), IsAwake) >= Sum(ws, IsAwake)
  {
    if ws != [] {
      WakeAllWakes(ws[..|ws| - 1]);
      assert WakeAll(ws)[..|ws| - 1] == WakeAll(ws[..|ws| - 1]);
    }
  }

  function Times(s: seq<Task>, t: Task): nat { multiset(s)[t] }

  lemma TimesAppend(s: seq<Task>, x: Task, t: Task)
    ensures Times(s + [x], t) == Times(s, t) + if x == t then 1 else 0
  {
    assert multiset(s + [x]) == multiset(s) + multiset{x};
  }

  lemma CountedNext(p: Pool, s: Step, t: Task)
    requires Enabled(p, s) && Counted(p, t)
    ensures Counted(Next(p, s), t)
  {
    hide RunningCount, Times;
    match s
    case Look(w) =>
      RunningUpdate(p.workers, w, Next(p, s).workers[w], t);
      if p.queue != [] { TimesAppend(p.started, p.queue[0], t); }
    case Finish(w) =>
      RunningUpdate(p.workers, w, Awake, t);
      TimesAppend(p.finished, p.workers[w].task, t);
    case Notify(w) => RunningUpdate(p.workers, w, Awake, t);
    case Spurious(w) => RunningUpdate(p.workers, w, Awake, t);
    case NotifyAll => WakeAllRuns(p.workers, t);
    case _ =>
  }

  lemma InOrderNext(p: Pool, s: Step)
    requires Enabled(p, s) && InOrder(p)
    ensures InOrder(Next(p, s))
  {
    assert s.Look? && p.queue != [] ==> p.queue == [p.queue[0]] + p.queue[1..];
  }

  lemma ConservedNext(p: Pool, s: Step)
    requires Conserved(p) && Enabled(p, s)
    ensures Conserved(Next(p, s))
  {
    hide Next, Counted, InOrder, Enabled;
    InOrderNext(p, s);
    forall t: Task ensures Counted(Next(p, s), t) {
      CountedNext(p, s, t);
    }
  }

  lemma SleepersCoveredNext(p: Pool, s: Step)
    requires SleepersCovered(p) && Enabled(p, s)
    ensures SleepersCovered(Next(p, s))
  {
    hide Sum;
    match s
    case Look(w) => SumUpdate(p.workers, w, Next(p, s).workers[w], IsAwake);
    case Finish(w) => SumUpdate(p.workers, w, Awake, IsAwake);
    case Notify(w) => SumUpdate(p.workers, w, Awake, IsAwake);
    case Spurious(w) => SumUpdate(p.workers, w, Awake, IsAwake);
    case NotifyAll => WakeAllWakes(p.workers);
    case _ =>
  }

  lemma NoLostWakeupNext(p: Pool, s: Step)
    requires NoLostWakeup(p) && Enabled(p, s)
    ensures NoLostWakeup(Next(p, s))
  {
    hide SleepersCovered;
    SleepersCoveredNext(p, s);
  }

  lemma StopHeardNext(p: Pool, s: Step)
    requires StopHeard(p) && Enabled(p, s)
    ensures StopHeard(Next(p, s))
  {}

  ghost predicate Run(p: Pool, steps: seq<Step>)
    decreases |steps|
  {
    steps == [] || (Enabled(p, steps[0]) && Run(Next(p, steps[0]), steps[1..]))
  }

  ghost function After(p: Pool, steps: seq<Step>): Pool
    requires Run(p, steps)
    decreases |steps|
  {
    if steps == [] then p else After(Next(p, steps[0]), steps[1..])
  }

  /** Every interleaving keeps the invariant and the number of workers. */
  lemma {:induction false} RunKeeps(p: Pool, steps: seq<Step>)
    requires Inv(p) && Run(p, steps)
    ensures Inv(After(p, steps)) && |After(p, steps).workers| == |p.workers|
    decreases |steps|
  {
    hide Conserved, NoLostWakeup, StopHeard;
    if steps != [] {
      ConservedNext(p, steps[0]);
      NoLostWakeupNext(p, steps[0]);
      StopHeardNext(p, steps[0]);
      RunKeeps(Next(p, steps[0]), steps[1..]);
    }
  }

  // ----- What the steps tell -----

  /** The tasks handed in, in order. */
  function TasksOf(steps: seq<Step>): seq<Task> {
    if steps == [] then []
    else (if steps[0].Enqueue? then [steps[0].task] else []) + TasksOf(steps[1..])
  }

  /** How many tasks workers were done with. */
  function Finishes(steps: seq<Step>): nat {
    if steps == [] then 0 else (if steps[0].Finish? then 1 else 0) + Finishes(steps[1..])
  }

  /** Announced notifications less those sent. */
  function Announced(steps: seq<Step>): int {
    if steps == [] then 0
    else
      Announced(steps[1..])
      + if steps[0].Enqueue? then 1 else if steps[0].Notify? || steps[0].NotifyNobody? then -1 else 0
  }

  /** What has been accepted are the tasks of the enqueueing steps, in order; a task is finished by a
      step of its own; every enqueueing step announces one notification. */
  lemma {:induction false} StepsTell(p: Pool, steps: seq<Step>)
    requires Run(p, steps)
    ensures var q := After(p, steps);
      && q.accepted == p.accepted + TasksOf(steps) && |q.finished| == |p.finished| + Finishes(steps)
      && q.notify_one == p.notify_one + Announced(steps)
      && (q.stop <==> p.stop || Stop in steps)
    decreases |steps|
  {
    hide Next, Enabled;
    if steps != [] {
      StepTells(p, steps[0]);
      assert steps == [steps[0]] + steps[1..];
      StepsTell(Next(p, steps[0]), steps[1..]);
    }
  }

  lemma StepTells(p: Pool, s: Step)
    requires Enabled(p, s)
    ensures var q := Next(p, s);
      && q.accepted == p.accepted + (if s.Enqueue? then [s.task] else [])
      && |q.finished| == |p.finished| + (if s.Finish? then 1 else 0)
      && q.notify_one == p.notify_one + (if s.Enqueue? then 1 else if s.Notify? || s.NotifyNobody? then -1 else 0)
      && (q.stop <==> p.stop || s == Stop)
  {}

  /** At every moment of every run the tasks handed in are those started and those still queued, in
      order; each that was started has been finished by a step of its own or is running. */
  lemma TasksKept(threads: nat, steps: seq<Step>)
    requires Run(Begin(threads), steps)
    ensures var p := After(Begin(threads), steps);
      && p.started + p.queue == TasksOf(steps) && |p.finished| == Finishes(steps) && |p.workers| == threads
      && forall t: Task :: multiset(p.started)[t] == multiset(p.finished)[t] + RunningCount(p.workers, t)
  {
    var p := After(Begin(threads), steps);
    BeginInv(threads);
    RunKeeps(Begin(threads), steps);
    StepsTell(Begin(threads), steps);
    forall t: Task ensures multiset(p.started)[t] == multiset(p.finished)[t] + RunningCount(p.workers, t) {
      assert Counted(p, t);
    }
  }

  // ----- What follows -----

  /** A non-empty queue always has a worker that is awake or running, or a pending notification. */
  lemma SomeoneWillLook(p: Pool)
    requires Inv(p) && p.queue != [] && |p.workers| > 0
    ensures p.notify_one > 0 || exists i :: 0 <= i < |p.workers| && (p.workers[i] == Awake || p.workers[i].Running?)
  {
    if !AnyWaiting(p.workers) {
      assert p.workers[0] != Exited && p.workers[0] != Waiting;
    } else if p.notify_one == 0 {
      SomeAwake(p.workers);
    }
  }

  lemma {:induction false} SomeAwake(ws: seq<Worker>)
    requires Sum(ws, IsAwake) > 0
    ensures exists i :: 0 <= i < |ws| && ws[i] == Awake
  {
    var n := |ws| - 1;
    if ws[n] != Awake {
      SomeAwake(ws[..n]);
      var i :| 0 <= i < n && ws[..n][i] == Awake;
      assert ws[i] == Awake;
    }
  }

  /** When the workers have exited, every task that was handed in has run exactly once, and they were
      started in the order in which they were handed in. */
  lemma AllExited(threads: nat, steps: seq<Step>)
    requires threads > 0 && Run(Begin(threads), steps)
    requires
      var workers := After(Begin(threads), steps).workers;
      forall i :: 0 <= i < |workers| ==> workers[i] == Exited
    ensures var p := After(Begin(threads), steps);
      && p.stop && Stop in steps && p.queue == []
      && p.started == p.accepted == TasksOf(steps) && multiset(p.finished) == multiset(TasksOf(steps))
  {
    hide After, Inv, TasksOf;
    BeginInv(threads);
    RunKeeps(Begin(threads), steps);
    StepsTell(Begin(threads), steps);
    WithoutWorkers(After(Begin(threads), steps));
  }

  lemma WithoutWorkers(p: Pool)
    requires Inv(p) && p.workers != [] && forall i :: 0 <= i < |p.workers| ==> p.workers[i] == Exited
    ensures p.stop && p.queue == [] && p.started == p.accepted && multiset(p.finished) == multiset(p.started)
  {
    assert p.workers[0] == Exited;
    forall t: Task ensures multiset(p.finished)[t] == multiset(p.started)[t] {
      assert Counted(p, t);
      NobodyRunning(p.workers, t);
    }
  }

  // ----- The destructor comes back -----

  function Effort(w: Worker): nat {
    match w
    case Awake => 1
    case Waiting => 2
    case Running(_) => 2
    case Exited => 0
  }

  /** What is left to do once no more tasks are accepted. */
  function Left(p: Pool): nat {
    Sum(p.workers, Effort) + 2 * |p.queue| + p.notify_one + if p.notify_all then 1 else 0
  }

  lemma {:induction false} WakeAllEffort(ws: seq<Worker>)
    ensures Sum(WakeAll(ws), Effort) <= Sum(ws, Effort)
  {
    if ws != [] {
      var n := |ws| - 1;
      WakeAllEffort(ws[..n]);
      assert WakeAll(ws)[..n] == WakeAll(ws[..n]);
    }
  }

  /** After the stop every step brings the pool nearer to its end. */
  lemma StepsDown(p: Pool, s: Step)
    requires p.stop && Enabled(p, s)
    ensures Next(p, s).stop && Left(Next(p, s)) < Left(p)
  {
    match s
    case Look(w) => SumUpdate(p.workers, w, if p.queue == [] then Exited else Running(p.queue[0]), Effort);
    case Finish(w) => SumUpdate(p.workers, w, Awake, Effort);
    case Notify(w) => SumUpdate(p.workers, w, Awake, Effort);
    case Spurious(w) => SumUpdate(p.workers, w, Awake, Effort);
    case NotifyAll => WakeAllEffort(p.workers);
    case NotifyNobody =>
  }

  /** After the stop some step is possible until all workers have exited. */
  lemma NoDeadlock(p: Pool)
    requires Inv(p) && p.stop && exists i :: 0 <= i < |p.workers| && p.workers[i] != Exited
    ensures exists s: Step :: Enabled(p, s)
  {
    var i :| 0 <= i < |p.workers| && p.workers[i] != Exited;
    match p.workers[i]
    case Awake => assert Enabled(p, Look(i));
    case Running(_) => assert Enabled(p, Finish(i));
    case Waiting =>
      assert p.notify_all;
      assert Enabled(p, NotifyAll);
  }

  /** So from any state of a stopped pool, however the steps fall, all workers exit within a bounded
      number of steps. */
  lemma {:induction false} ShutsDown(p: Pool, steps: seq<Step>)
    requires p.stop && Run(p, steps)
    ensures |steps| <= Left(p)
    decreases |steps|
  {
    if steps != [] {
      StepsDown(p, steps[0]);
      ShutsDown(Next(p, steps[0]), steps[1..]);
    }
  }
}
