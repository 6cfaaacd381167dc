/**
 The thread pool as a step system.

 Every worker carries a program counter.  A step is one access that other threads can
 interleave with: one read of an atomic flag, or one critical section under `lock_`.
 `condition_variable::wait` is one critical section that tests the predicate and either
 goes to sleep or returns, and a sleeping worker may also be woken spuriously.
 The fields after `constructed` are history: they record what happened and decide nothing.
 */
module ThreadPoolSteps {
  import opened Machine
  import opened Wrappers

  /** The identity of a posted `packaged_task`. */
  type Task = nat

  datatype Pc =
    | Starting            // thread created, not yet counted in numThreads_
    | AtDie               // loop head, about to read die_
    | AtKeepRunning       // about to read keepRunning_
    | AtQueue             // keepRunning_ was false, about to look at the queue under the lock
    | AtWait              // about to take the lock and call wait
    | Asleep              // inside wait, not notified
    | Woken               // inside wait, about to test the predicate again
    | Running(task: Task) // task popped and lock released
    | Leaving             // loop left, about to leave the thread counter
    | Exited

  datatype State = State(
    numThreads: SizeT,
    keepRunning: bool,
    die: bool,
    queue: seq<Task>,
    workers: seq<Pc>,
    constructed: bool,          // the constructor has returned
    testing: multiset<Task>,    // Post calls that read keepRunning_ as true, die_ not read yet
    cleared: multiset<Task>,    // Post calls past both flag tests, not yet holding the lock
    pushed: seq<Task>,
    popped: seq<Task>,
    finished: multiset<Task>,
    cut: Option<nat>)           // how many tasks had been pushed when keepRunning_ became false

  datatype Action =
    | Worker(w: nat)
    | Spurious(w: nat)
    | Construct
    | PostTestKeepRunning(task: Task)
    | PostTestDie(task: Task)
    | PostPush(task: Task, sleeper: Option<nat>)
    | CountTasks(sleeper: Option<nat>)
    | JoinStore
    | StopStore

  /** What `notify_one` may wake: some sleeper, or nobody when nobody sleeps. */
  predicate NotifyChoice(workers: seq<Pc>, sleeper: Option<nat>) {
    match sleeper
    case None => Asleep !in workers
    case Some(w) => w < |workers| && workers[w] == Asleep
  }

  function Notify(workers: seq<Pc>, sleeper: Option<nat>): (r: seq<Pc>)
    requires NotifyChoice(workers, sleeper)
    ensures |r| == |workers|
  {
    if sleeper.Some? then workers[sleeper.value := Woken] else workers
  }

  function NotifyAll(workers: seq<Pc>): (r: seq<Pc>)
    ensures |r| == |workers| && Asleep !in r
  {
    seq(|workers|, i requires 0 <= i < |workers| => if workers[i] == Asleep then Woken else workers[i])
  }

  predicate Enabled(s: State, a: Action) {
    match a
    case Worker(w) => w < |s.workers| && s.workers[w] != Asleep && s.workers[w] != Exited
    case Spurious(w) => w < |s.workers| && s.workers[w] == Asleep
    case Construct => !s.constructed && s.numThreads == |s.workers|
    case PostTestKeepRunning(_) => s.constructed
    case PostTestDie(t) => t in s.testing
    case PostPush(t, sleeper) => t in s.cleared && NotifyChoice(s.workers, sleeper)
    case CountTasks(sleeper) => s.constructed && NotifyChoice(s.workers, sleeper)
    case JoinStore => s.constructed
    case StopStore => s.constructed
  }

  function Goto(s: State, w: nat, pc: Pc): State
    requires w < |s.workers|
  {
    s.(workers := s.workers[w := pc])
  }

  /** `numThreads_.store(numThreads_.load() + val)` in 64-bit arithmetic. */
  function AddToCounter(s: State, val: SizeT): State {
    s.(numThreads := WrapAdd(s.numThreads, val))
  }

  function NextWorker(s: State, w: nat): State
    requires Enabled(s, Worker(w))
  {
    match s.workers[w]
    case Starting => Goto(AddToCounter(s, 1), w, AtDie)
    case AtDie => Goto(s, w, if s.die then Leaving else AtKeepRunning)
    case AtKeepRunning => Goto(s, w, if s.keepRunning then AtWait else AtQueue)
    case AtQueue => Goto(s, w, if s.queue != [] then AtWait else Leaving)
    case AtWait => NextWait(s, w)
    case Woken => NextWait(s, w)
    case Running(t) => Goto(s, w, AtDie).(finished := s.finished + multiset{t})
    case Leaving => Goto(AddToCounter(s, SIZE_T - 1), w, Exited)
  }

  /** The wait predicate is `!KeepRunning() || !workQueue_.empty()`; then pop if there is work. */
  function NextWait(s: State, w: nat): State
    requires w < |s.workers|
  {
    if s.keepRunning && s.queue == [] then Goto(s, w, Asleep)
    else if s.queue != [] then
      Goto(s, w, Running(s.queue[0])).(queue := s.queue[1..], popped := s.popped + [s.queue[0]])
    else Goto(s, w, AtDie)
  }

  function Next(s: State, a: Action): State
    requires Enabled(s, a)
  {
    match a
    case Worker(w) => NextWorker(s, w)
    case Spurious(w) => Goto(s, w, Woken)
    case Construct => s.(constructed := true)
    case PostTestKeepRunning(t) => if s.keepRunning then s.(testing := s.testing + multiset{t}) else s
    case PostTestDie(t) =>
      if s.die then s.(testing := s.testing - multiset{t})
      else s.(testing := s.testing - multiset{t}, cleared := s.cleared + multiset{t})
    case PostPush(t, sleeper) =>
      s.(cleared := s.cleared - multiset{t}, queue := s.queue + [t], pushed := s.pushed + [t],
         workers := Notify(s.workers, sleeper))
    case CountTasks(sleeper) => s.(workers := Notify(s.workers, sleeper))
    case JoinStore =>
      s.(keepRunning := false, workers := NotifyAll(s.workers),
         cut := if s.cut.Some? then s.cut else Some(|s.pushed|))
    case StopStore => s.(die := true)
  }

  /** `wait` may return without a reason: any sleeper may wake, and goes back to sleep if there is nothing to do. */
  lemma SpuriousWakeIsHarmless(s: State, w: nat)
    requires w < |s.workers| && s.workers[w] == Asleep
    ensures Enabled(s, Spurious(w)) && Next(s, Spurious(w)) == s.(workers := s.workers[w := Woken])
    ensures var t := Next(s, Spurious(w));
      Enabled(t, Worker(w)) && (s.keepRunning && s.queue == [] ==> Next(t, Worker(w)) == s)
  {
    assert s.workers[w := Woken][w := Asleep] == s.workers;
  }

  function Init(n: nat): State {
    State(0, true, false, [], seq(n, _ => Starting), false, multiset{}, multiset{}, [], [], multiset{}, None)
  }

  /** The actions `acts`, each enabled in its turn, lead from `s` to `t`. */
  ghost predicate Reaches(s: State, acts: seq<Action>, t: State)
    decreases |acts|
  {
    if acts == [] then s == t
    else Enabled(s, acts[0]) && Reaches(Next(s, acts[0]), acts[1..], t)
  }

  // ---- Sums over the workers ----

  function Sum(ws: seq<Pc>, f: Pc -> nat): nat {
    if ws == [] then 0 else Sum(ws[..|ws| - 1], f) + f(ws[|ws| - 1])
  }

  /** How many workers hold a task with identity `x`. */
  function Holders(ws: seq<Pc>, x: Task): nat {
    if ws == [] then 0 else Holders(ws[..|ws| - 1], x) + Holds(ws[|ws| - 1], x)
  }

  function Holds(pc: Pc, x: Task): nat {
    if pc == Running(x) then 1 else 0
  }

  /** Counted in `numThreads_`. */
  function Counted(pc: Pc): nat {
    if pc.Starting? || pc.Exited? then 0 else 1
  }

  /** Awake, holding no task, and still inside the loop. */
  function Idle(pc: Pc): nat {
    match pc
    case Asleep => 0
    case Running(_) => 0
    case Leaving => 0
    case Exited => 0
    case _ => 1
  }

  lemma {:induction false} SumUpdate(ws: seq<Pc>, w: nat, pc: Pc, f: Pc -> nat)
    requires w < |ws|
    ensures Sum(ws[w := pc], f) == Sum(ws, f) - f(ws[w]) + f(pc)
  {
    var n := |ws| - 1;
    if w == n {
      assert ws[w := pc][..n] == ws[..n];
    } else {
      assert ws[w := pc][..n] == ws[..n][w := pc];
      SumUpdate(ws[..n], w, pc, f);
    }
  }

  lemma {:induction false} SumCovers(ws: seq<Pc>, w: nat, f: Pc -> nat)
    requires w < |ws|
    ensures f(ws[w]) <= Sum(ws, f)
  {
    var n := |ws| - 1;
    if w < n { SumCovers(ws[..n], w, f); }
  }

  lemma {:induction false} HoldersUpdate(ws: seq<Pc>, w: nat, pc: Pc, x: Task)
    requires w < |ws|
    ensures Holders(ws[w := pc], x) == Holders(ws, x) - Holds(ws[w], x) + Holds(pc, x)
  {
    var n := |ws| - 1;
    if w == n {
      assert ws[w := pc][..n] == ws[..n];
    } else {
      assert ws[w := pc][..n] == ws[..n][w := pc];
      HoldersUpdate(ws[..n], w, pc, x);
    }
  }

  lemma {:induction false} NotifyAllSums(ws: seq<Pc>)
    ensures Sum(NotifyAll(ws), Counted) == Sum(ws, Counted)
    ensures forall x :: Holders(NotifyAll(ws), x) == Holders(ws, x)
  {
    if ws != [] {
      var n := |ws| - 1;
      assert NotifyAll(ws)[..n] == NotifyAll(ws[..n]);
      NotifyAllSums(ws[..n]);
    }
  }

  lemma {:induction false} SumBounds(ws: seq<Pc>, f: Pc -> nat, bound: nat)
    requires forall pc :: f(pc) <= bound
    ensures Sum(ws, f) <= bound * |ws|
    ensures Sum(ws, f) == bound * |ws| ==> forall i :: 0 <= i < |ws| ==> f(ws[i]) == bound
    ensures Sum(ws, f) == 0 ==> forall i :: 0 <= i < |ws| ==> f(ws[i]) == 0
  {
    if ws != [] {
      var n := |ws| - 1;
      SumBounds(ws[..n], f, bound);
      assert bound * |ws| == bound * n + bound;
      assert forall i :: 0 <= i < n ==> ws[i] == ws[..n][i];
    }
  }

  lemma {:induction false} HoldersZero(ws: seq<Pc>, x: Task)
    requires forall i :: 0 <= i < |ws| ==> !ws[i].Running?
    ensures Holders(ws, x) == 0
  {
    if ws != [] { HoldersZero(ws[..|ws| - 1], x); }
  }

  // ---- The invariant ----

  predicate Closed(pc: Pc) { pc.Leaving? || pc.Exited? }

  /** The counter is exact, although the decrement adds `size_t(-1)`; nobody is uncounted after construction. */
  ghost predicate Counting(s: State) {
    && 0 < |s.workers| < SIZE_T
    && s.numThreads == Sum(s.workers, Counted)
    && (s.constructed ==> Starting !in s.workers)
    && (!s.constructed ==> s.keepRunning && !s.die && s.testing == s.cleared == multiset{})
  }

  ghost predicate Flags(s: State) {
    && (!s.keepRunning ==> Asleep !in s.workers)
    && (AtQueue in s.workers ==> !s.keepRunning)
    && (s.cut.Some? <==> !s.keepRunning)
    && (s.cut.Some? ==> s.cut.value <= |s.pushed|)
  }

  /** Tasks leave the queue in the order pushed; every popped task is finished or held by one worker. */
  ghost predicate Conservation(s: State) {
    && s.pushed == s.popped + s.queue
    && forall x: Task :: multiset(s.popped)[x] == s.finished[x] + Holders(s.workers, x)
  }

  /** Without `Stop`, a worker leaves only after everything pushed before the cut was popped. */
  ghost predicate LeavesDrained(s: State) {
    !s.die ==> forall i :: 0 <= i < |s.workers| && Closed(s.workers[i]) ==> s.cut.Some? && s.cut.value <= |s.popped|
  }

  /** Without `Stop`, a worker sleeps only while there is an idle worker for every queued task. */
  ghost predicate NoLostWakeup(s: State) {
    !s.die && Asleep in s.workers ==> |s.queue| <= Sum(s.workers, Idle)
  }

  ghost predicate Inv(s: State) {
    Counting(s) && Flags(s) && Conservation(s) && LeavesDrained(s) && NoLostWakeup(s)
  }

  /** As many threads as asked for, all about to start. */
  lemma InitIsIdle(n: nat)
    ensures var s := Init(n);
      && |s.workers| == n && (forall w :: 0 <= w < n ==> s.workers[w] == Starting)
      && s.numThreads == 0 && s.keepRunning && !s.die && s.queue == []
  {
  }

  lemma {:induction false} InitSums(n: nat)
    ensures Sum(Init(n).workers, Counted) == 0 && forall x :: Holders(Init(n).workers, x) == 0
  {
    if n > 0 {
      assert Init(n).workers[..n - 1] == Init(n - 1).workers;
      InitSums(n - 1);
    }
  }

  lemma CounterRange(s: State)
    requires Counting(s)
    ensures s.numThreads <= |s.workers|
    ensures forall i :: 0 <= i < |s.workers| && s.workers[i].Starting? ==> s.numThreads < |s.workers|
    ensures forall i :: 0 <= i < |s.workers| && s.workers[i].Leaving? ==> 0 < s.numThreads
    ensures s.numThreads == |s.workers| ==> Starting !in s.workers
  {
    SumBounds(s.workers, Counted, 1);
  }

  /** Worker `w` moves to `pc`; the queue and the history change as the other arguments say. */
  lemma MoveKeepsConservation(s: State, w: nat, pc: Pc, t: State)
    requires Conservation(s) && w < |s.workers| && t.workers == s.workers[w := pc] && t.pushed == s.pushed
    requires
      || (t.queue == s.queue && t.popped == s.popped && t.finished == s.finished
          && !pc.Running? && !s.workers[w].Running?)
      || (s.queue != [] && t.queue == s.queue[1..] && t.popped == s.popped + [s.queue[0]]
          && t.finished == s.finished && !s.workers[w].Running? && pc == Running(s.queue[0]))
      || (t.queue == s.queue && t.popped == s.popped && s.workers[w].Running? && !pc.Running?
          && t.finished == s.finished + multiset{s.workers[w].task})
    ensures Conservation(t)
  {
    hide Holders;
    forall x: Task ensures multiset(t.popped)[x] == t.finished[x] + Holders(t.workers, x) {
      HoldersUpdate(s.workers, w, pc, x);
      assert multiset(s.popped)[x] == s.finished[x] + Holders(s.workers, x);
    }
    if t.queue != s.queue {
      FirstMoves(s.popped, s.queue);
    }
  }

  lemma FirstMoves<T>(popped: seq<T>, queue: seq<T>)
    requires queue != []
    ensures popped + queue == popped + [queue[0]] + queue[1..]
  {
    assert queue == [queue[0]] + queue[1..];
  }

  lemma Members(ws: seq<Pc>, w: nat, pc: Pc)
    requires w < |ws|
    ensures forall q :: q in ws[w := pc] ==> q in ws || q == pc
  {
  }

  /** Where a worker goes, and whether it takes a task along. */
  function Move(s: State, pc: Pc): Pc {
    match pc
    case Starting => AtDie
    case AtDie => if s.die then Leaving else AtKeepRunning
    case AtKeepRunning => if s.keepRunning then AtWait else AtQueue
    case AtQueue => if s.queue != [] then AtWait else Leaving
    case AtWait => MoveFromWait(s)
    case Woken => MoveFromWait(s)
    case Running(_) => AtDie
    case Leaving => Exited
    case _ => pc
  }

  function MoveFromWait(s: State): Pc {
    if s.queue != [] then Running(s.queue[0]) else if s.keepRunning then Asleep else AtDie
  }

  predicate Pops(s: State, pc: Pc) { (pc.AtWait? || pc.Woken?) && s.queue != [] }

  /** A worker's step, field by field. */
  lemma WorkerMoves(s: State, w: nat)
    requires Enabled(s, Worker(w))
    ensures var t, pc := NextWorker(s, w), s.workers[w];
      && t.workers == s.workers[w := Move(s, pc)] && t.workers[w] == Move(s, pc)
      && t.queue == (if Pops(s, pc) then s.queue[1..] else s.queue)
      && t.popped == (if Pops(s, pc) then s.popped + [s.queue[0]] else s.popped)
      && t.finished == (if pc.Running? then s.finished + multiset{pc.task} else s.finished)
  {
  }

  /** What it leaves alone. */
  lemma WorkerSpares(s: State, w: nat)
    requires Enabled(s, Worker(w))
    ensures var t := NextWorker(s, w);
      && t.keepRunning == s.keepRunning && t.die == s.die && t.constructed == s.constructed
      && t.testing == s.testing && t.cleared == s.cleared && t.pushed == s.pushed && t.cut == s.cut
  {
  }

  lemma WorkerKeepsConservation(s: State, w: nat)
    requires Conservation(s) && Enabled(s, Worker(w))
    ensures Conservation(NextWorker(s, w))
  {
    hide Conservation, NextWorker;
    WorkerMoves(s, w);
    WorkerSpares(s, w);
    MoveKeepsConservation(s, w, Move(s, s.workers[w]), NextWorker(s, w));
  }

  /** The counter follows the step of one worker, without wrapping around. */
  lemma WorkerCounts(s: State, w: nat)
    requires Counting(s) && Enabled(s, Worker(w))
    ensures var t := NextWorker(s, w);
      t.workers[w] != Starting && t.numThreads == s.numThreads - Counted(s.workers[w]) + Counted(t.workers[w])
  {
    CounterRange(s);
    hide Counting, Sum;
    assert s.workers[w].Starting? ==> s.numThreads < |s.workers| < SIZE_T;
  }

  lemma WorkerKeepsCounting(s: State, w: nat)
    requires Counting(s) && Enabled(s, Worker(w))
    ensures Counting(NextWorker(s, w))
  {
    hide NextWorker, Sum, Counted;
    WorkerMoves(s, w);
    WorkerSpares(s, w);
    WorkerCounts(s, w);
    var pc := NextWorker(s, w).workers[w];
    SumUpdate(s.workers, w, pc, Counted);
    Members(s.workers, w, pc);
  }

  lemma WorkerKeepsFlags(s: State, w: nat)
    requires Flags(s) && Enabled(s, Worker(w))
    ensures Flags(NextWorker(s, w))
  {
    hide NextWorker;
    WorkerMoves(s, w);
    WorkerSpares(s, w);
    Members(s.workers, w, Move(s, s.workers[w]));
  }

  /** A worker that stays in the loop does not matter, and one that leaves has to see the queue drained. */
  lemma MoveKeepsLeavesDrained(s: State, w: nat, pc: Pc, t: State)
    requires LeavesDrained(s) && w < |s.workers| && t.workers == s.workers[w := pc]
    requires t.cut == s.cut && t.die == s.die && |s.popped| <= |t.popped|
    requires !t.die && Closed(pc) ==> t.cut.Some? && t.cut.value <= |t.popped|
    ensures LeavesDrained(t)
  {
    forall i | 0 <= i < |t.workers| && Closed(t.workers[i]) && !t.die
      ensures t.cut.Some? && t.cut.value <= |t.popped|
    {
      assert i != w ==> s.workers[i] == t.workers[i];
    }
  }

  /** A worker leaves only when it has found the queue empty, or has left already. */
  lemma LeaverSawAllPopped(s: State, w: nat)
    requires Flags(s) && LeavesDrained(s) && Conservation(s) && Enabled(s, Worker(w))
    requires !s.die && Closed(NextWorker(s, w).workers[w])
    ensures s.cut.Some? && s.cut.value <= |s.popped|
  {
    hide NextWorker;
    WorkerMoves(s, w);
    WorkerSpares(s, w);
    var pc := s.workers[w];
    assert pc in s.workers;
    match pc
    case AtQueue => assert s.queue == [];
    case Leaving => assert Closed(s.workers[w]);
    case _ =>
  }

  lemma WorkerKeepsLeavesDrained(s: State, w: nat)
    requires Flags(s) && LeavesDrained(s) && Conservation(s) && Enabled(s, Worker(w))
    ensures LeavesDrained(NextWorker(s, w))
  {
    hide LeavesDrained, Flags, Conservation, NextWorker;
    WorkerMoves(s, w);
    WorkerSpares(s, w);
    var t := NextWorker(s, w);
    if !s.die && Closed(t.workers[w]) {
      LeaverSawAllPopped(s, w);
    }
    MoveKeepsLeavesDrained(s, w, t.workers[w], t);
  }

  lemma WorkerKeepsNoLostWakeup(s: State, w: nat)
    requires Flags(s) && NoLostWakeup(s) && Enabled(s, Worker(w))
    ensures NoLostWakeup(NextWorker(s, w))
  {
    hide NextWorker, Sum;
    WorkerMoves(s, w);
    WorkerSpares(s, w);
    SumUpdate(s.workers, w, Move(s, s.workers[w]), Idle);
    Members(s.workers, w, Move(s, s.workers[w]));
    SumCovers(s.workers, w, Idle);
  }

  lemma SpuriousKeepsInv(s: State, w: nat)
    requires Inv(s) && w < |s.workers| && s.workers[w] == Asleep
    ensures Inv(Goto(s, w, Woken))
    ensures Sum(Goto(s, w, Woken).workers, Idle) == Sum(s.workers, Idle) + 1
  {
    SumUpdate(s.workers, w, Woken, Counted);
    SumUpdate(s.workers, w, Woken, Idle);
    MoveKeepsConservation(s, w, Woken, Goto(s, w, Woken));
  }

  lemma NotifyKeepsInv(s: State, sleeper: Option<nat>)
    requires Inv(s) && NotifyChoice(s.workers, sleeper)
    ensures Inv(s.(workers := Notify(s.workers, sleeper)))
    ensures Asleep in s.workers ==> Sum(Notify(s.workers, sleeper), Idle) == Sum(s.workers, Idle) + 1
  {
    if sleeper.Some? {
      SpuriousKeepsInv(s, sleeper.value);
    }
  }

  lemma PushKeepsInv(s: State, task: Task, sleeper: Option<nat>)
    requires Inv(s) && Enabled(s, PostPush(task, sleeper))
    ensures Inv(Next(s, PostPush(task, sleeper)))
  {
    NotifyKeepsInv(s, sleeper);
  }

  lemma JoinStoreKeepsInv(s: State)
    requires Inv(s) && Enabled(s, JoinStore)
    ensures Inv(Next(s, JoinStore))
  {
    NotifyAllSums(s.workers);
    var t := Next(s, JoinStore);
    forall i | 0 <= i < |t.workers| && Closed(t.workers[i]) && !t.die
      ensures t.cut.Some? && t.cut.value <= |t.popped|
    {
      assert t.workers[i] == s.workers[i];
    }
  }

  lemma WorkerKeepsInv(s: State, w: nat)
    requires Inv(s) && Enabled(s, Worker(w))
    ensures Inv(NextWorker(s, w))
  {
    hide Counting, Flags, Conservation, LeavesDrained, NoLostWakeup, NextWorker;
    WorkerKeepsCounting(s, w);
    WorkerKeepsFlags(s, w);
    WorkerKeepsLeavesDrained(s, w);
    WorkerKeepsNoLostWakeup(s, w);
    WorkerKeepsConservation(s, w);
  }

  /** Every step of every thread keeps the invariant. */
  lemma StepKeepsInv(s: State, a: Action)
    requires Inv(s) && Enabled(s, a)
    ensures Inv(Next(s, a))
  {
    match a
    case Worker(w) => WorkerKeepsInv(s, w);
    case Spurious(w) => SpuriousKeepsInv(s, w);
    case Construct => CounterRange(s);
    case PostTestKeepRunning(t) =>
    case PostTestDie(t) =>
    case PostPush(t, sleeper) => PushKeepsInv(s, t, sleeper);
    case CountTasks(sleeper) => NotifyKeepsInv(s, sleeper);
    case JoinStore => JoinStoreKeepsInv(s);
    case StopStore =>
  }

  lemma {:induction false} RunKeepsInv(s: State, acts: seq<Action>, t: State)
    requires Inv(s) && Reaches(s, acts, t)
    ensures Inv(t)
    decreases |acts|
  {
    if acts != [] {
      StepKeepsInv(s, acts[0]);
      RunKeepsInv(Next(s, acts[0]), acts[1..], t);
    }
  }

  lemma ReachableInv(n: nat, acts: seq<Action>, s: State)
    requires 0 < n < SIZE_T && Reaches(Init(n), acts, s)
    ensures Inv(s)
  {
    InitSums(n);
    RunKeepsInv(Init(n), acts, s);
  }
}
