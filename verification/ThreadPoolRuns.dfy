/** What holds of every run of the thread pool: conservation, wakeups, and what `Join` and `Stop` achieve. */
module ThreadPoolRuns {
  import opened Machine
  import opened Wrappers
  import opened ThreadPoolSteps

  /** In every reachable state tasks are neither lost, duplicated nor reordered, and the counter is exact. */
  lemma TasksAreConserved(n: nat, acts: seq<Action>, s: State)
    requires 0 < n < SIZE_T && Reaches(Init(n), acts, s)
    ensures s.pushed == s.popped + s.queue
    ensures forall x: Task :: multiset(s.popped)[x] == s.finished[x] + Holders(s.workers, x)
    ensures s.numThreads == Sum(s.workers, Counted)
  {
    ReachableInv(n, acts, s);
  }

  /** Work conservation: a worker sleeps only while every queued task has an idle worker awake for it. */
  lemma WakeupsAreNotLost(n: nat, acts: seq<Action>, s: State)
    requires 0 < n < SIZE_T && Reaches(Init(n), acts, s)
    requires !s.die && Asleep in s.workers
    ensures s.keepRunning && |s.queue| <= Sum(s.workers, Idle)
  {
    ReachableInv(n, acts, s);
  }

  // ---- Join ----

  predicate AllExited(s: State) {
    forall i :: 0 <= i < |s.workers| ==> s.workers[i] == Exited
  }

  /** `Join` spins until it reads zero; with the flag down that means every worker has exited. */
  lemma ZeroMeansAllExited(s: State)
    requires Inv(s) && !s.keepRunning
    ensures s.numThreads == 0 <==> AllExited(s)
  {
    SumBounds(s.workers, Counted, 1);
    if AllExited(s) {
      AllExitedSum(s.workers);
    }
  }

  lemma {:induction false} AllExitedSum(ws: seq<Pc>)
    requires forall i :: 0 <= i < |ws| ==> ws[i] == Exited
    ensures Sum(ws, Counted) == 0
  {
    if ws != [] { AllExitedSum(ws[..|ws| - 1]); }
  }

  /** Once everybody has exited without `Stop`, exactly the popped tasks have finished, each once. */
  lemma ExitedStateIsDrained(s: State)
    requires Inv(s) && !s.keepRunning && !s.die && s.numThreads == 0
    ensures s.cut.value <= |s.popped| && s.popped <= s.pushed
    ensures s.finished == multiset(s.popped)
    ensures s.cut.value == |s.pushed| ==> s.queue == []
  {
    ZeroMeansAllExited(s);
    assert Closed(s.workers[0]);
    forall x: Task ensures s.finished[x] == multiset(s.popped)[x] {
      HoldersZero(s.workers, x);
      assert multiset(s.popped)[x] == s.finished[x] + Holders(s.workers, x);
    }
  }

  /** When `Join` returns and `Stop` was never called, every task pushed before the flag
      went down has finished, and what has finished is what was popped, each task once. */
  lemma JoinDrains(n: nat, acts: seq<Action>, s: State)
    requires 0 < n < SIZE_T && Reaches(Init(n), acts, s)
    requires !s.keepRunning && !s.die && s.numThreads == 0
    ensures s.cut.Some? && s.cut.value <= |s.pushed|
    ensures s.finished == multiset(s.popped) && s.popped <= s.pushed
    ensures multiset(s.pushed[..s.cut.value]) <= s.finished
    ensures s.cut.value == |s.pushed| ==> s.finished == multiset(s.pushed) && s.queue == []
  {
    ReachableInv(n, acts, s);
    ExitedStateIsDrained(s);
    var k := s.cut.value;
    assert s.popped == s.popped[..k] + s.popped[k..];
    assert s.pushed[..k] == s.popped[..k];
  }

  /** The tasks of the calls of `Post` that pushed, in the order in which they did. */
  function PushedBy(acts: seq<Action>): seq<Task> {
    if acts == [] then [] else (if acts[0].PostPush? then [acts[0].task] else []) + PushedBy(acts[1..])
  }

  /** What one step adds to the history. */
  lemma StepHistory(s: State, a: Action)
    requires Enabled(s, a)
    ensures var t := Next(s, a);
      && t.pushed == s.pushed + (if a.PostPush? then [a.task] else [])
      && (s.cut.Some? ==> t.cut == s.cut) && (!s.keepRunning ==> !t.keepRunning)
  {
    hide NextWorker;
    if a.Worker? { WorkerSpares(s, a.w); }
  }

  /** What is queued in a run is what `Post` was called with, in the order of the pushes. */
  lemma {:induction false} PostedIsPushed(s: State, acts: seq<Action>, t: State)
    requires Reaches(s, acts, t)
    ensures t.pushed == s.pushed + PushedBy(acts)
    ensures (s.cut.Some? ==> t.cut == s.cut) && (!s.keepRunning ==> !t.keepRunning)
    decreases |acts|
  {
    if acts == [] {
      assert s.pushed + [] == s.pushed;
    } else {
      hide Next, Enabled;
      var u := Next(s, acts[0]);
      StepHistory(s, acts[0]);
      PostedIsPushed(u, acts[1..], t);
      Associate(s.pushed, if acts[0].PostPush? then [acts[0].task] else [], PushedBy(acts[1..]));
    }
  }

  lemma Associate<T>(a: seq<T>, b: seq<T>, c: seq<T>)
    ensures (a + b) + c == a + (b + c)
  {
  }

  /** How often `Post` has been called with a task, and how often it has pushed it. */
  function Calls(acts: seq<Action>, x: Task): nat {
    if acts == [] then 0 else (if acts[0] == PostTestKeepRunning(x) then 1 else 0) + Calls(acts[1..], x)
  }

  function Pushes(acts: seq<Action>, x: Task): nat {
    if acts == [] then 0
    else (if acts[0].PostPush? && acts[0].task == x then 1 else 0) + Pushes(acts[1..], x)
  }

  lemma StepCalls(s: State, a: Action, x: Task)
    requires Enabled(s, a)
    ensures var t := Next(s, a);
      t.testing[x] + t.cleared[x] + (if a.PostPush? && a.task == x then 1 else 0) <=
        s.testing[x] + s.cleared[x] + (if a == PostTestKeepRunning(x) then 1 else 0)
  {
    hide NextWorker;
    if a.Worker? { WorkerSpares(s, a.w); }
  }

  /** No task is pushed more often than `Post` was called with it. */
  lemma {:induction false} PushedWasCalled(s: State, acts: seq<Action>, t: State, x: Task)
    requires Reaches(s, acts, t)
    ensures Pushes(acts, x) + t.testing[x] + t.cleared[x] <= s.testing[x] + s.cleared[x] + Calls(acts, x)
    decreases |acts|
  {
    if acts != [] {
      hide Next, Enabled;
      StepCalls(s, acts[0], x);
      PushedWasCalled(Next(s, acts[0]), acts[1..], t, x);
    }
  }

  /**
   `Join` waits for what was posted: the tasks of the `Post` calls that pushed before the flag went
   down have all finished when `Join` reads zero and `Stop` was never called, as often as they were
   posted; and if no `Post` pushed after that, nothing else has finished.
   */
  lemma JoinFinishesPosted(
    n: nat, before: seq<Action>, s: State, after: seq<Action>, t: State)
    requires 0 < n < SIZE_T && Reaches(Init(n), before, s) && s.keepRunning && Enabled(s, JoinStore)
    requires Reaches(Next(s, JoinStore), after, t) && !t.die && t.numThreads == 0
    ensures multiset(PushedBy(before)) <= t.finished
    ensures t.finished <= multiset(PushedBy(before) + PushedBy(after))
    ensures PushedBy(after) == [] ==> t.finished == multiset(PushedBy(before)) && t.queue == []
  {
    var u := Next(s, JoinStore);
    ReachableInv(n, before, s);
    StepKeepsInv(s, JoinStore);
    RunKeepsInv(u, after, t);
    PostedIsPushed(Init(n), before, s);
    StepHistory(s, JoinStore);
    assert u.cut == Some(|s.pushed|) && s.pushed + [] == s.pushed by { hide Conservation; assert Flags(s); }
    hide *;
    PostedIsPushed(u, after, t);
    assert [] + PushedBy(before) == PushedBy(before);
    ExitedStateIsDrained(t);
    Drained(t, PushedBy(before), PushedBy(after));
  }

  lemma Drained(t: State, before: seq<Task>, after: seq<Task>)
    requires t.cut == Some(|before|) && t.pushed == before + after && t.popped <= t.pushed && |before| <= |t.popped|
    requires t.finished == multiset(t.popped) && (t.cut.value == |t.pushed| ==> t.queue == [])
    ensures multiset(before) <= t.finished <= multiset(before + after)
    ensures after == [] ==> t.finished == multiset(before) && t.queue == []
  {
    var rest := t.popped[|before|..];
    assert t.popped == before + rest && t.pushed == t.popped + t.pushed[|t.popped|..];
    if after == [] { assert before + [] == before && t.popped == before; }
  }

  // ---- Join returns ----

  function BusyWeight(pc: Pc): nat {
    match pc
    case Leaving => 1
    case AtWait => 1
    case Woken => 1
    case AtQueue => 2
    case AtKeepRunning => 3
    case AtDie => 4
    case Running(_) => 5
    case _ => 0
  }

  /** With an empty queue the wait returns empty-handed and the worker goes round once more. */
  function DrainedWeight(pc: Pc): nat {
    if pc.AtWait? || pc.Woken? then 5 else BusyWeight(pc)
  }

  function Weights(s: State): nat {
    if s.queue == [] then Sum(s.workers, DrainedWeight) else Sum(s.workers, BusyWeight)
  }

  /** What one queued task is worth: more than all the weights together. */
  function TaskWorth(s: State): nat { 5 * |s.workers| + 1 }

  function Measure(s: State): nat {
    var k := TaskWorth(s);
    (2 * k + 1) * |s.testing| + 2 * k * |s.cleared| + k * |s.queue| + Weights(s)
  }

  /** The steps that move a worker, or a `Post` already under way, forward. */
  predicate IsProgress(a: Action) {
    a.Worker? || a.PostTestDie? || a.PostPush?
  }

  lemma WeightsBound(s: State)
    ensures Weights(s) < TaskWorth(s)
  {
    SumBounds(s.workers, DrainedWeight, 5);
    SumBounds(s.workers, BusyWeight, 5);
  }

  lemma WeightsFall(s: State, w: nat)
    requires Inv(s) && !s.keepRunning && Enabled(s, Worker(w)) && NextWorker(s, w).queue == s.queue
    ensures Weights(NextWorker(s, w)) < Weights(s)
  {
    hide Inv, NextWorker, DrainedWeight, BusyWeight, Sum;
    WorkerMoves(s, w);
    WeightFalls(s, w);
    var pc := NextWorker(s, w).workers[w];
    SumUpdate(s.workers, w, pc, DrainedWeight);
    SumUpdate(s.workers, w, pc, BusyWeight);
  }

  lemma WeightFalls(s: State, w: nat)
    requires Inv(s) && !s.keepRunning && Enabled(s, Worker(w)) && NextWorker(s, w).queue == s.queue
    ensures
      var was, pc := s.workers[w], NextWorker(s, w).workers[w];
      if s.queue == [] then DrainedWeight(pc) < DrainedWeight(was) else BusyWeight(pc) < BusyWeight(was)
  {
    hide Conservation, LeavesDrained, NoLostWakeup, NextWorker, Sum;
    WorkerMoves(s, w);
    assert s.workers[w] in s.workers;
    assert s.queue != [] ==> |s.queue[1..]| != |s.queue|;
  }

  lemma WorkerLowersMeasure(s: State, w: nat)
    requires Inv(s) && !s.keepRunning && Enabled(s, Worker(w))
    ensures Measure(NextWorker(s, w)) < Measure(s)
  {
    hide Inv, NextWorker, Weights;
    WorkerMoves(s, w);
    WorkerSpares(s, w);
    var t := NextWorker(s, w);
    var k := TaskWorth(s);
    assert TaskWorth(t) == k;
    if t.queue == s.queue {
      WeightsFall(s, w);
    } else {
      WeightsBound(t);
      assert |s.queue| == |t.queue| + 1;
      PopPays(k, |t.queue|);
    }
  }

  lemma PopPays(k: nat, q: nat)
    ensures k * (q + 1) == k * q + k
  {
  }

  lemma PushLowersMeasure(s: State, task: Task, sleeper: Option<nat>)
    requires Inv(s) && !s.keepRunning && Enabled(s, PostPush(task, sleeper))
    ensures Measure(Next(s, PostPush(task, sleeper))) < Measure(s)
  {
    var t := Next(s, PostPush(task, sleeper));
    var k := TaskWorth(s);
    assert sleeper.None?;
    WeightsBound(t);
    assert |s.cleared| == |t.cleared| + 1;
    assert 2 * k * |s.cleared| == 2 * k * |t.cleared| + 2 * k;
    assert k * |t.queue| == k * |s.queue| + k;
  }

  lemma TestLowersMeasure(s: State, task: Task)
    requires task in s.testing
    ensures Measure(Next(s, PostTestDie(task))) < Measure(s)
  {
    var t := Next(s, PostTestDie(task));
    assert |s.testing| == |t.testing| + 1 && |t.cleared| <= |s.cleared| + 1;
    assert TaskWorth(t) == TaskWorth(s) && Weights(t) == Weights(s) && t.queue == s.queue;
    LessWork(2 * TaskWorth(s), |t.testing|, |t.cleared|, |s.cleared|);
    hide Weights, TaskWorth;
  }

  lemma LessWork(c: nat, n: nat, a: nat, b: nat)
    requires a <= b + 1
    ensures (c + 1) * n + c * a < (c + 1) * (n + 1) + c * b
  {
    Distribute(c + 1, n, 1);
    Distribute(c, a, b + 1 - a);
    Distribute(c, b, 1);
  }

  lemma Distribute(c: nat, x: nat, y: nat)
    ensures c * (x + y) == c * x + c * y && c * x >= 0
  {
  }

  /** After the flag went down, no step raises the measure and every progress step lowers it. */
  lemma StepLowersMeasure(s: State, a: Action)
    requires Inv(s) && !s.keepRunning && Enabled(s, a)
    ensures !Next(s, a).keepRunning
    ensures Measure(Next(s, a)) + (if IsProgress(a) then 1 else 0) <= Measure(s)
  {
    match a
    case Worker(w) => WorkerLowersMeasure(s, w);
    case PostTestDie(t) => TestLowersMeasure(s, t);
    case PostPush(t, sleeper) => PushLowersMeasure(s, t, sleeper);
    case JoinStore => assert NotifyAll(s.workers) == s.workers;
    case _ =>
  }

  function ProgressSteps(acts: seq<Action>): nat {
    if acts == [] then 0 else (if IsProgress(acts[0]) then 1 else 0) + ProgressSteps(acts[1..])
  }

  lemma {:induction false} RunLowersMeasure(s: State, acts: seq<Action>, t: State)
    requires Inv(s) && !s.keepRunning && Reaches(s, acts, t)
    ensures Inv(t) && !t.keepRunning
    ensures ProgressSteps(acts) + Measure(t) <= Measure(s)
    decreases |acts|
  {
    if acts != [] {
      StepKeepsInv(s, acts[0]);
      StepLowersMeasure(s, acts[0]);
      RunLowersMeasure(Next(s, acts[0]), acts[1..], t);
    }
  }

  /**
   `Join` returns, late `Post` calls included: after its store of the flag any run has at most
   `Measure` progress steps, nobody ever sleeps again, and as long as the counter is not zero
   some worker can step.
   */
  lemma JoinReturns(n: nat, acts: seq<Action>, s: State, more: seq<Action>, t: State)
    requires 0 < n < SIZE_T && Reaches(Init(n), acts, s) && !s.keepRunning && Reaches(s, more, t)
    ensures ProgressSteps(more) <= Measure(s)
    ensures Asleep !in t.workers
    ensures t.numThreads == 0 <==> forall w: nat :: !Enabled(t, Worker(w))
  {
    ReachableInv(n, acts, s);
    RunLowersMeasure(s, more, t);
    ZeroMeansAllExited(t);
    if forall w: nat :: !Enabled(t, Worker(w)) {
      forall i | 0 <= i < |t.workers| ensures t.workers[i] == Exited {
        assert !Enabled(t, Worker(i));
        assert t.workers[i] in t.workers;
      }
    }
  }

  // ---- Which tasks Join can lose ----

  lemma {:induction false} RunsCompose(s: State, a: seq<Action>, t: State, b: seq<Action>, u: State)
    requires Reaches(s, a, t) && Reaches(t, b, u)
    ensures Reaches(s, a + b, u)
    decreases |a|
  {
    hide Next, Enabled;
    if a == [] {
      assert a + b == b;
    } else {
      RunsCompose(Next(s, a[0]), a[1..], t, b, u);
      assert (a + b)[1..] == a[1..] + b;
    }
  }

  lemma {:induction false} Extend(s: State, acts: seq<Action>, t: State, a: Action)
    requires Reaches(s, acts, t) && Enabled(t, a)
    ensures Reaches(s, acts + [a], Next(t, a))
  {
    assert [a][1..] == [];
    assert Reaches(t, [a], Next(t, a));
    RunsCompose(s, acts, t, [a], Next(t, a));
  }

  lemma WorkerStepFrame(s: State, w: nat)
    requires Inv(s) && !s.keepRunning && Enabled(s, Worker(w))
    ensures var t := Next(s, Worker(w));
      && Inv(t) && !t.keepRunning && Measure(t) < Measure(s)
      && t.testing == s.testing && t.cleared == s.cleared && t.die == s.die && t.pushed == s.pushed && t.cut == s.cut
  {
    hide Inv, NextWorker, Measure;
    WorkerSpares(s, w);
    StepKeepsInv(s, Worker(w));
    WorkerLowersMeasure(s, w);
  }

  /** The workers alone can always run the pool to its end. */
  lemma {:induction false} WorkersCanFinish(s: State) returns (acts: seq<Action>, t: State)
    requires Inv(s) && !s.keepRunning
    ensures Reaches(s, acts, t) && Inv(t) && !t.keepRunning && t.numThreads == 0
    ensures t.testing == s.testing && t.cleared == s.cleared && t.die == s.die && t.pushed == s.pushed && t.cut == s.cut
    decreases Measure(s)
  {
    if AllExited(s) {
      ZeroMeansAllExited(s);
      acts, t := [], s;
    } else {
      var w: nat :| w < |s.workers| && s.workers[w] != Exited;
      assert s.workers[w] in s.workers;
      var u := Next(s, Worker(w));
      WorkerStepFrame(s, w);
      var rest;
      rest, t := WorkersCanFinish(u);
      acts := [Worker(w)] + rest;
      assert acts[0] == Worker(w) && acts[1..] == rest;
    }
  }

  /** With no `Post` under way when the flag is down, nothing is ever pushed again. */
  lemma {:induction false} NoLatePush(s: State, acts: seq<Action>, t: State)
    requires !s.keepRunning && s.testing == s.cleared == multiset{} && Reaches(s, acts, t)
    ensures t.pushed == s.pushed
    ensures s.cut.Some? ==> t.cut == s.cut
    decreases |acts|
  {
    if acts != [] {
      hide NextWorker;
      if acts[0].Worker? { WorkerSpares(s, acts[0].w); }
      NoLatePush(Next(s, acts[0]), acts[1..], t);
    }
  }

  /** Some continuation of `s` without `Stop` ends with `Join` returned and a pushed task left in the queue. */
  ghost predicate CanStrandTask(s: State) {
    exists acts, t :: Strands(s, acts, t)
  }

  ghost predicate Strands(s: State, acts: seq<Action>, t: State) {
    Reaches(s, acts, t) && !t.die && t.numThreads == 0 && t.queue != []
  }

  lemma LatePostStrands(s: State, task: Task)
    requires Inv(s) && !s.keepRunning && !s.die && task in s.cleared
    ensures CanStrandTask(s)
  {
    var acts, t := WorkersCanFinish(s);
    ZeroMeansAllExited(t);
    assert Asleep !in t.workers;
    var push := PostPush(task, None);
    var u := Next(t, push);
    assert Reaches(t, [push], u) by { assert [push][1..] == []; }
    RunsCompose(s, acts, t, [push], u);
    assert Strands(s, acts + [push], u);
  }

  /**
   `Join` promises nothing about a `Post` that passed its flag tests but not yet its push:
   right after the flag went down, a task can be stranded exactly when such a `Post` exists.
   */
  lemma JoinStrandsIffPostUnderWay(n: nat, acts: seq<Action>, s: State)
    requires 0 < n < SIZE_T && Reaches(Init(n), acts, s)
    requires !s.keepRunning && !s.die && s.cut == Some(|s.pushed|)
    ensures CanStrandTask(s) <==> s.testing + s.cleared != multiset{}
  {
    ReachableInv(n, acts, s);
    if CanStrandTask(s) && s.testing + s.cleared == multiset{} {
      var more, t :| Strands(s, more, t);
      assert s.testing == s.cleared == multiset{} by {
        assert s.testing <= s.testing + s.cleared && s.cleared <= s.testing + s.cleared;
      }
      NoLatePush(s, more, t);
      RunKeepsInv(s, more, t);
      RunLowersMeasure(s, more, t);
      ExitedStateIsDrained(t);
      assert false;
    }
    if s.cleared != multiset{} {
      var task :| task in s.cleared;
      LatePostStrands(s, task);
    } else if s.testing != multiset{} {
      var task :| task in s.testing;
      var test := PostTestDie(task);
      StepKeepsInv(s, test);
      var u := Next(s, test);
      LatePostStrands(u, task);
      var more, t :| Strands(u, more, t);
      assert ([test] + more)[1..] == more;
      assert Strands(s, [test] + more, t);
    }
  }

  /** A `Post` can be under way in that way: it passes its first test just before `Join` lowers the flag. */
  lemma PostCanBeUnderWay() returns (acts: seq<Action>, s: State)
    ensures Reaches(Init(1), acts, s) && CanStrandTask(s)
    ensures !s.keepRunning && !s.die && s.cut == Some(|s.pushed|) && s.testing + s.cleared != multiset{}
  {
    var s0 := Init(1);
    var s1 := Next(s0, Worker(0));
    Extend(s0, [], s0, Worker(0));
    var s2 := Next(s1, Construct);
    Extend(s0, [] + [Worker(0)], s1, Construct);
    var s3 := Next(s2, PostTestKeepRunning(0));
    Extend(s0, [] + [Worker(0)] + [Construct], s2, PostTestKeepRunning(0));
    s := Next(s3, JoinStore);
    Extend(s0, [] + [Worker(0)] + [Construct] + [PostTestKeepRunning(0)], s3, JoinStore);
    acts := [] + [Worker(0)] + [Construct] + [PostTestKeepRunning(0)] + [JoinStore];
    assert 0 in s.testing;
    JoinStrandsIffPostUnderWay(1, acts, s);
  }

  // ---- Stop ----

  predicate Accepts(s: State) { s.keepRunning && !s.die }

  /** Tasks that are in the pool, or whose `Post` may still push them. */
  function Admitted(s: State): nat {
    |s.pushed| + |s.cleared| + if s.die then 0 else |s.testing|
  }

  /** After `Join` or `Stop` no further task gets in: only a `Post` already past its tests can still push. */
  lemma {:induction false} ClosedPoolAdmitsNothing(s: State, acts: seq<Action>, t: State)
    requires !Accepts(s) && Reaches(s, acts, t)
    ensures !Accepts(t) && Admitted(t) <= Admitted(s)
    decreases |acts|
  {
    if acts != [] {
      ClosedStep(s, acts[0]);
      ClosedPoolAdmitsNothing(Next(s, acts[0]), acts[1..], t);
    }
  }

  lemma ClosedStep(s: State, a: Action)
    requires !Accepts(s) && Enabled(s, a)
    ensures !Accepts(Next(s, a)) && Admitted(Next(s, a)) <= Admitted(s)
  {
    if a.Worker? { WorkerSpares(s, a.w); }
    hide NextWorker, Notify, NotifyAll, NotifyChoice;
  }

  /** Everything but the notifications: worker steps, flag tests of `Post`, and `Stop` itself. */
  predicate IsSilent(a: Action) {
    a.Worker? || a.PostTestKeepRunning? || a.PostTestDie? || a.StopStore?
  }

  lemma SilentStepFrame(s: State, a: Action, w: nat)
    requires w < |s.workers| && s.workers[w] == Asleep && IsSilent(a) && Enabled(s, a)
    ensures w < |Next(s, a).workers| && Next(s, a).workers[w] == Asleep
  {
    hide NextWorker;
    if a.Worker? {
      WorkerMoves(s, a.w);
    }
  }

  /** `Stop` notifies nobody: a sleeping worker sleeps on until a notification or a spurious wakeup. */
  lemma {:induction false} StopLeavesSleepers(s: State, acts: seq<Action>, t: State, w: nat)
    requires w < |s.workers| && s.workers[w] == Asleep
    requires (forall i :: 0 <= i < |acts| ==> IsSilent(acts[i])) && Reaches(s, acts, t)
    ensures w < |t.workers| && t.workers[w] == Asleep
    decreases |acts|
  {
    if acts != [] {
      SilentStepFrame(s, acts[0], w);
      StopLeavesSleepers(Next(s, acts[0]), acts[1..], t, w);
    }
  }

  /** On the way into the wait, or about to test its predicate again. */
  function HeadsForWait(pc: Pc): nat {
    if pc.AtKeepRunning? || pc.AtWait? || pc.Woken? then 1 else 0
  }

  /** Somebody sleeps, or more workers head for the wait than there are tasks to send them on. */
  predicate MayHang(s: State) {
    Asleep in s.workers || (s.keepRunning && Sum(s.workers, HeadsForWait) > |s.queue|)
  }

  predicate AllSilent(acts: seq<Action>) {
    forall i :: 0 <= i < |acts| ==> IsSilent(acts[i])
  }

  ghost predicate LeadsToSleep(s: State, acts: seq<Action>, t: State) {
    AllSilent(acts) && Reaches(s, acts, t) && Asleep in t.workers
  }

  /** Some run of the workers and of flag tests alone ends with a worker asleep, for which `Stop` waits. */
  ghost predicate CanHang(s: State) {
    exists acts, t :: LeadsToSleep(s, acts, t)
  }

  /** The same of a run of any steps. */
  ghost predicate EndsAsleep(s: State, acts: seq<Action>, t: State) {
    Reaches(s, acts, t) && Asleep in t.workers
  }

  ghost predicate CanSleep(s: State) {
    exists acts, t :: EndsAsleep(s, acts, t)
  }

  /** After `Stop` no worker goes round the loop again, so each has a bounded way to go. */
  function StepsLeft(pc: Pc): nat {
    match pc
    case Starting => 7
    case AtKeepRunning => 6
    case AtQueue => 5
    case AtWait => 4
    case Woken => 4
    case Running(_) => 3
    case AtDie => 2
    case Leaving => 1
    case Asleep => 0
    case Exited => 0
  }

  /** With `die_` set, a worker's step keeps the verdict and lowers what is left to do. */
  lemma DyingStep(s: State, w: nat)
    requires Inv(s) && s.die && Enabled(s, Worker(w))
    ensures var t := NextWorker(s, w);
      && Inv(t) && t.die && Sum(t.workers, StepsLeft) < Sum(s.workers, StepsLeft)
      && (MayHang(t) ==> MayHang(s))
  {
    StepKeepsInv(s, Worker(w));
    DyingStepCounts(s, w);
    var t := NextWorker(s, w);
    Members(s.workers, w, t.workers[w]);
    hide Inv;
  }

  lemma DyingStepCounts(s: State, w: nat)
    requires Inv(s) && s.die && Enabled(s, Worker(w))
    ensures var t := NextWorker(s, w);
      && t.workers == s.workers[w := t.workers[w]] && t.keepRunning == s.keepRunning && t.die
      && Sum(t.workers, StepsLeft) < Sum(s.workers, StepsLeft)
      && (t.workers[w] == Asleep ==> s.keepRunning && s.queue == [] && Sum(s.workers, HeadsForWait) > 0)
      && (s.keepRunning ==> Sum(t.workers, HeadsForWait) - |t.queue| <= Sum(s.workers, HeadsForWait) - |s.queue|)
  {
    hide Inv, NextWorker, StepsLeft, HeadsForWait, Sum;
    WorkerMoves(s, w);
    WorkerSpares(s, w);
    DyingMove(s, w);
    var pc := NextWorker(s, w).workers[w];
    SumUpdate(s.workers, w, pc, StepsLeft);
    SumUpdate(s.workers, w, pc, HeadsForWait);
    SumCovers(s.workers, w, HeadsForWait);
  }

  /** The same of the one worker that moves. */
  lemma DyingMove(s: State, w: nat)
    requires Inv(s) && s.die && Enabled(s, Worker(w))
    ensures var t := NextWorker(s, w);
      var was, pc := s.workers[w], t.workers[w];
      && StepsLeft(pc) < StepsLeft(was)
      && (pc == Asleep ==> s.keepRunning && s.queue == [] && HeadsForWait(was) == 1)
      && (s.keepRunning ==> HeadsForWait(pc) - |t.queue| <= HeadsForWait(was) - |s.queue|)
  {
    hide Counting, Conservation, LeavesDrained, NoLostWakeup, NextWorker;
    WorkerMoves(s, w);
    assert s.workers[w] in s.workers;
  }

  /** Where `Stop` cannot hang, no step at all makes it possible: a task that is pushed only helps. */
  lemma DyingAction(s: State, a: Action)
    requires Inv(s) && s.die && !MayHang(s) && Enabled(s, a)
    ensures var t := Next(s, a);
      && Inv(t) && t.die && !MayHang(t)
      && Sum(t.workers, StepsLeft) + (if a.Worker? then 1 else 0) <= Sum(s.workers, StepsLeft)
  {
    StepKeepsInv(s, a);
    hide Inv, NextWorker, Sum;
    if a.Worker? {
      DyingStep(s, a.w);
    } else if a.JoinStore? {
      assert NotifyAll(s.workers) == s.workers;
    } else {
      assert Next(s, a).workers == s.workers;
    }
  }

  lemma {:induction false} DyingRun(s: State, acts: seq<Action>, t: State)
    requires Inv(s) && s.die && !MayHang(s) && Reaches(s, acts, t)
    ensures Inv(t) && t.die && !MayHang(t)
    ensures WorkerSteps(acts) + Sum(t.workers, StepsLeft) <= Sum(s.workers, StepsLeft)
    decreases |acts|
  {
    if acts != [] {
      hide Inv, MayHang, Next, Enabled;
      DyingAction(s, acts[0]);
      DyingRun(Next(s, acts[0]), acts[1..], t);
    }
  }

  function WorkerSteps(acts: seq<Action>): nat {
    if acts == [] then 0 else (if acts[0].Worker? then 1 else 0) + WorkerSteps(acts[1..])
  }

  /** A surplus of workers that head for the wait sends one of them to sleep. */
  lemma {:induction false} SurplusFallsAsleep(s: State) returns (acts: seq<Action>, t: State)
    requires Inv(s) && s.die && MayHang(s)
    ensures LeadsToSleep(s, acts, t)
    decreases Sum(s.workers, StepsLeft)
  {
    if Asleep in s.workers {
      acts, t := [], s;
    } else {
      var w := SomebodyHeads(s.workers);
      DyingStep(s, w);
      SurplusStays(s, w);
      var u := Next(s, Worker(w));
      hide *;
      acts, t := SurplusFallsAsleep(u);
      PrependSilent(s, Worker(w), acts, t);
      acts := [Worker(w)] + acts;
    }
  }

  lemma PrependRun(s: State, a: Action, acts: seq<Action>, t: State)
    requires Enabled(s, a) && IsSilent(a) && AllSilent(acts) && Reaches(Next(s, a), acts, t)
    ensures AllSilent([a] + acts) && Reaches(s, [a] + acts, t)
  {
    hide Next, Enabled, IsSilent;
    assert ([a] + acts)[1..] == acts;
  }

  lemma PrependSilent(s: State, a: Action, acts: seq<Action>, t: State)
    requires Enabled(s, a) && IsSilent(a) && LeadsToSleep(Next(s, a), acts, t)
    ensures LeadsToSleep(s, [a] + acts, t)
  {
    hide AllSilent, Reaches, IsSilent;
    PrependRun(s, a, acts, t);
  }

  lemma {:induction false} SomebodyHeads(ws: seq<Pc>) returns (w: nat)
    requires Sum(ws, HeadsForWait) > 0
    ensures w < |ws| && HeadsForWait(ws[w]) == 1
  {
    var n := |ws| - 1;
    if HeadsForWait(ws[n]) == 1 {
      w := n;
    } else {
      w := SomebodyHeads(ws[..n]);
    }
  }

  lemma SurplusStays(s: State, w: nat)
    requires w < |s.workers| && HeadsForWait(s.workers[w]) == 1 && MayHang(s) && Asleep !in s.workers
    ensures Enabled(s, Worker(w)) && MayHang(NextWorker(s, w))
  {
    var t := NextWorker(s, w);
    SumUpdate(s.workers, w, t.workers[w], HeadsForWait);
    assert t.workers == s.workers[w := t.workers[w]];
    if s.workers[w] != AtKeepRunning && s.queue == [] {
      assert t.workers[w] == Asleep;
    }
  }

  /**
   When `Stop` can hang: once its flag is set, some continuation without a notification leaves a
   worker asleep exactly when one sleeps already, or the pool still runs and more workers head
   for the wait than there are queued tasks.  Otherwise no continuation at all does.
   */
  lemma StopHangsIff(n: nat, acts: seq<Action>, s: State)
    requires 0 < n < SIZE_T && Reaches(Init(n), acts, s) && s.die
    ensures CanHang(s) <==> MayHang(s)
    ensures CanSleep(s) <==> MayHang(s)
  {
    ReachableInv(n, acts, s);
    forall more, t | EndsAsleep(s, more, t) ensures MayHang(s) {
      if !MayHang(s) { DyingRun(s, more, t); }
    }
    if MayHang(s) {
      var more, t := SurplusFallsAsleep(s);
      assert LeadsToSleep(s, more, t) && EndsAsleep(s, more, t);
    }
    if CanHang(s) {
      var more, t :| LeadsToSleep(s, more, t);
      assert EndsAsleep(s, more, t);
    }
  }

  /**
   When `Stop` returns: if it cannot hang, then in every continuation, whatever `Post`, `Join`,
   `GetTaskCount` and further calls of `Stop` do meanwhile, no worker falls asleep; there are
   boundedly many worker steps, and when none is left every worker has exited.
   */
  lemma StopReturns(n: nat, acts: seq<Action>, s: State, more: seq<Action>, t: State)
    requires 0 < n < SIZE_T && Reaches(Init(n), acts, s) && s.die && !MayHang(s)
    requires Reaches(s, more, t)
    ensures WorkerSteps(more) <= Sum(s.workers, StepsLeft)
    ensures Asleep !in t.workers
    ensures AllExited(t) <==> forall w: nat :: !Enabled(t, Worker(w))
  {
    ReachableInv(n, acts, s);
    DyingRun(s, more, t);
    if forall w: nat :: !Enabled(t, Worker(w)) {
      forall i | 0 <= i < |t.workers| ensures t.workers[i] == Exited {
        assert !Enabled(t, Worker(i));
        assert t.workers[i] in t.workers;
      }
    }
  }

  /** And the workers alone can get there. */
  lemma {:induction false} WorkersExit(s: State) returns (acts: seq<Action>, t: State)
    requires Inv(s) && s.die && !MayHang(s)
    ensures AllSilent(acts) && Reaches(s, acts, t) && AllExited(t)
    decreases Sum(s.workers, StepsLeft)
  {
    if AllExited(s) {
      acts, t := [], s;
    } else {
      var w: nat :| w < |s.workers| && s.workers[w] != Exited;
      assert s.workers[w] in s.workers;
      hide Inv, MayHang, NextWorker, Next, AllExited;
      assert Next(s, Worker(w)) == NextWorker(s, w);
      DyingStep(s, w);
      acts, t := WorkersExit(NextWorker(s, w));
      PrependRun(s, Worker(w), acts, t);
      acts := [Worker(w)] + acts;
    }
  }

  /** A `Stop` after `Join` has lowered its flag never hangs. */
  lemma StopAfterJoinCannotHang(n: nat, acts: seq<Action>, s: State)
    requires 0 < n < SIZE_T && Reaches(Init(n), acts, s) && s.die && !s.keepRunning
    ensures !CanHang(s) && !CanSleep(s)
  {
    ReachableInv(n, acts, s);
    StopHangsIff(n, acts, s);
  }

  /** Such a state is reachable: the only worker falls asleep, then `Stop` is called. */
  lemma StopCanHang() returns (acts: seq<Action>, s: State)
    ensures Reaches(Init(1), acts, s) && s.die && s.workers == [Asleep]
  {
    hide Reaches;
    var s0 := Init(1);
    var s1 := Next(s0, Worker(0));
    EmptyRun(s0);
    Extend(s0, [], s0, Worker(0));
    var s2 := Next(s1, Construct);
    Extend(s0, [] + [Worker(0)], s1, Construct);
    var a2 := [] + [Worker(0)] + [Construct];
    assert s2.workers == [AtDie];
    var s5 := s2.(workers := [Asleep]);
    var a5 := a2 + [Worker(0)] + [Worker(0)] + [Worker(0)];
    assert Reaches(s0, a5, s5) by { FallsAsleep(s0, a2, s2); }
    s := Next(s5, StopStore);
    Extend(s0, a5, s5, StopStore);
    acts := a5 + [StopStore];
  }

  lemma EmptyRun(s: State)
    ensures Reaches(s, [], s)
  {
  }

  /** With nothing to do, three steps take a worker from the loop head into the wait. */
  lemma FallsAsleep(s0: State, acts: seq<Action>, s: State)
    requires Reaches(s0, acts, s) && s.workers == [AtDie] && s.keepRunning && !s.die && s.queue == []
    ensures Reaches(s0, acts + [Worker(0)] + [Worker(0)] + [Worker(0)], s.(workers := [Asleep]))
  {
    hide Reaches;
    var u, v, w := s.(workers := [AtKeepRunning]), s.(workers := [AtWait]), s.(workers := [Asleep]);
    assert s.workers[0 := AtKeepRunning] == u.workers && u.workers[0 := AtWait] == v.workers;
    assert v.workers[0 := Asleep] == w.workers;
    assert Next(s, Worker(0)) == u && Next(u, Worker(0)) == v && Next(v, Worker(0)) == w;
    hide Next;
    Extend(s0, acts, s, Worker(0));
    Extend(s0, acts + [Worker(0)], u, Worker(0));
    Extend(s0, acts + [Worker(0)] + [Worker(0)], v, Worker(0));
  }
}
