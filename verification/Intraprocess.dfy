/**
 The pool object itself: its fields, and one method per atomic action of the C++ code.
 Each method is proved to be exactly one step of `ThreadPoolSteps`, so everything proved of runs
 holds of any interleaving of these methods.
 */
module Intraprocess {
  import opened Machine
  import opened Wrappers
  import opened ThreadPoolSteps
  import opened ThreadPoolRuns

  /** Thrown by `Post`, or nothing thrown. */
  datatype Outcome = Done | Refused

  /** Nobody sleeps and nothing happens, or one sleeper wakes. */
  ghost predicate WakesOne(was: seq<Pc>, now: seq<Pc>) {
    if Asleep in was then exists w :: 0 <= w < |was| && was[w] == Asleep && now == was[w := Woken] else now == was
  }

  class ThreadPool {
    var numThreads: SizeT
    var keepRunning: bool
    var die: bool
    var workQueue: seq<Task>
    var workers: seq<Pc>
    var constructed: bool

    ghost var testing: multiset<Task>
    ghost var cleared: multiset<Task>
    ghost var pushed: seq<Task>
    ghost var popped: seq<Task>
    ghost var finished: multiset<Task>
    ghost var cut: Option<nat>

    ghost function View(): State
      reads this
    {
      State(numThreads, keepRunning, die, workQueue, workers, constructed,
            testing, cleared, pushed, popped, finished, cut)
    }

    ghost predicate Valid()
      reads this
    {
      Inv(View())
    }

    /** The member initializers and the loop that starts the threads; zero threads are refused by `Create`. */
    constructor (n: nat)
      requires 0 < n < SIZE_T
      ensures View() == Init(n) && Valid()
    {
      numThreads, keepRunning, die, workQueue, constructed := 0, true, false, [], false;
      workers := seq(n, _ => Starting);
      testing, cleared, pushed, popped, finished, cut := multiset{}, multiset{}, [], [], multiset{}, None;
      new;
      assert View() == Init(n);
      ReachableInv(n, [], Init(n));
    }

    static method Create(n: nat) returns (r: Result<ThreadPool>)
      requires n < SIZE_T
      ensures n == 0 <==> r.Throw?
      ensures r.Ok? ==> fresh(r.value) && r.value.View() == Init(n) && r.value.Valid()
      // one thread per count, none of them counted yet; the pool accepts tasks and has none
      ensures r.Ok? ==>
        && |r.value.workers| == n && (forall w :: 0 <= w < n ==> r.value.workers[w] == Starting)
        && r.value.numThreads == 0 && r.value.keepRunning && !r.value.die && r.value.workQueue == []
    {
      if n == 0 {
        return Throw("runtime_error");
      }
      var pool := new ThreadPool(n);
      return Ok(pool);
    }

    /** One test of the constructor's spin loop. */
    method SpinUntilCounted() returns (done: bool)
      requires Valid() && !constructed
      modifies this`constructed
      ensures Valid()
      ensures done == (numThreads == |workers|) && constructed == done
      ensures done == Enabled(old(View()), Construct)
      ensures View() == if done then Next(old(View()), Construct) else old(View())
    {
      ghost var s := View();
      done := numThreads == |workers|;
      if done {
        StepKeepsInv(s, Construct);
        constructed := true;
      }
    }

    method AddToThreadCounter(val: SizeT)
      modifies this`numThreads
      ensures View() == AddToCounter(old(View()), val)
    {
      numThreads := WrapAdd(numThreads, val);
    }

    method PopWorkQueue() returns (task: Task)
      requires workQueue != []
      modifies this`workQueue, this`popped
      ensures [task] + workQueue == old(workQueue) && popped == old(popped) + [task]
    {
      task := workQueue[0];
      workQueue := workQueue[1..];
      popped := popped + [task];
    }

    method ThreadsShouldProceed() returns (proceed: bool)
      ensures proceed <==> !keepRunning || workQueue != []
    {
      proceed := !keepRunning || workQueue != [];
    }

    /** The critical section inside the loop: wait, then take a task if there is one. */
    method WaitAndPop(w: nat)
      requires w < |workers|
      modifies this`workers, this`workQueue, this`popped
      ensures View() == NextWait(old(View()), w)
      ensures |workers| == |old(workers)| && forall v :: 0 <= v < |workers| && v != w ==> workers[v] == old(workers)[v]
      ensures
        if old(workQueue) != [] then
          workers[w].Running? && [workers[w].task] + workQueue == old(workQueue)
        else
          workQueue == [] && workers[w] == if keepRunning then Asleep else AtDie
    {
      var proceed := ThreadsShouldProceed();
      if !proceed {
        workers := workers[w := Asleep];
      } else if workQueue != [] {
        var task := PopWorkQueue();
        workers := workers[w := Running(task)];
      } else {
        workers := workers[w := AtDie];
      }
    }

    /** The next atomic action of worker `w` in `RunTask`. */
    method RunTask(w: nat)
      requires Valid() && Enabled(View(), Worker(w))
      modifies this
      ensures View() == Next(old(View()), Worker(w)) && Valid()
    {
      hide Inv;
      ghost var s := View();
      StepKeepsInv(s, Worker(w));
      match workers[w]
      case Starting =>
        AddToThreadCounter(1);
        workers := workers[w := AtDie];
      case AtDie =>
        workers := workers[w := if die then Leaving else AtKeepRunning];
      case AtKeepRunning =>
        workers := workers[w := if keepRunning then AtWait else AtQueue];
      case AtQueue =>
        workers := workers[w := if workQueue != [] then AtWait else Leaving];
      case AtWait =>
        WaitAndPop(w);
      case Woken =>
        WaitAndPop(w);
      case Running(task) =>
        finished := finished + multiset{task};
        workers := workers[w := AtDie];
      case Leaving =>
        AddToThreadCounter(SIZE_T - 1);
        workers := workers[w := Exited];
    }

    /** `notify_one`: wakes one sleeper, if any. */
    method NotifyOne() returns (sleeper: Option<nat>)
      modifies this`workers
      ensures NotifyChoice(old(workers), sleeper) && workers == Notify(old(workers), sleeper)
      ensures WakesOne(old(workers), workers)
    {
      sleeper := None;
      if w :| 0 <= w < |workers| && workers[w] == Asleep {
        sleeper := Some(w);
        workers := workers[w := Woken];
      }
    }

    /** First flag test of `Post`. */
    method PostReadKeepRunning(task: Task) returns (r: Outcome)
      requires Valid() && constructed
      modifies this`testing
      ensures View() == Next(old(View()), PostTestKeepRunning(task)) && Valid()
      ensures r.Refused? <==> !keepRunning
      ensures testing == if r.Done? then old(testing) + multiset{task} else old(testing)
    {
      StepKeepsInv(View(), PostTestKeepRunning(task));
      r := Refused;
      if keepRunning {
        testing := testing + multiset{task};
        r := Done;
      }
    }

    /** Second flag test of `Post`. */
    method PostReadDie(task: Task) returns (r: Outcome)
      requires Valid() && task in testing
      modifies this`testing, this`cleared
      ensures View() == Next(old(View()), PostTestDie(task)) && Valid()
      ensures r.Refused? <==> die
      ensures testing == old(testing) - multiset{task}
      ensures cleared == if r.Done? then old(cleared) + multiset{task} else old(cleared)
    {
      StepKeepsInv(View(), PostTestDie(task));
      r := Refused;
      testing := testing - multiset{task};
      if !die {
        cleared := cleared + multiset{task};
        r := Done;
      }
    }

    /** The locked part of `Post`: push and notify one worker. */
    method PostLocked(task: Task) returns (ghost sleeper: Option<nat>)
      requires Valid() && task in cleared
      modifies this`cleared, this`workQueue, this`pushed, this`workers
      ensures Enabled(old(View()), PostPush(task, sleeper))
      ensures View() == Next(old(View()), PostPush(task, sleeper)) && Valid()
      ensures workQueue == old(workQueue) + [task] && pushed == old(pushed) + [task]
      ensures cleared == old(cleared) - multiset{task}
      ensures WakesOne(old(workers), workers)
    {
      hide Inv, NextWorker, NextWait, Notify, NotifyChoice, NotifyAll;
      ghost var s := View();
      assert Inv(s);
      workQueue := workQueue + [task];
      cleared, pushed := cleared - multiset{task}, pushed + [task];
      sleeper := NotifyOne();
      StepKeepsInv(s, PostPush(task, sleeper));
    }

    method GetTaskCount() returns (count: nat, ghost sleeper: Option<nat>)
      requires Valid() && constructed
      modifies this`workers
      ensures count == |workQueue|
      ensures Enabled(old(View()), CountTasks(sleeper))
      ensures View() == Next(old(View()), CountTasks(sleeper)) && Valid()
      ensures WakesOne(old(workers), workers)
    {
      hide Inv;
      ghost var s := View();
      count := |workQueue|;
      sleeper := NotifyOne();
      StepKeepsInv(s, CountTasks(sleeper));
    }

    /** The locked part of `Join`: lower the flag and wake everybody. */
    method JoinLocked()
      requires Valid() && constructed
      modifies this`keepRunning, this`workers, this`cut
      ensures View() == Next(old(View()), JoinStore) && Valid()
      ensures !keepRunning && |workers| == |old(workers)|
      ensures forall w :: 0 <= w < |workers| ==>
        workers[w] == if old(workers)[w] == Asleep then Woken else old(workers)[w]
    {
      StepKeepsInv(View(), JoinStore);
      keepRunning := false;
      workers := NotifyAll(workers);
      cut := if cut.Some? then cut else Some(|pushed|);
    }

    /** One turn of the spin loop with which `Join` waits for the thread counter. */
    method JoinSpin() returns (done: bool)
      requires Valid() && !keepRunning
      ensures done <==> AllExited(View())
      ensures done && !die ==> cut.Some? && cut.value <= |popped| && popped <= pushed && finished == multiset(popped)
    {
      ZeroMeansAllExited(View());
      if numThreads == 0 && !die {
        ExitedStateIsDrained(View());
      }
      done := numThreads == 0;
    }

    /** The store in `Stop`; it notifies nobody. */
    method StopStoreDie()
      requires Valid() && constructed
      modifies this`die
      ensures View() == Next(old(View()), StopStore) && Valid()
      ensures die
    {
      StepKeepsInv(View(), StopStore);
      die := true;
    }
  }
}
