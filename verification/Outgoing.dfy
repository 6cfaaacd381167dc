/**
 The sending half of `IConnectionHandler`: a queue that any number of threads push to, drained
 by `SendMessageStart` handlers that the I/O context runs.  One step is one critical section
 under `writeLock_`, one `post`, or one completion.
 */
module Outgoing {
  import opened Wrappers

  type Message = string

  datatype State = State(
    queue: seq<Message>,   // outMessageQue_
    owed: nat,             // posters that have pushed and not yet posted their SendMessageStart
    posted: nat,           // SendMessageStart handlers posted and not yet run
    writing: nat,          // writes started and not yet completed
    pushed: seq<Message>,  // history: every message pushed
    popped: seq<Message>,  // history: every message handed to AsyncWrite
    again: nat,            // history: SendMessageStart handlers posted by SendMessageDone
    starts: nat)           // history: SendMessageStart handlers posted in all

  datatype Action =
    | Push(message: Message)    // PostOutgoingMessage, locked part
    | PostStart                 // PostOutgoingMessage, the post
    | Start                     // SendMessageStart
    | Complete(failed: bool)    // the completion handler of a write, and SendMessageDone

  const INIT := State([], 0, 0, 0, [], [], 0, 0)

  predicate Enabled(s: State, a: Action) {
    match a
    case Push(_) => true
    case PostStart => s.owed > 0
    case Start => s.posted > 0
    case Complete(_) => s.writing > 0
  }

  function Next(s: State, a: Action): State
    requires Enabled(s, a)
  {
    match a
    case Push(m) => s.(queue := s.queue + [m], owed := s.owed + 1, pushed := s.pushed + [m])
    case PostStart => s.(owed := s.owed - 1, posted := s.posted + 1, starts := s.starts + 1)
    case Start =>
      if s.queue == [] then s.(posted := s.posted - 1)
      else s.(posted := s.posted - 1, queue := s.queue[1..], writing := s.writing + 1,
              popped := s.popped + [s.queue[0]])
    case Complete(failed) =>
      if failed || s.queue == [] then s.(writing := s.writing - 1)
      else s.(writing := s.writing - 1, posted := s.posted + 1, again := s.again + 1, starts := s.starts + 1)
  }

  ghost predicate Reaches(s: State, acts: seq<Action>, t: State)
    decreases |acts|
  {
    if acts == [] then s == t
    else Enabled(s, acts[0]) && Reaches(Next(s, acts[0]), acts[1..], t)
  }

  ghost predicate Inv(s: State) {
    // a start is pending, or owed, for every queued message
    && s.owed + s.posted >= |s.queue|
    // first in, first out; nothing lost or repeated
    && s.pushed == s.popped + s.queue
    // every start is the poster's own or was posted by a completion
    && s.starts + s.owed == |s.pushed| + s.again
    // a completion posts at most once, and only while something is queued
    && s.again + s.writing <= |s.popped|
    && (s.again > 0 ==> s.again + 1 <= |s.pushed|)
  }

  lemma StepKeepsInv(s: State, a: Action)
    requires Inv(s) && Enabled(s, a)
    ensures Inv(Next(s, a))
  {
    if s.queue != [] {
      assert s.queue == [s.queue[0]] + s.queue[1..];
      assert (s.popped + [s.queue[0]]) + s.queue[1..] == s.popped + s.queue;
    }
  }

  lemma {:induction false} RunKeepsInv(s: State, acts: seq<Action>, t: State)
    requires Inv(s) && Reaches(s, acts, t)
    ensures Inv(t)
    decreases |acts|
  {
    if acts != [] {
      StepKeepsInv(s, acts[0]);
      RunKeepsInv(Next(s, acts[0]), acts[1..], t);
    }
  }

  /**
   In every run, failed writes included: pops follow pushes in order, a start is on its way for
   every queued message, and m messages cause at most 2m-1 starts.
   */
  lemma SendingIsScheduled(acts: seq<Action>, s: State)
    requires Reaches(INIT, acts, s)
    ensures PushedBy(acts) == s.pushed == s.popped + s.queue
    ensures |s.queue| <= s.owed + s.posted
    ensures |s.pushed| == 0 ==> s.starts == 0
    ensures |s.pushed| > 0 ==> s.starts <= 2 * |s.pushed| - 1
  {
    RunKeepsInv(INIT, acts, s);
    PushesAreRecorded(INIT, acts, s);
    assert [] + PushedBy(acts) == PushedBy(acts);
  }

  // ---- The loop goes idle, and then everything has been popped ----

  predicate Quiet(s: State) { s.owed == 0 && s.posted == 0 && s.writing == 0 }

  function Measure(s: State): nat {
    2 * s.owed + s.posted + 2 * s.writing + 2 * |s.queue|
  }

  function Pushes(acts: seq<Action>): nat {
    if acts == [] then 0 else (if acts[0].Push? then 1 else 0) + Pushes(acts[1..])
  }

  /** Every step that is not a push lowers the measure; a push raises it by four. */
  lemma {:induction false} RunLowersMeasure(s: State, acts: seq<Action>, t: State)
    requires Reaches(s, acts, t)
    ensures |acts| + Measure(t) <= Measure(s) + 5 * Pushes(acts)
    decreases |acts|
  {
    if acts != [] {
      RunLowersMeasure(Next(s, acts[0]), acts[1..], t);
    }
  }

  /**
   A run with m messages has at most 5m steps, and one in which no handler is left to run has
   popped every message exactly once and in the order pushed.
   */
  lemma SendingDrains(acts: seq<Action>, s: State)
    requires Reaches(INIT, acts, s)
    ensures |acts| <= 5 * |s.pushed|
    ensures Quiet(s) <==> forall a: Action :: Enabled(s, a) ==> a.Push?
    ensures Quiet(s) ==> s.popped == s.pushed && s.queue == []
  {
    RunKeepsInv(INIT, acts, s);
    RunLowersMeasure(INIT, acts, s);
    PushesAreRecorded(INIT, acts, s);
    if forall a: Action :: Enabled(s, a) ==> a.Push? {
      assert !Enabled(s, PostStart) && !Enabled(s, Start) && !Enabled(s, Complete(true));
    }
  }

  /** The messages that were pushed, in order. */
  function PushedBy(acts: seq<Action>): (r: seq<Message>)
    ensures |r| == Pushes(acts)
  {
    if acts == [] then [] else (if acts[0].Push? then [acts[0].message] else []) + PushedBy(acts[1..])
  }

  /** What goes through the queue in a run is what was given to `PostOutgoingMessage`, in order and once each. */
  lemma {:induction false} PushesAreRecorded(s: State, acts: seq<Action>, t: State)
    requires Reaches(s, acts, t)
    ensures t.pushed == s.pushed + PushedBy(acts)
    decreases |acts|
  {
    if acts == [] {
      assert s.pushed + [] == s.pushed;
    } else {
      hide Next, Enabled;
      StepRecords(s, acts[0]);
      PushesAreRecorded(Next(s, acts[0]), acts[1..], t);
      Associate(s.pushed, if acts[0].Push? then [acts[0].message] else [], PushedBy(acts[1..]));
    }
  }

  lemma StepRecords(s: State, a: Action)
    requires Enabled(s, a)
    ensures Next(s, a).pushed == s.pushed + if a.Push? then [a.message] else []
  {
  }

  lemma Associate<T>(a: seq<T>, b: seq<T>, c: seq<T>)
    ensures (a + b) + c == a + (b + c)
  {
  }

  // ---- The object ----

  class Sender {
    var outMessageQue: seq<Message>

    ghost var owed: nat
    ghost var posted: nat
    ghost var writing: nat
    ghost var pushed: seq<Message>
    ghost var popped: seq<Message>
    ghost var again: nat
    ghost var starts: nat

    ghost function View(): State
      reads this
    {
      State(outMessageQue, owed, posted, writing, pushed, popped, again, starts)
    }

    constructor ()
      ensures View() == INIT && Inv(View())
    {
      outMessageQue := [];
      owed, posted, writing, pushed, popped, again, starts := 0, 0, 0, [], [], 0, 0;
    }

    /** `PostOutgoingMessage`, the critical section, given the message already wrapped. */
    method PushOutgoing(wrapped: Message)
      requires Inv(View())
      modifies this
      ensures View() == Next(old(View()), Push(wrapped)) && Inv(View())
      ensures outMessageQue == old(outMessageQue) + [wrapped] && pushed == old(pushed) + [wrapped]
      ensures owed == old(owed) + 1
    {
      StepKeepsInv(View(), Push(wrapped));
      outMessageQue := outMessageQue + [wrapped];
      owed, pushed := owed + 1, pushed + [wrapped];
    }

    /** `PostOutgoingMessage`, after the lock is released. */
    method PostSendMessageStart()
      requires Inv(View()) && owed > 0
      modifies this
      ensures View() == Next(old(View()), PostStart) && Inv(View())
      ensures owed == old(owed) - 1 && posted == old(posted) + 1 && outMessageQue == old(outMessageQue)
    {
      StepKeepsInv(View(), PostStart);
      owed, posted, starts := owed - 1, posted + 1, starts + 1;
    }

    /** Returns the message handed to `AsyncWrite`, if any. */
    method SendMessageStart() returns (message: Option<Message>)
      requires Inv(View()) && posted > 0
      modifies this
      ensures View() == Next(old(View()), Start) && Inv(View())
      ensures message == if old(outMessageQue) == [] then None else Some(old(outMessageQue)[0])
      ensures posted == old(posted) - 1
      // what is popped is written, and nothing else
      ensures message.Some? ==>
        && [message.value] + outMessageQue == old(outMessageQue)
        && popped == old(popped) + [message.value] && writing == old(writing) + 1
      ensures message.None? ==> outMessageQue == [] && popped == old(popped) && writing == old(writing)
    {
      StepKeepsInv(View(), Start);
      posted := posted - 1;
      if outMessageQue == [] {
        return None;
      }
      message := Some(outMessageQue[0]);
      outMessageQue := outMessageQue[1..];
      popped, writing := popped + [message.value], writing + 1;
    }

    /** The completion handler of a write; `SendMessageDone` runs unless the write failed. */
    method OnWritten(error: bool)
      requires Inv(View()) && writing > 0
      modifies this
      ensures View() == Next(old(View()), Complete(error)) && Inv(View())
      ensures writing == old(writing) - 1 && outMessageQue == old(outMessageQue)
      // another start for the next message, unless the write failed or there is none
      ensures posted == old(posted) + if !error && outMessageQue != [] then 1 else 0
    {
      StepKeepsInv(View(), Complete(error));
      writing := writing - 1;
      if error {
        return;
      }
      if outMessageQue != [] {
        posted, again, starts := posted + 1, again + 1, starts + 1;
      }
    }
  }
}
