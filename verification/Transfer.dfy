/** From one end of a connection to the other, when the written frames reach the wire in pop order. */
module Transfer {
  import opened Framing
  import opened Receiver
  import Outgoing

  /** The queue holds frames: what `PostOutgoingMessage` pushes after `WrapWithHeader`. */
  function Frames(messages: seq<string>): (r: seq<string>)
    requires Sendable(messages)
    ensures |r| == |messages|
  {
    if messages == [] then [] else [Frame(messages[0])] + Frames(messages[1..])
  }

  function Bytes(frames: seq<string>): string {
    if frames == [] then "" else frames[0] + Bytes(frames[1..])
  }

  lemma {:induction false} FramesAreWire(messages: seq<string>)
    requires Sendable(messages)
    ensures Bytes(Frames(messages)) == Wire(messages)
  {
    if messages != [] {
      assert Frames(messages)[1..] == Frames(messages[1..]);
      FramesAreWire(messages[1..]);
    }
  }

  lemma {:induction false} FramesPrefix(messages: seq<string>, n: nat)
    requires Sendable(messages) && n <= |messages|
    ensures Sendable(messages[..n]) && Frames(messages)[..n] == Frames(messages[..n])
  {
    if n > 0 {
      FramesPrefix(messages[1..], n - 1);
      assert messages[..n][1..] == messages[1..][..n - 1];
      assert Frames(messages) == [Frame(messages[0])] + Frames(messages[1..]);
    }
  }

  lemma {:induction false} WirePrefix(messages: seq<string>, n: nat)
    requires Sendable(messages) && n <= |messages|
    ensures Wire(messages[..n]) <= Wire(messages)
  {
    if n > 0 {
      WirePrefix(messages[1..], n - 1);
      assert messages[..n][1..] == messages[1..][..n - 1];
    }
  }

  /**
   At any moment of any run of the sender in which the frames of `messages` were pushed, and however
   many bytes of the frames popped so far have arrived, what the receiver has enqueued is a prefix
   of the messages; once no handler is left
   to run and all bytes have arrived it is all of them, up to the first that is empty or too long.
   */
  lemma MessagesArriveInOrder(
    messages: seq<string>, acts: seq<Outgoing.Action>, s: Outgoing.State, arrived: string)
    requires Sendable(messages) && Outgoing.PushedBy(acts) == Frames(messages)
    requires Outgoing.Reaches(Outgoing.INIT, acts, s)
    requires arrived <= Bytes(s.popped)
    ensures var received := Resume(HeaderRead, arrived).messages;
      && received <= messages[..Accepted(messages)]
      && (Outgoing.Quiet(s) && arrived == Bytes(s.popped) ==> received == messages[..Accepted(messages)])
  {
    Outgoing.SendingIsScheduled(acts, s);
    Outgoing.SendingDrains(acts, s);
    var n := |s.popped|;
    assert s.popped == Frames(messages)[..n];
    FramesPrefix(messages, n);
    FramesAreWire(messages[..n]);
    WirePrefix(messages, n);
    PartialTransferIsPrefix(messages, arrived);
    FramedRoundTrip(messages);
    if Outgoing.Quiet(s) { assert messages[..n] == messages; }
  }
}
