/**
 The receiving half of `IConnectionHandler`: a chain of reads, header then body, through one buffer.
 `async_read` is taken to complete when, and only when, all the bytes asked for have arrived.
 */
module Receiver {
  import opened Machine
  import opened Wrappers
  import opened Framing

  /** The one read that can be outstanding. */
  datatype Pending =
    | NoRead         // the chain has ended, after a header that says zero
    | HeaderRead
    | BodyRead(n: nat)
    | Refused        // AsyncRead threw: the body does not fit the buffer

  /** `ReceivedDataLength` on the bytes of a header, as a `size_t`. */
  function DataLength(header: string): nat {
    var v := Atoll(header);
    if v >= 0 then v else (v % SIZE_T)
  }

  /** What a header leads to. */
  function AfterHeader(length: nat): Pending {
    if length == 0 then NoRead else if length > BUFFER_SIZE then Refused else BodyRead(length)
  }

  /** A negative number in a header wraps around to a size that no buffer holds. */
  lemma NegativeIsRefused(header: string)
    requires |header| == HEADER_LENGTH && Atoll(header) < 0
    ensures DataLength(header) == SIZE_T + Atoll(header) && AfterHeader(DataLength(header)) == Refused
  {
    var t := SkipSpaces(header);
    SkipShortens(header);
    DigitsRange(t[1..], 0);
    assert Power10(4) == 10 * (10 * (10 * (10 * Power10(0))));
    PowerGrows(|t| - 1, 4);
  }

  datatype Delivery = Delivery(messages: seq<string>, pending: Pending, rest: string)

  function Prepend(messages: seq<string>, d: Delivery): Delivery {
    d.(messages := messages + d.messages)
  }

  /** The read chain as a function of the outstanding read and the bytes on the socket. */
  function Resume(pending: Pending, bytes: string): (d: Delivery)
    decreases |bytes|, if pending.BodyRead? then 1 else 0
  {
    match pending
    case HeaderRead =>
      if |bytes| < HEADER_LENGTH then Delivery([], pending, bytes)
      else Resume(AfterHeader(DataLength(bytes[..HEADER_LENGTH])), bytes[HEADER_LENGTH..])
    case BodyRead(n) =>
      if |bytes| < n then Delivery([], pending, bytes)
      else Prepend([bytes[..n]], Resume(HeaderRead, bytes[n..]))
    case _ => Delivery([], pending, bytes)
  }

  /** It makes no difference in how many pieces the bytes arrive. */
  lemma {:induction false} Chunks(pending: Pending, a: string, b: string)
    ensures var d := Resume(pending, a);
      Resume(pending, a + b) == Prepend(d.messages, Resume(d.pending, d.rest + b))
    decreases |a|, if pending.BodyRead? then 1 else 0
  {
    hide DataLength, AfterHeader;
    match pending
    case HeaderRead =>
      if |a| >= HEADER_LENGTH {
        var next := AfterHeader(DataLength(a[..HEADER_LENGTH]));
        assert (a + b)[..HEADER_LENGTH] == a[..HEADER_LENGTH];
        assert (a + b)[HEADER_LENGTH..] == a[HEADER_LENGTH..] + b;
        Chunks(next, a[HEADER_LENGTH..], b);
      }
    case BodyRead(n) =>
      if |a| >= n {
        assert (a + b)[..n] == a[..n] && (a + b)[n..] == a[n..] + b;
        Chunks(HeaderRead, a[n..], b);
        var d := Resume(HeaderRead, a[n..]);
        var e := Resume(d.pending, d.rest + b);
        assert [a[..n]] + (d.messages + e.messages) == ([a[..n]] + d.messages) + e.messages;
      }
    case _ =>
  }

  // ---- The round trip ----

  /** A message the read chain gets past: not empty, and no longer than the buffer. */
  predicate Passes(m: string) { 0 < |m| <= BUFFER_SIZE }

  /** The number of messages before the first that does not pass. */
  function Accepted(messages: seq<string>): (k: nat)
    ensures k <= |messages|
    ensures forall i :: 0 <= i < k ==> Passes(messages[i])
    ensures k < |messages| ==> !Passes(messages[k])
  {
    if messages == [] || !Passes(messages[0]) then 0 else 1 + Accepted(messages[1..])
  }

  predicate Sendable(messages: seq<string>) {
    forall m :: m in messages ==> |m| < 10000
  }

  lemma HeaderTellsLength(m: string, rest: string)
    requires |m| < 10000
    ensures var s := Frame(m) + rest;
      |s| >= HEADER_LENGTH && DataLength(s[..HEADER_LENGTH]) == |m| && s[HEADER_LENGTH..] == m + rest
  {
    var s := Frame(m) + rest;
    assert s[..HEADER_LENGTH] == Header(|m|);
    ToStringWidth(|m|);
    PaddedRoundTrip(HEADER_LENGTH - |ToString(|m|)|, |m|);
  }

  /** What the chain makes of one frame and the bytes after it. */
  lemma ReadOneFrame(m: string, rest: string)
    requires |m| < 10000
    ensures Resume(HeaderRead, Frame(m) + rest) ==
      if Passes(m) then Prepend([m], Resume(HeaderRead, rest))
      else Delivery([], if m == "" then NoRead else Refused, m + rest)
  {
    HeaderTellsLength(m, rest);
    var s := m + rest;
    assert s[..|m|] == m && s[|m|..] == rest;
  }

  /**
   Reading frames laid end to end enqueues exactly the messages before the first empty or
   oversized one, in order.  The chain then waits for a header if there was no such message;
   otherwise it has ended (empty) or thrown (oversized) with that message still on the socket.
   */
  lemma {:induction false} FramedRoundTrip(messages: seq<string>)
    requires Sendable(messages)
    ensures var d, k := Resume(HeaderRead, Wire(messages)), Accepted(messages);
      && d.messages == messages[..k]
      && d.pending == (if k == |messages| then HeaderRead else if messages[k] == "" then NoRead else Refused)
      && d.rest == (if k == |messages| then "" else messages[k] + Wire(messages[k + 1..]))
  {
    if messages != [] {
      var m, rest := messages[0], messages[1..];
      ReadOneFrame(m, Wire(rest));
      if Passes(m) {
        FramedRoundTrip(rest);
        hide Resume, Frame;
        assert Accepted(messages) == 1 + Accepted(rest);
        assert messages == [m] + rest;
        assert messages[..Accepted(messages)] == [m] + rest[..Accepted(rest)];
        if Accepted(rest) < |rest| {
          assert messages[Accepted(messages) + 1..] == rest[Accepted(rest) + 1..];
        }
      }
    }
  }

  /** At any moment of the transfer, what has been enqueued is a prefix of what was sent. */
  lemma PartialTransferIsPrefix(messages: seq<string>, arrived: string)
    requires Sendable(messages) && arrived <= Wire(messages)
    ensures Resume(HeaderRead, arrived).messages <= messages[..Accepted(messages)]
  {
    var b := Wire(messages)[|arrived|..];
    assert arrived + b == Wire(messages);
    Chunks(HeaderRead, arrived, b);
    FramedRoundTrip(messages);
  }

  // ---- The object ----

  class ConnectionHandler {
    const inMessage: array<char>       // the shared read buffer
    var inMessageQue: seq<string>
    var pending: Pending
    var socket: string                 // bytes arrived and not read

    ghost var arrived: string          // every byte that ever arrived
    ghost var taken: seq<string>       // what GetOneMessage has handed out

    /** Everything that arrived is accounted for: handed out, queued, or still to be read. */
    ghost predicate Valid()
      reads this
    {
      && inMessage.Length == BUFFER_SIZE
      && (pending.BodyRead? ==> 0 < pending.n <= BUFFER_SIZE)
      && Resume(HeaderRead, arrived) == Prepend(taken + inMessageQue, Resume(pending, socket))
    }

    /** Construction, and the `PostReceiveMessages` with which an application starts. */
    constructor ()
      ensures Valid() && fresh(inMessage) && arrived == "" && taken == inMessageQue == []
    {
      inMessage := new char[BUFFER_SIZE](_ => 0 as char);
      inMessageQue, socket, arrived, taken := [], "", "", [];
      pending := NoRead;
      new;
      PostReceiveMessages();
    }

    /** Starts a header read; no other read is outstanding. */
    method PostReceiveMessages()
      requires pending == NoRead && inMessage.Length == BUFFER_SIZE
      modifies this`pending
      ensures pending == HeaderRead
    {
      AsyncRead(HEADER_LENGTH, HeaderRead);
    }

    /** `AsyncRead` refuses to read more than the buffer holds. */
    method AsyncRead(bytesToRead: nat, read: Pending)
      requires pending == NoRead && inMessage.Length == BUFFER_SIZE
      modifies this`pending
      ensures pending == if bytesToRead > BUFFER_SIZE then Refused else read
    {
      if bytesToRead > inMessage.Length {
        pending := Refused;
      } else {
        pending := read;
      }
    }

    /** The transfer of `n` bytes into the front of the buffer, which completes a read. */
    method Transfer(n: nat)
      requires n <= |socket| && n <= inMessage.Length
      modifies this`socket, inMessage
      ensures inMessage[..n] == old(socket[..n]) && socket == old(socket[n..])
    {
      var i := 0;
      while i < n
        invariant 0 <= i <= n <= |socket| && socket == old(socket) && inMessage[..i] == socket[..i]
      {
        inMessage[i] := socket[i];
        i := i + 1;
      }
      socket := socket[n..];
    }

    method ReceivedDataLength(bytesTransferred: nat) returns (length: nat)
      requires bytesTransferred == HEADER_LENGTH && inMessage.Length == BUFFER_SIZE
      ensures length == DataLength(inMessage[..HEADER_LENGTH])
    {
      var header := inMessage[..HEADER_LENGTH];
      length := DataLength(header);
    }

    /** The completion handler of the header read. */
    method OnHeader()
      requires Valid() && pending == HeaderRead && |socket| >= HEADER_LENGTH
      modifies this`pending, this`socket, inMessage
      ensures Valid() && |socket| < old(|socket|)
    {
      ghost var bytes := socket;
      Transfer(HEADER_LENGTH);
      pending := NoRead;
      var dataLength := ReceivedDataLength(HEADER_LENGTH);
      assert dataLength == DataLength(bytes[..HEADER_LENGTH]);
      assert Resume(HeaderRead, bytes) == Resume(AfterHeader(dataLength), socket);
      if dataLength == 0 {
        return;
      }
      AsyncRead(dataLength, BodyRead(dataLength));
    }

    /** The completion handler of the body read. */
    method OnBody()
      requires Valid() && pending.BodyRead? && |socket| >= pending.n
      modifies this`pending, this`socket, this`inMessageQue, inMessage
      ensures Valid() && |socket| < old(|socket|)
      ensures inMessageQue == old(inMessageQue) + [old(socket[..pending.n])]
    {
      ghost var bytes := socket;
      var n := pending.n;
      Transfer(n);
      pending := NoRead;
      assert taken + (inMessageQue + [bytes[..n]]) == (taken + inMessageQue) + [bytes[..n]];
      ghost var later := Resume(HeaderRead, bytes[n..]);
      assert (taken + inMessageQue) + ([bytes[..n]] + later.messages)
          == (taken + inMessageQue + [bytes[..n]]) + later.messages;
      QueueReceivedMessage(n);
    }

    /** Copies the message out of the buffer, and only then allows the next read. */
    method QueueReceivedMessage(bytesTransferred: nat)
      requires pending == NoRead && inMessage.Length == BUFFER_SIZE && bytesTransferred <= BUFFER_SIZE
      modifies this`pending, this`inMessageQue
      ensures pending == HeaderRead
      ensures inMessageQue == old(inMessageQue) + [inMessage[..bytesTransferred]]
    {
      var message := inMessage[..bytesTransferred];
      inMessageQue := inMessageQue + [message];
      PostReceiveMessages();
    }

    /** Bytes arrive, and every read they complete is handled. */
    method Arrive(bytes: string)
      requires Valid()
      modifies this, inMessage
      ensures Valid() && arrived == old(arrived) + bytes && taken == old(taken)
      ensures taken + inMessageQue == Resume(HeaderRead, arrived).messages
    {
      Chunks(HeaderRead, arrived, bytes);
      Chunks(pending, socket, bytes);
      AppendToPrepend(bytes);
      socket, arrived := socket + bytes, arrived + bytes;
      while (pending == HeaderRead && |socket| >= HEADER_LENGTH) || (pending.BodyRead? && |socket| >= pending.n)
        invariant Valid() && arrived == old(arrived) + bytes && taken == old(taken)
        decreases |socket|
      {
        if pending == HeaderRead {
          OnHeader();
        } else {
          OnBody();
        }
      }
    }

    lemma AppendToPrepend(bytes: string)
      requires Valid()
      ensures Resume(HeaderRead, arrived + bytes) == Prepend(taken + inMessageQue, Resume(pending, socket + bytes))
    {
      Chunks(HeaderRead, arrived, bytes);
      Chunks(pending, socket, bytes);
      var d := Resume(pending, socket);
      var e := Resume(d.pending, d.rest + bytes);
      assert (taken + inMessageQue + d.messages) + e.messages == (taken + inMessageQue) + (d.messages + e.messages);
    }

    method HasReceivedMessages() returns (has: bool)
      ensures has <==> inMessageQue != []
    {
      has := inMessageQue != [];
    }

    method GetOneMessage() returns (r: Result<string>)
      requires Valid()
      modifies this`inMessageQue, this`taken
      ensures Valid()
      ensures old(inMessageQue) == [] ==> r.Throw? && inMessageQue == [] && taken == old(taken)
      ensures old(inMessageQue) != [] ==>
        r.Ok? && [r.value] + inMessageQue == old(inMessageQue) && taken == old(taken) + [r.value]
    {
      if inMessageQue == [] {
        return Throw("runtime_error");
      }
      var message := inMessageQue[0];
      assert taken + inMessageQue == (taken + [message]) + inMessageQue[1..];
      inMessageQue := inMessageQue[1..];
      taken := taken + [message];
      r := Ok(message);
    }
  }

  lemma AcceptedInNumbers(messages: seq<string>)
    ensures var k := Accepted(messages);
      && ((forall m :: m in messages ==> 1 <= |m| <= 512) ==> k == |messages|)
      && (forall m :: m in messages[..k] ==> 1 <= |m| <= 512)
      && (k < |messages| ==> |messages[k]| == 0 || |messages[k]| > 512)
  {
    var k := Accepted(messages);
    if k < |messages| { assert messages[k] in messages; }
  }

  /** End to end: however the frames of `messages` are cut up, the messages come out. */
  method ReceiveAll(messages: seq<string>, cut: nat) returns (received: seq<string>)
    requires Sendable(messages) && cut <= |Wire(messages)|
    ensures received == messages[..Accepted(messages)]
    // in numbers: messages of 1 to 512 characters come through, and nothing from another one on
    ensures (forall m :: m in messages ==> 1 <= |m| <= 512) ==> received == messages
    ensures received <= messages && forall m :: m in received ==> 1 <= |m| <= 512
    ensures |received| < |messages| ==> |messages[|received|]| == 0 || |messages[|received|]| > 512
  {
    AcceptedInNumbers(messages);
    hide Accepted, Passes, Wire, Resume;
    var c := new ConnectionHandler();
    ghost var wire := Wire(messages);
    c.Arrive(Wire(messages)[..cut]);
    c.Arrive(Wire(messages)[cut..]);
    assert c.arrived == wire by { assert wire[..cut] + wire[cut..] == wire; }
    FramedRoundTrip(messages);
    received := TakeAll(c);
  }

  /** Asks for messages as long as there are any. */
  method TakeAll(c: ConnectionHandler) returns (received: seq<string>)
    requires c.Valid()
    modifies c`inMessageQue, c`taken
    ensures c.Valid() && received == old(c.inMessageQue) && c.inMessageQue == []
  {
    received := [];
    var has := c.HasReceivedMessages();
    while has
      invariant c.Valid() && received + c.inMessageQue == old(c.inMessageQue) && (has <==> c.inMessageQue != [])
      decreases |c.inMessageQue|
    {
      ghost var before := c.inMessageQue;
      var message := c.GetOneMessage();
      received := received + [message.value];
      assert [message.value] + c.inMessageQue == before;
      has := c.HasReceivedMessages();
    }
  }
}
