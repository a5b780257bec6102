/**
 * What a WebSocket connection does, as functions of its state. The methods
 * that do it in place are proved against these.
 */
module Connections {
  import opened Wrappers
  import opened Octets
  import opened Masking
  import opened Frames
  import opened Utf8
  import opened Reassembly
  import opened CloseCodes

  /** What a connection is set up with and never changes. */
  datatype Setup = Setup(
    client: bool,           // which end this is, and so whether it masks
    limits: Limits,
    keys: nat -> Mask,      // the masking keys the source of randomness yields, in order
    patience: nat)          // how many frames a close reads before its linger runs out

  /** A connection between two calls. */
  datatype Connection = Connection(
    setup: Setup,
    buffer: seq<byte>,             // read and not yet taken as frames
    incoming: seq<seq<byte>>,      // the reads the transport has yet to give
    received: seq<Frame>,          // every frame taken so far
    pending: Pending,
    closing: bool,
    sent: seq<Frame>,              // every frame written so far
    writes: nat)                   // how many more writes the transport takes before failing

  datatype Failure =
    | Malformed(error: FrameError)
    | WrongMasking
    | FrameTooBig
    | Ended
    | Unwritable
    | Refusal(refusal: Reassembly.Refusal)
    | BadClose(close: CloseError)

  // --- sending

  function Keyed(setup: Setup, frame: Frame, index: nat): Frame {
    frame.(mask := if setup.client then Some(setup.keys(index)) else None)
  }

  /** Sends one frame, masked according to the role whatever mask it came with. */
  function Send(c: Connection, frame: Frame): (Connection, bool) {
    if c.writes == 0 then (c, false)
    else (c.(sent := c.sent + [Keyed(c.setup, frame, |c.sent|)], writes := c.writes - 1), true)
  }

  function Unfragmented(opcode: Opcode, payload: seq<byte>): Frame {
    Frame(true, opcode, None, payload)
  }

  // --- receiving one frame

  function Volume(chunks: seq<seq<byte>>): nat {
    if chunks == [] then 0 else |chunks[0]| + Volume(chunks[1..])
  }

  function Backlog(c: Connection): nat {
    |c.buffer| + Volume(c.incoming)
  }

  /** What receiving leaves alone. */
  ghost predicate SameBut(c: Connection, after: Connection) {
    && after.setup == c.setup && after.pending == c.pending && after.closing == c.closing
    && after.sent == c.sent && after.writes == c.writes
  }

  /** Takes one frame off the buffer, reading more for as long as it is not all there. */
  function Receive(c: Connection): (r: (Connection, Result<Frame, Failure>))
    ensures SameBut(c, r.0) && Backlog(r.0) <= Backlog(c) && c.received <= r.0.received
    ensures r.1.Ok? ==>
              && Backlog(r.0) < Backlog(c) && r.0.received == c.received + [r.1.value]
              && Legal(r.1.value) && r.1.value.mask.Some? != c.setup.client
    decreases |c.incoming|
  {
    match Decode(c.buffer)
    case Err(error) => (c, Err(Malformed(error)))
    case Ok(Some((end, frame))) =>
      EncodeDecoded(c.buffer);
      var taken := c.(buffer := c.buffer[end..], received := c.received + [frame]);
      if c.setup.client == frame.mask.Some? then (taken, Err(WrongMasking)) else (taken, Ok(frame))
    case Ok(None) =>
      if |c.buffer| > c.setup.limits.maxMessageSize then (c, Err(FrameTooBig))
      else if c.incoming == [] then (c, Err(Ended))
      else Receive(c.(buffer := c.buffer + c.incoming[0], incoming := c.incoming[1..]))
  }

  // --- closing

  /** Reads until the peer's close, an error, or the linger running out. */
  function Linger(c: Connection, patience: nat): (after: Connection)
    ensures SameBut(c, after) && Backlog(after) <= Backlog(c) && c.received <= after.received
    decreases patience
  {
    if patience == 0 then c
    else
      var (taken, frame) := Receive(c);
      if frame.Err? || frame.value.opcode == Close then taken else Linger(taken, patience - 1)
  }

  /** After a shutdown the transport takes no more writes. */
  function Shutdown(c: Connection): Connection {
    c.(writes := 0)
  }

  function CloseWith(c: Connection, code: CloseCode, reason: seq<byte>): (after: Connection)
    ensures Backlog(after) <= Backlog(c) && c.received <= after.received
    ensures after.setup == c.setup && after.pending == c.pending
  {
    if c.closing then Shutdown(c)
    else
      var (sent, ok) := Send(c.(closing := true), Unfragmented(Close, ClosePayload(code, reason)));
      if ok then Shutdown(Linger(sent, c.setup.patience)) else Shutdown(sent)
  }

  /** The reason given for text that is not well-formed: "invalid utf-8". */
  const INVALID_TEXT: seq<byte> := [0x69, 0x6e, 0x76, 0x61, 0x6c, 0x69, 0x64, 0x20, 0x75, 0x74, 0x66, 0x2d, 0x38]

  // --- receiving whole messages

  datatype Received = Received(opcode: Opcode, payload: seq<byte>)

  /** What a close frame does: checked, echoed unless this end closed first, and returned. */
  function Closed(c: Connection, payload: seq<byte>): (Connection, Result<Received, Failure>) {
    match VerifyClose(payload)
    case Err(error) => (c, Err(BadClose(error)))
    case Ok(_) =>
      if c.closing then (c, Ok(Received(Close, payload)))
      else
        var (sent, ok) := Send(c.(closing := true), Unfragmented(Close, payload));
        (sent, if ok then Ok(Received(Close, payload)) else Err(Unwritable))
  }

  /** What one frame does to a connection waiting for a message: an answer, or none yet. */
  function Handle(c: Connection, frame: Frame): (r: (Connection, Option<Result<Received, Failure>>))
    ensures Backlog(r.0) <= Backlog(c) && r.0.setup == c.setup && c.received <= r.0.received
    ensures r.1.None? || r.1.value.Ok? ==> r.0.received == c.received
  {
    if frame.opcode == Close then
      var (after, answer) := Closed(c, frame.payload);
      (after, Some(answer))
    else if frame.opcode == Ping then
      var (sent, ok) := Send(c, Unfragmented(Pong, frame.payload));
      (sent, if ok then None else Some(Err(Unwritable)))
    else if frame.opcode == Pong then (c, None)
    else
      var (pending, verdict) := Accept(c.setup.limits, c.pending, frame);
      var after := c.(pending := pending);
      match verdict
      case More => (after, None)
      case Message(opcode, payload) => (after, Some(Ok(Received(opcode, payload))))
      case Refused(refusal) =>
        if refusal == InvalidText then
          (CloseWith(after, InvalidPayload, INVALID_TEXT), Some(Err(Refusal(refusal))))
        else (after, Some(Err(Refusal(refusal))))
  }

  /** Receives one whole message, answering control frames along the way. */
  function ReceiveMessage(c: Connection): (r: (Connection, Result<Received, Failure>))
    ensures r.0.setup == c.setup && Backlog(r.0) <= Backlog(c) && c.received <= r.0.received
    ensures r.1.Ok? ==> Backlog(r.0) < Backlog(c)
    decreases Backlog(c)
  {
    match Receive(c)
    case (taken, Err(failure)) => (taken, Err(failure))
    case (taken, Ok(frame)) =>
      match Handle(taken, frame)
      case (after, Some(answer)) => (after, answer)
      case (after, None) => ReceiveMessage(after)
  }

  /** A connection over a transport that has yet to give `incoming`, some of it already buffered. */
  function Open(setup: Setup, buffer: seq<byte>, incoming: seq<seq<byte>>, writes: nat): Connection {
    Connection(setup, buffer, incoming, [], IDLE, false, [], writes)
  }

  // --- what every call keeps

  function Closes(frames: seq<Frame>): nat {
    if frames == [] then 0
    else Closes(frames[..|frames| - 1]) + (if frames[|frames| - 1].opcode == Close then 1 else 0)
  }

  /** A frame this end may put on the wire, and the other end will take. */
  predicate Proper(client: bool, frame: Frame) {
    && Legal(frame) && frame.mask.Some? == client
    && (frame.opcode == Close ==> VerifyClose(frame.payload) == Ok(()))
  }

  ghost predicate Kept(c: Connection) {
    && Sound(c.setup.limits, c.pending)
    && Closes(c.sent) <= (if c.closing then 1 else 0)
    && (forall i :: 0 <= i < |c.sent| ==> Proper(c.setup.client, c.sent[i]))
  }

  lemma SendKeeps(c: Connection, frame: Frame)
    requires Kept(c) && Legal(frame)
    requires frame.opcode == Close ==> VerifyClose(frame.payload) == Ok(())
    ensures var after := Send(c, frame).0;
            && (frame.opcode != Close ==> Kept(after))
            && (!c.closing ==> Kept(after.(closing := true)))
  {
    hide VerifyClose;
    var after := Send(c, frame).0;
    if c.writes > 0 {
      assert after.sent[..|after.sent| - 1] == c.sent;
    }
  }

  lemma ValidInvalidText()
    ensures ValidUtf8(INVALID_TEXT)
  {
    assert forall i :: 0 <= i < 13 ==> INVALID_TEXT[i] <= 0x7f;
    AsciiIsValid(INVALID_TEXT);
  }

  lemma {:induction false} AsciiIsValid(text: seq<byte>)
    requires forall i :: 0 <= i < |text| ==> text[i] <= 0x7f
    ensures ValidUtf8(text)
  {
    if text != [] {
      AsciiIsValid(text[1..]);
    }
  }

  lemma CloseKeeps(c: Connection, code: CloseCode, reason: seq<byte>)
    requires Kept(c) && ValidUtf8(reason)
    ensures Kept(CloseWith(c, code, reason))
  {
    if !c.closing {
      ClosePayloadVerifies(code, reason, None);
      var frame := Unfragmented(Close, ClosePayload(code, reason));
      SendKeeps(c, frame);
      assert Send(c.(closing := true), frame).0 == Send(c, frame).0.(closing := true);
    }
  }

  lemma HandleKeeps(c: Connection, frame: Frame)
    requires Kept(c) && Legal(frame)
    ensures Kept(Handle(c, frame).0)
  {
    hide CloseWith, Accept, Proper, Closes, ValidUtf8;
    if frame.opcode == Close {
      if VerifyClose(frame.payload).Ok? && !c.closing {
        var echo := Unfragmented(Close, frame.payload);
        SendKeeps(c, echo);
        assert Send(c.(closing := true), echo).0 == Send(c, echo).0.(closing := true);
      }
    } else if frame.opcode == Ping {
      SendKeeps(c, Unfragmented(Pong, frame.payload));
    } else if frame.opcode != Pong {
      AcceptKeepsSound(c.setup.limits, c.pending, frame);
      var (pending, verdict) := Accept(c.setup.limits, c.pending, frame);
      if verdict == Refused(InvalidText) {
        ValidInvalidText();
        CloseKeeps(c.(pending := pending), InvalidPayload, INVALID_TEXT);
      }
    }
  }

  lemma {:induction false} ReceiveMessageKeeps(c: Connection)
    requires Kept(c)
    ensures Kept(ReceiveMessage(c).0)
    decreases Backlog(c)
  {
    var (taken, frame) := Receive(c);
    if frame.Ok? {
      HandleKeeps(taken, frame.value);
      var (after, answer) := Handle(taken, frame.value);
      if answer.None? {
        ReceiveMessageKeeps(after);
      }
    }
  }

  /** The calls a user may make in any order. */
  datatype Call = CallReceive | CallClose(code: CloseCode, reason: seq<byte>)

  function Run(c: Connection, calls: seq<Call>): Connection {
    if calls == [] then c
    else
      var before := Run(c, calls[..|calls| - 1]);
      match calls[|calls| - 1]
      case CallReceive => ReceiveMessage(before).0
      case CallClose(code, reason) => CloseWith(before, code, reason)
  }

  /**
   * Over any run of receiving and closing, whatever the peer sends and however
   * its octets are split: at most one close frame is sent, every frame sent is
   * one the peer may accept, what is pending never passes the limit, and
   * something is pending exactly when its frames are counted.
   */
  lemma {:induction false} RunKeeps(c: Connection, calls: seq<Call>)
    requires Kept(c)
    requires forall i :: 0 <= i < |calls| && calls[i].CallClose? ==> ValidUtf8(calls[i].reason)
    ensures Kept(Run(c, calls)) && Closes(Run(c, calls).sent) <= 1
  {
    if calls != [] {
      var last := calls[|calls| - 1];
      RunKeeps(c, calls[..|calls| - 1]);
      var before := Run(c, calls[..|calls| - 1]);
      match last
      case CallReceive => ReceiveMessageKeeps(before);
      case CallClose(code, reason) => CloseKeeps(before, code, reason);
    }
  }

  lemma OpenIsKept(setup: Setup, buffer: seq<byte>, incoming: seq<seq<byte>>, writes: nat)
    ensures Kept(Open(setup, buffer, incoming, writes))
  {
  }

  /** So it is from the start, over a transport in any state. */
  lemma OpenRunKeeps(setup: Setup, buffer: seq<byte>, incoming: seq<seq<byte>>, writes: nat, calls: seq<Call>)
    requires forall i :: 0 <= i < |calls| && calls[i].CallClose? ==> ValidUtf8(calls[i].reason)
    ensures var end := Run(Open(setup, buffer, incoming, writes), calls);
            && Closes(end.sent) <= 1 && Sound(end.setup.limits, end.pending)
            && forall i :: 0 <= i < |end.sent| ==> Proper(end.setup.client, end.sent[i])
  {
    hide Run, Proper, Closes, Sound;
    OpenIsKept(setup, buffer, incoming, writes);
    RunKeeps(Open(setup, buffer, incoming, writes), calls);
  }
}
