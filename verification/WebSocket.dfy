/** A WebSocket connection as an object that changes in place. */
module WebSocket {
  import opened Wrappers
  import opened Octets
  import opened Masking
  import opened Frames
  import opened FrameBuffers
  import opened Utf8
  import opened Reassembly
  import opened CloseCodes
  import opened Connections
  import opened Delivery

  lemma {:induction false} EncodeAllGrows(frames: seq<Frame>, frame: Frame)
    ensures EncodeAll(frames + [frame]) == EncodeAll(frames) + Encode(frame)
  {
    hide Encode;
    if frames == [] {
      assert [frame][1..] == [];
    } else {
      EncodeAllGrows(frames[1..], frame);
      assert (frames + [frame])[1..] == frames[1..] + [frame];
    }
  }

  class WebSocketConnection {
    const setup: Setup
    const little: bool              // the byte order of the machine
    const buffer: Buffer
    const scratch: Buffer

    var fragments: Option<(Opcode, seq<byte>)>
    var fragmentCount: nat
    var closing: bool

    // The transport: what it has yet to give, what it was given, and how many
    // more writes it takes.
    var incoming: seq<seq<byte>>
    var written: seq<byte>
    var writes: nat
    var drawn: nat                  // masking keys drawn so far, or frames sent without one

    ghost var sent: seq<Frame>
    ghost var received: seq<Frame>

    /** The octets on the wire are the frames sent, encoded. */
    ghost predicate Valid()
      reads this
    {
      && buffer != scratch
      && drawn == |sent|
      && written == EncodeAll(sent)
    }

    ghost function State(): Connection
      reads this, buffer
    {
      Connection(setup, buffer.octets, incoming, received, Pending(fragments, fragmentCount), closing, sent, writes)
    }

    constructor (setup: Setup, little: bool, buffered: seq<byte>, incoming: seq<seq<byte>>, writes: nat)
      ensures Valid() && fresh(buffer) && fresh(scratch)
      ensures State() == Open(setup, buffered, incoming, writes)
    {
      this.setup, this.little := setup, little;
      this.buffer := new Buffer();
      this.scratch := new Buffer();
      this.incoming, this.written, this.writes, this.drawn := incoming, [], writes, 0;
      this.fragments, this.fragmentCount, this.closing := None, 0, false;
      this.sent, this.received := [], [];
      new;
      buffer.Extend(buffered);
    }

    method Send(frame: Frame) returns (ok: bool)
      requires Valid()
      modifies this, scratch
      ensures Valid()
      ensures (State(), ok) == Connections.Send(old(State()), frame)
    {
      var keyed := frame.(mask := if setup.client then Some(setup.keys(drawn)) else None);
      hide Encode, EncodeAll, Masked;
      scratch.Clear();
      EncodeInto(little, keyed, scratch);
      assert [] + Encode(keyed) == Encode(keyed);
      if writes == 0 {
        return false;
      }
      EncodeAllGrows(sent, keyed);
      writes, drawn, written := writes - 1, drawn + 1, written + scratch.octets;
      sent := sent + [keyed];
      return true;
    }

    method ReceiveFrame() returns (frame: Result<Frame, Failure>)
      requires Valid()
      modifies this, buffer
      ensures Valid()
      ensures (State(), frame) == Connections.Receive(old(State()))
    {
      hide Decode, Legal, Encode, EncodeAll;
      while true
        invariant Valid()
        invariant Connections.Receive(State()) == Connections.Receive(old(State()))
        decreases |incoming|
      {
        ghost var before := State();
        var taken := Take(little, buffer);
        if taken.Err? {
          return Err(Malformed(taken.error));
        }
        if taken.value.Some? {
          var whole := taken.value.value;
          received := received + [whole];
          if setup.client == whole.mask.Some? {
            return Err(WrongMasking);
          }
          return Ok(whole);
        }
        assert State() == before;
        if |buffer.octets| > setup.limits.maxMessageSize {
          return Err(FrameTooBig);
        }
        if incoming == [] {
          return Err(Ended);
        }
        buffer.Extend(incoming[0]);
        incoming := incoming[1..];
      }
    }

    /** Waits for the peer's close, an error, or the linger running out. */
    method AwaitClose()
      requires Valid()
      modifies this, buffer
      ensures Valid()
      ensures State() == Linger(old(State()), setup.patience)
    {
      hide Receive, EncodeAll, Encode;
      var patience: nat := setup.patience;
      while patience > 0
        invariant Valid()
        invariant Linger(State(), patience) == Linger(old(State()), setup.patience)
      {
        var frame := ReceiveFrame();
        if frame.Err? || frame.value.opcode == Close {
          return;
        }
        patience := patience - 1;
      }
    }

    /** Sends a close unless one went before, lingers for the peer's, and shuts the transport down. */
    method CloseConnection(code: CloseCode, reason: seq<byte>)
      requires Valid() && ValidUtf8(reason)
      modifies this, buffer, scratch
      ensures Valid()
      ensures State() == CloseWith(old(State()), code, reason)
    {
      hide Receive, EncodeAll, Encode, Linger, Fitted;
      if !closing {
        closing := true;
        var fitted := Reason(reason);
        var ok := Send(Unfragmented(Close, ToBigEndian(code.Code(), 2) + fitted));
        if ok {
          AwaitClose();
        }
      }
      writes := 0;
    }

    /** Takes in one data frame: nothing yet, a message, or a refusal. */
    method AcceptFrame(frame: Frame) returns (verdict: Verdict)
      requires Valid() && Sound(setup.limits, State().pending) && !frame.opcode.Control()
      modifies this`fragments, this`fragmentCount
      ensures (State().pending, verdict) == Accept(setup.limits, old(State()).pending, frame)
    {
      hide ValidUtf8;
      var held := match fragments
        case Some((_, pending)) => |pending| + |frame.payload|
        case None => |frame.payload|;
      if held > setup.limits.maxMessageSize {
        return Refused(Refusal.MessageTooBig);
      }
      if frame.fin && fragments.None? && frame.opcode != Continuation {
        return Finish(frame.opcode, frame.payload);
      }
      if fragments.Some? {
        if frame.opcode != Continuation {
          return Refused(MessageInsideMessage);
        }
        var (opcode, pending) := fragments.value;
        fragments, fragmentCount := Some((opcode, pending + frame.payload)), fragmentCount + 1;
      } else {
        if frame.opcode == Continuation {
          return Refused(OrphanContinuation);
        }
        fragments, fragmentCount := Some((frame.opcode, frame.payload)), 1;
      }
      if fragmentCount > setup.limits.maxFragments {
        return Refused(TooManyFragments);
      }
      if !frame.fin {
        return More;
      }
      var (opcode, payload) := fragments.value;
      fragments, fragmentCount := None, 0;
      return Finish(opcode, payload);
    }

    /** Loops until some frame brings an answer: a message, a close, or a failure. */
    method ReceiveWhole() returns (answer: Result<Received, Failure>)
      requires Valid() && Sound(setup.limits, State().pending)
      modifies this, buffer, scratch
      ensures Valid() && Sound(setup.limits, State().pending)
      ensures (State(), answer) == ReceiveMessage(old(State()))
    {
      hide Receive, Accept, CloseWith, EncodeAll, Encode, Linger, Legal, ValidUtf8, VerifyClose;
      while true
        invariant Valid() && Sound(setup.limits, State().pending)
        invariant ReceiveMessage(State()) == ReceiveMessage(old(State()))
        decreases Backlog(State())
      {
        var frame := ReceiveFrame();
        if frame.Err? {
          return Err(frame.error);
        }
        var handled := HandleFrame(frame.value);
        if handled.Some? {
          return handled.value;
        }
      }
    }

    /** Checks a close, echoes it unless this end closed first, and hands it on. */
    method HandleClose(payload: seq<byte>) returns (answer: Result<Received, Failure>)
      requires Valid()
      modifies this, scratch
      ensures Valid() && State().pending == old(State()).pending
      ensures (State(), answer) == Closed(old(State()), payload)
    {
      hide Receive, EncodeAll, Encode, VerifyClose;
      var verified := VerifyClose(payload);
      if verified.Err? {
        return Err(BadClose(verified.error));
      }
      if !closing {
        closing := true;
        var ok := Send(Unfragmented(Close, payload));
        if !ok {
          return Err(Unwritable);
        }
      }
      return Ok(Received(Close, payload));
    }

    /** Takes a data frame into the message, and closes on text that is not well-formed. */
    method HandleData(frame: Frame) returns (handled: Option<Result<Received, Failure>>)
      requires Valid() && Sound(setup.limits, State().pending) && !frame.opcode.Control()
      modifies this, buffer, scratch
      ensures Valid() && Sound(setup.limits, State().pending)
      ensures (State(), handled) == Handle(old(State()), frame)
    {
      hide Receive, EncodeAll, Encode, ValidUtf8, CloseWith;
      AcceptKeepsSound(setup.limits, State().pending, frame);
      hide Accept;
      var verdict := AcceptFrame(frame);
      match verdict
      case More => return None;
      case Message(opcode, payload) => return Some(Ok(Received(opcode, payload)));
      case Refused(refusal) =>
        if refusal == InvalidText {
          ValidInvalidText();
          CloseConnection(InvalidPayload, INVALID_TEXT);
        }
        return Some(Err(Refusal(refusal)));
    }

    /** What one frame does while a message is awaited. */
    method HandleFrame(frame: Frame) returns (handled: Option<Result<Received, Failure>>)
      requires Valid() && Sound(setup.limits, State().pending)
      modifies this, buffer, scratch
      ensures Valid() && Sound(setup.limits, State().pending)
      ensures (State(), handled) == Handle(old(State()), frame)
    {
      hide Receive, EncodeAll, Encode, Linger, ValidUtf8, VerifyClose, CloseWith, Accept, Sound;
      match frame.opcode
      case Close =>
        var answer := HandleClose(frame.payload);
        return Some(answer);
      case Ping =>
        var ok := Send(Unfragmented(Pong, frame.payload));
        return if ok then None else Some(Err(Unwritable));
      case Pong => return None;
      case _ => handled := HandleData(frame);
    }
  }
}
