/** What a connection does about a peer that breaks the rules, sections 5.4, 5.5.1, 7.4 and 8.1 of RFC 6455. */
module Refusals {
  import opened Wrappers
  import opened Octets
  import opened Masking
  import opened Frames
  import opened Utf8
  import opened Reassembly
  import opened CloseCodes
  import opened Connections
  import Delivery

  // --- close payloads, in the numbers on the wire

  /** The number two octets spell. */
  function Number(payload: seq<byte>): nat
    requires |payload| >= 2
  {
    256 * payload[0] as nat + payload[1] as nat
  }

  lemma TwoOctets(payload: seq<byte>)
    requires |payload| >= 2
    ensures FromBigEndian(payload[..2]) == Number(payload)
  {
    var two := payload[..2];
    assert two[..1] == [payload[0]] && two[..1][..0] == [];
    assert FromBigEndian(two[..1]) == payload[0] as nat;
  }

  /** A close may carry nothing, or one of these codes and a reason that is text; nothing else. */
  lemma VerifyCloseIff(payload: seq<byte>)
    ensures VerifyClose(payload).Ok?
            <==> || payload == []
                 || (&& |payload| >= 2 && ValidUtf8(payload[2..])
                     && var code := Number(payload);
                        1000 <= code <= 1003 || 1007 <= code <= 1011 || 3000 <= code <= 4999)
  {
    hide ValidUtf8, FromBigEndian;
    if |payload| >= 2 {
      TwoOctets(payload);
    }
  }

  /** The number a close code stands for. */
  ghost predicate Stands(code: CloseCode, number: nat) {
    || (code == Normal && number == 1000) || (code == GoingAway && number == 1001)
    || (code == ProtocolError && number == 1002) || (code == UnsupportedData && number == 1003)
    || (code == InvalidPayload && number == 1007) || (code == PolicyViolation && number == 1008)
    || (code == CloseCode.MessageTooBig && number == 1009) || (code == MandatoryExtension && number == 1010)
    || (code == InternalError && number == 1011)
  }

  /** A close payload is its code in two octets, and the longest part of the reason there is room for. */
  lemma ClosePayloadIs(code: CloseCode, reason: seq<byte>, number: nat)
    requires ValidUtf8(reason) && Stands(code, number)
    ensures var payload := ClosePayload(code, reason);
            && 2 <= |payload| <= 125 && Number(payload) == number
            && payload[2..] <= reason && ValidUtf8(payload[2..])
            && forall end | |payload| - 2 < end <= |reason| && end <= 123 :: !ValidUtf8(reason[..end])
  {
    hide ValidUtf8, Fitted, ToBigEndian, FromBigEndian;
    var payload := ClosePayload(code, reason);
    FittedIsLongest(reason);
    Pow256Values();
    BigEndianRoundTrip(number, 2);
    assert payload[..2] == ToBigEndian(number, 2) && payload[2..] == Fitted(reason);
    TwoOctets(payload);
  }

  /** The frame this end would send next: keyed by its place when this end is the client. */
  function Wire(c: Connection, opcode: Opcode, payload: seq<byte>): Frame {
    Frame(true, opcode, if c.setup.client then Some(c.setup.keys(|c.sent|)) else None, payload)
  }

  /** Closing sends one close, at most once, and nothing can be sent behind it. */
  lemma CloseSends(c: Connection, code: CloseCode, reason: seq<byte>)
    ensures var after := CloseWith(c, code, reason);
            && after.closing && after.writes == 0
            && after.sent == if c.closing || c.writes == 0 then c.sent
                             else c.sent + [Wire(c, Close, ClosePayload(code, reason))]
  {
    hide Linger, ClosePayload;
  }

  // --- what ends a reception

  /** What a connection has buffered once it has made so many reads. */
  function Read(c: Connection, count: nat): seq<byte>
    requires count <= |c.incoming|
  {
    c.buffer + Delivery.Flatten(c.incoming[..count])
  }

  /** So many reads bring no whole frame, nothing to refuse, and no more than the limit. */
  ghost predicate Undecided(c: Connection, count: nat) {
    && count <= |c.incoming|
    && Decode(Read(c, count)) == Ok(None) && |Read(c, count)| <= c.setup.limits.maxMessageSize
  }

  lemma ReadMore(c: Connection, count: nat)
    requires 1 <= count <= |c.incoming|
    ensures Read(c, count)
            == Read(c.(buffer := c.buffer + c.incoming[0], incoming := c.incoming[1..]), count - 1)
  {
    assert c.incoming[..count][1..] == c.incoming[1..][..count - 1];
    assert c.incoming[..count][0] == c.incoming[0];
  }

  /**
   * The first read that decides: a frame there is nothing wrong with but its
   * masking, octets that begin none, more of an unfinished one than the limit,
   * or the end of the stream, in that order.
   */
  lemma {:induction false} ReceiveStops(c: Connection, count: nat)
    requires count <= |c.incoming| && forall i | 0 <= i < count :: Undecided(c, i)
    ensures match Decode(Read(c, count))
            case Err(error) => Receive(c).1 == Err(Malformed(error))
            case Ok(Some((_, frame))) =>
              Receive(c).1 == if frame.mask.Some? == c.setup.client then Err(WrongMasking) else Ok(frame)
            case Ok(None) =>
              && (|Read(c, count)| > c.setup.limits.maxMessageSize ==> Receive(c).1 == Err(FrameTooBig))
              && (|Read(c, count)| <= c.setup.limits.maxMessageSize && count == |c.incoming| ==>
                    Receive(c).1 == Err(Ended))
    decreases count
  {
    hide Decode;
    assert c.incoming[..0] == [] && Read(c, 0) == c.buffer;
    if count > 0 {
      assert Undecided(c, 0);
      hide Read;
      var more := c.(buffer := c.buffer + c.incoming[0], incoming := c.incoming[1..]);
      ReadMore(c, count);
      forall i | 0 <= i < count - 1 ensures Undecided(more, i) {
        assert Undecided(c, i + 1);
        ReadMore(c, i + 1);
      }
      ReceiveStops(more, count - 1);
    }
  }

  // --- text that is not text

  /** "invalid utf-8", behind the number 1007. */
  const NOT_TEXT: seq<byte> :=
    [0x03, 0xef, 0x69, 0x6e, 0x76, 0x61, 0x6c, 0x69, 0x64, 0x20, 0x75, 0x74, 0x66, 0x2d, 0x38]

  lemma NotTextIs()
    ensures ClosePayload(InvalidPayload, INVALID_TEXT) == NOT_TEXT
  {
    hide ValidUtf8;
    ValidInvalidText();
    FittedIsLongest(INVALID_TEXT);
    assert ToBigEndian(1007, 2) == [Low(3), Low(1007)] by {
      assert ToBigEndian(3, 1) == [] + [Low(3)];
    }
    LowOf(0x03, 3);
    LowIs();
  }

  lemma LowIs()
    ensures Low(1007) == 0xef
  {
    assert 1007 % 256 == 239;
    WideInjective(Low(1007), 0xef);
  }

  /**
   * A message that claims to be text and is not: the last frame of it, whether
   * the first or one behind an unfinished message, makes the call fail, ends
   * what was held, sends the close that says so, unless one was sent before,
   * and shuts the transport for writing.
   */
  lemma InvalidTextCloses(c: Connection, held: seq<Frame>, frame: Frame)
    requires Receive(c).1 == Ok(frame) && c.pending == Holding(held)
    requires frame.fin && if held == [] then frame.opcode == Text
                          else Unfinished(c.setup.limits, held) && held[0].opcode == Text
                               && frame.opcode == Continuation && |held| < c.setup.limits.maxFragments
    requires |Joined(held)| + |frame.payload| <= c.setup.limits.maxMessageSize
    requires !ValidUtf8(Joined(held) + frame.payload)
    ensures var (after, answer) := ReceiveMessage(c);
            && answer == Err(Failure.Refusal(InvalidText)) && after.pending == IDLE
            && after.closing && after.writes == 0
            && after.sent == if c.closing || c.writes == 0 then c.sent else c.sent + [Wire(c, Close, NOT_TEXT)]
  {
    hide Receive, ValidUtf8, ClosePayload, CloseWith, Joined;
    var taken := Receive(c).0;
    NotTextIs();
    TextIsRefused(c.setup.limits, held, frame);
    CloseSends(taken.(pending := IDLE), InvalidPayload, INVALID_TEXT);
  }

  lemma TextIsRefused(limits: Limits, held: seq<Frame>, frame: Frame)
    requires frame.fin && if held == [] then frame.opcode == Text
                          else Unfinished(limits, held) && held[0].opcode == Text
                               && frame.opcode == Continuation && |held| < limits.maxFragments
    requires |Joined(held)| + |frame.payload| <= limits.maxMessageSize
    requires !ValidUtf8(Joined(held) + frame.payload)
    ensures Accept(limits, Holding(held), frame) == (IDLE, Refused(InvalidText))
    ensures !frame.opcode.Control()
  {
    hide ValidUtf8;
    if held == [] {
      assert Joined(held) + frame.payload == frame.payload;
    }
  }

  // --- everything else that is refused

  /** A frame that brings an answer ends the call. */
  lemma FirstDecides(c: Connection, frame: Frame)
    requires Receive(c).1 == Ok(frame) && Handle(Receive(c).0, frame).1.Some?
    ensures ReceiveMessage(c) == (Handle(Receive(c).0, frame).0, Handle(Receive(c).0, frame).1.value)
  {
    hide Receive, Handle;
  }

  /** Why a data frame behind these may not be taken, in the order the reasons are looked for. */
  function Objection(limits: Limits, held: seq<Frame>, frame: Frame): Option<Reassembly.Refusal> {
    if |Joined(held)| + |frame.payload| > limits.maxMessageSize then Some(Refusal.MessageTooBig)
    else if held != [] && frame.opcode != Continuation then Some(MessageInsideMessage)
    else if held == [] && frame.opcode == Continuation then Some(OrphanContinuation)
    else if |held| + 1 > limits.maxFragments && !(held == [] && frame.fin) then Some(TooManyFragments)
    else None
  }

  /** A data frame refused for any other reason fails the call and nothing more: no close is sent. */
  lemma ObjectionsAreQuiet(c: Connection, held: seq<Frame>, frame: Frame)
    requires Receive(c).1 == Ok(frame) && !frame.opcode.Control()
    requires c.pending == Holding(held) && (held == [] || Unfinished(c.setup.limits, held))
    requires Objection(c.setup.limits, held, frame).Some?
    ensures var (after, answer) := ReceiveMessage(c);
            && answer == Err(Failure.Refusal(Objection(c.setup.limits, held, frame).value))
            && after.sent == c.sent && after.closing == c.closing && after.writes == c.writes
            && after.received == c.received + [frame]
  {
    assert SameBut(c, Receive(c).0) && Receive(c).0.received == c.received + [frame];
    hide *;
    ObjectionIsRaised(c.setup.limits, held, frame);
    HandleRefuses(Receive(c).0, frame, Objection(c.setup.limits, held, frame).value);
    FirstDecides(c, frame);
  }

  lemma HandleRefuses(c: Connection, frame: Frame, refusal: Reassembly.Refusal)
    requires !frame.opcode.Control() && refusal != InvalidText
    requires Accept(c.setup.limits, c.pending, frame).1 == Refused(refusal)
    ensures Handle(c, frame) == (c.(pending := Accept(c.setup.limits, c.pending, frame).0),
                                 Some(Err(Failure.Refusal(refusal))))
  {
    hide Accept, CloseWith;
  }

  lemma ObjectionIsRaised(limits: Limits, held: seq<Frame>, frame: Frame)
    requires !frame.opcode.Control() && (held == [] || Unfinished(limits, held))
    requires Objection(limits, held, frame).Some?
    ensures Accept(limits, Holding(held), frame).1 == Refused(Objection(limits, held, frame).value)
    ensures Objection(limits, held, frame).value != InvalidText
  {
    hide ValidUtf8;
    assert Joined([]) == [];
  }

  /** A close that may not be is neither echoed nor handed on. */
  lemma BadCloseIsQuiet(c: Connection, frame: Frame)
    requires Receive(c).1 == Ok(frame) && frame.opcode == Close && VerifyClose(frame.payload).Err?
    ensures var (after, answer) := ReceiveMessage(c);
            && answer == Err(BadClose(VerifyClose(frame.payload).error)) && after.pending == c.pending
            && after.sent == c.sent && after.closing == c.closing && after.writes == c.writes
  {
    hide Receive, ReceiveMessage, VerifyClose, Accept;
    FirstDecides(c, frame);
  }

  /** One that may is echoed, octet for octet, unless this end closed first, and then handed on. */
  lemma GoodCloseIsEchoed(c: Connection, frame: Frame)
    requires Receive(c).1 == Ok(frame) && frame.opcode == Close && VerifyClose(frame.payload).Ok?
    ensures var (after, answer) := ReceiveMessage(c);
            && after.pending == c.pending && after.closing
            && answer == (if c.closing || c.writes > 0 then Ok(Received(Close, frame.payload)) else Err(Unwritable))
            && after.sent == if c.closing || c.writes == 0 then c.sent else c.sent + [Wire(c, Close, frame.payload)]
  {
    hide Receive, ReceiveMessage, VerifyClose, Accept;
    FirstDecides(c, frame);
  }
}
