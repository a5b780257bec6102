/**
 * End to end: what one end sends, however it is fragmented, masked, mixed with
 * control frames and split into reads, the other end receives as the messages
 * that were meant.
 */
module Delivery {
  import opened Wrappers
  import opened Octets
  import opened Masking
  import opened Frames
  import opened Utf8
  import opened Reassembly
  import opened CloseCodes
  import opened Connections

  // --- octets on the wire

  function EncodeAll(frames: seq<Frame>): seq<byte> {
    if frames == [] then [] else Encode(frames[0]) + EncodeAll(frames[1..])
  }

  function Flatten(chunks: seq<seq<byte>>): seq<byte> {
    if chunks == [] then [] else chunks[0] + Flatten(chunks[1..])
  }

  /** Every octet a connection has yet to take as frames, buffered or still to come. */
  function Ahead(c: Connection): seq<byte> {
    c.buffer + Flatten(c.incoming)
  }

  /**
   * A frame of at most one octet more than the message limit is received from
   * any split of the octets that carry it.
   */
  lemma {:induction false} ReceiveTakes(c: Connection, frame: Frame, rest: seq<byte>)
    requires Legal(frame) && frame.mask.Some? != c.setup.client
    requires |Encode(frame)| <= c.setup.limits.maxMessageSize + 1
    requires Ahead(c) == Encode(frame) + rest
    ensures var (after, taken) := Receive(c);
            taken == Ok(frame) && Ahead(after) == rest && after.received == c.received + [frame]
    decreases |c.incoming|
  {
    hide Encode, Decode, Legal;
    var whole := Encode(frame);
    if |whole| <= |c.buffer| {
      var tail := c.buffer[|whole|..];
      assert c.buffer == Ahead(c)[..|c.buffer|] == whole + tail;
      DecodeEncoded(frame, tail);
      assert tail + Flatten(c.incoming) == rest;
    } else {
      assert c.buffer == Ahead(c)[..|c.buffer|] == whole[..|c.buffer|];
      DecodeStrictPrefix(frame, |c.buffer|);
      assert |Ahead(c)| >= |whole| > |c.buffer|;
      assert c.incoming != [];
      var more := c.(buffer := c.buffer + c.incoming[0], incoming := c.incoming[1..]);
      assert Ahead(more) == Ahead(c);
      ReceiveTakes(more, frame, rest);
    }
  }

  lemma {:induction false} ReceiveEnds(c: Connection)
    requires Ahead(c) == []
    ensures var (after, taken) := Receive(c);
            taken == Err(Ended) && Ahead(after) == [] && after.received == c.received
    decreases |c.incoming|
  {
    assert c.buffer == [] && Decode([]) == Ok(None);
    if c.incoming != [] {
      ReceiveEnds(c.(buffer := c.buffer + c.incoming[0], incoming := c.incoming[1..]));
    }
  }

  /** A frame past the limit is refused when its last octet arrives on its own. */
  lemma LateOctetRefused(setup: Setup, frame: Frame, writes: nat) returns (chunks: seq<seq<byte>>)
    requires Legal(frame) && |Encode(frame)| > setup.limits.maxMessageSize + 1
    ensures Flatten(chunks) == Encode(frame)
    ensures Receive(Open(setup, [], chunks, writes)).1 == Err(FrameTooBig)
  {
    hide Encode, Decode, Legal;
    var whole := Encode(frame);
    var front, last := whole[..|whole| - 1], whole[|whole| - 1..];
    chunks := [front, last];
    assert chunks[1..] == [last] && [last][1..] == [];
    assert Flatten([last]) == last + Flatten([]) == last;
    assert front + last == whole;
    DecodeStrictPrefix(frame, 0);
    assert whole[..0] == [] && [] + front == front;
    DecodeStrictPrefix(frame, |whole| - 1);
    var c := Open(setup, [], chunks, writes);
    assert Receive(c) == Receive(c.(buffer := front, incoming := [last]));
  }

  /**
   * The bound is exact: a frame any longer is refused when all but its last
   * octet arrive first, though it is received when it arrives at once.
   */
  lemma ReceiveIsSplitProofIff(setup: Setup, frame: Frame, writes: nat)
    requires Legal(frame) && frame.mask.Some? != setup.client
    ensures (forall chunks: seq<seq<byte>> | Flatten(chunks) == Encode(frame) ::
               Receive(Open(setup, [], chunks, writes)).1 == Ok(frame))
            <==> |Encode(frame)| <= setup.limits.maxMessageSize + 1
    ensures Receive(Open(setup, [], [Encode(frame)], writes)).1 == Ok(frame)
  {
    hide Encode, Decode, Legal;
    var whole := Encode(frame);
    EncodedSize(frame);
    DecodeEncoded(frame, []);
    assert whole + [] == whole && [] + whole == whole;
    assert Decode([]) == Ok(None) by { DecodeStrictPrefix(frame, 0); assert whole[..0] == []; }
    if |whole| <= setup.limits.maxMessageSize + 1 {
      forall chunks: seq<seq<byte>> | Flatten(chunks) == whole
        ensures Receive(Open(setup, [], chunks, writes)).1 == Ok(frame)
      {
        ReceiveTakes(Open(setup, [], chunks, writes), frame, []);
      }
    } else {
      var chunks := LateOctetRefused(setup, frame, writes);
    }
  }

  lemma EncodedSize(frame: Frame)
    ensures |Encode(frame)| == |Header(frame)| + |frame.payload| >= 2
  {
  }

  // --- what the sender means

  /** A message as its sender cuts it: one frame for each part. */
  datatype Message = Message(opcode: Opcode, parts: seq<seq<byte>>)

  predicate Sendable(limits: Limits, m: Message) {
    && m.opcode in {Text, Binary}
    && m.parts != []
    && |Flatten(m.parts)| <= limits.maxMessageSize
    && (|m.parts| > 1 ==> |m.parts| <= limits.maxFragments)
    && (m.opcode == Text ==> ValidUtf8(Flatten(m.parts)))
  }

  function Fragment(m: Message, i: nat): Frame
    requires i < |m.parts|
  {
    Frame(i == |m.parts| - 1, if i == 0 then m.opcode else Continuation, None, m.parts[i])
  }

  function Fragments(m: Message): seq<Frame> {
    seq(|m.parts|, i requires 0 <= i < |m.parts| => Fragment(m, i))
  }

  function AllFragments(messages: seq<Message>): seq<Frame> {
    if messages == [] then [] else Fragments(messages[0]) + AllFragments(messages[1..])
  }

  function Bare(frame: Frame): Frame {
    frame.(mask := None)
  }

  /** The data frames of a run, in order and without their masks. */
  function Data(frames: seq<Frame>): seq<Frame> {
    if frames == [] then []
    else (if frames[0].opcode.Control() then [] else [Bare(frames[0])]) + Data(frames[1..])
  }

  function Answer(frame: Frame): seq<Frame> {
    if frame.opcode == Ping then [Frames.Frame(true, Pong, None, frame.payload)]
    else if frame.opcode == Close then [Frames.Frame(true, Close, None, frame.payload)]
    else []
  }

  /** The answers a run of frames is owed, in order: a pong for each ping, an echo of a close. */
  function Answers(frames: seq<Frame>): seq<Frame> {
    if frames == [] then []
    else Answer(frames[0]) + Answers(frames[1..])
  }

  /** What the receiver should hand over: the messages, and then the close if there is one. */
  function Expected(messages: seq<Message>, frames: seq<Frame>): seq<Received> {
    if messages != [] then
      [Received(messages[0].opcode, Flatten(messages[0].parts))] + Expected(messages[1..], frames)
    else if EndsInClose(frames) then [Received(Close, frames[|frames| - 1].payload)]
    else []
  }

  predicate EndsInClose(frames: seq<Frame>) {
    frames != [] && frames[|frames| - 1].opcode == Close
  }

  /** Frames a peer of `setup` may put on the wire: a close only at the end. */
  predicate Transmission(setup: Setup, frames: seq<Frame>) {
    && (forall i :: 0 <= i < |frames| ==>
          && Proper(!setup.client, frames[i])
          && |Encode(frames[i])| <= setup.limits.maxMessageSize + 1)
    && (forall i :: 0 <= i < |frames| - 1 ==> frames[i].opcode != Close)
  }

  // --- the receiver, asked for messages until there are no more

  function ReceiveAll(c: Connection): (Connection, seq<Received>, Option<Failure>)
    decreases Backlog(c)
  {
    match ReceiveMessage(c)
    case (after, Err(failure)) => (after, [], Some(failure))
    case (after, Ok(delivery)) =>
      if delivery.opcode == Close then (after, [delivery], None)
      else
        var (last, deliveries, failure) := ReceiveAll(after);
        (last, [delivery] + deliveries, failure)
  }

  function Bares(frames: seq<Frame>): (bares: seq<Frame>)
    ensures |bares| == |frames|
  {
    seq(|frames|, i requires 0 <= i < |frames| => Bare(frames[i]))
  }

  // --- the messages behind a run of fragments

  lemma {:induction false} FlattenAppends(chunks: seq<seq<byte>>, j: nat)
    requires j < |chunks|
    ensures Flatten(chunks[..j + 1]) == Flatten(chunks[..j]) + chunks[j]
  {
    if j > 0 {
      FlattenAppends(chunks[1..], j - 1);
      assert chunks[..j + 1][1..] == chunks[1..][..j] && chunks[..j][1..] == chunks[1..][..j - 1];
    } else {
      assert chunks[..1][1..] == [] && Flatten([]) == [];
    }
  }

  lemma {:induction false} JoinedFragments(m: Message, j: nat)
    requires m.parts != [] && j <= |m.parts|
    ensures Joined(Fragments(m)[..j]) == Flatten(m.parts[..j])
  {
    if j > 0 {
      JoinedFragments(m, j - 1);
      FlattenAppends(m.parts, j - 1);
      assert Fragments(m)[..j][..j - 1] == Fragments(m)[..j - 1];
    }
  }

  lemma {:induction false} FlattenGrows(parts: seq<seq<byte>>, j: nat)
    requires j <= |parts|
    ensures |Flatten(parts[..j])| <= |Flatten(parts)|
    decreases |parts| - j
  {
    if j == |parts| {
      assert parts[..j] == parts;
    } else {
      FlattenGrows(parts, j + 1);
      FlattenAppends(parts, j);
    }
  }

  lemma FragmentsAreWhole(limits: Limits, m: Message, j: nat)
    requires Sendable(limits, m) && j <= |m.parts|
    ensures Joined(Fragments(m)) == Flatten(m.parts)
    ensures 0 < j < |m.parts| ==> Unfinished(limits, Fragments(m)[..j])
    ensures Whole(limits, Fragments(m))
  {
    hide ValidUtf8, Flatten, Joined, Fragment;
    JoinedFragments(m, j);
    JoinedFragments(m, |m.parts|);
    assert Fragments(m)[..|m.parts|] == Fragments(m) && m.parts[..|m.parts|] == m.parts;
    FlattenGrows(m.parts, j);
    FragmentShapes(m);
  }

  lemma FragmentShapes(m: Message)
    requires m.parts != []
    ensures Fragments(m)[0].opcode == m.opcode
    ensures forall i :: 0 <= i < |m.parts| ==>
              && (Fragments(m)[i].fin <==> i == |m.parts| - 1)
              && (i > 0 ==> Fragments(m)[i].opcode == Continuation)
  {
  }

  /** Where the receiver stands: `j` fragments into the first of the messages still owed. */
  predicate Midway(c: Connection, messages: seq<Message>, j: nat, data: seq<Frame>) {
    && (if messages == [] then j == 0 else j < |messages[0].parts|)
    && (forall i :: 0 <= i < |messages| ==> Sendable(c.setup.limits, messages[i]))
    && j <= |AllFragments(messages)|
    && data == AllFragments(messages)[j..]
    && c.pending == (if j == 0 then IDLE else Holding(Fragments(messages[0])[..j]))
  }

  /** Messages are owed exactly when data frames are. */
  lemma MidwayOwes(c: Connection, messages: seq<Message>, j: nat, data: seq<Frame>)
    requires Midway(c, messages, j, data)
    ensures messages == [] <==> data == []
  {
    hide Flatten, ValidUtf8;
    if messages != [] {
      assert |AllFragments(messages)| >= |messages[0].parts| > j;
    }
  }

  /** The next data frame owed is the next fragment; it either keeps the message open or ends it. */
  lemma NextFragment(c: Connection, messages: seq<Message>, j: nat, frame: Frame, data: seq<Frame>)
    requires Midway(c, messages, j, [Bare(frame)] + data)
    requires !frame.opcode.Control()
    ensures messages != []
    ensures var m := messages[0];
            var (pending, verdict) := Accept(c.setup.limits, c.pending, frame);
            if j + 1 == |m.parts|
            then verdict == Reassembly.Message(m.opcode, Flatten(m.parts))
                 && Midway(c.(pending := pending), messages[1..], 0, data)
            else verdict == More && Midway(c.(pending := pending), messages, j + 1, data)
  {
    hide Whole, Unfinished, Joined, Flatten, ValidUtf8;
    var all := AllFragments(messages);
    MidwayOwes(c, messages, j, [Bare(frame)] + data);
    var m := messages[0];
    var before := Fragments(m)[..j];
    assert all[j..][0] == Bare(frame);
    assert all[j] == Fragments(m)[j];
    assert Accept(c.setup.limits, c.pending, frame) == Accept(c.setup.limits, c.pending, Bare(frame));
    FragmentsAreWhole(c.setup.limits, m, j);
    FragmentsAreWhole(c.setup.limits, m, j + 1);
    assert before + [Bare(frame)] == Fragments(m)[..j + 1];
    AcceptIsExact(c.setup.limits, before, Bare(frame));
    assert all[j + 1..] == data;
    if j + 1 == |m.parts| {
      assert Fragments(m)[..j + 1] == Fragments(m);
      assert all[|m.parts|..] == AllFragments(messages[1..]);
    }
  }

  // --- one frame at a time

  /** The next frame on its way arrives as it was sent. */
  lemma TakeNext(c: Connection, frames: seq<Frame>) returns (taken: Connection)
    requires frames != [] && Transmission(c.setup, frames) && Ahead(c) == EncodeAll(frames)
    ensures Receive(c) == (taken, Ok(frames[0]))
    ensures Ahead(taken) == EncodeAll(frames[1..]) && Transmission(c.setup, frames[1..])
    ensures SameBut(c, taken)
  {
    ReceiveTakes(c, frames[0], EncodeAll(frames[1..]));
    taken := Receive(c).0;
  }

  /** The state of a delivery: what is on its way, what it means, and room to answer it. */
  ghost predicate Delivering(c: Connection, messages: seq<Message>, j: nat, frames: seq<Frame>) {
    && Transmission(c.setup, frames)
    && Ahead(c) == EncodeAll(frames)
    && Midway(c, messages, j, Data(frames))
    && !c.closing
    && c.writes >= |Answers(frames)|
  }

  ghost predicate Delivered(c: Connection, messages: seq<Message>, frames: seq<Frame>) {
    var (after, handed, failure) := ReceiveAll(c);
    && handed == Expected(messages, frames)
    && failure == (if EndsInClose(frames) then None else Some(Ended))
    && c.sent <= after.sent
    && Bares(after.sent[|c.sent|..]) == Answers(frames)
  }

  lemma HandleControl(taken: Connection, frame: Frame) returns (after: Connection)
    requires frame.opcode == Ping || frame.opcode == Pong
    requires taken.writes >= |Answer(frame)|
    ensures Handle(taken, frame) == (after, None)
    ensures after == taken.(sent := after.sent, writes := taken.writes - |Answer(frame)|)
    ensures taken.sent <= after.sent && Bares(after.sent[|taken.sent|..]) == Answer(frame)
  {
    after := Handle(taken, frame).0;
    if frame.opcode == Ping {
      var pong := Keyed(taken.setup, Unfragmented(Pong, frame.payload), |taken.sent|);
      assert after.sent == taken.sent + [pong];
      assert after.sent[|taken.sent|..] == [pong];
    }
  }

  /** A pong is passed over, and a ping answered, without disturbing the message around it. */
  lemma PassControl(c: Connection, messages: seq<Message>, j: nat, frames: seq<Frame>) returns (after: Connection)
    requires Delivering(c, messages, j, frames) && frames != []
    requires frames[0].opcode == Ping || frames[0].opcode == Pong
    ensures Delivering(after, messages, j, frames[1..])
    ensures ReceiveAll(c) == ReceiveAll(after)
    ensures c.sent <= after.sent
    ensures Bares(after.sent[|c.sent|..]) + Answers(frames[1..]) == Answers(frames)
  {
    hide Encode, EncodeAll, Flatten, Receive, Handle, Transmission, Sendable, Holding, AllFragments, Bares;
    var taken := TakeNext(c, frames);
    after := HandleControl(taken, frames[0]);
    assert ReceiveMessage(c) == ReceiveMessage(after);
    assert Data(frames) == Data(frames[1..]);
  }

  lemma {:induction false} ExpectedTail(messages: seq<Message>, frames: seq<Frame>)
    requires frames != [] && frames[0].opcode != Close
    ensures EndsInClose(frames) == EndsInClose(frames[1..])
    ensures Expected(messages, frames) == Expected(messages, frames[1..])
  {
    if messages != [] {
      ExpectedTail(messages[1..], frames);
    }
  }

  lemma HandleData(taken: Connection, frame: Frame)
    requires !frame.opcode.Control()
    ensures var (pending, verdict) := Accept(taken.setup.limits, taken.pending, frame);
            !verdict.Refused? ==>
              Handle(taken, frame)
              == (taken.(pending := pending),
                  if verdict == More then None else Some(Ok(Received(verdict.opcode, verdict.payload))))
  {
    hide Accept, CloseWith;
  }

  lemma DataFirst(frames: seq<Frame>)
    requires frames != [] && !frames[0].opcode.Control()
    ensures Data(frames) == [Bare(frames[0])] + Data(frames[1..]) && Answers(frames) == Answers(frames[1..])
  {
  }

  lemma PassData(c: Connection, messages: seq<Message>, j: nat, frames: seq<Frame>)
    returns (after: Connection, left: seq<Message>, k: nat)
    requires Delivering(c, messages, j, frames) && frames != []
    requires !frames[0].opcode.Control()
    ensures after.sent == c.sent && Answers(frames) == Answers(frames[1..])
    ensures Delivering(after, left, k, frames[1..])
    ensures if left == messages then ReceiveAll(c) == ReceiveAll(after)
            else
              && messages != [] && left == messages[1..] && messages[0].opcode != Close
              && ReceiveMessage(c) == (after, Ok(Received(messages[0].opcode, Flatten(messages[0].parts))))
  {
    hide Encode, EncodeAll, Flatten, Receive, Transmission, Holding, AllFragments, ValidUtf8, CloseWith, Accept;
    hide Handle, Data, Answers;
    var taken := TakeNext(c, frames);
    var frame := frames[0];
    DataFirst(frames);
    assert Midway(taken, messages, j, [Bare(frame)] + Data(frames[1..]));
    NextFragment(taken, messages, j, frame, Data(frames[1..]));
    HandleData(taken, frame);
    var (pending, verdict) := Accept(c.setup.limits, c.pending, frame);
    after := taken.(pending := pending);
    if verdict == More {
      left, k := messages, j + 1;
      assert ReceiveMessage(c) == ReceiveMessage(after);
    } else {
      left, k := messages[1..], 0;
    }
  }

  lemma PassClose(c: Connection, messages: seq<Message>, j: nat, frames: seq<Frame>)
    requires Delivering(c, messages, j, frames) && frames != []
    requires frames[0].opcode == Close
    ensures Delivered(c, messages, frames)
  {
    hide Encode, EncodeAll, Flatten, Receive, Sendable, Holding, AllFragments, CloseWith;
    hide Accept, Midway, VerifyClose, Legal;
    assert |frames| == 1 && Data(frames[1..]) == [] && Answers(frames[1..]) == [];
    MidwayOwes(c, messages, j, Data(frames));
    var taken := TakeNext(c, frames);
    var echo := Unfragmented(Close, frames[0].payload);
    var after := Handle(taken, frames[0]).0;
    assert after.sent == c.sent + [Keyed(c.setup, echo, |c.sent|)];
    assert ReceiveMessage(c) == (after, Ok(Received(Close, frames[0].payload)));
    assert after.sent[|c.sent|..] == [Keyed(c.setup, echo, |c.sent|)];
    assert Bares(after.sent[|c.sent|..]) == Answers(frames);
  }

  lemma BaresJoin(first: seq<Frame>, middle: seq<Frame>, last: seq<Frame>)
    requires first <= middle <= last
    ensures first <= last
    ensures Bares(last[|first|..]) == Bares(middle[|first|..]) + Bares(last[|middle|..])
  {
    hide Bare;
    assert last[|first|..] == middle[|first|..] + last[|middle|..];
  }

  /** What is delivered after a control frame is delivered from before it, with the answer to it in front. */
  lemma ControlDelivered(c: Connection, after: Connection, messages: seq<Message>, frames: seq<Frame>)
    requires frames != [] && frames[0].opcode != Close && Delivered(after, messages, frames[1..])
    requires ReceiveAll(c) == ReceiveAll(after) && c.sent <= after.sent
    requires Bares(after.sent[|c.sent|..]) + Answers(frames[1..]) == Answers(frames)
    ensures Delivered(c, messages, frames)
  {
    hide ReceiveAll, Expected, EndsInClose, Bares, Answers;
    ExpectedTail(messages, frames);
    BaresJoin(c.sent, after.sent, ReceiveAll(c).0.sent);
  }

  lemma {:induction false} DeliveryMidway(c: Connection, messages: seq<Message>, j: nat, frames: seq<Frame>)
    requires Delivering(c, messages, j, frames)
    ensures Delivered(c, messages, frames)
    decreases frames
  {
    hide Encode, EncodeAll, Flatten, Ahead, Receive, Transmission, Handle, Midway, ReceiveMessage;
    if frames == [] {
      DeliveryDone(c, messages, j);
    } else if frames[0].opcode == Close {
      PassClose(c, messages, j, frames);
    } else if frames[0].opcode.Control() {
      hide Data, ReceiveAll, Expected, EndsInClose, Delivering, Delivered, Bares, Answers;
      var after := PassControl(c, messages, j, frames);
      DeliveryMidway(after, messages, j, frames[1..]);
      ControlDelivered(c, after, messages, frames);
    } else {
      hide Data, EndsInClose;
      var after, left, k := PassData(c, messages, j, frames);
      DeliveryMidway(after, left, k, frames[1..]);
      ExpectedTail(left, frames);
    }
  }

  lemma DeliveryDone(c: Connection, messages: seq<Message>, j: nat)
    requires Delivering(c, messages, j, [])
    ensures Delivered(c, messages, [])
  {
    hide Receive, Sendable, AllFragments, Midway;
    MidwayOwes(c, messages, j, Data([]));
    ReceiveEnds(c);
  }

  // --- both ends

  function SendAll(c: Connection, frames: seq<Frame>): Connection
    decreases |frames|
  {
    if frames == [] then c else SendAll(Send(c, frames[0]).0, frames[1..])
  }

  /** How many octets a frame takes on the wire when sent from an end of this role. */
  function WireSize(client: bool, frame: Frame): nat {
    var length := |frame.payload|;
    (if length <= 125 then 2 else if length <= 65535 then 4 else 10) + (if client then 4 else 0) + length
  }

  lemma {:induction false} SendAllSends(c: Connection, frames: seq<Frame>)
    requires c.writes >= |frames|
    ensures var after := SendAll(c, frames);
            && |after.sent| == |c.sent| + |frames| && c.sent <= after.sent
            && forall i :: 0 <= i < |frames| ==> after.sent[|c.sent| + i] == Keyed(c.setup, frames[i], |c.sent| + i)
    decreases |frames|
  {
    if frames != [] {
      var next := Send(c, frames[0]).0;
      SendAllSends(next, frames[1..]);
      forall i | 0 <= i < |frames|
        ensures SendAll(c, frames).sent[|c.sent| + i] == Keyed(c.setup, frames[i], |c.sent| + i)
      {
        if i > 0 {
          assert frames[i] == frames[1..][i - 1];
        }
      }
    }
  }

  lemma {:induction false} MasksDoNotMatter(a: seq<Frame>, b: seq<Frame>)
    requires Bares(a) == Bares(b)
    ensures Data(a) == Data(b) && Answers(a) == Answers(b) && EndsInClose(a) == EndsInClose(b)
  {
    if a != [] {
      assert Bares(a)[0] == Bares(b)[0] && Bares(a)[|a| - 1] == Bares(b)[|b| - 1];
      assert Bares(a[1..]) == Bares(a)[1..] == Bares(b)[1..] == Bares(b[1..]);
      MasksDoNotMatter(a[1..], b[1..]);
    }
  }

  lemma {:induction false} ExpectedIgnoresMasks(messages: seq<Message>, a: seq<Frame>, b: seq<Frame>)
    requires Bares(a) == Bares(b)
    ensures Expected(messages, a) == Expected(messages, b)
  {
    if messages != [] {
      ExpectedIgnoresMasks(messages[1..], a, b);
    } else if a != [] {
      assert Bares(a)[|a| - 1] == Bares(b)[|b| - 1];
    }
  }

  /**
   * Any messages, cut into any legal fragments with control frames between
   * them, sent with any masking keys and split into any reads, come out of the
   * other end as exactly those messages in order; and it answers each ping
   * with a pong of the same payload, in order, and a close with its echo.
   */
  lemma EndToEnd(sender: Connection, receiver: Connection, frames: seq<Frame>, messages: seq<Message>)
    requires sender.setup.client != receiver.setup.client
    requires sender.sent == [] && sender.writes >= |frames|
    requires forall i :: 0 <= i < |frames| ==>
               && Legal(frames[i])
               && WireSize(sender.setup.client, frames[i]) <= receiver.setup.limits.maxMessageSize + 1
               && (frames[i].opcode == Close ==> i == |frames| - 1 && VerifyClose(frames[i].payload) == Ok(()))
    requires Data(frames) == AllFragments(messages)
    requires forall i :: 0 <= i < |messages| ==> Sendable(receiver.setup.limits, messages[i])
    requires Ahead(receiver) == EncodeAll(SendAll(sender, frames).sent)
    requires receiver.pending == IDLE && !receiver.closing && receiver.writes >= |Answers(frames)|
    ensures var (after, handed, failure) := ReceiveAll(receiver);
            && handed == Expected(messages, frames)
            && failure == (if EndsInClose(frames) then None else Some(Ended))
            && receiver.sent <= after.sent
            && Bares(after.sent[|receiver.sent|..]) == Answers(frames)
  {
    hide Encode, EncodeAll, AllFragments, Sendable, VerifyClose, Legal, Data, Answers, Expected, Midway;
    var sent := SendAll(sender, frames).sent;
    assert Bares(sent) == Bares(frames) && Transmission(receiver.setup, sent) by {
      SentIsTransmission(sender, receiver.setup, frames);
    }
    hide Transmission;
    MasksDoNotMatter(sent, frames);
    ExpectedIgnoresMasks(messages, sent, frames);
    EmptyMidway(receiver, messages, Data(sent));
    DeliveryMidway(receiver, messages, 0, sent);
  }

  lemma SentIsTransmission(sender: Connection, setup: Setup, frames: seq<Frame>)
    requires sender.setup.client != setup.client
    requires sender.sent == [] && sender.writes >= |frames|
    requires forall i :: 0 <= i < |frames| ==>
               && Legal(frames[i])
               && WireSize(sender.setup.client, frames[i]) <= setup.limits.maxMessageSize + 1
               && (frames[i].opcode == Close ==> i == |frames| - 1 && VerifyClose(frames[i].payload) == Ok(()))
    ensures var sent := SendAll(sender, frames).sent;
            Bares(sent) == Bares(frames) && Transmission(setup, sent)
  {
    hide Encode, VerifyClose, Legal, Proper, SendAll, WireSize;
    var sent := SendAll(sender, frames).sent;
    SendAllSends(sender, frames);
    forall i | 0 <= i < |sent|
      ensures Bares(sent)[i] == Bares(frames)[i]
      ensures Proper(!setup.client, sent[i])
      ensures |Encode(sent[i])| <= setup.limits.maxMessageSize + 1
      ensures i < |sent| - 1 ==> sent[i].opcode != Close
    {
      assert sent[0 + i] == Keyed(sender.setup, frames[i], 0 + i);
      KeyedIsProper(sender.setup, frames[i], i);
    }
  }

  lemma KeyedIsProper(setup: Setup, frame: Frame, index: nat)
    requires Legal(frame) && (frame.opcode == Close ==> VerifyClose(frame.payload) == Ok(()))
    ensures Proper(setup.client, Keyed(setup, frame, index))
    ensures |Encode(Keyed(setup, frame, index))| == WireSize(setup.client, frame)
  {
    hide VerifyClose;
    HeaderSize(Keyed(setup, frame, index));
  }

  lemma EmptyMidway(c: Connection, messages: seq<Message>, data: seq<Frame>)
    requires data == AllFragments(messages) && c.pending == IDLE
    requires forall i :: 0 <= i < |messages| ==> Sendable(c.setup.limits, messages[i])
    ensures Midway(c, messages, 0, data)
  {
    hide ValidUtf8, Flatten;
  }
}
