/** What comes back as a message, whatever the peer sends and whatever was refused before. */
module Assembling {
  import opened Wrappers
  import opened Octets
  import opened Utf8
  import opened Frames
  import opened Reassembly
  import opened CloseCodes
  import opened Connections
  import opened Delivery
  import opened Sublists

  /** The data frames among those a connection took since `from`. */
  function DataSince(c: Connection, from: nat): seq<Frame>
    requires from <= |c.received|
  {
    Data(c.received[from..])
  }

  // --- one call

  /** The data frames a call takes into the message, in order; a refused one is not among them. */
  function Accepted(c: Connection): seq<Frame>
    decreases Backlog(c)
  {
    match Receive(c)
    case (_, Err(_)) => []
    case (taken, Ok(frame)) =>
      match Handle(taken, frame)
      case (after, None) => Data([frame]) + Accepted(after)
      case (_, Some(answer)) => if answer.Err? then [] else Data([frame])
  }

  /** More frames than a message may span are held, and none of them will ever be returned. */
  predicate Wedged(limits: Limits, pending: Pending) {
    pending.fragments.Some? && pending.count > limits.maxFragments
  }

  /** What is pending is the data frames held, or will never be returned. */
  predicate Assembles(limits: Limits, pending: Pending, held: seq<Frame>) {
    || Wedged(limits, pending)
    || (pending == Holding(held) && (held == [] || Unfinished(limits, held)))
  }

  /** What a refusal leaves of the data frames held. */
  function Left(held: seq<Frame>, failure: Failure): seq<Frame> {
    if failure == Failure.Refusal(InvalidText) then [] else held
  }

  lemma WedgedStays(limits: Limits, pending: Pending, frame: Frame)
    requires Wedged(limits, pending) && !frame.opcode.Control()
    ensures Accept(limits, pending, frame).1.Refused? && Wedged(limits, Accept(limits, pending, frame).0)
    ensures Accept(limits, pending, frame).1 != Refused(InvalidText)
  {
  }

  /** A refused data frame leaves what was held, or nothing, or wedges the connection. */
  lemma RefusedLeaves(limits: Limits, held: seq<Frame>, frame: Frame)
    requires (held == [] || Unfinished(limits, held)) && !frame.opcode.Control()
    requires Accept(limits, Holding(held), frame).1.Refused?
    ensures var (after, verdict) := Accept(limits, Holding(held), frame);
            Assembles(limits, after, Left(held, Failure.Refusal(verdict.refusal)))
  {
    hide Joined, ValidUtf8;
  }

  lemma DataRefused(c: Connection, frame: Frame)
    requires !frame.opcode.Control()
    ensures Handle(c, frame).1.Some? && Handle(c, frame).1.value.Err? ==> Handle(c, frame).1.value.error.Refusal?
    ensures var (pending, verdict) := Accept(c.setup.limits, c.pending, frame);
            verdict.Refused? ==>
              Handle(c, frame).0.pending == pending && Handle(c, frame).1 == Some(Err(Refusal(verdict.refusal)))
  {
    hide Accept, CloseWith;
  }

  lemma ControlLeaves(c: Connection, frame: Frame)
    requires frame.opcode.Control()
    ensures var (after, answer) := Handle(c, frame);
            && after.pending == c.pending && after.received == c.received
            && (answer.Some? && answer.value.Ok? ==> answer.value.value.opcode == Close)
            && (answer.Some? && answer.value.Err?
                ==> !answer.value.error.Refusal? && answer.value.error != WrongMasking)
  {
    hide VerifyClose;
  }

  lemma AcceptIgnoresMask(limits: Limits, pending: Pending, frame: Frame)
    ensures Accept(limits, pending, frame) == Accept(limits, pending, Bare(frame))
    ensures Bare(frame).opcode == frame.opcode
  {
    hide ValidUtf8;
  }

  lemma WholeOpens(limits: Limits, frames: seq<Frame>)
    ensures Whole(limits, frames) ==> frames != [] && frames[0].opcode in {Text, Binary}
  {
    hide Joined, ValidUtf8;
  }

  lemma DataOfData(frame: Frame)
    requires !frame.opcode.Control()
    ensures Data([frame]) == [Bare(frame)]
  {
  }

  /** One frame, of whatever kind, while something is being assembled. */
  lemma HandleTells(c: Connection, frame: Frame, held: seq<Frame>)
    requires Assembles(c.setup.limits, c.pending, held)
    ensures var (after, answer) := Handle(c, frame);
            var seen, limits := held + Data([frame]), c.setup.limits;
            if answer.None? || (answer.value.Ok? && answer.value.value.opcode == Close)
            then Assembles(limits, after.pending, seen)
            else if answer.value.Ok?
            then
              && Whole(limits, seen)
              && answer.value.value == Received(seen[0].opcode, Joined(seen))
              && after.pending == IDLE
            else Assembles(limits, after.pending, Left(held, answer.value.error))
  {
    hide Handle, Whole, Unfinished, Joined, Holding, Accept, Bare, Data;
    var limits := c.setup.limits;
    if frame.opcode.Control() {
      ControlLeaves(c, frame);
      DataOfOne(frame);
      assert held + Data([frame]) == held;
    } else if Accept(limits, c.pending, frame).1.Refused? {
      DataRefused(c, frame);
      if Wedged(limits, c.pending) {
        WedgedStays(limits, c.pending, frame);
      } else {
        RefusedLeaves(limits, held, frame);
      }
    } else if Wedged(limits, c.pending) {
      WedgedStays(limits, c.pending, frame);
    } else {
      HandleData(c, frame);
      AcceptIgnoresMask(limits, c.pending, frame);
      AcceptIsExact(limits, held, Bare(frame));
      DataOfData(frame);
      WholeOpens(limits, held + [Bare(frame)]);
    }
  }

  lemma DataOfFirst(frames: seq<Frame>)
    requires frames != []
    ensures Data(frames) == Data([frames[0]]) + Data(frames[1..])
  {
    hide Bare;
    assert [frames[0]][1..] == [] && Data([]) == [];
  }

  lemma {:induction false} DataJoins(front: seq<Frame>, rest: seq<Frame>)
    ensures Data(front + rest) == Data(front) + Data(rest)
  {
    if front == [] {
      assert front + rest == rest && Data([]) == [];
    } else {
      hide Data;
      DataJoins(front[1..], rest);
      assert (front + rest)[1..] == front[1..] + rest && (front + rest)[0] == front[0];
      DataOfFirst(front + rest);
      DataOfFirst(front);
      ThreeJoin(Data([front[0]]), Data(front[1..]), Data(rest));
    }
  }

  lemma ThreeJoin<T>(a: seq<T>, b: seq<T>, c: seq<T>)
    ensures (a + b) + c == a + (b + c)
  {
  }

  /** The data frames taken over two stretches are those of the one and then of the other. */
  lemma DataContinues(first: Connection, middle: Connection, last: Connection, from: nat)
    requires from <= |first.received| && first.received <= middle.received <= last.received
    ensures DataSince(last, from) == DataSince(middle, from) + DataSince(last, |middle.received|)
  {
    var m := middle.received;
    assert last.received[from..] == m[from..] + last.received[|m|..];
    DataJoins(m[from..], last.received[|m|..]);
  }

  lemma DataOfTaken(c: Connection, taken: Connection, frame: Frame)
    requires taken.received == c.received + [frame]
    ensures DataSince(taken, |c.received|) == Data([frame])
  {
    hide Data;
    assert taken.received[|c.received|..] == [frame];
  }

  /** A call takes just the frames its first frame's handling takes, and then those of the call that goes on. */
  lemma TakenByCall(c: Connection, taken: Connection, frame: Frame, after: Connection, last: Connection)
    requires Receive(c) == (taken, Ok(frame)) && taken.received <= after.received <= last.received
    ensures DataSince(last, |c.received|)
            == Data([frame]) + DataSince(after, |taken.received|) + DataSince(last, |after.received|)
  {
    hide Receive, Data, DataSince;
    DataOfTaken(c, taken, frame);
    DataContinues(c, taken, after, |c.received|);
    DataContinues(c, after, last, |c.received|);
  }

  /** What a call answers, and leaves pending, in terms of what was held before it. */
  ghost predicate CallTells(c: Connection, held: seq<Frame>) {
    var (after, answer) := ReceiveMessage(c);
    var (taken, limits, seen) := (DataSince(after, |c.received|), c.setup.limits, held + Accepted(c));
    && Accepted(c) <= taken
    && (answer.Ok? ==> Accepted(c) == taken)
    && if answer.Err? then Assembles(limits, after.pending, Left(seen, answer.error))
       else if answer.value.opcode == Close then Assembles(limits, after.pending, seen)
       else Whole(limits, seen) && answer.value == Received(seen[0].opcode, Joined(seen)) && after.pending == IDLE
  }

  /**
   * On any octets at all, and whatever was refused before: a message returned
   * is the data frames held and those this call takes, joined, and they are a
   * whole one; a refused frame leaves what was held, or nothing, or a
   * connection that returns no message any more.
   */
  lemma {:induction false} ReceiveMessageAssembles(c: Connection, held: seq<Frame>)
    requires Assembles(c.setup.limits, c.pending, held)
    ensures CallTells(c, held)
    decreases Backlog(c)
  {
    hide Whole, Unfinished, Holding, Joined, Handle, Receive, Legal, Data, Assembles;
    var (taken, frame) := Receive(c);
    if frame.Ok? {
      HandleTells(taken, frame.value, held);
      var (after, answer) := Handle(taken, frame.value);
      if answer.None? {
        assert taken.received == after.received;
        var last := ReceiveMessage(after).0;
        ReceiveMessageAssembles(after, held + Data([frame.value]));
        TakenByCall(c, taken, frame.value, after, last);
        NothingSince(after);
        assert held + Data([frame.value]) + Accepted(after) == held + (Data([frame.value]) + Accepted(after));
      } else {
        TakenByCall(c, taken, frame.value, after, after);
        NothingSince(after);
        assert held + [] == held;
        if answer.value.Ok? {
          assert DataSince(after, |taken.received|) == DataSince(after, |after.received|);
        }
      }
    } else {
      assert held + [] == held;
      TransportLeaves(c, held);
    }
  }

  lemma NothingSince(c: Connection)
    ensures DataSince(c, |c.received|) == []
  {
  }

  lemma TransportLeaves(c: Connection, held: seq<Frame>)
    requires Receive(c).1.Err?
    ensures !Receive(c).1.error.Refusal? && Left(held, Receive(c).1.error) == held
    decreases |c.incoming|
  {
    if Decode(c.buffer) == Ok(None) && |c.buffer| <= c.setup.limits.maxMessageSize && c.incoming != [] {
      TransportLeaves(c.(buffer := c.buffer + c.incoming[0], incoming := c.incoming[1..]), held);
    }
  }

  /** Once a message has spanned too many frames no call returns one again. */
  lemma {:induction false} WedgedReturnsNothing(c: Connection)
    requires Wedged(c.setup.limits, c.pending)
    ensures var (after, answer) := ReceiveMessage(c);
            Wedged(c.setup.limits, after.pending) && (answer.Ok? ==> answer.value.opcode == Close)
    decreases Backlog(c)
  {
    hide Handle, Receive, Accept;
    var (taken, frame) := Receive(c);
    if frame.Ok? {
      if frame.value.opcode.Control() {
        ControlLeaves(taken, frame.value);
      } else {
        WedgedStays(c.setup.limits, c.pending, frame.value);
        DataRefused(taken, frame.value);
      }
      var (after, answer) := Handle(taken, frame.value);
      if answer.None? {
        WedgedReturnsNothing(after);
      }
    }
  }

  // --- runs of calls

  /**
   * The data frames held, where the frames since the last returned message
   * begin, and how many data frames since then were refused, sent masked the
   * wrong way round, or read while lingering.
   */
  datatype Story = Story(held: seq<Frame>, from: nat, lost: int)

  function Tell(c: Connection, s: Story, call: Call): Story {
    match call
    case CallClose(code, reason) =>
      var after := CloseWith(c, code, reason);
      s.(lost := s.lost + |DataSince(after, |c.received|)|)
    case CallReceive =>
      var (after, answer) := ReceiveMessage(c);
      var missed := |DataSince(after, |c.received|)| - |Accepted(c)|;
      if answer.Err? then Story(Left(s.held + Accepted(c), answer.error), s.from, s.lost + missed)
      else if answer.value.opcode == Close then Story(s.held + Accepted(c), s.from, s.lost + missed)
      else Story([], |after.received|, 0)
  }

  /** The story of a run from a connection with nothing pending. */
  function TellAll(c: Connection, calls: seq<Call>): Story {
    if calls == [] then Story([], |c.received|, 0)
    else
      var front := calls[..|calls| - 1];
      Tell(Run(c, front), TellAll(c, front), calls[|calls| - 1])
  }

  /** What is held is some of the data frames since the last message, and all of them while none was lost. */
  ghost predicate Coherent(c: Connection, s: Story) {
    && s.from <= |c.received| && Assembles(c.setup.limits, c.pending, s.held)
    && Sublist(s.held, DataSince(c, s.from)) && s.lost >= 0
    && |s.held| + s.lost <= |DataSince(c, s.from)|
    && (s.lost == 0 ==> s.held == DataSince(c, s.from))
  }

  lemma CloseTells(c: Connection, s: Story, code: CloseCode, reason: seq<byte>)
    requires Coherent(c, s)
    ensures Coherent(CloseWith(c, code, reason), Tell(c, s, CallClose(code, reason)))
  {
    hide CloseWith, Data, Assembles, Sublist;
    var after := CloseWith(c, code, reason);
    var lingered := DataSince(after, |c.received|);
    DataContinues(c, c, after, s.from);
    PrefixIsSublist([], lingered);
    SublistJoins(s.held, DataSince(c, s.from), [], lingered);
    assert s.held + [] == s.held;
    if lingered == [] {
      assert DataSince(c, s.from) + [] == DataSince(c, s.from);
    }
  }

  lemma GrowsCoherent(held: seq<Frame>, all: seq<Frame>, accepted: seq<Frame>, taken: seq<Frame>)
    requires Sublist(held, all) && accepted <= taken
    ensures Sublist(held + accepted, all + taken) && Sublist([], all + taken)
    ensures accepted == taken && held == all ==> held + accepted == all + taken
  {
    PrefixIsSublist(accepted, taken);
    SublistJoins(held, all, accepted, taken);
    PrefixIsSublist([], all + taken);
  }

  /** A read that fails takes nothing, unless what it took was masked the wrong way round. */
  lemma {:induction false} FailedReadTakes(c: Connection)
    ensures var (after, frame) := Receive(c);
            frame.Err? ==>
              && !frame.error.Refusal?
              && if frame.error == WrongMasking
                 then |after.received| == |c.received| + 1 && after.received[..|c.received|] == c.received
                 else after.received == c.received
    decreases |c.incoming|
  {
    if Decode(c.buffer) == Ok(None) && |c.buffer| <= c.setup.limits.maxMessageSize && c.incoming != [] {
      FailedReadTakes(c.(buffer := c.buffer + c.incoming[0], incoming := c.incoming[1..]));
    }
  }

  /** Whether the last frame a connection took carries data. */
  predicate TookDataLast(c: Connection) {
    c.received != [] && !c.received[|c.received| - 1].opcode.Control()
  }

  lemma FailedReadLoses(c: Connection)
    requires Receive(c).1.Err?
    ensures DataSince(Receive(c).0, |c.received|) != []
            <==> Receive(c).1.error == WrongMasking && TookDataLast(Receive(c).0)
  {
    hide Receive, Data;
    FailedReadTakes(c);
    var after := Receive(c).0;
    if Receive(c).1.error == WrongMasking {
      var last := after.received[|c.received|];
      assert after.received[|c.received|..] == [last];
      DataOfOne(last);
    } else {
      NothingSince(after);
    }
  }

  lemma DataOfOne(frame: Frame)
    ensures |Data([frame])| == if frame.opcode.Control() then 0 else 1
  {
  }

  /** A call loses a data frame exactly when it answers with a refusal, or with wrong masking of one. */
  lemma {:induction false} CallLosesIff(c: Connection)
    ensures var (after, answer) := ReceiveMessage(c);
            |Accepted(c)| < |DataSince(after, |c.received|)|
            <==> answer.Err? && (answer.error.Refusal? || (answer.error == WrongMasking && TookDataLast(after)))
    ensures |Accepted(c)| <= |DataSince(ReceiveMessage(c).0, |c.received|)|
    decreases Backlog(c)
  {
    hide Handle, Receive, Data, TookDataLast;
    var (taken, frame) := Receive(c);
    if frame.Err? {
      FailedReadLoses(c);
      FailedReadTakes(c);
    } else {
      var (after, answer) := Handle(taken, frame.value);
      DataOfOne(frame.value);
      if frame.value.opcode.Control() {
        ControlLeaves(taken, frame.value);
      } else {
        DataRefused(taken, frame.value);
      }
      NothingSince(after);
      if answer.None? {
        CallLosesIff(after);
        TakenByCall(c, taken, frame.value, after, ReceiveMessage(after).0);
        NothingSince(taken);
      } else {
        TakenByCall(c, taken, frame.value, after, after);
      }
    }
  }

  lemma ReceiveTells(c: Connection, s: Story)
    requires Coherent(c, s)
    ensures Coherent(ReceiveMessage(c).0, Tell(c, s, CallReceive))
  {
    hide Data, Assembles, Sublist, Whole, Holding, Accepted;
    var (after, answer) := ReceiveMessage(c);
    hide ReceiveMessage;
    var (all, taken) := (DataSince(c, s.from), DataSince(after, |c.received|));
    ReceiveMessageAssembles(c, s.held);
    CallLosesIff(c);
    DataContinues(c, c, after, s.from);
    GrowsCoherent(s.held, all, Accepted(c), taken);
    NothingSince(after);
    PrefixIsSublist([], DataSince(after, |after.received|));
    IdleAssembles(c.setup.limits);
  }

  lemma IdleAssembles(limits: Limits)
    ensures Assembles(limits, IDLE, [])
  {
  }

  /** Over any run of calls, errors and all, the story stays coherent. */
  lemma {:induction false} RunTells(c: Connection, calls: seq<Call>)
    requires c.pending == IDLE
    ensures Coherent(Run(c, calls), TellAll(c, calls))
  {
    hide Tell, ReceiveMessage, CloseWith, Data, Coherent;
    if calls == [] {
      StartIsCoherent(c);
    } else {
      var front, last := calls[..|calls| - 1], calls[|calls| - 1];
      RunTells(c, front);
      match last
      case CallReceive => ReceiveTells(Run(c, front), TellAll(c, front));
      case CallClose(code, reason) => CloseTells(Run(c, front), TellAll(c, front), code, reason);
    }
  }

  lemma StartIsCoherent(c: Connection)
    requires c.pending == IDLE
    ensures Coherent(c, Story([], |c.received|, 0))
  {
    hide Sublist;
    NothingSince(c);
    SublistSelf(DataSince(c, |c.received|));
    IdleAssembles(c.setup.limits);
  }

  /**
   * After any run of calls, errors included: a message returned is some of the
   * data frames taken since the last one, in order, joined under the first
   * one's opcode, and they are a whole message; and it is all of them exactly
   * when none since then was refused, sent masked the wrong way round, or read
   * while lingering.
   */
  lemma ReturnedAfterAnyRun(c: Connection, calls: seq<Call>)
    requires c.pending == IDLE && ReceiveMessage(Run(c, calls)).1.Ok?
    requires ReceiveMessage(Run(c, calls)).1.value.opcode != Close
    ensures var before, s := Run(c, calls), TellAll(c, calls);
            var (after, answer) := ReceiveMessage(before);
            && s.from <= |after.received|
            && var (all, picked) := (DataSince(after, s.from), s.held + Accepted(before));
               && Sublist(picked, all) && Whole(c.setup.limits, picked)
               && answer.value == Received(picked[0].opcode, Joined(picked))
               && (picked == all <==> s.lost == 0)
  {
    hide Data, Assembles, Sublist, Whole, Holding, Accepted, ReceiveMessage, Run, TellAll, Joined;
    RunTells(c, calls);
    RunKeepsSetup(c, calls);
    var before, s := Run(c, calls), TellAll(c, calls);
    var after := ReceiveMessage(before).0;
    ReceiveMessageAssembles(before, s.held);
    DataContinues(before, before, after, s.from);
    GrowsCoherent(s.held, DataSince(before, s.from), Accepted(before), DataSince(after, |before.received|));
  }

  lemma {:induction false} RunKeepsSetup(c: Connection, calls: seq<Call>)
    ensures Run(c, calls).setup == c.setup
  {
    hide ReceiveMessage, CloseWith;
    if calls != [] {
      RunKeepsSetup(c, calls[..|calls| - 1]);
    }
  }

  // --- a refused frame is spliced out

  lemma TakesFirst(c: Connection, frame: Frame, rest: seq<Frame>) returns (taken: Connection)
    requires Legal(frame) && frame.mask.Some? != c.setup.client
    requires |Encode(frame)| <= c.setup.limits.maxMessageSize + 1 && Ahead(c) == EncodeAll([frame] + rest)
    ensures Receive(c) == (taken, Ok(frame)) && Ahead(taken) == EncodeAll(rest) && SameBut(c, taken)
    ensures taken.received == c.received + [frame]
  {
    hide Encode, Receive, Legal;
    assert ([frame] + rest)[1..] == rest;
    ReceiveTakes(c, frame, EncodeAll(rest));
    taken := Receive(c).0;
  }

  function Begun(frame: Frame): Pending {
    Pending(Some((frame.opcode, frame.payload)), 1)
  }

  lemma HandlesSplice(c: Connection, first: Frame, refused: Frame, last: Frame)
    requires c.setup.limits.maxFragments >= 2
    requires first.opcode == Binary && !first.fin
    requires refused.opcode == Continuation && last.opcode == Continuation && last.fin
    requires |first.payload| + |refused.payload| > c.setup.limits.maxMessageSize
    requires |first.payload| + |last.payload| <= c.setup.limits.maxMessageSize
    ensures c.pending == IDLE ==> Handle(c, first) == (c.(pending := Begun(first)), None)
    ensures c.pending == Begun(first) ==>
              && Handle(c, refused) == (c, Some(Err(Failure.Refusal(Reassembly.MessageTooBig))))
              && Handle(c, last).1 == Some(Ok(Received(Binary, first.payload + last.payload)))
  {
    hide CloseWith, Closed, Send;
  }

  /**
   * A continuation refused as too big does not end the message it is refused
   * from: when the next one ends it, what is returned lacks the refused octets.
   */
  lemma RefusedIsSplicedOut(c: Connection, first: Frame, refused: Frame, last: Frame)
    requires c.pending == IDLE && c.setup.limits.maxFragments >= 2
    requires Ahead(c) == EncodeAll([first, refused, last])
    requires forall f | f in [first, refused, last] ::
               && Legal(f) && f.mask.Some? != c.setup.client && |Encode(f)| <= c.setup.limits.maxMessageSize + 1
    requires first.opcode == Binary && !first.fin
    requires refused.opcode == Continuation && last.opcode == Continuation && last.fin
    requires |first.payload| + |refused.payload| > c.setup.limits.maxMessageSize
    requires |first.payload| + |last.payload| <= c.setup.limits.maxMessageSize
    ensures var (after, answer) := ReceiveMessage(c);
            && answer == Err(Failure.Refusal(Reassembly.MessageTooBig))
            && ReceiveMessage(after).1 == Ok(Received(Binary, first.payload + last.payload))
  {
    hide Encode, EncodeAll, Receive, Legal, Handle;
    var frames := [first, refused, last];
    assert frames[0] == first && frames[1] == refused && frames[2] == last;
    assert frames == [first] + ([refused] + [last]);
    var c1 := TakesFirst(c, first, [refused] + [last]);
    var held := c1.(pending := Begun(first));
    HandlesSplice(c1, first, refused, last);
    var c2 := TakesFirst(held, refused, [last]);
    HandlesSplice(c2, first, refused, last);
    assert [last] == [last] + [];
    var c3 := TakesFirst(c2, last, []);
    HandlesSplice(c3, first, refused, last);
    assert ReceiveMessage(c) == ReceiveMessage(held);
  }

  function Unmasked(fin: bool, opcode: Opcode, payload: seq<byte>): Frame {
    Frame(fin, opcode, None, payload)
  }

  /** Of seven octets in three frames four are returned as a whole message: the refused three are missing. */
  lemma SpliceHappens(keys: nat -> Masking.Mask)
    ensures var setup := Setup(true, Limits(4, 2), keys, 0);
            var frames := [Unmasked(false, Binary, [1, 2]), Unmasked(false, Continuation, [3, 4, 5]),
                           Unmasked(true, Continuation, [6, 7])];
            var (after, answer) := ReceiveMessage(Open(setup, EncodeAll(frames), [], 0));
            && answer == Err(Failure.Refusal(Reassembly.MessageTooBig))
            && ReceiveMessage(after).1 == Ok(Received(Binary, [1, 2, 6, 7]))
  {
    hide EncodeAll, ReceiveMessage, Open;
    var setup := Setup(true, Limits(4, 2), keys, 0);
    var first, refused := Unmasked(false, Binary, [1, 2]), Unmasked(false, Continuation, [3, 4, 5]);
    var last := Unmasked(true, Continuation, [6, 7]);
    OpenAhead(setup, EncodeAll([first, refused, last]));
    SmallFrame(first);
    SmallFrame(refused);
    SmallFrame(last);
    RefusedIsSplicedOut(Open(setup, EncodeAll([first, refused, last]), [], 0), first, refused, last);
    assert first.payload + last.payload == [1, 2, 6, 7];
  }

  lemma OpenAhead(setup: Setup, octets: seq<byte>)
    ensures var c := Open(setup, octets, [], 0); Ahead(c) == octets && c.pending == IDLE && c.setup == setup
  {
    assert octets + [] == octets;
  }

  lemma SmallFrame(frame: Frame)
    requires frame.mask.None? && |frame.payload| <= 3 && !frame.opcode.Control()
    ensures Legal(frame) && |Encode(frame)| == 2 + |frame.payload|
  {
  }
}
