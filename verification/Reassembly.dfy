/** Reassembling messages from data frames, section 5.4 of RFC 6455. */
module Reassembly {
  import opened Wrappers
  import opened Octets
  import opened Frames
  import opened Utf8

  /** The ceilings a connection keeps itself under. */
  datatype Limits = Limits(maxMessageSize: nat, maxFragments: nat)

  /** The message begun and not yet ended, and how many frames it has spanned. */
  datatype Pending = Pending(fragments: Option<(Opcode, seq<byte>)>, count: nat)

  const IDLE := Pending(None, 0)

  datatype Refusal =
    | MessageTooBig
    | MessageInsideMessage
    | OrphanContinuation
    | TooManyFragments
    | InvalidText

  /** What one data frame leads to. */
  datatype Verdict = More | Message(opcode: Opcode, payload: seq<byte>) | Refused(refusal: Refusal)

  /** The message a finished payload makes, unless it claims to be text and is not. */
  function Finish(opcode: Opcode, payload: seq<byte>): Verdict {
    if opcode == Text && !ValidUtf8(payload) then Refused(InvalidText) else Message(opcode, payload)
  }

  /** Takes in one data frame. */
  function Accept(limits: Limits, pending: Pending, frame: Frame): (Pending, Verdict) {
    var held := if pending.fragments.Some? then |pending.fragments.value.1| else 0;
    if held + |frame.payload| > limits.maxMessageSize then (pending, Refused(MessageTooBig))
    else if frame.fin && pending.fragments.None? && frame.opcode != Continuation then
      (pending, Finish(frame.opcode, frame.payload))
    else if pending.fragments.Some? && frame.opcode != Continuation then (pending, Refused(MessageInsideMessage))
    else if pending.fragments.None? && frame.opcode == Continuation then (pending, Refused(OrphanContinuation))
    else
      var grown :=
        if pending.fragments.Some? then
          var (opcode, payload) := pending.fragments.value;
          Pending(Some((opcode, payload + frame.payload)), pending.count + 1)
        else Pending(Some((frame.opcode, frame.payload)), 1);
      if grown.count > limits.maxFragments then (grown, Refused(TooManyFragments))
      else if !frame.fin then (grown, More)
      else (IDLE, Finish(grown.fragments.value.0, grown.fragments.value.1))
  }

  /** Something is pending exactly when frames of it are counted, and it is never too big. */
  predicate Sound(limits: Limits, pending: Pending) {
    && (pending.fragments.Some? <==> pending.count > 0)
    && (pending.fragments.Some? ==>
          && pending.fragments.value.0 in {Text, Binary}
          && |pending.fragments.value.1| <= limits.maxMessageSize)
  }

  /** No data frame, well-formed or not, accepted or refused, breaks that. */
  lemma AcceptKeepsSound(limits: Limits, pending: Pending, frame: Frame)
    requires Sound(limits, pending) && !frame.opcode.Control()
    ensures Sound(limits, Accept(limits, pending, frame).0)
  {
  }

  // --- what a run of data frames means, said without the machine

  function Joined(frames: seq<Frame>): seq<byte> {
    if frames == [] then [] else Joined(frames[..|frames| - 1]) + frames[|frames| - 1].payload
  }

  /** The frames open a message and do not end it. */
  predicate Unfinished(limits: Limits, frames: seq<Frame>) {
    && Opens(limits, frames)
    && (forall i :: 0 <= i < |frames| ==> !frames[i].fin)
    && |frames| <= limits.maxFragments
  }

  /** The frames are one whole message: begun by the first, ended by the last. */
  predicate Whole(limits: Limits, frames: seq<Frame>) {
    && Opens(limits, frames)
    && (forall i :: 0 <= i < |frames| - 1 ==> !frames[i].fin)
    && frames[|frames| - 1].fin
    && (|frames| == 1 || |frames| <= limits.maxFragments)
    && (frames[0].opcode == Text ==> ValidUtf8(Joined(frames)))
  }

  predicate Opens(limits: Limits, frames: seq<Frame>) {
    && frames != []
    && frames[0].opcode in {Text, Binary}
    && (forall i :: 0 < i < |frames| ==> frames[i].opcode == Continuation)
    && |Joined(frames)| <= limits.maxMessageSize
  }

  /** What the machine holds after the frames of an unfinished message. */
  function Holding(frames: seq<Frame>): Pending {
    if frames == [] then IDLE else Pending(Some((frames[0].opcode, Joined(frames))), |frames|)
  }

  lemma {:induction false} JoinedGrows(frames: seq<Frame>, frame: Frame)
    ensures Joined(frames + [frame]) == Joined(frames) + frame.payload
    ensures |Joined(frames + [frame])| == |Joined(frames)| + |frame.payload|
  {
    var grown := frames + [frame];
    assert grown[..|grown| - 1] == frames;
  }

  /**
   * One data frame after an unfinished message (or none): it is returned as a
   * message exactly when it makes the frames a whole one, and then as their
   * concatenation under the first one's opcode; it is kept exactly when it
   * leaves them unfinished; anything else is refused.
   */
  lemma AcceptIsExact(limits: Limits, frames: seq<Frame>, frame: Frame)
    requires frames == [] || Unfinished(limits, frames)
    requires !frame.opcode.Control()
    ensures var grown := frames + [frame];
            var (after, verdict) := Accept(limits, Holding(frames), frame);
            && (verdict.Message? <==> Whole(limits, grown))
            && (verdict == More <==> Unfinished(limits, grown))
            && (verdict.Message? ==> verdict == Message(grown[0].opcode, Joined(grown)) && after == IDLE)
            && (verdict == More ==> after == Holding(grown))
  {
    var grown := frames + [frame];
    JoinedGrows(frames, frame);
    assert forall i :: 0 <= i < |frames| ==> grown[i] == frames[i];
    assert grown[|grown| - 1] == frame;
    assert Joined([]) == [] && [] + frame.payload == frame.payload;
    if frames != [] {
      assert grown[0] == frames[0] && frame == grown[|frames|];
    }
  }
}
