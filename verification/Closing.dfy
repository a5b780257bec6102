/** The closing handshake between two ends, section 7.1 of RFC 6455. */
module Closing {
  import opened Wrappers
  import opened Octets
  import opened Frames
  import opened Utf8
  import opened CloseCodes
  import opened Connections
  import opened Delivery

  /** A frame the other end takes off any split of the octets that carry it. */
  predicate Takeable(setup: Setup, frame: Frame) {
    Legal(frame) && frame.mask.Some? != setup.client && |Encode(frame)| <= setup.limits.maxMessageSize + 1
  }

  /** Lingering reads past whatever was on its way, up to and with the close behind it. */
  lemma {:induction false} LingerReadsTheClose(c: Connection, earlier: seq<Frame>, close: Frame, patience: nat)
    requires Ahead(c) == EncodeAll(earlier + [close]) && |earlier| < patience
    requires forall i :: 0 <= i < |earlier| ==> Takeable(c.setup, earlier[i]) && earlier[i].opcode != Close
    requires Takeable(c.setup, close) && close.opcode == Close
    ensures var after := Linger(c, patience);
            && after.received == c.received + earlier + [close] && Ahead(after) == []
            && after.sent == c.sent && after.closing == c.closing
    decreases earlier
  {
    hide Encode, Receive, Ahead, Linger, Takeable, SameBut;
    var frames := earlier + [close];
    var first, rest := frames[0], EncodeAll(frames[1..]);
    LingerTakes(c, first, rest, patience);
    if earlier == [] {
      assert frames[1..] == [];
    } else {
      assert first == earlier[0] && frames[1..] == earlier[1..] + [close];
      LingerReadsTheClose(Receive(c).0, earlier[1..], close, patience - 1);
      assert c.received + [first] + earlier[1..] == c.received + earlier;
    }
  }

  /** The linger takes the frame next in line, and goes on unless that is a close. */
  lemma LingerTakes(c: Connection, frame: Frame, rest: seq<byte>, patience: nat)
    requires Takeable(c.setup, frame) && Ahead(c) == Encode(frame) + rest && patience > 0
    ensures var taken := Receive(c).0;
            && taken.received == c.received + [frame] && Ahead(taken) == rest
            && taken.setup == c.setup && taken.sent == c.sent && taken.closing == c.closing
            && Linger(c, patience) == if frame.opcode == Close then taken else Linger(taken, patience - 1)
  {
    hide Encode, Receive, Legal, Ahead;
    ReceiveTakes(c, frame, rest);
  }

  /** A close that arrives is echoed, and handed to whoever was waiting for a message. */
  lemma CloseIsEchoed(peer: Connection, close: Frame)
    requires Ahead(peer) == Encode(close) && Takeable(peer.setup, close)
    requires close.opcode == Close && VerifyClose(close.payload) == Ok(()) && !peer.closing && peer.writes > 0
    ensures var (after, answer) := ReceiveMessage(peer);
            && answer == Ok(Received(Close, close.payload)) && after.closing
            && after.sent == peer.sent + [Keyed(peer.setup, Unfragmented(Close, close.payload), |peer.sent|)]
  {
    hide Encode, Receive, Legal, VerifyClose;
    assert Encode(close) + [] == Encode(close);
    ReceiveTakes(peer, close, []);
  }

  /**
   * When one end closes and the other has read everything before it, the other
   * hands the close on and echoes it; and the closer, reading past what was
   * still on its way for as long as its patience lasts, ends with that echo.
   */
  lemma Handshake(closer: Connection, peer: Connection, code: CloseCode, reason: seq<byte>, earlier: seq<Frame>)
    requires closer.setup.client != peer.setup.client && ValidUtf8(reason)
    requires !closer.closing && !peer.closing && closer.writes > 0 && peer.writes > 0
    requires |earlier| < closer.setup.patience
    requires forall i :: 0 <= i < |earlier| ==> Takeable(closer.setup, earlier[i]) && earlier[i].opcode != Close
    requires closer.setup.limits.maxMessageSize >= 130 && peer.setup.limits.maxMessageSize >= 130
    requires var frame := Unfragmented(Close, ClosePayload(code, reason));
             && Ahead(peer) == Encode(Keyed(closer.setup, frame, |closer.sent|))
             && Ahead(closer) == EncodeAll(earlier + [Keyed(peer.setup, frame, |peer.sent|)])
    ensures var frame := Unfragmented(Close, ClosePayload(code, reason));
            var (close, echo) := (Keyed(closer.setup, frame, |closer.sent|), Keyed(peer.setup, frame, |peer.sent|));
            var (heard, answer) := ReceiveMessage(peer);
            var done := CloseWith(closer, code, reason);
            && answer == Ok(Received(Close, frame.payload))
            && heard.sent == peer.sent + [echo] && heard.closing
            && done.sent == closer.sent + [close] && done.closing
            && done.received == closer.received + earlier + [echo] && Ahead(done) == []
  {
    hide Encode, EncodeAll, Legal, VerifyClose, ReceiveMessage, Linger, ClosePayload;
    var frame := Unfragmented(Close, ClosePayload(code, reason));
    var close, echo := Keyed(closer.setup, frame, |closer.sent|), Keyed(peer.setup, frame, |peer.sent|);
    CloseIsTakeable(closer.setup, peer.setup, code, reason, |closer.sent|);
    CloseIsTakeable(peer.setup, closer.setup, code, reason, |peer.sent|);
    ClosePayloadVerifies(code, reason, None);
    CloseIsEchoed(peer, close);
    var sent := Send(closer.(closing := true), frame).0;
    assert Ahead(sent) == Ahead(closer);
    LingerReadsTheClose(sent, earlier, echo, closer.setup.patience);
  }

  lemma CloseIsTakeable(sender: Setup, receiver: Setup, code: CloseCode, reason: seq<byte>, index: nat)
    requires sender.client != receiver.client && receiver.limits.maxMessageSize >= 130 && ValidUtf8(reason)
    ensures Takeable(receiver, Keyed(sender, Unfragmented(Close, ClosePayload(code, reason)), index))
  {
    hide ClosePayload, VerifyClose;
    var frame := Keyed(sender, Unfragmented(Close, ClosePayload(code, reason)), index);
    ClosePayloadVerifies(code, reason, frame.mask);
    HeaderSize(frame);
  }
}
