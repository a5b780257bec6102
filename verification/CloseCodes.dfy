/** Close codes and reasons, sections 5.5.1 and 7.4 of RFC 6455. */
module CloseCodes {
  import opened Wrappers
  import opened Octets
  import opened Frames
  import opened Masking
  import opened Utf8

  datatype CloseCode =
    | Normal
    | GoingAway
    | ProtocolError
    | UnsupportedData
    | InvalidPayload
    | PolicyViolation
    | MessageTooBig
    | MandatoryExtension
    | InternalError
  {
    function Code(): nat {
      match this
      case Normal => 1000
      case GoingAway => 1001
      case ProtocolError => 1002
      case UnsupportedData => 1003
      case InvalidPayload => 1007
      case PolicyViolation => 1008
      case MessageTooBig => 1009
      case MandatoryExtension => 1010
      case InternalError => 1011
    }
  }

  /** The codes a close frame is allowed to carry. */
  predicate Permitted(code: nat) {
    || code in {1000, 1001, 1002, 1003, 1007, 1008, 1009, 1010, 1011}
    || 3000 <= code < 5000
  }

  datatype CloseError = SingleOctet | ForbiddenCode | ReasonNotUtf8

  /** Checks the payload of a close frame; an empty one gives no code and is allowed. */
  function VerifyClose(payload: seq<byte>): Result<(), CloseError> {
    if payload == [] then Ok(())
    else if |payload| == 1 then Err(SingleOctet)
    else if !Permitted(FromBigEndian(payload[..2])) then Err(ForbiddenCode)
    else if !ValidUtf8(payload[2..]) then Err(ReasonNotUtf8)
    else Ok(())
  }

  const REASON_ROOM: nat := MAXIMUM_CONTROL_PAYLOAD - 2

  /** The last character boundary at or before `at`. */
  function BoundaryBefore(text: seq<byte>, at: nat): (end: nat)
    requires at <= |text|
    ensures end <= at && IsBoundary(text, end)
    ensures forall later :: end < later <= at ==> !IsBoundary(text, later)
  {
    if IsBoundary(text, at) then at else BoundaryBefore(text, at - 1)
  }

  /** The reason, cut to the room its code leaves. */
  function Fitted(reason: seq<byte>): seq<byte> {
    reason[..BoundaryBefore(reason, if |reason| <= REASON_ROOM then |reason| else REASON_ROOM)]
  }

  /**
   * The cut reason is the longest prefix that fits and is still well-formed
   * text, and never drops more than three octets of the room to get there.
   */
  lemma FittedIsLongest(reason: seq<byte>)
    requires ValidUtf8(reason)
    ensures var fitted := Fitted(reason);
            && ValidUtf8(fitted) && fitted <= reason && |fitted| <= REASON_ROOM
            && (forall end | |fitted| < end <= |reason| && end <= REASON_ROOM :: !ValidUtf8(reason[..end]))
            && (|reason| <= REASON_ROOM ==> fitted == reason)
            && (|reason| > REASON_ROOM ==> |fitted| >= REASON_ROOM - 3)
  {
    var at := if |reason| <= REASON_ROOM then |reason| else REASON_ROOM;
    var fitted := Fitted(reason);
    BoundaryIffValidPrefix(reason, |fitted|);
    forall end | |fitted| < end <= |reason| && end <= REASON_ROOM
      ensures !ValidUtf8(reason[..end])
    {
      BoundaryIffValidPrefix(reason, end);
    }
    var start := BoundaryNearby(reason, at);
  }

  /** The cut, found by walking back an octet at a time. */
  method Reason(reason: seq<byte>) returns (fitted: seq<byte>)
    requires ValidUtf8(reason)
    ensures fitted == Fitted(reason)
  {
    var end: nat := if |reason| <= REASON_ROOM then |reason| else REASON_ROOM;
    ghost var at := end;
    while !IsBoundary(reason, end)
      invariant end <= |reason|
      invariant BoundaryBefore(reason, end) == BoundaryBefore(reason, at)
      decreases end
    {
      end := end - 1;
    }
    fitted := reason[..end];
  }

  function ClosePayload(code: CloseCode, reason: seq<byte>): seq<byte> {
    ToBigEndian(code.Code(), 2) + Fitted(reason)
  }

  /** Every close built here is a legal control frame and passes the check at the other end. */
  lemma ClosePayloadVerifies(code: CloseCode, reason: seq<byte>, mask: Option<Mask>)
    requires ValidUtf8(reason)
    ensures var payload := ClosePayload(code, reason);
            && |payload| <= MAXIMUM_CONTROL_PAYLOAD
            && Legal(Frame(true, Close, mask, payload))
            && VerifyClose(payload) == Ok(())
  {
    var payload := ClosePayload(code, reason);
    FittedIsLongest(reason);
    Pow256Values();
    BigEndianRoundTrip(code.Code(), 2);
    assert payload[..2] == ToBigEndian(code.Code(), 2) && payload[2..] == Fitted(reason);
  }
}
