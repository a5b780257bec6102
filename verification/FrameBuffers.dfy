/** The frame codec as it works on growable buffers, in place. */
module FrameBuffers {
  import opened Wrappers
  import opened Octets
  import opened Masking
  import opened Frames

  /** A growable run of octets, taken from at the front and appended to at the back. */
  class Buffer {
    var octets: seq<byte>

    constructor ()
      ensures octets == []
    {
      octets := [];
    }

    method Clear()
      modifies this
      ensures octets == []
    {
      octets := [];
    }

    method Extend(more: seq<byte>)
      modifies this
      ensures octets == old(octets) + more
    {
      octets := octets + more;
    }

    method Advance(count: nat)
      requires count <= |octets|
      modifies this
      ensures octets == old(octets)[count..]
    {
      octets := octets[count..];
    }

    method SplitTo(count: nat) returns (front: seq<byte>)
      requires count <= |octets|
      modifies this
      ensures front == old(octets)[..count] && octets == old(octets)[count..]
    {
      front := octets[..count];
      octets := octets[count..];
    }
  }

  /** A payload with its mask applied, or removed, in a copy of its own. */
  method Cross(little: bool, mask: Option<Mask>, payload: seq<byte>) returns (crossed: seq<byte>)
    ensures crossed == Crossed(mask, payload)
  {
    match mask
    case None => crossed := payload;
    case Some(key) =>
      var cells := new byte[|payload|](i requires 0 <= i < |payload| => payload[i]);
      assert cells[..] == payload;
      ApplyMask(little, key, cells);
      crossed := cells[..];
  }

  method EncodeLength(masked: bool, length: nat, out: Buffer)
    modifies out
    ensures out.octets == old(out.octets) + LengthField(masked, length)
  {
    hide LengthOctet, ToBigEndian, Low;
    if length <= 125 {
      out.Extend([LengthOctet(masked, Low(length))]);
    } else if length <= 65535 {
      out.Extend([LengthOctet(masked, 126)]);
      out.Extend(ToBigEndian(length, 2));
    } else {
      out.Extend([LengthOctet(masked, 127)]);
      out.Extend(ToBigEndian(length, 8));
    }
  }

  /** Puts one frame, header and crossed payload, behind what a buffer holds. */
  method EncodeInto(little: bool, frame: Frame, out: Buffer)
    modifies out
    ensures out.octets == old(out.octets) + Encode(frame)
  {
    hide FirstOctet, LengthField, Crossed;
    out.Extend([FirstOctet(frame.fin, frame.opcode)]);
    EncodeLength(frame.mask.Some?, |frame.payload|, out);
    if frame.mask.Some? {
      out.Extend(frame.mask.value.Octets());
    }
    assert out.octets == old(out.octets) + Header(frame);
    var payload := Cross(little, frame.mask, frame.payload);
    out.Extend(payload);
    assert out.octets == old(out.octets) + Encode(frame);
  }

  /**
   * Decodes what a buffer begins with. A frame taken leaves exactly the octets
   * behind it; without one, for whatever reason, the buffer is as it was.
   */
  method Take(little: bool, buffer: Buffer) returns (taken: Result<Option<Frame>, FrameError>)
    modifies buffer
    ensures match Decode(old(buffer.octets))
            case Err(error) => taken == Err(error) && buffer.octets == old(buffer.octets)
            case Ok(None) => taken == Ok(None) && buffer.octets == old(buffer.octets)
            case Ok(Some((end, frame))) =>
              taken == Ok(Some(frame)) && end <= |old(buffer.octets)| && buffer.octets == old(buffer.octets)[end..]
  {
    hide DecodeHead, Crossed;
    match DecodeHead(buffer.octets)
    case Err(error) => return Err(error);
    case Ok(None) => return Ok(None);
    case Ok(Some(head)) =>
      HeadFits(buffer.octets);
      ghost var data, end := buffer.octets, head.start + head.length;
      buffer.Advance(head.start);
      var payload := buffer.SplitTo(head.length);
      assert payload == data[head.start..end];
      assert buffer.octets == data[end..];
      payload := Cross(little, head.mask, payload);
      return Ok(Some(Frame(head.fin, head.opcode, head.mask, payload)));
  }
}
