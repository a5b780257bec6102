/** Why octets are refused as a frame, said of the octets themselves. */
module FrameErrors {
  import opened Wrappers
  import opened Octets
  import opened Masking
  import opened Frames

  /** The number in the low four bits stands for an opcode. */
  predicate IsOpcode(first: byte) {
    first & 0x0f in {0x0, 0x1, 0x2, 0x8, 0x9, 0xa}
  }

  /** It stands for a close, a ping or a pong. */
  predicate IsControl(first: byte) {
    first & 0x0f in {0x8, 0x9, 0xa}
  }

  /** No bit is set that is reserved, and the opcode is one. */
  predicate Begins(data: seq<byte>) {
    |data| >= 2 && data[0] & 0x70 == 0 && IsOpcode(data[0])
  }

  /** The length a header declares, once the octets that declare it are there. */
  function Length(data: seq<byte>): Option<nat>
    requires |data| >= 2
  {
    var seven := data[1] & 0x7f;
    if seven == 126 then (if |data| >= 4 then Some(FromBigEndian(data[2..4])) else None)
    else if seven == 127 then (if |data| >= 10 then Some(FromBigEndian(data[2..10])) else None)
    else Some(seven as nat)
  }

  lemma FromGrows(front: seq<byte>, last: byte)
    ensures FromBigEndian(front + [last]) == 256 * FromBigEndian(front) + last as nat
    ensures Pow256(|front + [last]|) == 256 * Pow256(|front|)
  {
    assert (front + [last])[..|front|] == front;
  }

  lemma {:induction false} FromFront(first: byte, rest: seq<byte>)
    ensures FromBigEndian([first] + rest) == first as nat * Pow256(|rest|) + FromBigEndian(rest)
  {
    if rest == [] {
      assert [first] + rest == [] + [first];
      FromGrows([], first);
      assert Pow256(0) == 1;
    } else {
      hide FromBigEndian, Pow256;
      var front, last := rest[..|rest| - 1], rest[|rest| - 1];
      FromFront(first, front);
      FromGrows(front, last);
      FromGrows([first] + front, last);
      assert rest == front + [last] && [first] + rest == [first] + front + [last];
      Distributes(first as nat, Pow256(|front|), FromBigEndian(front));
    }
  }

  lemma Distributes(a: nat, b: nat, c: nat)
    ensures 256 * (a * b + c) == a * (256 * b) + 256 * c
  {
  }

  /** Eight octets are past the largest length just when the first has its high bit. */
  lemma HighBitIff(octets: seq<byte>)
    requires |octets| == 8
    ensures FromBigEndian(octets) >= HIGH_BIT <==> octets[0] >= 0x80
  {
    hide FromBigEndian;
    var rest := octets[1..];
    assert octets == [octets[0]] + rest;
    FromFront(octets[0], rest);
    FromBigEndianBound(rest);
    SevenOctets();
    WideMonotone(octets[0], 0x80);
    if octets[0] >= 0x80 {
      assert octets[0] as nat >= 128;
    } else {
      assert octets[0] as nat <= 127;
    }
  }

  lemma SevenOctets()
    ensures Pow256(7) == 0x100_0000_0000_0000
  {
    assert Pow256(3) == 0x100_0000;
    assert Pow256(5) == 0x100_0000_0000;
  }

  lemma OpcodeIff(first: byte)
    ensures Opcode.FromCode(first & 0x0f).Some? <==> IsOpcode(first)
    ensures IsOpcode(first) ==> (Opcode.FromCode(first & 0x0f).value.Control() <==> IsControl(first))
  {
  }

  /** Whether a length past what eight octets may say is there to be seen. */
  predicate TooLong(data: seq<byte>) {
    |data| >= 10 && data[1] & 0x7f == 127 && data[2] >= 0x80
  }

  lemma LengthIs(data: seq<byte>)
    requires |data| >= 2
    ensures TooLong(data) ==> DecodeLength(data) == Err(LengthHighBit)
    ensures !TooLong(data) ==>
              match DecodeLength(data)
              case Ok(Some((_, length))) => Length(data) == Some(length)
              case Ok(None) => Length(data) == None
              case Err(_) => false
  {
    hide FromBigEndian;
    if |data| >= 10 {
      HighBitIff(data[2..10]);
    }
    SevenBits(data[1]);
  }

  lemma SevenBits(octet: byte)
    ensures (octet & 0x7f) as nat == 126 <==> octet & 0x7f == 126
    ensures (octet & 0x7f) as nat == 127 <==> octet & 0x7f == 127
  {
  }

  /** What there is to object to in the front of a stream, the first reason first. */
  ghost predicate Refused(data: seq<byte>, error: FrameError) {
    && |data| >= 2
    && match error
       case ReservedBit => data[0] & 0x70 != 0
       case ReservedOpcode => data[0] & 0x70 == 0 && !IsOpcode(data[0])
       case LengthHighBit => Begins(data) && TooLong(data)
       case ControlTooLong =>
         && Begins(data) && !TooLong(data) && IsControl(data[0])
         && Length(data).Some? && Length(data).value > 125
       case ControlFragmented =>
         && Begins(data) && !TooLong(data) && IsControl(data[0]) && data[0] & 0x80 == 0
         && Length(data).Some? && Length(data).value <= 125
  }

  /** Octets are refused as a frame exactly for what there is to object to. */
  lemma DecodeErrorIff(data: seq<byte>, error: FrameError)
    ensures Decode(data) == Err(error) <==> Refused(data, error)
  {
    hide FromBigEndian, DecodeLength, TooLong, Length, Opcode.FromCode, IsOpcode, IsControl, Opcode.Control;
    if |data| >= 2 {
      OpcodeIff(data[0]);
      LengthIs(data);
    }
  }
}
