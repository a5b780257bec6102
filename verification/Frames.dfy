/** WebSocket frames on the wire, sections 5.2 to 5.5 of RFC 6455. */
module Frames {
  import opened Wrappers
  import opened Octets
  import opened Masking

  const MAXIMUM_CONTROL_PAYLOAD: nat := 125
  const HIGH_BIT: nat := 0x8000_0000_0000_0000

  datatype Opcode = Continuation | Text | Binary | Close | Ping | Pong {

    function Code(): byte {
      match this
      case Continuation => 0x0
      case Text => 0x1
      case Binary => 0x2
      case Close => 0x8
      case Ping => 0x9
      case Pong => 0xa
    }

    static function FromCode(code: byte): Option<Opcode> {
      if code == 0x0 then Some(Continuation)
      else if code == 0x1 then Some(Text)
      else if code == 0x2 then Some(Binary)
      else if code == 0x8 then Some(Close)
      else if code == 0x9 then Some(Ping)
      else if code == 0xa then Some(Pong)
      else None
    }

    predicate Control() {
      Code() & 0x8 != 0
    }
  }

  /** Why a header cannot be read. */
  datatype FrameError =
    | ReservedBit
    | ReservedOpcode
    | LengthHighBit
    | ControlTooLong
    | ControlFragmented

  /** What a header says, and where in the octets the payload begins. */
  datatype FrameHead = FrameHead(fin: bool, opcode: Opcode, mask: Option<Mask>, start: nat, length: nat)

  /** One frame, its payload always unmasked. */
  datatype Frame = Frame(fin: bool, opcode: Opcode, mask: Option<Mask>, payload: seq<byte>)

  /** What may be put on the wire: section 5.5 for control frames, section 5.2 for the length. */
  predicate Legal(frame: Frame) {
    && (frame.opcode.Control() ==> frame.fin && |frame.payload| <= MAXIMUM_CONTROL_PAYLOAD)
    && |frame.payload| < HIGH_BIT
  }

  // --- encoding

  function FirstOctet(fin: bool, opcode: Opcode): byte {
    (if fin then 0x80 else 0) | opcode.Code()
  }

  function LengthOctet(masked: bool, length: byte): byte {
    (if masked then 0x80 else 0) | length
  }

  function LengthField(masked: bool, length: nat): (field: seq<byte>)
    ensures field != []
  {
    if length <= 125 then [LengthOctet(masked, Low(length))]
    else if length <= 65535 then [LengthOctet(masked, 126)] + ToBigEndian(length, 2)
    else [LengthOctet(masked, 127)] + ToBigEndian(length, 8)
  }

  function MaskField(mask: Option<Mask>): seq<byte> {
    if mask.Some? then mask.value.Octets() else []
  }

  function Header(frame: Frame): seq<byte> {
    [FirstOctet(frame.fin, frame.opcode)] + LengthField(frame.mask.Some?, |frame.payload|) + MaskField(frame.mask)
  }

  /** Masking on the way out and unmasking on the way in are the same step. */
  function Crossed(mask: Option<Mask>, payload: seq<byte>): (octets: seq<byte>)
    ensures |octets| == |payload|
  {
    if mask.Some? then Masked(mask.value, payload) else payload
  }

  function Encode(frame: Frame): seq<byte> {
    Header(frame) + Crossed(frame.mask, frame.payload)
  }

  // --- decoding

  /** `width` octets at `offset`, when they are all there. */
  function OctetsAt(data: seq<byte>, offset: nat, width: nat): Option<seq<byte>> {
    if offset + width <= |data| then Some(data[offset..offset + width]) else None
  }

  /** The length a header declares, and where what follows it starts. */
  function DecodeLength(data: seq<byte>): Result<Option<(nat, nat)>, FrameError>
    requires |data| >= 2
  {
    var short := (data[1] & 0x7f) as nat;
    if short == 126 then
      match OctetsAt(data, 2, 2)
      case Some(octets) => Ok(Some((4, FromBigEndian(octets))))
      case None => Ok(None)
    else if short == 127 then
      match OctetsAt(data, 2, 8)
      case Some(octets) =>
        if FromBigEndian(octets) >= HIGH_BIT then Err(LengthHighBit) else Ok(Some((10, FromBigEndian(octets))))
      case None => Ok(None)
    else Ok(Some((2, short)))
  }

  /** What remains of the header once its length is known. */
  function DecodeRest(data: seq<byte>, fin: bool, opcode: Opcode, masked: bool, start: nat, length: nat)
    : Result<Option<FrameHead>, FrameError>
  {
    if opcode.Control() && length > MAXIMUM_CONTROL_PAYLOAD then Err(ControlTooLong)
    else if opcode.Control() && !fin then Err(ControlFragmented)
    else if masked then
      match OctetsAt(data, start, 4)
      case Some(key) =>
        if start + 4 + length > |data| then Ok(None)
        else Ok(Some(FrameHead(fin, opcode, Some(Mask(key[0], key[1], key[2], key[3])), start + 4, length)))
      case None => Ok(None)
    else if start + length > |data| then Ok(None)
    else Ok(Some(FrameHead(fin, opcode, None, start, length)))
  }

  /** Reads a header: nothing yet, an error, or where the whole frame lies. */
  function DecodeHead(data: seq<byte>): Result<Option<FrameHead>, FrameError> {
    if |data| < 2 then Ok(None)
    else if data[0] & 0x70 != 0 then Err(ReservedBit)
    else
      match Opcode.FromCode(data[0] & 0x0f)
      case None => Err(ReservedOpcode)
      case Some(opcode) =>
        match DecodeLength(data)
        case Err(error) => Err(error)
        case Ok(None) => Ok(None)
        case Ok(Some((start, length))) =>
          DecodeRest(data, data[0] & 0x80 != 0, opcode, data[1] & 0x80 != 0, start, length)
  }

  lemma HeadFits(data: seq<byte>)
    requires DecodeHead(data).Ok? && DecodeHead(data).value.Some?
    ensures var head := DecodeHead(data).value.value;
            && 2 <= head.start <= 14
            && head.start + head.length <= |data|
            && head.length < HIGH_BIT
            && (head.opcode.Control() ==> head.fin && head.length <= MAXIMUM_CONTROL_PAYLOAD)
  {
    hide Opcode.FromCode, FromBigEndian, Pow256;
    if (data[1] & 0x7f) as nat == 126 {
      FromBigEndianBound(data[2..4]);
      Pow256Values();
    }
  }

  /** One frame off the front of `data`, and how many octets it took. */
  function Decode(data: seq<byte>): Result<Option<(nat, Frame)>, FrameError> {
    match DecodeHead(data)
    case Err(error) => Err(error)
    case Ok(None) => Ok(None)
    case Ok(Some(head)) =>
      HeadFits(data);
      var end := head.start + head.length;
      Ok(Some((end, Frame(head.fin, head.opcode, head.mask, Crossed(head.mask, data[head.start..end])))))
  }

  // --- more octets never change an answer

  lemma OctetsAtStable(data: seq<byte>, more: seq<byte>, offset: nat, width: nat)
    requires OctetsAt(data, offset, width).Some?
    ensures OctetsAt(data + more, offset, width) == OctetsAt(data, offset, width)
  {
    assert (data + more)[offset..offset + width] == data[offset..offset + width];
  }

  lemma DecodeLengthStable(data: seq<byte>, more: seq<byte>)
    requires |data| >= 2 && DecodeLength(data) != Ok(None)
    ensures DecodeLength(data + more) == DecodeLength(data)
  {
    assert (data + more)[1] == data[1];
    var short := (data[1] & 0x7f) as nat;
    if short == 126 {
      OctetsAtStable(data, more, 2, 2);
    } else if short == 127 {
      OctetsAtStable(data, more, 2, 8);
    }
  }

  lemma DecodeRestStable(data: seq<byte>, more: seq<byte>, fin: bool, opcode: Opcode, masked: bool,
                         start: nat, length: nat)
    requires DecodeRest(data, fin, opcode, masked, start, length) != Ok(None)
    ensures DecodeRest(data + more, fin, opcode, masked, start, length)
         == DecodeRest(data, fin, opcode, masked, start, length)
  {
    if OctetsAt(data, start, 4).Some? {
      OctetsAtStable(data, more, start, 4);
    }
  }

  lemma DecodeHeadStable(data: seq<byte>, more: seq<byte>)
    requires DecodeHead(data) != Ok(None)
    ensures DecodeHead(data + more) == DecodeHead(data)
  {
    hide DecodeLength, DecodeRest, OctetsAt, Opcode.FromCode;
    assert (data + more)[0] == data[0] && (data + more)[1] == data[1];
    if data[0] & 0x70 == 0 && Opcode.FromCode(data[0] & 0x0f).Some? {
      var opcode := Opcode.FromCode(data[0] & 0x0f).value;
      DecodeLengthStable(data, more);
      if DecodeLength(data).Ok? {
        var (start, length) := DecodeLength(data).value.value;
        DecodeRestStable(data, more, data[0] & 0x80 != 0, opcode, data[1] & 0x80 != 0, start, length);
      }
    }
  }

  /** Once decoding answers with a frame or an error, more octets never change the answer. */
  lemma DecodeStable(data: seq<byte>, more: seq<byte>)
    requires Decode(data) != Ok(None)
    ensures Decode(data + more) == Decode(data)
  {
    DecodeHeadStable(data, more);
    if DecodeHead(data).Ok? {
      var head := DecodeHead(data).value.value;
      HeadFits(data);
      assert (data + more)[head.start..head.start + head.length] == data[head.start..head.start + head.length];
    }
  }

  // --- decoding undoes encoding

  lemma FirstOctetFields(fin: bool, opcode: Opcode)
    ensures var octet := FirstOctet(fin, opcode);
            && octet & 0x70 == 0
            && (octet & 0x80 != 0) == fin
            && Opcode.FromCode(octet & 0x0f) == Some(opcode)
  {
  }

  lemma LengthOctetFields(masked: bool, length: byte)
    requires length < 128
    ensures LengthOctet(masked, length) & 0x7f == length
    ensures (LengthOctet(masked, length) & 0x80 != 0) == masked
  {
  }

  lemma LowIsExact(length: nat)
    requires length < 128
    ensures Low(length) < 128 && Low(length) as nat == length
  {
    hide *;
    SmallRemainder(length);
    assert (128 as byte) as nat == 128;
    WideMonotone(Low(length), 128);
  }

  lemma LengthFieldDecodes(first: byte, masked: bool, length: nat, rest: seq<byte>)
    requires length < HIGH_BIT
    ensures var data := [first] + LengthField(masked, length) + rest;
            && (data[1] & 0x80 != 0) == masked
            && DecodeLength(data) == Ok(Some((1 + |LengthField(masked, length)|, length)))
  {
    hide LengthOctet, Low, ToBigEndian, FromBigEndian, Pow256;
    var data := [first] + LengthField(masked, length) + rest;
    Pow256Values();
    if length <= 125 {
      LowIsExact(length);
      LengthOctetFields(masked, Low(length));
    } else if length <= 65535 {
      LengthOctetFields(masked, 126);
      BigEndianRoundTrip(length, 2);
      assert data[2..4] == ToBigEndian(length, 2);
    } else {
      LengthOctetFields(masked, 127);
      BigEndianRoundTrip(length, 8);
      assert data[2..10] == ToBigEndian(length, 8);
    }
  }

  lemma HeaderDecodes(frame: Frame, rest: seq<byte>)
    requires Legal(frame) && |frame.payload| <= |rest|
    ensures DecodeHead(Header(frame) + rest)
         == Ok(Some(FrameHead(frame.fin, frame.opcode, frame.mask, |Header(frame)|, |frame.payload|)))
  {
    hide FirstOctet, LengthField, DecodeLength, Opcode.FromCode;
    var first := FirstOctet(frame.fin, frame.opcode);
    var masked, length := frame.mask.Some?, |frame.payload|;
    var data := Header(frame) + rest;
    var field := LengthField(masked, length);
    assert data == [first] + field + (MaskField(frame.mask) + rest);
    FirstOctetFields(frame.fin, frame.opcode);
    LengthFieldDecodes(first, masked, length, MaskField(frame.mask) + rest);
    if masked {
      assert data[1 + |field|..1 + |field| + 4] == frame.mask.value.Octets();
    }
  }

  /** Decoding an encoded frame gives the frame back, whatever follows it. */
  lemma DecodeEncoded(frame: Frame, tail: seq<byte>)
    requires Legal(frame)
    ensures Decode(Encode(frame) + tail) == Ok(Some((|Encode(frame)|, frame)))
  {
    hide DecodeHead, Header, Masked;
    var crossed := Crossed(frame.mask, frame.payload);
    var data := Encode(frame) + tail;
    assert data == Header(frame) + (crossed + tail);
    HeaderDecodes(frame, crossed + tail);
    assert data[|Header(frame)|..|Encode(frame)|] == crossed;
    if frame.mask.Some? {
      MaskedTwice(frame.mask.value, frame.payload);
    }
  }

  /** A frame that has not fully arrived asks for more and is never an error. */
  lemma DecodeStrictPrefix(frame: Frame, cut: nat)
    requires Legal(frame) && cut < |Encode(frame)|
    ensures Decode(Encode(frame)[..cut]) == Ok(None)
  {
    var whole := Encode(frame);
    assert whole[..cut] + whole[cut..] == whole == whole + [];
    DecodeEncoded(frame, []);
    if Decode(whole[..cut]) != Ok(None) {
      DecodeStable(whole[..cut], whole[cut..]);
      HeadFits(whole[..cut]);
    }
  }

  // --- encoding undoes decoding

  /** Octets that are refused begin no stream a legal frame begins. */
  lemma RefusedIsNoFrame(data: seq<byte>, frame: Frame, tail: seq<byte>)
    requires Legal(frame) && data <= Encode(frame) + tail
    ensures !Decode(data).Err?
  {
    hide Encode, Decode, Legal;
    var whole := Encode(frame);
    if |data| < |whole| {
      DecodeStrictPrefix(frame, |data|);
      assert data == whole[..|data|];
    } else {
      DecodeEncoded(frame, data[|whole|..]);
      assert data == whole + data[|whole|..];
    }
  }

  lemma HeaderSize(frame: Frame)
    ensures var length := |frame.payload|;
            |Header(frame)| == (if length <= 125 then 2 else if length <= 65535 then 4 else 10)
                               + (if frame.mask.Some? then 4 else 0)
  {
  }

  lemma FirstOctetUnique(octet: byte, opcode: Opcode)
    requires octet & 0x70 == 0 && Opcode.FromCode(octet & 0x0f) == Some(opcode)
    ensures FirstOctet(octet & 0x80 != 0, opcode) == octet
  {
  }

  lemma LengthOctetUnique(octet: byte)
    ensures LengthOctet(octet & 0x80 != 0, octet & 0x7f) == octet
  {
  }

  lemma LengthFieldUnique(data: seq<byte>)
    requires |data| >= 2 && DecodeLength(data).Ok? && DecodeLength(data).value.Some?
    requires var (start, length) := DecodeLength(data).value.value;
             start == 1 + |LengthField(data[1] & 0x80 != 0, length)|
    ensures var (start, length) := DecodeLength(data).value.value;
            data[1..start] == LengthField(data[1] & 0x80 != 0, length)
  {
    hide LengthOctet, Low, FromBigEndian, ToBigEndian;
    LengthOctetUnique(data[1]);
    LowOf(data[1] & 0x7f, (data[1] & 0x7f) as nat);
    var short := (data[1] & 0x7f) as nat;
    if short == 126 {
      BigEndianUnique(data[2..4]);
    } else if short == 127 {
      BigEndianUnique(data[2..10]);
    }
  }

  lemma DecodedLength(data: seq<byte>)
    requires |data| >= 2 && DecodeLength(data).Ok? && DecodeLength(data).value.Some?
    ensures var (start, length) := DecodeLength(data).value.value;
            && 1 + |LengthField(data[1] & 0x80 != 0, length)| <= start
            && length < HIGH_BIT
  {
    var short := data[1] & 0x7f;
    assert short < 128;
    if short as nat == 126 {
      FromBigEndianBound(data[2..4]);
      Pow256Values();
    }
  }

  lemma DecodedParts(data: seq<byte>) returns (start: nat)
    requires DecodeHead(data).Ok? && DecodeHead(data).value.Some?
    ensures var head := DecodeHead(data).value.value;
            && |data| >= 2
            && DecodeLength(data) == Ok(Some((start, head.length)))
            && data[0] == FirstOctet(head.fin, head.opcode)
            && head.mask.Some? == (data[1] & 0x80 != 0)
            && head.start == start + |MaskField(head.mask)|
            && head.start <= |data|
            && data[start..head.start] == MaskField(head.mask)
  {
    hide DecodeLength;
    var opcode := Opcode.FromCode(data[0] & 0x0f).value;
    FirstOctetUnique(data[0], opcode);
    start := DecodeLength(data).value.value.0;
  }

  lemma HeaderDecoded(data: seq<byte>)
    requires DecodeHead(data).Ok? && DecodeHead(data).value.Some?
    ensures var head := DecodeHead(data).value.value;
            forall frame: Frame | frame.fin == head.fin && frame.opcode == head.opcode
                                  && frame.mask == head.mask && |frame.payload| == head.length ::
              && |Header(frame)| <= head.start <= |data|
              && (|Header(frame)| == head.start ==> Header(frame) == data[..head.start])
  {
    hide DecodeHead, DecodeLength, LengthField, FirstOctet;
    var head := DecodeHead(data).value.value;
    var start := DecodedParts(data);
    DecodedLength(data);
    forall frame: Frame | frame.fin == head.fin && frame.opcode == head.opcode
                          && frame.mask == head.mask && |frame.payload| == head.length
      ensures |Header(frame)| <= head.start
      ensures |Header(frame)| == head.start ==> Header(frame) == data[..head.start]
    {
      if |Header(frame)| == head.start {
        LengthFieldUnique(data);
        assert data[..head.start] == [data[0]] + data[1..start] + data[start..head.start];
      }
    }
  }

  /**
   * What decodes is a legal frame, and encoding it again never takes more
   * octets than it was read from; it takes as many exactly when those octets
   * were its encoding.
   */
  lemma EncodeDecoded(data: seq<byte>)
    requires Decode(data).Ok? && Decode(data).value.Some?
    ensures var (end, frame) := Decode(data).value.value;
            && Legal(frame)
            && |Encode(frame)| <= end <= |data|
            && (|Encode(frame)| == end <==> Encode(frame) == data[..end])
  {
    hide DecodeHead, Header, Masked;
    var head := DecodeHead(data).value.value;
    var (end, frame) := Decode(data).value.value;
    HeadFits(data);
    HeaderDecoded(data);
    if head.mask.Some? {
      MaskedTwice(head.mask.value, data[head.start..end]);
    }
    assert Crossed(frame.mask, frame.payload) == data[head.start..end];
    assert data[..end] == data[..head.start] + data[head.start..end];
  }

  // --- the octets on the wire, in numbers

  /** The number of an opcode. */
  ghost predicate Stands(opcode: Opcode, number: byte) {
    || (opcode == Continuation && number == 0x0) || (opcode == Text && number == 0x1)
    || (opcode == Binary && number == 0x2) || (opcode == Close && number == 0x8)
    || (opcode == Ping && number == 0x9) || (opcode == Pong && number == 0xa)
  }

  lemma FirstOctetIs(fin: bool, opcode: Opcode, number: byte)
    requires Stands(opcode, number)
    ensures FirstOctet(fin, opcode) == (if fin then 0x80 else 0x00) + number
  {
  }

  lemma LengthOctetIs(masked: bool, length: byte)
    requires length < 0x80
    ensures LengthOctet(masked, length) == (if masked then 0x80 else 0x00) + length
  {
  }

  lemma ShortLength(length: nat)
    requires length <= 125
    ensures Low(length) < 0x80 && Low(length) as nat == length
  {
    WideMonotone(Low(length), 0x80);
  }

  /** How many octets a length takes behind the first. */
  function Wide(length: nat): nat {
    if length <= 125 then 0 else if length <= 65535 then 2 else 8
  }

  /**
   * A frame's header on the wire: the end bit and the opcode's number, then the
   * masking bit and the length in seven bits, or 126 or 127 and the length in
   * two octets or in eight.
   */
  lemma WireHeaderIs(frame: Frame, number: byte)
    requires Legal(frame) && Stands(frame.opcode, number)
    ensures var (wire, length) := (Encode(frame), |frame.payload|);
            && |wire| >= 2 + Wide(length)
            && wire[0] == (if frame.fin then 0x80 else 0x00) + number
            && (length <= 125 ==> wire[1] as nat == if frame.mask.Some? then 128 + length else length)
            && (length > 125 ==>
                  && wire[1] == (if frame.mask.Some? then 0x80 else 0x00) + (if length <= 65535 then 126 else 127)
                  && FromBigEndian(wire[2..2 + Wide(length)]) == length)
  {
    hide FirstOctet, LengthField, Crossed, FromBigEndian;
    var masked, length := frame.mask.Some?, |frame.payload|;
    FirstOctetIs(frame.fin, frame.opcode, number);
    LengthFieldIs(masked, length);
    var field, crossed := LengthField(masked, length), Crossed(frame.mask, frame.payload);
    WireStands(FirstOctet(frame.fin, frame.opcode), field, MaskField(frame.mask), crossed);
    assert Encode(frame) == [FirstOctet(frame.fin, frame.opcode)] + field + MaskField(frame.mask) + crossed;
    hide Encode, Header, Stands;
    FieldInside(Encode(frame), field);
  }

  /** And behind it: the key, and the payload, octet i combined with octet i mod 4 of the key. */
  lemma WireBodyIs(frame: Frame)
    requires Legal(frame)
    ensures var (wire, length) := (Encode(frame), |frame.payload|);
            var start := 2 + Wide(length) + if frame.mask.Some? then 4 else 0;
            && |wire| == start + length
            && (frame.mask.Some? ==> wire[start - 4..start] == frame.mask.value.Octets())
            && forall i :: 0 <= i < length ==>
                 wire[start + i]
                 == if frame.mask.Some? then frame.payload[i] ^ frame.mask.value.Octets()[i % 4] else frame.payload[i]
  {
    hide FirstOctet, LengthField, Crossed, FromBigEndian, Wide;
    var length, key := |frame.payload|, MaskField(frame.mask);
    LengthFieldIs(frame.mask.Some?, length);
    var field, crossed := LengthField(frame.mask.Some?, length), Crossed(frame.mask, frame.payload);
    WireStands(FirstOctet(frame.fin, frame.opcode), field, key, crossed);
    assert Encode(frame) == [FirstOctet(frame.fin, frame.opcode)] + field + key + crossed;
    assert |key| == if frame.mask.Some? then 4 else 0;
    forall i | 0 <= i < length
      ensures crossed[i]
              == if frame.mask.Some? then frame.payload[i] ^ frame.mask.value.Octets()[i % 4] else frame.payload[i]
    {
      CrossedAt(frame.mask, frame.payload, i);
    }
    hide *;
    var wire, start := Encode(frame), 1 + |field| + |key|;
    assert forall i | 0 <= i < length :: wire[start + i] == crossed[i];
  }

  lemma FieldInside(wire: seq<byte>, field: seq<byte>)
    requires field != [] && |wire| >= 1 + |field| && wire[1..1 + |field|] == field
    ensures wire[1] == field[0] && wire[2..1 + |field|] == field[1..]
  {
    assert field[0] == wire[1..1 + |field|][0];
  }

  lemma CrossedAt(mask: Option<Mask>, payload: seq<byte>, i: nat)
    requires i < |payload|
    ensures Crossed(mask, payload)[i] == if mask.Some? then payload[i] ^ mask.value.Octets()[i % 4] else payload[i]
  {
    if mask.Some? {
      hide Masked;
      MaskedAt(mask.value, payload, i);
      KeyOctet(mask.value, i);
    }
  }

  lemma KeyOctet(mask: Mask, i: nat)
    ensures mask.At(i) == mask.Octets()[i % 4]
  {
  }

  lemma WireStands(first: byte, field: seq<byte>, key: seq<byte>, payload: seq<byte>)
    requires field != []
    ensures var wire := [first] + field + key + payload;
            && |wire| == 1 + |field| + |key| + |payload|
            && wire[0] == first && wire[1..1 + |field|] == field && wire[1 + |field|..1 + |field| + |key|] == key
            && forall i :: 0 <= i < |payload| ==> wire[1 + |field| + |key| + i] == payload[i]
  {
  }

  lemma LengthFieldIs(masked: bool, length: nat)
    requires length < HIGH_BIT
    ensures var field := LengthField(masked, length);
            && |field| == 1 + Wide(length)
            && (length <= 125 ==> field[0] as nat == if masked then 128 + length else length)
            && (length > 125 ==>
                  && field[0] == (if masked then 0x80 else 0x00) + (if length <= 65535 then 126 else 127)
                  && FromBigEndian(field[1..]) == length)
  {
    hide LengthOctet, ToBigEndian, FromBigEndian, Low;
    Pow256Values();
    LengthOctetIs(masked, 126);
    LengthOctetIs(masked, 127);
    if length <= 125 {
      ShortLength(length);
      LengthOctetIs(masked, Low(length));
      HighBitAdds(Low(length));
    } else if length <= 65535 {
      BigEndianRoundTrip(length, 2);
      assert LengthField(masked, length)[1..] == ToBigEndian(length, 2);
    } else {
      BigEndianRoundTrip(length, 8);
      assert LengthField(masked, length)[1..] == ToBigEndian(length, 8);
    }
  }

  lemma HighBitAdds(length: byte)
    requires length < 0x80
    ensures (0x80 + length) as nat == 128 + length as nat && (0x00 + length) == length
  {
  }
}
