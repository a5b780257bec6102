/** Strict base64 with the standard alphabet, sections 3.5 and 4 of RFC 4648. */
module Base64 {
  import opened Wrappers
  import opened Octets

  const PAD: byte := 61       // '='
  const INVALID: byte := 0xff

  datatype DecodeError = InvalidLength(length: nat) | InvalidSymbol(symbol: byte) | InvalidPadding

  // --- the alphabet: A-Z, a-z, 0-9, '+' and '/'

  function Low6(value: byte): byte {
    value & 0x3f
  }

  /** The symbol of a sextet; only the low six bits are read. */
  function Symbol(value: byte): byte {
    var sextet := Low6(value);
    if sextet < 26 then sextet + 65
    else if sextet < 52 then sextet + 71
    else if sextet < 62 then sextet - 4
    else if sextet == 62 then 43
    else 47
  }

  /** The sextet of a symbol, or INVALID. */
  function ValueOf(symbol: byte): byte {
    if 65 <= symbol <= 90 then symbol - 65
    else if 97 <= symbol <= 122 then symbol - 71
    else if 48 <= symbol <= 57 then symbol + 4
    else if symbol == 43 then 62
    else if symbol == 47 then 63
    else INVALID
  }

  /** A symbol spells the sextet it was chosen for. */
  lemma SymbolThenValue(value: byte)
    ensures ValueOf(Symbol(value)) == Low6(value) && Symbol(value) != PAD
    ensures Low6(value) != INVALID
  {
  }

  lemma ValueThenSymbol(symbol: byte)
    requires ValueOf(symbol) != INVALID
    ensures ValueOf(symbol) < 64 && Symbol(ValueOf(symbol)) == symbol && symbol != PAD
  {
  }

  // --- groups of three octets as words

  function Pack(a: byte, b: byte, c: byte): bv32 {
    ((a as bv32) << 16) | ((b as bv32) << 8) | (c as bv32)
  }

  /** Sextet `k` of a packed group, counted from the front. */
  function Sextet(packed: bv32, k: nat): byte
    requires k < 4
  {
    match k
    case 0 => ((packed >> 18) & 0xff) as byte
    case 1 => ((packed >> 12) & 0xff) as byte
    case 2 => ((packed >> 6) & 0xff) as byte
    case _ => (packed & 0xff) as byte
  }

  /** Octet `k` of a packed group, counted from the front. */
  function OctetOf(packed: bv32, k: nat): byte
    requires k < 3
  {
    match k
    case 0 => ((packed >> 16) & 0xff) as byte
    case 1 => ((packed >> 8) & 0xff) as byte
    case _ => (packed & 0xff) as byte
  }

  function Unpack(packed: bv32): (octets: seq<byte>)
    ensures |octets| == 3
  {
    [OctetOf(packed, 0), OctetOf(packed, 1), OctetOf(packed, 2)]
  }

  function Shifted(packed: bv32, value: byte): bv32 {
    (packed << 6) | (value as bv32)
  }

  // --- encoding

  /** One group of up to three octets, padded to four symbols. */
  function EncodeGroup(group: seq<byte>): (text: seq<byte>)
    requires 1 <= |group| <= 3
    ensures |text| == 4
  {
    var packed := Pack(group[0], if |group| > 1 then group[1] else 0, if |group| > 2 then group[2] else 0);
    [Symbol(Sextet(packed, 0)), Symbol(Sextet(packed, 1)),
     if |group| > 1 then Symbol(Sextet(packed, 2)) else PAD,
     if |group| > 2 then Symbol(Sextet(packed, 3)) else PAD]
  }

  function Encode(input: seq<byte>): (text: seq<byte>)
    ensures |text| == (|input| + 2) / 3 * 4
  {
    if input == [] then []
    else if |input| <= 3 then EncodeGroup(input)
    else EncodeGroup(input[..3]) + Encode(input[3..])
  }

  lemma EncodeSplits(input: seq<byte>)
    requires |input| >= 3
    ensures Encode(input) == EncodeGroup(input[..3]) + Encode(input[3..])
  {
    hide EncodeGroup;
    if |input| == 3 {
      assert input[..3] == input;
    }
  }

  lemma EncodeShort(input: seq<byte>)
    requires |input| < 3
    ensures Encode(input) == if input == [] then [] else EncodeGroup(input)
  {
    hide EncodeGroup;
  }

  method EncodeText(input: seq<byte>) returns (out: seq<byte>)
    ensures out == Encode(input)
  {
    hide EncodeGroup, Encode;
    out := [];
    var at := 0;
    assert input[0..] == input;
    while |input| - at >= 3
      invariant 0 <= at <= |input|
      invariant out + Encode(input[at..]) == Encode(input)
    {
      EncodeSplits(input[at..]);
      assert input[at..][..3] == input[at..at + 3] && input[at..][3..] == input[at + 3..];
      var group := EncodeWhole(input[at..at + 3]);
      assert (out + group) + Encode(input[at + 3..]) == out + (group + Encode(input[at + 3..]));
      out := out + group;
      at := at + 3;
    }
    var rest := input[at..];
    EncodeShort(rest);
    if rest != [] {
      var group := EncodeRest(rest);
      out := out + group;
    }
  }

  method EncodeWhole(group: seq<byte>) returns (text: seq<byte>)
    requires |group| == 3
    ensures text == EncodeGroup(group)
  {
    var packed := Pack(group[0], group[1], group[2]);
    text := [Symbol(Sextet(packed, 0)), Symbol(Sextet(packed, 1)),
             Symbol(Sextet(packed, 2)), Symbol(Sextet(packed, 3))];
  }

  method EncodeRest(rest: seq<byte>) returns (text: seq<byte>)
    requires 1 <= |rest| <= 2
    ensures text == EncodeGroup(rest)
  {
    var packed := Pack(rest[0], if |rest| > 1 then rest[1] else 0, 0);
    text := [Symbol(Sextet(packed, 0)), Symbol(Sextet(packed, 1)),
             if |rest| > 1 then Symbol(Sextet(packed, 2)) else PAD, PAD];
  }

  // --- decoding

  /** Packs symbols six bits at a time, or stops at the first outside the alphabet. */
  function Sextets(group: seq<byte>, packed: bv32): Result<bv32, DecodeError> {
    if group == [] then Ok(packed)
    else if ValueOf(group[0]) == INVALID then Err(InvalidSymbol(group[0]))
    else Sextets(group[1..], Shifted(packed, ValueOf(group[0])))
  }

  method PackSextets(group: seq<byte>) returns (result: Result<bv32, DecodeError>)
    ensures result == Sextets(group, 0)
  {
    hide ValueOf, Shifted;
    var packed: bv32 := 0;
    for i := 0 to |group|
      invariant Sextets(group[i..], packed) == Sextets(group, 0)
    {
      assert group[i..][0] == group[i] && group[i..][1..] == group[i + 1..];
      if ValueOf(group[i]) == INVALID {
        return Err(InvalidSymbol(group[i]));
      }
      packed := Shifted(packed, ValueOf(group[i]));
    }
    return Ok(packed);
  }

  function Padding(group: seq<byte>): (count: nat)
    ensures count <= |group|
  {
    if group == [] then 0 else (if group[0] == PAD then 1 else 0) + Padding(group[1..])
  }

  /** A group before the last, which may carry no padding. */
  function DecodeBody(group: seq<byte>): Result<seq<byte>, DecodeError>
    requires |group| == 4
  {
    match Sextets(group, 0)
    case Ok(packed) => Ok(Unpack(packed))
    case Err(error) => Err(if PAD in group then InvalidPadding else error)
  }

  /** The bits a padded group displaces. */
  function Displaced(packed: bv32, padding: nat): bv32
    requires padding <= 2
  {
    if padding == 0 then 0 else if padding == 1 then packed & 0xff else packed & 0xffff
  }

  function Aligned(packed: bv32, padding: nat): bv32
    requires padding <= 2
  {
    if padding == 0 then packed else if padding == 1 then packed << 6 else packed << 12
  }

  /** The last group, whose padding must be at its end and displace only zeros. */
  function DecodeLast(last: seq<byte>): Result<seq<byte>, DecodeError>
    requires |last| == 4
  {
    var padding := Padding(last);
    if padding > 2 || PAD in last[..4 - padding] then Err(InvalidPadding)
    else
      match Sextets(last[..4 - padding], 0)
      case Err(error) => Err(error)
      case Ok(short) =>
        var packed := Aligned(short, padding);
        if Displaced(packed, padding) != 0 then Err(InvalidPadding)
        else Ok(Unpack(packed)[..3 - padding])
  }

  function DecodeGroups(input: seq<byte>): Result<seq<byte>, DecodeError>
    requires |input| >= 4 && |input| % 4 == 0
  {
    if |input| == 4 then DecodeLast(input)
    else
      match DecodeBody(input[..4])
      case Err(error) => Err(error)
      case Ok(front) =>
        match DecodeGroups(input[4..])
        case Err(error) => Err(error)
        case Ok(rest) => Ok(front + rest)
  }

  function Decode(input: seq<byte>): Result<seq<byte>, DecodeError> {
    if |input| % 4 != 0 then Err(InvalidLength(|input|))
    else if input == [] then Ok([])
    else DecodeGroups(input)
  }

  method DecodeText(input: seq<byte>) returns (result: Result<seq<byte>, DecodeError>)
    ensures result == Decode(input)
  {
    hide DecodeLast, Sextets, OctetOf;
    if |input| % 4 != 0 {
      return Err(InvalidLength(|input|));
    }
    if input == [] {
      return Ok([]);
    }
    var out: seq<byte> := [];
    var at := 0;
    assert input[0..] == input;
    PrefixedNone(DecodeGroups(input));
    while at < |input| - 4
      invariant 0 <= at <= |input| - 4 && at % 4 == 0
      invariant DecodeGroups(input) == Prefixed(out, DecodeGroups(input[at..]))
    {
      var group := input[at..at + 4];
      assert input[at..][..4] == group && input[at..][4..] == input[at + 4..];
      var packed := PackSextets(group);
      if packed.Err? {
        return Err(if PAD in group then InvalidPadding else packed.error);
      }
      var octets := [OctetOf(packed.value, 0), OctetOf(packed.value, 1), OctetOf(packed.value, 2)];
      assert DecodeBody(group) == Ok(octets);
      PrefixedTwice(out, octets, DecodeGroups(input[at + 4..]));
      out := out + octets;
      at := at + 4;
    }
    var last := DecodeEnd(input[at..]);
    return Prefixed(out, last);
  }

  function Prefixed(front: seq<byte>, result: Result<seq<byte>, DecodeError>): Result<seq<byte>, DecodeError> {
    match result
    case Ok(rest) => Ok(front + rest)
    case Err(error) => Err(error)
  }

  lemma PrefixedNone(result: Result<seq<byte>, DecodeError>)
    ensures Prefixed([], result) == result
  {
    if result.Ok? {
      assert [] + result.value == result.value;
    }
  }

  lemma PrefixedTwice(a: seq<byte>, b: seq<byte>, result: Result<seq<byte>, DecodeError>)
    ensures Prefixed(a, Prefixed(b, result)) == Prefixed(a + b, result)
  {
    if result.Ok? {
      assert (a + b) + result.value == a + (b + result.value);
    }
  }

  method DecodeEnd(last: seq<byte>) returns (result: Result<seq<byte>, DecodeError>)
    requires |last| == 4
    ensures result == DecodeLast(last)
  {
    hide Sextets, OctetOf, Aligned, Displaced;
    var padding := 0;
    for i := 0 to 4
      invariant padding + Padding(last[i..]) == Padding(last)
    {
      assert last[i..][0] == last[i] && last[i..][1..] == last[i + 1..];
      if last[i] == PAD {
        padding := padding + 1;
      }
    }
    if padding > 2 || PAD in last[..4 - padding] {
      return Err(InvalidPadding);
    }
    var short := PackSextets(last[..4 - padding]);
    if short.Err? {
      return Err(short.error);
    }
    var packed := Aligned(short.value, padding);
    if Displaced(packed, padding) != 0 {
      return Err(InvalidPadding);
    }
    var out := [OctetOf(packed, 0)];
    if padding < 2 {
      out := out + [OctetOf(packed, 1)];
    }
    if padding < 1 {
      out := out + [OctetOf(packed, 2)];
    }
    assert out == Unpack(packed)[..3 - padding];
    return Ok(out);
  }

  // --- what the words hold

  function Pack4(v0: byte, v1: byte, v2: byte, v3: byte): bv32 {
    Shifted(Shifted(Shifted(Shifted(0, v0), v1), v2), v3)
  }

  lemma SymbolReadsSixBits(value: byte)
    ensures Symbol(Low6(value)) == Symbol(value)
  {
    assert Low6(Low6(value)) == Low6(value);
  }

  lemma OctetsOfPack(a: byte, b: byte, c: byte)
    ensures Unpack(Pack(a, b, c)) == [a, b, c]
  {
  }

  lemma PackOfOctets(packed: bv32)
    requires packed < 0x100_0000
    ensures Pack(OctetOf(packed, 0), OctetOf(packed, 1), OctetOf(packed, 2)) == packed
  {
  }

  lemma SextetsOfPack4(v0: byte, v1: byte, v2: byte, v3: byte)
    requires v0 < 64 && v1 < 64 && v2 < 64 && v3 < 64
    ensures Pack4(v0, v1, v2, v3) < 0x100_0000
    ensures Low6(Sextet(Pack4(v0, v1, v2, v3), 0)) == v0
    ensures Low6(Sextet(Pack4(v0, v1, v2, v3), 1)) == v1
    ensures Low6(Sextet(Pack4(v0, v1, v2, v3), 2)) == v2
    ensures Low6(Sextet(Pack4(v0, v1, v2, v3), 3)) == v3
  {
  }

  lemma Pack4OfSextets(a: byte, b: byte, c: byte)
    ensures var p := Pack(a, b, c);
            Pack4(Low6(Sextet(p, 0)), Low6(Sextet(p, 1)), Low6(Sextet(p, 2)), Low6(Sextet(p, 3))) == p
  {
  }

  /** Sextets a short group leaves empty are zero, and aligning restores them. */
  lemma ShortSextets(a: byte, b: byte)
    ensures Low6(Sextet(Pack(a, b, 0), 3)) == 0
    ensures Low6(Sextet(Pack(a, 0, 0), 2)) == 0
    ensures Displaced(Pack(a, b, 0), 1) == 0 && Displaced(Pack(a, 0, 0), 2) == 0
  {
  }

  lemma AlignedIsPack4(v0: byte, v1: byte, v2: byte)
    ensures Aligned(Shifted(Shifted(Shifted(0, v0), v1), v2), 1) == Pack4(v0, v1, v2, 0)
    ensures Aligned(Shifted(Shifted(0, v0), v1), 2) == Pack4(v0, v1, 0, 0)
  {
  }

  lemma UndisplacedOctets(packed: bv32)
    ensures Displaced(packed, 1) == 0 ==> OctetOf(packed, 2) == 0
    ensures Displaced(packed, 2) == 0 ==> OctetOf(packed, 1) == 0 && OctetOf(packed, 2) == 0
  {
  }

  // --- round trips, a group at a time

  /** A run of symbols packs exactly when each of them is in the alphabet. */
  lemma {:induction false} SextetsOkIff(group: seq<byte>, packed: bv32)
    ensures Sextets(group, packed).Ok? <==> forall i | 0 <= i < |group| :: ValueOf(group[i]) != INVALID
  {
    hide ValueOf, Shifted;
    if group != [] && ValueOf(group[0]) != INVALID {
      SextetsOkIff(group[1..], Shifted(packed, ValueOf(group[0])));
      assert forall i | 1 <= i < |group| :: group[i] == group[1..][i - 1];
    }
  }

  lemma PackTwo(s0: byte, s1: byte)
    requires ValueOf(s0) != INVALID && ValueOf(s1) != INVALID
    ensures Sextets([s0, s1], 0) == Ok(Shifted(Shifted(0, ValueOf(s0)), ValueOf(s1)))
  {
    hide ValueOf, Shifted;
    assert [s0, s1][1..] == [s1] && [s1][1..] == [];
    var p1 := Shifted(0, ValueOf(s0));
    assert Sextets([s1], p1) == Ok(Shifted(p1, ValueOf(s1)));
  }

  lemma PackThree(s0: byte, s1: byte, s2: byte)
    requires ValueOf(s0) != INVALID && ValueOf(s1) != INVALID && ValueOf(s2) != INVALID
    ensures Sextets([s0, s1, s2], 0) == Ok(Shifted(Shifted(Shifted(0, ValueOf(s0)), ValueOf(s1)), ValueOf(s2)))
  {
    hide ValueOf, Shifted;
    assert [s0, s1, s2][1..] == [s1, s2] && [s1, s2][1..] == [s2] && [s2][1..] == [];
    var p1, p2 := Shifted(0, ValueOf(s0)), Shifted(Shifted(0, ValueOf(s0)), ValueOf(s1));
    assert Sextets([s2], p2) == Ok(Shifted(p2, ValueOf(s2)));
    assert Sextets([s1, s2], p1) == Sextets([s2], p2);
  }

  lemma PackFour(s0: byte, s1: byte, s2: byte, s3: byte)
    requires ValueOf(s0) != INVALID && ValueOf(s1) != INVALID && ValueOf(s2) != INVALID && ValueOf(s3) != INVALID
    ensures Sextets([s0, s1, s2, s3], 0) == Ok(Pack4(ValueOf(s0), ValueOf(s1), ValueOf(s2), ValueOf(s3)))
  {
    hide ValueOf, Shifted;
    assert [s0, s1, s2, s3][1..] == [s1, s2, s3] && [s1, s2, s3][1..] == [s2, s3];
    assert [s2, s3][1..] == [s3] && [s3][1..] == [];
    var p1 := Shifted(0, ValueOf(s0));
    var p2 := Shifted(p1, ValueOf(s1));
    var p3 := Shifted(p2, ValueOf(s2));
    assert Sextets([s3], p3) == Ok(Shifted(p3, ValueOf(s3)));
    assert Sextets([s2, s3], p2) == Sextets([s3], p3);
    assert Sextets([s1, s2, s3], p1) == Sextets([s2, s3], p2);
  }

  lemma PaddingCounts(s0: byte, s1: byte, s2: byte, s3: byte)
    ensures Padding([s0, s1, s2, s3])
            == (if s0 == PAD then 1 else 0) + (if s1 == PAD then 1 else 0)
               + (if s2 == PAD then 1 else 0) + (if s3 == PAD then 1 else 0)
  {
    assert [s0, s1, s2, s3][1..] == [s1, s2, s3] && [s1, s2, s3][1..] == [s2, s3];
    assert [s2, s3][1..] == [s3] && [s3][1..] == [];
    assert Padding([s2, s3]) == (if s2 == PAD then 1 else 0) + (if s3 == PAD then 1 else 0);
  }

  /** What the last group decodes to when it carries no padding. */
  lemma LastUnpadded(s0: byte, s1: byte, s2: byte, s3: byte)
    requires ValueOf(s0) != INVALID && ValueOf(s1) != INVALID && ValueOf(s2) != INVALID && ValueOf(s3) != INVALID
    requires PAD !in [s0, s1, s2, s3]
    ensures DecodeLast([s0, s1, s2, s3]) == Ok(Unpack(Pack4(ValueOf(s0), ValueOf(s1), ValueOf(s2), ValueOf(s3))))
  {
    hide ValueOf, Unpack, Pack4, Padding, Sextets;
    var last := [s0, s1, s2, s3];
    PaddingCounts(s0, s1, s2, s3);
    assert PAD != last[0] && PAD != last[1] && PAD != last[2] && PAD != last[3];
    assert last[..4] == last;
    PackFour(s0, s1, s2, s3);
    var packed := Pack4(ValueOf(s0), ValueOf(s1), ValueOf(s2), ValueOf(s3));
    assert Unpack(packed)[..3] == Unpack(packed);
  }

  /** What the last group decodes to behind one padding symbol. */
  lemma LastPaddedOnce(s0: byte, s1: byte, s2: byte)
    requires ValueOf(s0) != INVALID && ValueOf(s1) != INVALID && ValueOf(s2) != INVALID
    requires PAD !in [s0, s1, s2]
    ensures var packed := Pack4(ValueOf(s0), ValueOf(s1), ValueOf(s2), 0);
            DecodeLast([s0, s1, s2, PAD])
            == if Displaced(packed, 1) != 0 then Err(InvalidPadding) else Ok(Unpack(packed)[..2])
  {
    hide ValueOf, Unpack, Pack4, Padding, Sextets, Shifted, Aligned, Displaced;
    PaddingCounts(s0, s1, s2, PAD);
    assert PAD != [s0, s1, s2][0] && PAD != [s0, s1, s2][1] && PAD != [s0, s1, s2][2];
    assert [s0, s1, s2, PAD][..3] == [s0, s1, s2];
    PackThree(s0, s1, s2);
    AlignedIsPack4(ValueOf(s0), ValueOf(s1), ValueOf(s2));
  }

  /** What the last group decodes to behind two padding symbols. */
  lemma LastPaddedTwice(s0: byte, s1: byte)
    requires ValueOf(s0) != INVALID && ValueOf(s1) != INVALID
    requires PAD !in [s0, s1]
    ensures var packed := Pack4(ValueOf(s0), ValueOf(s1), 0, 0);
            DecodeLast([s0, s1, PAD, PAD])
            == if Displaced(packed, 2) != 0 then Err(InvalidPadding) else Ok(Unpack(packed)[..1])
  {
    hide ValueOf, Unpack, Pack4, Padding, Sextets, Shifted, Aligned, Displaced;
    PaddingCounts(s0, s1, PAD, PAD);
    assert PAD != [s0, s1][0] && PAD != [s0, s1][1];
    assert [s0, s1, PAD, PAD][..2] == [s0, s1];
    PackTwo(s0, s1);
    AlignedIsPack4(ValueOf(s0), ValueOf(s1), 0);
  }

  /** A group encoded whole decodes to itself, before the last group and as it. */
  lemma WholeGroupBack(a: byte, b: byte, c: byte)
    ensures DecodeBody(EncodeGroup([a, b, c])) == Ok([a, b, c])
    ensures DecodeLast(EncodeGroup([a, b, c])) == Ok([a, b, c])
  {
    hide Low6, Pack, Unpack, Symbol, Sextet, ValueOf, Pack4, Sextets, DecodeLast;
    var p := Pack(a, b, c);
    SymbolThenValue(Sextet(p, 0));
    SymbolThenValue(Sextet(p, 1));
    SymbolThenValue(Sextet(p, 2));
    SymbolThenValue(Sextet(p, 3));
    PackFour(Symbol(Sextet(p, 0)), Symbol(Sextet(p, 1)), Symbol(Sextet(p, 2)), Symbol(Sextet(p, 3)));
    Pack4OfSextets(a, b, c);
    OctetsOfPack(a, b, c);
    LastUnpadded(Symbol(Sextet(p, 0)), Symbol(Sextet(p, 1)), Symbol(Sextet(p, 2)), Symbol(Sextet(p, 3)));
  }

  lemma PairBack(a: byte, b: byte)
    ensures DecodeLast(EncodeGroup([a, b])) == Ok([a, b])
  {
    hide Low6, Pack, Unpack, Symbol, Sextet, ValueOf, Pack4, Sextets, DecodeLast, Displaced;
    var p := Pack(a, b, 0);
    SymbolThenValue(Sextet(p, 0));
    SymbolThenValue(Sextet(p, 1));
    SymbolThenValue(Sextet(p, 2));
    Pack4OfSextets(a, b, 0);
    ShortSextets(a, b);
    OctetsOfPack(a, b, 0);
    LastPaddedOnce(Symbol(Sextet(p, 0)), Symbol(Sextet(p, 1)), Symbol(Sextet(p, 2)));
    assert [a, b, 0][..2] == [a, b];
  }

  lemma SingleBack(a: byte)
    ensures DecodeLast(EncodeGroup([a])) == Ok([a])
  {
    hide Low6, Pack, Unpack, Symbol, Sextet, ValueOf, Pack4, Sextets, DecodeLast, Displaced;
    var p := Pack(a, 0, 0);
    SymbolThenValue(Sextet(p, 0));
    SymbolThenValue(Sextet(p, 1));
    Pack4OfSextets(a, 0, 0);
    ShortSextets(a, 0);
    OctetsOfPack(a, 0, 0);
    LastPaddedTwice(Symbol(Sextet(p, 0)), Symbol(Sextet(p, 1)));
    assert [a, 0, 0][..1] == [a];
  }

  // --- round trips

  lemma {:induction false} DecodeGroupsEncoded(input: seq<byte>)
    requires input != []
    ensures DecodeGroups(Encode(input)) == Ok(input)
  {
    hide EncodeGroup, DecodeLast, DecodeBody;
    if |input| == 1 {
      SingleBack(input[0]);
      assert input == [input[0]];
    } else if |input| == 2 {
      PairBack(input[0], input[1]);
      assert input == [input[0], input[1]];
    } else {
      WholeGroupBack(input[0], input[1], input[2]);
      assert input[..3] == [input[0], input[1], input[2]];
      if |input| == 3 {
        assert input == input[..3];
      } else {
        DecodeGroupsEncoded(input[3..]);
        var text := Encode(input);
        assert text[..4] == EncodeGroup(input[..3]) && text[4..] == Encode(input[3..]);
        assert input[..3] + input[3..] == input;
      }
    }
  }

  /** Decoding undoes encoding. */
  lemma DecodeEncoded(input: seq<byte>)
    ensures Decode(Encode(input)) == Ok(input)
  {
    hide DecodeGroups, EncodeGroup;
    if input != [] {
      DecodeGroupsEncoded(input);
    }
  }

  // --- and the other way: an accepted text is the encoding of what it decodes to

  /** The word four sextets pack into is spelled by their own symbols. */
  lemma WordSpells(v0: byte, v1: byte, v2: byte, v3: byte)
    requires v0 < 64 && v1 < 64 && v2 < 64 && v3 < 64
    ensures var p := Pack4(v0, v1, v2, v3);
            && Pack(OctetOf(p, 0), OctetOf(p, 1), OctetOf(p, 2)) == p
            && Symbol(Sextet(p, 0)) == Symbol(v0) && Symbol(Sextet(p, 1)) == Symbol(v1)
            && Symbol(Sextet(p, 2)) == Symbol(v2) && Symbol(Sextet(p, 3)) == Symbol(v3)
  {
    hide *;
    SextetsOfPack4(v0, v1, v2, v3);
    var p := Pack4(v0, v1, v2, v3);
    PackOfOctets(p);
    SymbolReadsSixBits(Sextet(p, 0));
    SymbolReadsSixBits(Sextet(p, 1));
    SymbolReadsSixBits(Sextet(p, 2));
    SymbolReadsSixBits(Sextet(p, 3));
  }

  lemma UnpaddedUnique(s0: byte, s1: byte, s2: byte, s3: byte)
    requires ValueOf(s0) != INVALID && ValueOf(s1) != INVALID && ValueOf(s2) != INVALID && ValueOf(s3) != INVALID
    ensures EncodeGroup(Unpack(Pack4(ValueOf(s0), ValueOf(s1), ValueOf(s2), ValueOf(s3)))) == [s0, s1, s2, s3]
  {
    hide Pack, Symbol, Sextet, ValueOf, Pack4, OctetOf;
    ValueThenSymbol(s0);
    ValueThenSymbol(s1);
    ValueThenSymbol(s2);
    ValueThenSymbol(s3);
    WordSpells(ValueOf(s0), ValueOf(s1), ValueOf(s2), ValueOf(s3));
  }

  lemma PaddedOnceUnique(s0: byte, s1: byte, s2: byte)
    requires ValueOf(s0) != INVALID && ValueOf(s1) != INVALID && ValueOf(s2) != INVALID
    requires Displaced(Pack4(ValueOf(s0), ValueOf(s1), ValueOf(s2), 0), 1) == 0
    ensures EncodeGroup(Unpack(Pack4(ValueOf(s0), ValueOf(s1), ValueOf(s2), 0))[..2]) == [s0, s1, s2, PAD]
  {
    hide Pack, Symbol, Sextet, ValueOf, Pack4, OctetOf, Displaced;
    ValueThenSymbol(s0);
    ValueThenSymbol(s1);
    ValueThenSymbol(s2);
    UndisplacedOctets(Pack4(ValueOf(s0), ValueOf(s1), ValueOf(s2), 0));
    WordSpells(ValueOf(s0), ValueOf(s1), ValueOf(s2), 0);
  }

  lemma PaddedTwiceUnique(s0: byte, s1: byte)
    requires ValueOf(s0) != INVALID && ValueOf(s1) != INVALID
    requires Displaced(Pack4(ValueOf(s0), ValueOf(s1), 0, 0), 2) == 0
    ensures EncodeGroup(Unpack(Pack4(ValueOf(s0), ValueOf(s1), 0, 0))[..1]) == [s0, s1, PAD, PAD]
  {
    hide Pack, Symbol, Sextet, ValueOf, Pack4, OctetOf, Displaced;
    ValueThenSymbol(s0);
    ValueThenSymbol(s1);
    UndisplacedOctets(Pack4(ValueOf(s0), ValueOf(s1), 0, 0));
    WordSpells(ValueOf(s0), ValueOf(s1), 0, 0);
  }

  lemma BodyUnique(group: seq<byte>, octets: seq<byte>)
    requires |group| == 4 && DecodeBody(group) == Ok(octets)
    ensures |octets| == 3 && EncodeGroup(octets) == group
  {
    hide EncodeGroup, Unpack, ValueOf, Pack4, Sextets;
    assert group == [group[0], group[1], group[2], group[3]];
    SextetsOkIff(group, 0);
    PackFour(group[0], group[1], group[2], group[3]);
    UnpaddedUnique(group[0], group[1], group[2], group[3]);
  }

  /** Padding that is not among the leading symbols is all of the trailing ones. */
  lemma PaddingIsLast(last: seq<byte>)
    requires |last| == 4
    requires Padding(last) <= 2 && PAD !in last[..4 - Padding(last)]
    ensures forall k | 4 - Padding(last) <= k < 4 :: last[k] == PAD
  {
    hide Padding;
    assert last == [last[0], last[1], last[2], last[3]];
    PaddingCounts(last[0], last[1], last[2], last[3]);
    var padding := Padding(last);
    assert forall k | 0 <= k < 4 - padding :: last[k] == last[..4 - padding][k];
  }

  lemma LastUnique(last: seq<byte>, octets: seq<byte>)
    requires |last| == 4 && DecodeLast(last) == Ok(octets)
    ensures 1 <= |octets| <= 3 && EncodeGroup(octets) == last
  {
    hide EncodeGroup, Unpack, ValueOf, Pack4, Sextets, Displaced, Aligned, Padding, Shifted;
    var padding := Padding(last);
    PaddingIsLast(last);
    var symbols := last[..4 - padding];
    SextetsOkIff(symbols, 0);
    if padding == 0 {
      assert last == [last[0], last[1], last[2], last[3]] == symbols;
      LastUnpadded(last[0], last[1], last[2], last[3]);
      UnpaddedUnique(last[0], last[1], last[2], last[3]);
    } else if padding == 1 {
      assert last == [last[0], last[1], last[2], PAD] && symbols == [last[0], last[1], last[2]];
      LastPaddedOnce(symbols[0], symbols[1], symbols[2]);
      PaddedOnceUnique(symbols[0], symbols[1], symbols[2]);
    } else {
      assert last == [last[0], last[1], PAD, PAD] && symbols == [last[0], last[1]];
      LastPaddedTwice(symbols[0], symbols[1]);
      PaddedTwiceUnique(symbols[0], symbols[1]);
    }
  }

  lemma {:induction false} EncodeDecodedGroups(text: seq<byte>, octets: seq<byte>)
    requires |text| >= 4 && |text| % 4 == 0 && DecodeGroups(text) == Ok(octets)
    ensures octets != [] && Encode(octets) == text
  {
    hide EncodeGroup, DecodeLast, DecodeBody;
    if |text| == 4 {
      LastUnique(text, octets);
    } else {
      var front, rest := DecodeBody(text[..4]).value, DecodeGroups(text[4..]).value;
      BodyUnique(text[..4], front);
      EncodeDecodedGroups(text[4..], rest);
      assert octets[..3] == front && octets[3..] == rest;
      assert text[..4] + text[4..] == text;
    }
  }

  /** Encoding undoes decoding: no octets can be written two ways. */
  lemma EncodeDecoded(text: seq<byte>, octets: seq<byte>)
    requires Decode(text) == Ok(octets)
    ensures Encode(octets) == text
  {
    hide DecodeGroups, EncodeGroup;
    if text != [] {
      EncodeDecodedGroups(text, octets);
    }
  }

  /** The accepted language is exactly the image of the encoder. */
  lemma AcceptedIffEncoding(text: seq<byte>)
    ensures Decode(text).Ok? <==> exists octets :: Encode(octets) == text
  {
    hide Encode, Decode;
    if Decode(text).Ok? {
      EncodeDecoded(text, Decode(text).value);
    } else if octets :| Encode(octets) == text {
      DecodeEncoded(octets);
    }
  }

  // --- the meaning as a stream of bits

  predicate Bit(value: byte, mask: byte) {
    value & mask != 0
  }

  function OctetBits(octet: byte): (bits: seq<bool>)
    ensures |bits| == 8
  {
    [Bit(octet, 0x80), Bit(octet, 0x40), Bit(octet, 0x20), Bit(octet, 0x10),
     Bit(octet, 0x08), Bit(octet, 0x04), Bit(octet, 0x02), Bit(octet, 0x01)]
  }

  function SextetBits(value: byte): (bits: seq<bool>)
    ensures |bits| == 6
  {
    [Bit(value, 0x20), Bit(value, 0x10), Bit(value, 0x08), Bit(value, 0x04), Bit(value, 0x02), Bit(value, 0x01)]
  }

  /** The bits of octets, in order, most significant first. */
  function InputBits(octets: seq<byte>): seq<bool> {
    if octets == [] then [] else OctetBits(octets[0]) + InputBits(octets[1..])
  }

  function SymbolBits(symbol: byte): seq<bool> {
    if symbol == PAD then [] else SextetBits(ValueOf(symbol))
  }

  /** The bits a text's symbols stand for, in order; padding stands for none. */
  function TextBits(text: seq<byte>): seq<bool> {
    if text == [] then []
    else SymbolBits(text[0]) + TextBits(text[1..])
  }

  /** The zero bits that fill the last symbol. */
  function Filler(length: nat): seq<bool> {
    if length % 3 == 0 then []
    else if length % 3 == 1 then [false, false, false, false]
    else [false, false]
  }

  // The four sextets three octets split into.

  function First(a: byte): byte { a >> 2 }

  function Second(a: byte, b: byte): byte { ((a & 3) << 4) | (b >> 4) }

  function Third(b: byte, c: byte): byte { ((b & 15) << 2) | (c >> 6) }

  function Fourth(c: byte): byte { c & 0x3f }

  lemma SextetsOfPack(a: byte, b: byte, c: byte)
    ensures Low6(Sextet(Pack(a, b, c), 0)) == First(a)
    ensures Low6(Sextet(Pack(a, b, c), 1)) == Second(a, b)
    ensures Low6(Sextet(Pack(a, b, c), 2)) == Third(b, c)
    ensures Low6(Sextet(Pack(a, b, c), 3)) == Fourth(c)
  {
  }

  lemma FirstBits(a: byte)
    ensures Bit(First(a), 0x20) == Bit(a, 0x80) && Bit(First(a), 0x10) == Bit(a, 0x40)
    ensures Bit(First(a), 0x08) == Bit(a, 0x20) && Bit(First(a), 0x04) == Bit(a, 0x10)
    ensures Bit(First(a), 0x02) == Bit(a, 0x08) && Bit(First(a), 0x01) == Bit(a, 0x04)
  {
  }

  lemma SecondBits(a: byte, b: byte)
    ensures Bit(Second(a, b), 0x20) == Bit(a, 0x02) && Bit(Second(a, b), 0x10) == Bit(a, 0x01)
    ensures Bit(Second(a, b), 0x08) == Bit(b, 0x80) && Bit(Second(a, b), 0x04) == Bit(b, 0x40)
    ensures Bit(Second(a, b), 0x02) == Bit(b, 0x20) && Bit(Second(a, b), 0x01) == Bit(b, 0x10)
  {
  }

  lemma ThirdBits(b: byte, c: byte)
    ensures Bit(Third(b, c), 0x20) == Bit(b, 0x08) && Bit(Third(b, c), 0x10) == Bit(b, 0x04)
    ensures Bit(Third(b, c), 0x08) == Bit(b, 0x02) && Bit(Third(b, c), 0x04) == Bit(b, 0x01)
    ensures Bit(Third(b, c), 0x02) == Bit(c, 0x80) && Bit(Third(b, c), 0x01) == Bit(c, 0x40)
  {
  }

  lemma FourthBits(c: byte)
    ensures Bit(Fourth(c), 0x20) == Bit(c, 0x20) && Bit(Fourth(c), 0x10) == Bit(c, 0x10)
    ensures Bit(Fourth(c), 0x08) == Bit(c, 0x08) && Bit(Fourth(c), 0x04) == Bit(c, 0x04)
    ensures Bit(Fourth(c), 0x02) == Bit(c, 0x02) && Bit(Fourth(c), 0x01) == Bit(c, 0x01)
  {
  }

  lemma Regrouped(a: seq<bool>, b: seq<bool>, c: seq<bool>)
    requires |a| == |b| == |c| == 8
    ensures a[..6] + (a[6..] + b[..4]) + (b[4..] + c[..2]) + c[2..] == a + b + c
  {
  }

  lemma FirstSplit(a: byte)
    ensures SextetBits(First(a)) == OctetBits(a)[..6]
  {
    hide Bit, First;
    FirstBits(a);
  }

  lemma SecondSplit(a: byte, b: byte)
    ensures SextetBits(Second(a, b)) == OctetBits(a)[6..] + OctetBits(b)[..4]
  {
    hide Bit, Second;
    SecondBits(a, b);
  }

  lemma ThirdSplit(b: byte, c: byte)
    ensures SextetBits(Third(b, c)) == OctetBits(b)[4..] + OctetBits(c)[..2]
  {
    hide Bit, Third;
    ThirdBits(b, c);
  }

  lemma FourthSplit(c: byte)
    ensures SextetBits(Fourth(c)) == OctetBits(c)[2..]
  {
    hide Bit, Fourth;
    FourthBits(c);
  }

  /** A group's four sextets carry its three octets' bits, in order. */
  lemma SextetsCarryBits(a: byte, b: byte, c: byte)
    ensures SextetBits(First(a)) + SextetBits(Second(a, b)) + SextetBits(Third(b, c)) + SextetBits(Fourth(c))
            == OctetBits(a) + OctetBits(b) + OctetBits(c)
  {
    hide *;
    FirstSplit(a);
    SecondSplit(a, b);
    ThirdSplit(b, c);
    FourthSplit(c);
    Regrouped(OctetBits(a), OctetBits(b), OctetBits(c));
  }

  lemma ZeroBits()
    ensures OctetBits(0) == [false, false, false, false, false, false, false, false]
  {
  }

  lemma TextBitsOfGroup(s0: byte, s1: byte, s2: byte, s3: byte)
    ensures TextBits([s0, s1, s2, s3]) == SymbolBits(s0) + SymbolBits(s1) + SymbolBits(s2) + SymbolBits(s3)
  {
    hide SymbolBits;
    assert [s0, s1, s2, s3][1..] == [s1, s2, s3] && [s1, s2, s3][1..] == [s2, s3];
    assert [s2, s3][1..] == [s3] && [s3][1..] == [];
    assert TextBits([s3]) == SymbolBits(s3) + TextBits([]);
    assert TextBits([s2, s3]) == SymbolBits(s2) + TextBits([s3]);
    assert TextBits([s1, s2, s3]) == SymbolBits(s1) + TextBits([s2, s3]);
  }

  lemma Associative(a: seq<bool>, b: seq<bool>, c: seq<bool>)
    ensures (a + b) + c == a + (b + c)
  {
  }

  lemma {:induction false} TextBitsJoin(front: seq<byte>, rest: seq<byte>)
    ensures TextBits(front + rest) == TextBits(front) + TextBits(rest)
  {
    hide SymbolBits;
    if front == [] {
      assert front + rest == rest;
    } else {
      TextBitsJoin(front[1..], rest);
      assert (front + rest)[1..] == front[1..] + rest && (front + rest)[0] == front[0];
      Associative(SymbolBits(front[0]), TextBits(front[1..]), TextBits(rest));
    }
  }

  lemma InputBitsOfThree(a: byte, b: byte, c: byte)
    ensures InputBits([a, b, c]) == OctetBits(a) + OctetBits(b) + OctetBits(c)
  {
    hide OctetBits;
    assert [a, b, c][1..] == [b, c] && [b, c][1..] == [c] && [c][1..] == [];
    assert InputBits([c]) == OctetBits(c) + [];
    assert InputBits([b, c]) == OctetBits(b) + InputBits([c]);
  }

  lemma BitsOfFirst(octets: seq<byte>)
    requires octets != []
    ensures InputBits(octets) == OctetBits(octets[0]) + InputBits(octets[1..])
  {
  }

  lemma {:induction false} InputBitsJoin(front: seq<byte>, rest: seq<byte>)
    ensures InputBits(front + rest) == InputBits(front) + InputBits(rest)
  {
    hide OctetBits;
    if front == [] {
      assert front + rest == rest;
    } else {
      hide InputBits;
      InputBitsJoin(front[1..], rest);
      BitsOfFirst(front);
      BitsOfFirst(front + rest);
      assert (front + rest)[1..] == front[1..] + rest && (front + rest)[0] == front[0];
      Associative(OctetBits(front[0]), InputBits(front[1..]), InputBits(rest));
    }
  }

  lemma SpellsBits(value: byte)
    ensures SymbolBits(Symbol(value)) == SextetBits(Low6(value))
  {
    hide ValueOf, Symbol, Low6, SextetBits;
    SymbolThenValue(value);
  }

  lemma GroupBits3(a: byte, b: byte, c: byte)
    ensures TextBits(EncodeGroup([a, b, c])) == InputBits([a, b, c])
  {
    hide Low6, Pack, Symbol, Sextet, First, Second, Third, Fourth;
    hide SymbolBits, TextBits, InputBits, OctetBits, SextetBits;
    var p := Pack(a, b, c);
    SpellsBits(Sextet(p, 0));
    SpellsBits(Sextet(p, 1));
    SpellsBits(Sextet(p, 2));
    SpellsBits(Sextet(p, 3));
    SextetsOfPack(a, b, c);
    TextBitsOfGroup(Symbol(Sextet(p, 0)), Symbol(Sextet(p, 1)), Symbol(Sextet(p, 2)), Symbol(Sextet(p, 3)));
    SextetsCarryBits(a, b, c);
    InputBitsOfThree(a, b, c);
  }

  lemma PadBits()
    ensures SymbolBits(PAD) == []
  {
  }

  lemma RegroupedPair(a: seq<bool>, b: seq<bool>, zeros: seq<bool>)
    requires |a| == |b| == |zeros| == 8 && zeros[0] == zeros[1] == false
    ensures a[..6] + (a[6..] + b[..4]) + (b[4..] + zeros[..2]) + [] == a + b + [false, false]
  {
  }

  lemma GroupBits2(a: byte, b: byte)
    ensures TextBits(EncodeGroup([a, b])) == InputBits([a, b]) + [false, false]
  {
    hide Low6, Pack, Symbol, Sextet, SymbolBits, TextBits, First, Second, Third, Fourth, OctetBits, SextetBits;
    var p := Pack(a, b, 0);
    SpellsBits(Sextet(p, 0));
    SpellsBits(Sextet(p, 1));
    SpellsBits(Sextet(p, 2));
    SextetsOfPack(a, b, 0);
    TextBitsOfGroup(Symbol(Sextet(p, 0)), Symbol(Sextet(p, 1)), Symbol(Sextet(p, 2)), PAD);
    PadBits();
    FirstSplit(a);
    SecondSplit(a, b);
    ThirdSplit(b, 0);
    ZeroBits();
    RegroupedPair(OctetBits(a), OctetBits(b), OctetBits(0));
    assert [a, b][1..] == [b] && InputBits([b]) == OctetBits(b) + [];
  }

  lemma RegroupedSingle(a: seq<bool>, zeros: seq<bool>)
    requires |a| == |zeros| == 8 && zeros[0] == zeros[1] == zeros[2] == zeros[3] == false
    ensures a[..6] + (a[6..] + zeros[..4]) + [] + [] == a + [false, false, false, false]
  {
  }

  lemma GroupBits1(a: byte)
    ensures TextBits(EncodeGroup([a])) == InputBits([a]) + [false, false, false, false]
  {
    hide Low6, Pack, Symbol, Sextet, SymbolBits, TextBits, First, Second, Third, Fourth, OctetBits, SextetBits;
    var p := Pack(a, 0, 0);
    SpellsBits(Sextet(p, 0));
    SpellsBits(Sextet(p, 1));
    SextetsOfPack(a, 0, 0);
    TextBitsOfGroup(Symbol(Sextet(p, 0)), Symbol(Sextet(p, 1)), PAD, PAD);
    PadBits();
    FirstSplit(a);
    SecondSplit(a, 0);
    ZeroBits();
    RegroupedSingle(OctetBits(a), OctetBits(0));
    assert InputBits([a]) == OctetBits(a) + [];
  }

  lemma FillerRepeats(length: nat)
    ensures Filler(length + 3) == Filler(length)
  {
    assert (length + 3) % 3 == length % 3;
  }

  lemma ShortFiller()
    ensures TextBits([]) == InputBits([]) == Filler(0) == []
    ensures Filler(1) == [false, false, false, false] && Filler(2) == [false, false]
  {
  }

  lemma ShortCarriesBits(input: seq<byte>)
    requires |input| < 3
    ensures TextBits(Encode(input)) == InputBits(input) + Filler(|input|)
  {
    hide *;
    EncodeShort(input);
    ShortFiller();
    if |input| == 1 {
      assert input == [input[0]];
      GroupBits1(input[0]);
    } else if |input| == 2 {
      assert input == [input[0], input[1]];
      GroupBits2(input[0], input[1]);
    }
  }

  /** The symbols of an encoding spell the input's bits, then the filler, and nothing else. */
  lemma {:induction false} EncodeCarriesBits(input: seq<byte>)
    ensures TextBits(Encode(input)) == InputBits(input) + Filler(|input|)
  {
    hide *;
    if |input| < 3 {
      ShortCarriesBits(input);
    } else {
      var front, rest := input[..3], input[3..];
      assert input == front + rest;
      EncodeCarriesBits(rest);
      EncodeSplits(input);
      TextBitsJoin(EncodeGroup(front), Encode(rest));
      assert front == [input[0], input[1], input[2]];
      GroupBits3(input[0], input[1], input[2]);
      InputBitsJoin(front, rest);
      FillerRepeats(|rest|);
      Associative(InputBits(front), InputBits(rest), Filler(|rest|));
    }
  }

  // --- what padding says

  lemma {:induction false} PaddingJoins(front: seq<byte>, rest: seq<byte>)
    ensures Padding(front + rest) == Padding(front) + Padding(rest)
  {
    if front == [] {
      assert front + rest == rest;
    } else {
      PaddingJoins(front[1..], rest);
      assert (front + rest)[1..] == front[1..] + rest;
    }
  }

  lemma GroupPadding(group: seq<byte>)
    requires 1 <= |group| <= 3
    ensures Padding(EncodeGroup(group)) == 3 - |group|
  {
    hide Padding, Symbol, Sextet, Pack;
    var packed := Pack(group[0], if |group| > 1 then group[1] else 0, if |group| > 2 then group[2] else 0);
    SymbolThenValue(Sextet(packed, 0));
    SymbolThenValue(Sextet(packed, 1));
    SymbolThenValue(Sextet(packed, 2));
    SymbolThenValue(Sextet(packed, 3));
    var text := EncodeGroup(group);
    PaddingCounts(text[0], text[1], text[2], text[3]);
    assert text == [text[0], text[1], text[2], text[3]];
  }

  /** An encoding carries just the padding that rounds its symbols up to a group. */
  lemma {:induction false} EncodePads(input: seq<byte>)
    ensures (|input| + Padding(Encode(input))) % 3 == 0 && Padding(Encode(input)) < 3
  {
    hide EncodeGroup, Padding;
    if |input| < 3 {
      EncodeShort(input);
      if input != [] {
        GroupPadding(input);
      } else {
        PaddingNone();
      }
    } else {
      EncodePads(input[3..]);
      EncodeSplits(input);
      GroupPadding(input[..3]);
      PaddingJoins(EncodeGroup(input[..3]), Encode(input[3..]));
    }
  }

  lemma PaddingNone()
    ensures Padding([]) == 0
  {
  }
}
