/** Encrypted Client Hello configurations, section 4 of draft-ietf-tls-esni. */
module Ech {
  import opened Wrappers
  import opened Octets

  const VERSION := 0xfe0d
  const U16_LIMIT := 0x1_0000
  const KEM_X25519_HKDF_SHA256 := 0x0020
  const KDF_HKDF_SHA256 := 0x0001
  const AEAD_AES_128_GCM := 0x0001
  const MAXIMUM_NAME_LENGTH: byte := 64
  const MAXIMUM_PUBLIC_NAME := 255

  /** What a client lifts out of a configuration. */
  datatype Config = Config(maximumNameLength: byte, publicName: seq<byte>)

  datatype Error =
    | ListTooShort | LengthMismatch | PastTheList | NoneSupported
    | ConfigTooShort | InsideCipherSuites | NoMaximumNameLength | NoPublicName | NamePastConfig
    | NameTooLong | KeyTooLong

  // --- reading

  function U16(raw: seq<byte>, at: nat): nat
    requires at + 2 <= |raw|
  {
    FromBigEndian(raw[at..at + 2])
  }

  /** The fields read out of one configuration's contents. */
  function Contents(raw: seq<byte>): Result<Config, Error> {
    if |raw| < 5 then Err(ConfigTooShort)
    else
      var ciphers := 5 + U16(raw, 3);
      if ciphers + 2 > |raw| then Err(InsideCipherSuites)
      else
        var maximum := ciphers + 2 + U16(raw, ciphers);
        if maximum >= |raw| then Err(NoMaximumNameLength)
        else if maximum + 1 >= |raw| then Err(NoPublicName)
        else
          var name, length := maximum + 2, raw[maximum + 1] as nat;
          if name + length > |raw| then Err(NamePastConfig)
          else Ok(Config(raw[maximum], raw[name..name + length]))
  }

  /** The configurations of a list's body; up to three octets at its end are not looked at. */
  function Configs(body: seq<byte>): Result<seq<Config>, Error> {
    if |body| < 4 then Ok([])
    else
      var version, size := U16(body, 0), U16(body, 2);
      if 4 + size > |body| then Err(PastTheList)
      else if version != VERSION then Configs(body[4 + size..])
      else
        match Contents(body[4..4 + size])
        case Err(error) => Err(error)
        case Ok(config) => Behind(config, Configs(body[4 + size..]))
  }

  function Behind(config: Config, rest: Result<seq<Config>, Error>): Result<seq<Config>, Error> {
    match rest
    case Err(error) => Err(error)
    case Ok(configs) => Ok([config] + configs)
  }

  function Parse(raw: seq<byte>): Result<seq<Config>, Error> {
    if |raw| < 2 then Err(ListTooShort)
    else if U16(raw, 0) != |raw| - 2 then Err(LengthMismatch)
    else
      match Configs(raw[2..])
      case Err(error) => Err(error)
      case Ok(configs) => if configs == [] then Err(NoneSupported) else Ok(configs)
  }

  method ReadContents(raw: seq<byte>) returns (result: Result<Config, Error>)
    ensures result == Contents(raw)
  {
    if |raw| < 5 {
      return Err(ConfigTooShort);
    }
    var offset := 5 + U16(raw, 3);
    if offset + 2 > |raw| {
      return Err(InsideCipherSuites);
    }
    var cipherLength := U16(raw, offset);
    offset := offset + 2 + cipherLength;
    if offset >= |raw| {
      return Err(NoMaximumNameLength);
    }
    var maximumNameLength := raw[offset];
    offset := offset + 1;
    if offset >= |raw| {
      return Err(NoPublicName);
    }
    var nameLength := raw[offset] as nat;
    offset := offset + 1;
    if offset + nameLength > |raw| {
      return Err(NamePastConfig);
    }
    return Ok(Config(maximumNameLength, raw[offset..offset + nameLength]));
  }

  /** The configurations found so far, and then those of what is left. */
  function After(configs: seq<Config>, rest: Result<seq<Config>, Error>): Result<seq<Config>, Error> {
    match rest
    case Err(error) => Err(error)
    case Ok(more) => Ok(configs + more)
  }

  method ParseList(raw: seq<byte>) returns (result: Result<seq<Config>, Error>)
    ensures result == Parse(raw)
  {
    hide Contents, U16;
    if |raw| < 2 {
      return Err(ListTooShort);
    }
    var body := raw[2..];
    if U16(raw, 0) != |body| {
      return Err(LengthMismatch);
    }
    var configs: seq<Config> := [];
    var offset := 0;
    assert body[0..] == body;
    AfterNothing(Configs(body));
    while offset + 4 <= |body|
      invariant offset <= |body|
      invariant After(configs, Configs(body[offset..])) == Configs(body)
      decreases |body| - offset
    {
      ghost var left := body[offset..];
      SameU16(body, offset, 0);
      SameU16(body, offset, 2);
      var version, size := U16(body, offset), U16(body, offset + 2);
      offset := offset + 4;
      if offset + size > |body| {
        return Err(PastTheList);
      }
      assert left[4..4 + size] == body[offset..offset + size] && left[4 + size..] == body[offset + size..];
      if version == VERSION {
        var config := ReadContents(body[offset..offset + size]);
        if config.Err? {
          return Err(config.error);
        }
        AfterBehind(configs, config.value, Configs(body[offset + size..]));
        configs := configs + [config.value];
      }
      offset := offset + size;
    }
    assert configs + [] == configs;
    if configs == [] {
      return Err(NoneSupported);
    }
    return Ok(configs);
  }

  lemma SameU16(body: seq<byte>, offset: nat, at: nat)
    requires offset + at + 2 <= |body|
    ensures U16(body[offset..], at) == U16(body, offset + at)
  {
    assert body[offset..][at..at + 2] == body[offset + at..offset + at + 2];
  }

  lemma AfterNothing(rest: Result<seq<Config>, Error>)
    ensures After([], rest) == rest
  {
    if rest.Ok? {
      assert [] + rest.value == rest.value;
    }
  }

  lemma AfterBehind(configs: seq<Config>, config: Config, rest: Result<seq<Config>, Error>)
    ensures After(configs, Behind(config, rest)) == After(configs + [config], rest)
  {
    if rest.Ok? {
      assert configs + ([config] + rest.value) == configs + [config] + rest.value;
    }
  }

  // --- what is accepted, as a layout

  /** The parts of a configuration's contents; the first is its identifier and KEM. */
  datatype Layout = Layout(
    lead: seq<byte>, key: seq<byte>, ciphers: seq<byte>, maximum: byte, name: seq<byte>, extensions: seq<byte>)

  predicate Sized(layout: Layout) {
    |layout.lead| == 3 && |layout.key| < U16_LIMIT && |layout.ciphers| < U16_LIMIT && |layout.name| < 256
  }

  function Spell16(value: nat): (octets: seq<byte>)
    ensures |octets| == 2
  {
    ToBigEndian(value, 2)
  }

  lemma Spelled16(value: nat)
    requires value < U16_LIMIT
    ensures FromBigEndian(Spell16(value)) == value
  {
    hide FromBigEndian, ToBigEndian;
    Pow256Values();
    BigEndianRoundTrip(value, 2);
  }

  lemma Read16(octets: seq<byte>)
    requires |octets| == 2
    ensures FromBigEndian(octets) < U16_LIMIT && Spell16(FromBigEndian(octets)) == octets
  {
    hide FromBigEndian, ToBigEndian;
    Pow256Values();
    FromBigEndianBound(octets);
    BigEndianUnique(octets);
  }

  /** Contents in full: the key and the cipher suites behind two octets of length, the name behind one. */
  function Spell(layout: Layout): seq<byte> {
    layout.lead + Spell16(|layout.key|) + layout.key + Spell16(|layout.ciphers|) + layout.ciphers
    + [layout.maximum, Low(|layout.name|)] + layout.name + layout.extensions
  }

  /** Where the parts of a concatenation stand. */
  lemma PartsStand<T>(lead: seq<T>, k: seq<T>, key: seq<T>, c: seq<T>, ciphers: seq<T>,
                      two: seq<T>, name: seq<T>, rest: seq<T>)
    requires |lead| == 3 && |k| == |c| == |two| == 2
    ensures var raw := lead + k + key + c + ciphers + two + name + rest;
            var at := 5 + |key|;
            var maximum := at + 2 + |ciphers|;
            && raw[3..5] == k && raw[at..at + 2] == c && raw[maximum..maximum + 2] == two
            && raw[maximum + 2..maximum + 2 + |name|] == name
  {
  }

  lemma ContentsWhen(raw: seq<byte>, key: nat, ciphers: nat, name: nat)
    requires 9 + key + ciphers + name <= |raw|
    requires U16(raw, 3) == key && U16(raw, 5 + key) == ciphers && raw[8 + key + ciphers] as nat == name
    ensures Contents(raw)
            == Ok(Config(raw[7 + key + ciphers], raw[9 + key + ciphers..9 + key + ciphers + name]))
  {
    hide U16;
  }

  /** The lengths, the maximum and the name stand where contents with these lengths have them. */
  predicate Stands(raw: seq<byte>, key: nat, ciphers: nat, maximum: byte, name: seq<byte>) {
    var at := 7 + key + ciphers;
    && |raw| >= at + 2 + |name|
    && raw[3..5] == Spell16(key) && raw[5 + key..7 + key] == Spell16(ciphers)
    && raw[at..at + 2] == [maximum, Low(|name|)] && raw[at + 2..at + 2 + |name|] == name
  }

  lemma SpellStands(layout: Layout)
    requires |layout.lead| == 3
    ensures Stands(Spell(layout), |layout.key|, |layout.ciphers|, layout.maximum, layout.name)
  {
    hide Spell16, Low;
    PartsStand(layout.lead, Spell16(|layout.key|), layout.key, Spell16(|layout.ciphers|), layout.ciphers,
               [layout.maximum, Low(|layout.name|)], layout.name, layout.extensions);
  }

  lemma ReadsLength(raw: seq<byte>, at: nat, length: nat)
    requires at + 2 <= |raw| && raw[at..at + 2] == Spell16(length) && length < U16_LIMIT
    ensures U16(raw, at) == length
  {
    hide FromBigEndian, Spell16;
    Spelled16(length);
  }

  lemma TwoStand(raw: seq<byte>, at: nat, first: byte, second: byte)
    requires at + 2 <= |raw| && raw[at..at + 2] == [first, second]
    ensures raw[at] == first && raw[at + 1] == second
  {
    assert raw[at] == raw[at..at + 2][0] && raw[at + 1] == raw[at..at + 2][1];
  }

  lemma StandsIsRead(raw: seq<byte>, key: nat, ciphers: nat, maximum: byte, name: seq<byte>)
    requires Stands(raw, key, ciphers, maximum, name) && key < U16_LIMIT && ciphers < U16_LIMIT && |name| < 256
    ensures Contents(raw) == Ok(Config(maximum, name))
  {
    hide Spell16, U16, Contents;
    ReadsLength(raw, 3, key);
    ReadsLength(raw, 5 + key, ciphers);
    TwoStand(raw, 7 + key + ciphers, maximum, Low(|name|));
    ContentsWhen(raw, key, ciphers, |name|);
  }

  lemma SpelledIsRead(layout: Layout)
    requires Sized(layout)
    ensures Contents(Spell(layout)) == Ok(Config(layout.maximum, layout.name))
  {
    hide Spell, Stands, Contents;
    SpellStands(layout);
    StandsIsRead(Spell(layout), |layout.key|, |layout.ciphers|, layout.maximum, layout.name);
  }

  lemma Cut<T>(raw: seq<T>, ciphers: nat, maximum: nat, end: nat)
    requires 5 <= ciphers && ciphers + 2 <= maximum && maximum + 2 <= end <= |raw|
    ensures raw == raw[..3] + raw[3..5] + raw[5..ciphers] + raw[ciphers..ciphers + 2] + raw[ciphers + 2..maximum]
                   + [raw[maximum], raw[maximum + 1]] + raw[maximum + 2..end] + raw[end..]
  {
  }

  function LayoutOf(raw: seq<byte>, ciphers: nat, maximum: nat, end: nat): Layout
    requires 5 <= ciphers && ciphers + 2 <= maximum && maximum + 2 <= end <= |raw|
  {
    Layout(raw[..3], raw[5..ciphers], raw[ciphers + 2..maximum], raw[maximum], raw[maximum + 2..end], raw[end..])
  }

  lemma LayoutSpells(raw: seq<byte>, ciphers: nat, maximum: nat, end: nat)
    requires 5 <= ciphers && ciphers + 2 <= maximum && maximum + 2 <= end <= |raw|
    requires raw[3..5] == Spell16(ciphers - 5) && raw[ciphers..ciphers + 2] == Spell16(maximum - ciphers - 2)
    requires raw[maximum + 1] == Low(end - maximum - 2)
    ensures Spell(LayoutOf(raw, ciphers, maximum, end)) == raw
  {
    hide Spell16, Low;
    Cut(raw, ciphers, maximum, end);
    assert |raw[5..ciphers]| == ciphers - 5 && |raw[ciphers + 2..maximum]| == maximum - ciphers - 2;
    assert |raw[maximum + 2..end]| == end - maximum - 2;
  }

  lemma ContentsBounds(raw: seq<byte>) returns (ciphers: nat, maximum: nat, length: nat)
    requires Contents(raw).Ok?
    ensures 5 <= ciphers && ciphers + 2 <= maximum && maximum + 2 + length <= |raw|
    ensures U16(raw, 3) == ciphers - 5 && U16(raw, ciphers) == maximum - ciphers - 2
    ensures raw[maximum + 1] as nat == length
    ensures Contents(raw).value == Config(raw[maximum], raw[maximum + 2..maximum + 2 + length])
  {
    hide U16;
    ciphers := 5 + U16(raw, 3);
    maximum := ciphers + 2 + U16(raw, ciphers);
    length := raw[maximum + 1] as nat;
  }

  lemma ReadIsSpelled(raw: seq<byte>) returns (layout: Layout)
    requires Contents(raw).Ok?
    ensures Sized(layout) && raw == Spell(layout)
    ensures Contents(raw).value == Config(layout.maximum, layout.name)
  {
    hide Contents, Spell, Spell16, FromBigEndian, Low;
    var ciphers, maximum, length := ContentsBounds(raw);
    Read16(raw[3..5]);
    Read16(raw[ciphers..ciphers + 2]);
    hide U16;
    WideBound(raw[maximum + 1]);
    LowOf(raw[maximum + 1], length);
    layout := LayoutOf(raw, ciphers, maximum, maximum + 2 + length);
    LayoutSpells(raw, ciphers, maximum, maximum + 2 + length);
  }

  /** Contents are read just when they are laid out as they should be, and then for what the layout says. */
  lemma ContentsIff(raw: seq<byte>, config: Config)
    ensures Contents(raw) == Ok(config)
            <==> exists layout :: Sized(layout) && raw == Spell(layout) && config == Config(layout.maximum, layout.name)
  {
    hide Contents, Spell, Sized;
    if Contents(raw) == Ok(config) {
      var layout := ReadIsSpelled(raw);
    }
    if layout :| Sized(layout) && raw == Spell(layout) && config == Config(layout.maximum, layout.name) {
      SpelledIsRead(layout);
    }
  }

  // --- lists

  datatype Record = Record(version: nat, contents: seq<byte>)

  function SpellRecord(record: Record): seq<byte> {
    Spell16(record.version) + Spell16(|record.contents|) + record.contents
  }

  function SpellRecords(records: seq<Record>): seq<byte> {
    if records == [] then [] else SpellRecord(records[0]) + SpellRecords(records[1..])
  }

  /** A record whose lengths fit and, when it is of the version read, whose contents can be. */
  predicate Readable(record: Record) {
    && record.version < U16_LIMIT && |record.contents| < U16_LIMIT
    && (record.version == VERSION ==> Contents(record.contents).Ok?)
  }

  /** The configurations of the supported records, in order. */
  function Supported(records: seq<Record>): seq<Config>
    requires forall i :: 0 <= i < |records| ==> Readable(records[i])
  {
    if records == [] then []
    else if assert Readable(records[0]); records[0].version == VERSION then
      [Contents(records[0].contents).value] + Supported(records[1..])
    else Supported(records[1..])
  }

  lemma FirstRecord(record: Record, rest: seq<byte>)
    requires record.version < U16_LIMIT && |record.contents| < U16_LIMIT
    ensures var body := SpellRecord(record) + rest;
            && |body| >= 4 && U16(body, 0) == record.version && U16(body, 2) == |record.contents|
            && |body| >= 4 + |record.contents|
            && body[4..4 + |record.contents|] == record.contents && body[4 + |record.contents|..] == rest
  {
    hide Spell16, FromBigEndian;
    var body := SpellRecord(record) + rest;
    assert body[0..2] == Spell16(record.version) && body[2..4] == Spell16(|record.contents|);
    Spelled16(record.version);
    Spelled16(|record.contents|);
  }

  lemma {:induction false} SpelledRecordsAreRead(records: seq<Record>, tail: seq<byte>)
    requires |tail| < 4 && forall i :: 0 <= i < |records| ==> Readable(records[i])
    ensures Configs(SpellRecords(records) + tail) == Ok(Supported(records))
  {
    hide Contents, U16, SpellRecord;
    if records == [] {
      assert SpellRecords(records) + tail == tail;
    } else {
      var rest := SpellRecords(records[1..]) + tail;
      assert SpellRecords(records) + tail == SpellRecord(records[0]) + rest;
      FirstRecord(records[0], rest);
      SpelledRecordsAreRead(records[1..], tail);
    }
  }

  lemma {:induction false} ReadBodyIsRecords(body: seq<byte>) returns (records: seq<Record>, tail: seq<byte>)
    requires Configs(body).Ok?
    ensures |tail| < 4 && body == SpellRecords(records) + tail
    ensures forall i :: 0 <= i < |records| ==> Readable(records[i])
  {
    hide Contents, Spell16, FromBigEndian;
    if |body| < 4 {
      records, tail := [], body;
    } else {
      var version, size := U16(body, 0), U16(body, 2);
      var record := Record(version, body[4..4 + size]);
      Read16(body[0..2]);
      Read16(body[2..4]);
      var others, end := ReadBodyIsRecords(body[4 + size..]);
      records, tail := [record] + others, end;
      assert records[1..] == others;
      assert body == body[0..2] + body[2..4] + body[4..4 + size] + body[4 + size..];
    }
  }

  /**
   * A list is read just when its declared length is its body's and the body
   * is whole records, with no more than three octets after the last, at least
   * one of a supported version; what is read is theirs, in order.
   */
  lemma ParseIff(raw: seq<byte>, configs: seq<Config>)
    ensures Parse(raw) == Ok(configs)
            <==> exists records, tail: seq<byte> ::
                   && (forall i :: 0 <= i < |records| ==> Readable(records[i]))
                   && |tail| < 4 && |SpellRecords(records) + tail| < U16_LIMIT
                   && raw == Spell16(|SpellRecords(records) + tail|) + SpellRecords(records) + tail
                   && configs == Supported(records) && configs != []
  {
    hide Configs, Contents, Spell16, FromBigEndian, SpellRecords, Supported, Readable;
    if Parse(raw) == Ok(configs) {
      var records, tail := ReadBodyIsRecords(raw[2..]);
      SpelledRecordsAreRead(records, tail);
      Read16(raw[0..2]);
      assert raw == raw[0..2] + raw[2..];
      assert raw == Spell16(|SpellRecords(records) + tail|) + SpellRecords(records) + tail;
    }
    if records, tail: seq<byte> :|
      && (forall i :: 0 <= i < |records| ==> Readable(records[i]))
      && |tail| < 4 && |SpellRecords(records) + tail| < U16_LIMIT
      && raw == Spell16(|SpellRecords(records) + tail|) + SpellRecords(records) + tail
      && configs == Supported(records) && configs != []
    {
      var body := SpellRecords(records) + tail;
      assert raw[0..2] == Spell16(|body|) && raw[2..] == body;
      Spelled16(|body|);
      SpelledRecordsAreRead(records, tail);
    }
  }

  // --- publishing

  /** The contents a server publishes for a public key. */
  function Published(publicName: seq<byte>, configId: byte, publicKey: seq<byte>): (layout: Layout)
  {
    Layout([configId] + Spell16(KEM_X25519_HKDF_SHA256), publicKey,
           Spell16(KDF_HKDF_SHA256) + Spell16(AEAD_AES_128_GCM),
           MAXIMUM_NAME_LENGTH, publicName, Spell16(0))
  }

  /** One configuration around a public key; the length of the whole is cut to two octets. */
  method Encode(publicName: seq<byte>, configId: byte, publicKey: seq<byte>)
    returns (result: Result<seq<byte>, Error>)
    ensures result == if |publicName| > MAXIMUM_PUBLIC_NAME then Err(NameTooLong)
                      else if |publicKey| >= U16_LIMIT then Err(KeyTooLong)
                      else Ok(SpellRecord(Record(VERSION, Spell(Published(publicName, configId, publicKey)))))
  {
    hide Spell16, Low;
    if |publicName| > MAXIMUM_PUBLIC_NAME {
      return Err(NameTooLong);
    }
    if |publicKey| >= U16_LIMIT {
      return Err(KeyTooLong);
    }
    var contents := [configId];
    contents := contents + Spell16(KEM_X25519_HKDF_SHA256);
    contents := contents + Spell16(|publicKey|);
    contents := contents + publicKey;
    contents := contents + Spell16(4);
    contents := contents + Spell16(KDF_HKDF_SHA256);
    contents := contents + Spell16(AEAD_AES_128_GCM);
    contents := contents + [MAXIMUM_NAME_LENGTH];
    contents := contents + [Low(|publicName|)];
    contents := contents + publicName;
    contents := contents + Spell16(0);
    assert contents == Spell(Published(publicName, configId, publicKey));
    return Ok(Spell16(VERSION) + Spell16(|contents|) + contents);
  }

  lemma Spell16Is(value: nat)
    requires value < U16_LIMIT
    ensures Spell16(value) == [Low(value / 256), Low(value)]
  {
    assert ToBigEndian(value / 256, 1) == [] + [Low(value / 256)];
  }

  lemma FixedOctets()
    ensures Spell16(VERSION) == [0xfe, 0x0d] && Spell16(KEM_X25519_HKDF_SHA256) == [0x00, 0x20]
    ensures Spell16(0) == [0x00, 0x00] && Spell16(1) == [0x00, 0x01] && Spell16(4) == [0x00, 0x04]
  {
    hide Spell16;
    Spell16Is(VERSION);
    Spell16Is(KEM_X25519_HKDF_SHA256);
    Spell16Is(0);
    Spell16Is(1);
    Spell16Is(4);
    LowOf(0xfe, 0xfe);
    LowOf(0x0d, 0x0d);
    LowOf(0x20, 0x20);
    LowOf(0, 0);
    LowOf(1, 1);
    LowOf(4, 4);
    SameLow(VERSION, 0x0d);
  }

  lemma SameLow(value: nat, low: nat)
    requires value % 256 == low % 256
    ensures Low(value) == Low(low)
  {
    WideInjective(Low(value), Low(low));
  }

  /**
   * The octets of a published configuration: the version, the length, the
   * identifier, the key's algorithm and the key, the one cipher suite, the
   * padding length, the name, and no extensions.
   */
  lemma PublishedOctets(publicName: seq<byte>, configId: byte, publicKey: seq<byte>)
    requires |publicName| <= MAXIMUM_PUBLIC_NAME && |publicKey| < U16_LIMIT
    ensures SpellRecord(Record(VERSION, Spell(Published(publicName, configId, publicKey))))
            == [0xfe, 0x0d] + ToBigEndian(15 + |publicKey| + |publicName|, 2)
               + ([configId, 0x00, 0x20] + ToBigEndian(|publicKey|, 2) + publicKey
                  + [0x00, 0x04, 0x00, 0x01, 0x00, 0x01, 64, Low(|publicName|)] + publicName + [0x00, 0x00])
  {
    hide Spell, Published, Low, ToBigEndian;
    FixedOctets();
    PublishedContents(publicName, configId, publicKey);
    var contents := Spell(Published(publicName, configId, publicKey));
    assert |contents| == 15 + |publicKey| + |publicName|;
  }

  lemma PublishedContents(publicName: seq<byte>, configId: byte, publicKey: seq<byte>)
    ensures Spell(Published(publicName, configId, publicKey))
            == [configId, 0x00, 0x20] + ToBigEndian(|publicKey|, 2) + publicKey
               + [0x00, 0x04, 0x00, 0x01, 0x00, 0x01, 64, Low(|publicName|)] + publicName + [0x00, 0x00]
  {
    hide Low, ToBigEndian, Spell, Spell16, Published;
    PublishedIs(publicName, configId, publicKey);
    var ciphers: seq<byte> := [0x00, 0x01, 0x00, 0x01];
    MiddleIs(ciphers, Low(|publicName|));
    SpelledAround([configId, 0x00, 0x20], publicKey, ciphers, 64, publicName, [0x00, 0x00],
                  [0x00, 0x04, 0x00, 0x01, 0x00, 0x01, 64, Low(|publicName|)]);
  }

  lemma MiddleIs(ciphers: seq<byte>, low: byte)
    requires ciphers == [0x00, 0x01, 0x00, 0x01]
    ensures Spell16(|ciphers|) + ciphers + [64, low] == [0x00, 0x04, 0x00, 0x01, 0x00, 0x01, 64, low]
  {
    hide Spell16;
    FixedOctets();
  }

  lemma SpelledAround(lead: seq<byte>, key: seq<byte>, ciphers: seq<byte>, maximum: byte, name: seq<byte>,
                      rest: seq<byte>, middle: seq<byte>)
    requires Spell16(|ciphers|) + ciphers + [maximum, Low(|name|)] == middle
    ensures Spell(Layout(lead, key, ciphers, maximum, name, rest))
            == lead + ToBigEndian(|key|, 2) + key + middle + name + rest
  {
    hide Spell, Spell16, ToBigEndian, Low;
    SpellIs(lead, key, ciphers, maximum, name, rest);
  }

  lemma PublishedIs(publicName: seq<byte>, configId: byte, publicKey: seq<byte>)
    ensures Published(publicName, configId, publicKey)
            == Layout([configId, 0x00, 0x20], publicKey, [0x00, 0x01, 0x00, 0x01], 64, publicName, [0x00, 0x00])
  {
    hide Spell16;
    FixedOctets();
  }

  lemma SpellIs(lead: seq<byte>, key: seq<byte>, ciphers: seq<byte>, maximum: byte, name: seq<byte>, rest: seq<byte>)
    ensures Spell(Layout(lead, key, ciphers, maximum, name, rest))
            == lead + ToBigEndian(|key|, 2) + key
               + (Spell16(|ciphers|) + ciphers + [maximum, Low(|name|)]) + name + rest
  {
    hide ToBigEndian, Low;
    Regrouped(lead, ToBigEndian(|key|, 2), key, ToBigEndian(|ciphers|, 2), ciphers, [maximum, Low(|name|)], name, rest);
  }

  lemma Regrouped<T>(a: seq<T>, b: seq<T>, c: seq<T>, d: seq<T>, e: seq<T>, f: seq<T>, g: seq<T>, h: seq<T>)
    ensures a + b + c + d + e + f + g + h == a + b + c + (d + e + f) + g + h
  {
  }

  /** A configuration wrapped as a list of one; its length too is cut to two octets. */
  function ConfigList(config: seq<byte>): seq<byte> {
    Spell16(|config|) + config
  }

  /**
   * What a server publishes is what a client reads, name and padding length,
   * just when the whole fits its two octets of length; past that the key and
   * the name are still accepted for publishing and every client refuses the
   * list.
   */
  lemma PublishedIsReadIff(publicName: seq<byte>, configId: byte, publicKey: seq<byte>)
    requires |publicName| <= MAXIMUM_PUBLIC_NAME && |publicKey| < U16_LIMIT
    ensures var record := Record(VERSION, Spell(Published(publicName, configId, publicKey)));
            var result := Parse(ConfigList(SpellRecord(record)));
            if 19 + |publicKey| + |publicName| < U16_LIMIT
            then result == Ok([Config(MAXIMUM_NAME_LENGTH, publicName)])
            else result == Err(LengthMismatch)
  {
    hide Contents, Configs, Spell16, FromBigEndian, Low;
    var layout := Published(publicName, configId, publicKey);
    var record := Record(VERSION, Spell(layout));
    var config := SpellRecord(record);
    var raw := ConfigList(config);
    assert |config| == 19 + |publicKey| + |publicName|;
    assert raw[0..2] == Spell16(|config|) && raw[2..] == config;
    if |config| < U16_LIMIT {
      Spelled16(|config|);
      SpelledIsRead(layout);
      SpelledRecordsAreRead([record], []);
      assert SpellRecords([record]) + [] == config by {
        assert [record][1..] == [];
      }
      assert Supported([record]) == [Config(MAXIMUM_NAME_LENGTH, publicName)];
    } else {
      Read16(raw[0..2]);
    }
  }
}
