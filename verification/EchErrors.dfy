/** Why a list of Encrypted Client Hello configurations is refused, said of its octets and its records. */
module EchErrors {
  import opened Wrappers
  import opened Octets
  import opened Ech

  /** The number two octets spell, or none when they are not both there. */
  function Pair(raw: seq<byte>, at: nat): Option<nat> {
    if at + 2 <= |raw| then Some(256 * raw[at] as nat + raw[at + 1] as nat) else None
  }

  lemma PairIsU16(raw: seq<byte>, at: nat)
    requires at + 2 <= |raw|
    ensures Pair(raw, at) == Some(U16(raw, at))
  {
    var two := raw[at..at + 2];
    assert two[..1] == [raw[at]] && two[..1][..0] == [];
    assert FromBigEndian(two[..1]) == raw[at] as nat;
  }

  /**
   * Contents with these lengths: how many octets each part needs in front of
   * it decides what is missing, and nothing is when they are all there.
   */
  lemma ContentsErrorIs(raw: seq<byte>, key: nat, ciphers: nat, name: nat)
    requires |raw| >= 5 ==> Pair(raw, 3) == Some(key)
    requires |raw| >= 7 + key ==> Pair(raw, 5 + key) == Some(ciphers)
    requires |raw| >= 9 + key + ciphers ==> raw[8 + key + ciphers] as nat == name
    ensures Contents(raw) == Err(ConfigTooShort) <==> |raw| < 5
    ensures Contents(raw) == Err(InsideCipherSuites) <==> 5 <= |raw| < 7 + key
    ensures Contents(raw) == Err(NoMaximumNameLength) <==> 7 + key <= |raw| <= 7 + key + ciphers
    ensures Contents(raw) == Err(NoPublicName) <==> |raw| == 8 + key + ciphers
    ensures Contents(raw) == Err(NamePastConfig) <==> 9 + key + ciphers <= |raw| < 9 + key + ciphers + name
    ensures Contents(raw).Ok? <==> |raw| >= 9 + key + ciphers + name
  {
    hide Pair, U16, Contents;
    if |raw| >= 5 {
      PairIsU16(raw, 3);
      if |raw| >= 7 + key {
        PairIsU16(raw, 5 + key);
      }
    }
    ContentsErrorBy(raw, key, ciphers, name);
  }

  lemma ContentsErrorBy(raw: seq<byte>, key: nat, ciphers: nat, name: nat)
    requires |raw| >= 5 ==> U16(raw, 3) == key
    requires |raw| >= 7 + key ==> |raw| >= 5 && U16(raw, 5 + key) == ciphers
    requires |raw| >= 9 + key + ciphers ==> raw[8 + key + ciphers] as nat == name
    ensures Contents(raw) == Err(ConfigTooShort) <==> |raw| < 5
    ensures Contents(raw) == Err(InsideCipherSuites) <==> 5 <= |raw| < 7 + key
    ensures Contents(raw) == Err(NoMaximumNameLength) <==> 7 + key <= |raw| <= 7 + key + ciphers
    ensures Contents(raw) == Err(NoPublicName) <==> |raw| == 8 + key + ciphers
    ensures Contents(raw) == Err(NamePastConfig) <==> 9 + key + ciphers <= |raw| < 9 + key + ciphers + name
    ensures Contents(raw).Ok? <==> |raw| >= 9 + key + ciphers + name
  {
    hide U16;
  }

  // --- lists

  /** Records that can be read do not change what the rest is refused for. */
  lemma {:induction false} FrontIsPassed(records: seq<Record>, rest: seq<byte>)
    requires forall i :: 0 <= i < |records| ==> Readable(records[i])
    requires Configs(rest).Err?
    ensures Configs(SpellRecords(records) + rest) == Configs(rest)
  {
    hide Contents, U16, SpellRecord;
    if records == [] {
      assert SpellRecords(records) + rest == rest;
    } else {
      var behind := SpellRecords(records[1..]) + rest;
      assert SpellRecords(records) + rest == SpellRecord(records[0]) + behind;
      FirstRecord(records[0], behind);
      FrontIsPassed(records[1..], rest);
    }
  }

  /** A list is refused for its length before anything in it is looked at. */
  lemma LengthErrorIs(raw: seq<byte>)
    ensures Parse(raw) == Err(ListTooShort) <==> |raw| < 2
    ensures Parse(raw) == Err(LengthMismatch) <==> |raw| >= 2 && Pair(raw, 0) != Some(|raw| - 2)
  {
    hide U16, Configs;
    if |raw| >= 2 {
      PairIsU16(raw, 0);
      ConfigsError(raw[2..]);
    }
  }

  lemma {:induction false} ConfigsError(body: seq<byte>)
    ensures Configs(body) != Err(ListTooShort) && Configs(body) != Err(LengthMismatch)
    decreases |body|
  {
    hide U16;
    if |body| >= 4 {
      var size := U16(body, 2);
      if 4 + size <= |body| {
        ConfigsError(body[4 + size..]);
      }
    }
  }

  function List(body: seq<byte>): seq<byte> {
    Spell16(|body|) + body
  }

  lemma ListIsBody(body: seq<byte>)
    requires |body| < U16_LIMIT
    ensures Parse(List(body)) == match Configs(body)
                                 case Err(error) => Err(error)
                                 case Ok(configs) => if configs == [] then Err(NoneSupported) else Ok(configs)
  {
    hide Spell16, FromBigEndian, Configs;
    var raw := List(body);
    assert raw[0..2] == Spell16(|body|) && raw[2..] == body;
    Spelled16(|body|);
  }

  /** The first record of the version read whose contents cannot be is what the list is refused for. */
  lemma BadRecordIs(records: seq<Record>, contents: seq<byte>, rest: seq<byte>)
    requires forall i :: 0 <= i < |records| ==> Readable(records[i])
    requires Contents(contents).Err?
    requires |SpellRecords(records) + (SpellRecord(Record(VERSION, contents)) + rest)| < U16_LIMIT
    ensures Parse(List(SpellRecords(records) + (SpellRecord(Record(VERSION, contents)) + rest)))
            == Err(Contents(contents).error)
  {
    hide Contents, U16, Spell16, SpellRecords;
    var record := Record(VERSION, contents);
    assert |SpellRecord(record)| == 4 + |contents|;
    FirstRecord(record, rest);
    FrontIsPassed(records, SpellRecord(record) + rest);
    ListIsBody(SpellRecords(records) + (SpellRecord(record) + rest));
  }

  /** A record longer than what is left of the list is refused, of whatever version it is. */
  lemma PastTheListIs(records: seq<Record>, rest: seq<byte>)
    requires forall i :: 0 <= i < |records| ==> Readable(records[i])
    requires |rest| >= 4 && Pair(rest, 2).value > |rest| - 4
    requires |SpellRecords(records) + rest| < U16_LIMIT
    ensures Parse(List(SpellRecords(records) + rest)) == Err(PastTheList)
  {
    hide Contents, U16, Spell16, SpellRecords;
    PairIsU16(rest, 2);
    FrontIsPassed(records, rest);
    ListIsBody(SpellRecords(records) + rest);
  }

  /** Whole records none of which is of the version read leave nothing. */
  lemma NoneSupportedIs(records: seq<Record>, tail: seq<byte>)
    requires forall i :: 0 <= i < |records| ==> Readable(records[i]) && records[i].version != 0xfe0d
    requires |tail| < 4 && |SpellRecords(records) + tail| < U16_LIMIT
    ensures Parse(List(SpellRecords(records) + tail)) == Err(NoneSupported)
  {
    hide Contents, Spell16, SpellRecords, Readable;
    SpelledRecordsAreRead(records, tail);
    OthersSupportNothing(records);
    ListIsBody(SpellRecords(records) + tail);
  }

  lemma {:induction false} OthersSupportNothing(records: seq<Record>)
    requires forall i :: 0 <= i < |records| ==> Readable(records[i]) && records[i].version != VERSION
    ensures Supported(records) == []
  {
    hide Contents;
    if records != [] {
      OthersSupportNothing(records[1..]);
    }
  }
}
