/** What base64 decoding says of a text that is not an encoding, and the alphabet, symbol by symbol. */
module Base64Errors {
  import opened Wrappers
  import opened Octets
  import opened Base64

  // --- the alphabet

  /** A-Z, a-z, 0-9, '+' and '/'. */
  predicate InAlphabet(symbol: byte) {
    65 <= symbol <= 90 || 97 <= symbol <= 122 || 48 <= symbol <= 57 || symbol == 43 || symbol == 47
  }

  lemma InAlphabetIff(symbol: byte)
    ensures ValueOf(symbol) != INVALID <==> InAlphabet(symbol)
  {
  }

  /** The standard alphabet, in its order: capitals, small letters, digits, plus and slash. */
  lemma AlphabetIs(sextet: byte)
    requires sextet < 64
    ensures sextet < 26 ==> Symbol(sextet) == 65 + sextet
    ensures 26 <= sextet < 52 ==> Symbol(sextet) == 97 + (sextet - 26)
    ensures 52 <= sextet < 62 ==> Symbol(sextet) == 48 + (sextet - 52)
    ensures sextet == 62 ==> Symbol(sextet) == 43
    ensures sextet == 63 ==> Symbol(sextet) == 47
  {
  }

  // --- errors

  ghost predicate AllInAlphabet(text: seq<byte>) {
    forall i :: 0 <= i < |text| ==> InAlphabet(text[i])
  }

  /** The first symbol of a text that is outside the alphabet stands at a place. */
  ghost predicate FirstOutside(text: seq<byte>, at: nat) {
    at < |text| && !InAlphabet(text[at]) && AllInAlphabet(text[..at])
  }

  lemma {:induction false} FirstOutsideStops(group: seq<byte>, packed: bv32, at: nat)
    requires FirstOutside(group, at)
    ensures Sextets(group, packed) == Err(InvalidSymbol(group[at]))
  {
    hide Shifted, ValueOf, InAlphabet;
    InAlphabetIff(group[0]);
    if at > 0 {
      assert InAlphabet(group[0]) by { assert group[..at][0] == group[0]; }
      assert group[1..][..at - 1] == group[..at][1..];
      FirstOutsideStops(group[1..], Shifted(packed, ValueOf(group[0])), at - 1);
    }
  }

  lemma AllInAlphabetPacks(group: seq<byte>)
    requires AllInAlphabet(group)
    ensures Sextets(group, 0).Ok?
  {
    hide ValueOf, InAlphabet;
    SextetsOkIff(group, 0);
    forall i | 0 <= i < |group| ensures ValueOf(group[i]) != INVALID {
      InAlphabetIff(group[i]);
    }
  }

  /** Groups that are all in the alphabet do not change what the rest is refused for. */
  lemma {:induction false} FrontIsPassed(front: seq<byte>, rest: seq<byte>)
    requires |front| % 4 == 0 && AllInAlphabet(front) && |rest| >= 4 && |rest| % 4 == 0
    ensures DecodeGroups(rest).Err? ==> DecodeGroups(front + rest) == DecodeGroups(rest)
  {
    hide DecodeLast, Sextets, Unpack, InAlphabet;
    if front == [] {
      assert front + rest == rest;
    } else {
      FrontIsPassed(front[4..], rest);
      assert (front + rest)[..4] == front[..4] && (front + rest)[4..] == front[4..] + rest;
      AllInAlphabetPacks(front[..4]);
    }
  }

  /** A length that is no multiple of four is named. */
  lemma LengthIsNamed(text: seq<byte>)
    requires |text| % 4 != 0
    ensures Decode(text) == Err(InvalidLength(|text|))
  {
  }

  /**
   * In a group before the last: padding anywhere in it is what is refused, and
   * otherwise its first symbol outside the alphabet, by itself.
   */
  lemma BodyErrorIs(front: seq<byte>, group: seq<byte>, rest: seq<byte>, at: nat)
    requires |front| % 4 == 0 && AllInAlphabet(front)
    requires |group| == 4 && FirstOutside(group, at) && rest != [] && |rest| % 4 == 0
    ensures Decode(front + group + rest) == Err(if PAD in group then InvalidPadding else InvalidSymbol(group[at]))
  {
    hide DecodeLast, Sextets, InAlphabet, FirstOutside;
    FirstOutsideStops(group, 0, at);
    var tail := group + rest;
    assert front + group + rest == front + tail;
    assert tail[..4] == group && tail[4..] == rest;
    FrontIsPassed(front, tail);
  }

  /** Padding at the end of a group, and how much of it. */
  ghost predicate Padded(last: seq<byte>, padding: nat) {
    && |last| == 4 && padding <= 4
    && forall i :: 0 <= i < 4 ==> (last[i] == PAD <==> i >= 4 - padding)
  }

  /** In the last group, padding that is not at its end, or is more than two, is refused as padding. */
  lemma MisplacedPaddingIs(front: seq<byte>, last: seq<byte>)
    requires |front| % 4 == 0 && AllInAlphabet(front) && |last| == 4
    requires !Padded(last, 0) && !Padded(last, 1) && !Padded(last, 2)
    ensures Decode(front + last) == Err(InvalidPadding)
  {
    hide Sextets, InAlphabet;
    PaddingCounts(last[0], last[1], last[2], last[3]);
    assert last == [last[0], last[1], last[2], last[3]];
    Misplaced(last);
    FrontIsPassed(front, last);
  }

  lemma Misplaced(last: seq<byte>)
    requires |last| == 4 && !Padded(last, 0) && !Padded(last, 1) && !Padded(last, 2)
    ensures Padding(last) > 2 || PAD in last[..4 - Padding(last)]
  {
    PaddingCounts(last[0], last[1], last[2], last[3]);
    assert last == [last[0], last[1], last[2], last[3]];
  }

  lemma PaddedCounts(last: seq<byte>, padding: nat)
    requires Padded(last, padding)
    ensures Padding(last) == padding && PAD !in last[..4 - padding]
  {
    PaddingCounts(last[0], last[1], last[2], last[3]);
    assert last == [last[0], last[1], last[2], last[3]];
  }

  /** In front of its padding, the last group's first symbol outside the alphabet is named. */
  lemma LastErrorIs(front: seq<byte>, last: seq<byte>, padding: nat, at: nat)
    requires |front| % 4 == 0 && AllInAlphabet(front) && Padded(last, padding) && padding <= 2
    requires FirstOutside(last[..4 - padding], at)
    ensures Decode(front + last) == Err(InvalidSymbol(last[at]))
  {
    assert |last| == 4 && at < 4 - padding;
    hide Sextets, InAlphabet, FirstOutside, Padding, Padded;
    PaddedCounts(last, padding);
    FirstOutsideStops(last[..4 - padding], 0, at);
    FrontIsPassed(front, last);
  }

  /** Bits that padding displaces are refused unless they are zero, and then the text is read. */
  lemma DisplacedBitsAre(s0: byte, s1: byte, s2: byte)
    requires InAlphabet(s0) && InAlphabet(s1) && InAlphabet(s2)
    ensures DecodeLast([s0, s1, s2, PAD]) == Err(InvalidPadding) <==> ValueOf(s2) & 3 != 0
    ensures DecodeLast([s0, s1, PAD, PAD]) == Err(InvalidPadding) <==> ValueOf(s1) & 15 != 0
  {
    hide Sextets, DecodeLast, ValueOf, InAlphabet, Unpack;
    InAlphabetIff(s0);
    InAlphabetIff(s1);
    InAlphabetIff(s2);
    PadIsOutside();
    LastPaddedOnce(s0, s1, s2);
    LastPaddedTwice(s0, s1);
    ValueThenSymbol(s0);
    ValueThenSymbol(s1);
    ValueThenSymbol(s2);
    DisplacedOnce(ValueOf(s0), ValueOf(s1), ValueOf(s2));
    DisplacedTwice(ValueOf(s0), ValueOf(s1));
  }

  lemma PadIsOutside()
    ensures !InAlphabet(PAD)
  {
  }

  lemma DisplacedOnce(v0: byte, v1: byte, v2: byte)
    requires v0 < 64 && v1 < 64 && v2 < 64
    ensures Displaced(Pack4(v0, v1, v2, 0), 1) != 0 <==> v2 & 3 != 0
  {
  }

  lemma DisplacedTwice(v0: byte, v1: byte)
    requires v0 < 64 && v1 < 64
    ensures Displaced(Pack4(v0, v1, 0, 0), 2) != 0 <==> v1 & 15 != 0
  {
  }
}
