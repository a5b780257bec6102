/** UTF-8 as the encoding of Unicode scalar values, section 3 of RFC 3629. */
module Utf8Scalars {
  import opened Octets
  import opened Utf8

  /** Every code point but the surrogates. */
  predicate IsScalar(value: nat) {
    value < 0xd800 || 0xe000 <= value < 0x11_0000
  }

  /** The numbers of the octets a scalar value is encoded in, six bits to each but the first. */
  function Numbers(value: nat): (numbers: seq<nat>)
    requires IsScalar(value)
    ensures 1 <= |numbers| <= 4 && forall i :: 0 <= i < |numbers| ==> numbers[i] < 256
  {
    if value < 0x80 then [value]
    else if value < 0x800 then [0xc0 + value / 64, 0x80 + value % 64]
    else if value < 0x1_0000 then [0xe0 + value / 4096, 0x80 + value / 64 % 64, 0x80 + value % 64]
    else [0xf0 + value / 262144, 0x80 + value / 4096 % 64, 0x80 + value / 64 % 64, 0x80 + value % 64]
  }

  function OctetsOf(numbers: seq<nat>): (octets: seq<byte>)
    ensures |octets| == |numbers|
  {
    seq(|numbers|, i requires 0 <= i < |numbers| => Low(numbers[i]))
  }

  ghost predicate AllScalars(values: seq<nat>) {
    forall i :: 0 <= i < |values| ==> IsScalar(values[i])
  }

  function Encoded(values: seq<nat>): seq<byte>
    requires AllScalars(values)
  {
    if values == [] then [] else OctetsOf(Numbers(values[0])) + Encoded(values[1..])
  }

  // --- the bounds on octets, as bounds on their numbers

  lemma Bounds(octet: byte)
    ensures octet <= 0x7f <==> octet as nat < 0x80
    ensures IsTail(octet) <==> 0x80 <= octet as nat < 0xc0
    ensures 0xc2 <= octet <= 0xdf <==> 0xc2 <= octet as nat < 0xe0
  {
    WideMonotone(0x7f, octet);
    WideMonotone(octet, 0x80);
    WideMonotone(0xbf, octet);
    WideMonotone(octet, 0xc2);
    WideMonotone(0xdf, octet);
  }

  /** The first two octets of three, by their numbers: not too small a value, and no surrogate. */
  predicate TripleNumbers(first: nat, second: nat) {
    && 0xe0 <= first < 0xf0 && 0x80 <= second < 0xc0
    && (first == 0xe0 ==> second >= 0xa0) && (first == 0xed ==> second < 0xa0)
  }

  /** Of four: not too small a value, and none past the last. */
  predicate QuadrupleNumbers(first: nat, second: nat) {
    && 0xf0 <= first < 0xf5 && 0x80 <= second < 0xc0
    && (first == 0xf0 ==> second >= 0x90) && (first == 0xf4 ==> second < 0x90)
  }

  lemma Same(octet: byte, other: byte)
    ensures octet == other <==> octet as nat == other as nat
  {
    if octet as nat == other as nat {
      WideInjective(octet, other);
    }
  }

  lemma TripleBounds(first: byte, second: byte)
    ensures TripleLead(first, second) <==> TripleNumbers(first as nat, second as nat)
  {
    Same(first, 0xe0);
    Same(first, 0xed);
    WideMonotone(first, 0xe1);
    WideMonotone(0xec, first);
    WideMonotone(first, 0xee);
    WideMonotone(0xef, first);
    WideMonotone(second, 0x80);
    WideMonotone(0xbf, second);
    WideMonotone(second, 0xa0);
    WideMonotone(0x9f, second);
  }

  lemma QuadrupleBounds(first: byte, second: byte)
    ensures QuadrupleLead(first, second) <==> QuadrupleNumbers(first as nat, second as nat)
  {
    Same(first, 0xf0);
    Same(first, 0xf4);
    WideMonotone(first, 0xf1);
    WideMonotone(0xf3, first);
    WideMonotone(second, 0x80);
    WideMonotone(0xbf, second);
    WideMonotone(second, 0x90);
    WideMonotone(0x8f, second);
  }

  /** How many octets the character in front takes, by their numbers. */
  function WidthBy(numbers: seq<nat>): nat {
    if |numbers| >= 1 && numbers[0] < 0x80 then 1
    else if |numbers| >= 2 && 0xc2 <= numbers[0] < 0xe0 && 0x80 <= numbers[1] < 0xc0 then 2
    else if |numbers| >= 3 && TripleNumbers(numbers[0], numbers[1]) && 0x80 <= numbers[2] < 0xc0 then 3
    else if |numbers| >= 4 && QuadrupleNumbers(numbers[0], numbers[1])
            && 0x80 <= numbers[2] < 0xc0 && 0x80 <= numbers[3] < 0xc0 then 4
    else 0
  }

  function NumbersOf(octets: seq<byte>): (numbers: seq<nat>)
    ensures |numbers| == |octets| && forall i :: 0 <= i < |numbers| ==> numbers[i] == octets[i] as nat
  {
    seq(|octets|, i requires 0 <= i < |octets| => octets[i] as nat)
  }

  lemma WidthIs(text: seq<byte>)
    ensures Width(text) == WidthBy(NumbersOf(text))
  {
    hide IsTail, TripleLead, QuadrupleLead, TripleNumbers, QuadrupleNumbers;
    if |text| >= 1 {
      Bounds(text[0]);
    }
    if |text| >= 2 {
      Bounds(text[1]);
      TripleBounds(text[0], text[1]);
      QuadrupleBounds(text[0], text[1]);
    }
    if |text| >= 3 {
      Bounds(text[2]);
    }
    if |text| >= 4 {
      Bounds(text[3]);
    }
  }

  // --- a scalar value's octets are one character

  lemma NumbersAreWide(value: nat, rest: seq<nat>)
    requires IsScalar(value)
    ensures WidthBy(Numbers(value) + rest) == |Numbers(value)|
  {
    var numbers := Numbers(value);
    if value >= 0x1_0000 {
      FourAreQuadruple(value);
    } else if value >= 0x800 {
      ThreeAreTriple(value);
    }
    hide TripleNumbers, QuadrupleNumbers;
    assert forall i | 0 <= i < |numbers| :: (numbers + rest)[i] == numbers[i];
    assert |numbers| > 1 ==> numbers[0] >= 0x80;
  }

  lemma ThreeAreTriple(value: nat)
    requires IsScalar(value) && 0x800 <= value < 0x1_0000
    ensures TripleNumbers(0xe0 + value / 4096, 0x80 + value / 64 % 64)
  {
  }

  lemma FourAreQuadruple(value: nat)
    requires IsScalar(value) && 0x1_0000 <= value
    ensures QuadrupleNumbers(0xf0 + value / 262144, 0x80 + value / 4096 % 64)
    ensures !TripleNumbers(0xf0 + value / 262144, 0x80 + value / 4096 % 64)
  {
  }

  lemma EncodedIsWide(value: nat, rest: seq<byte>)
    requires IsScalar(value)
    ensures Width(OctetsOf(Numbers(value)) + rest) == |Numbers(value)|
  {
    hide Numbers, WidthBy, Width, OctetsOf, NumbersOf;
    WidthIs(OctetsOf(Numbers(value)) + rest);
    NumbersAreWide(value, NumbersOf(rest));
    NumbersBack(Numbers(value), rest);
  }

  lemma NumbersBack(numbers: seq<nat>, rest: seq<byte>)
    requires forall i :: 0 <= i < |numbers| ==> numbers[i] < 256
    ensures NumbersOf(OctetsOf(numbers) + rest) == numbers + NumbersOf(rest)
  {
    forall i | 0 <= i < |numbers| ensures OctetsOf(numbers)[i] as nat == numbers[i] {
      SmallRemainder(numbers[i]);
    }
  }

  // --- and one character is a scalar value's octets

  lemma ScalarOf(numbers: seq<nat>) returns (value: nat)
    requires WidthBy(numbers) > 0
    ensures IsScalar(value) && Numbers(value) == numbers[..WidthBy(numbers)]
  {
    var a, width := numbers[0], WidthBy(numbers);
    if a < 0x80 {
      value := a;
    } else {
      var b := numbers[1];
      if width == 2 {
        value := TwoNumbers(a, b);
      } else {
        var c := numbers[2];
        if width == 3 {
          value := ThreeNumbers(a, b, c);
        } else {
          value := FourNumbers(a, b, c, numbers[3]);
        }
      }
    }
  }

  lemma TwoNumbers(a: nat, b: nat) returns (value: nat)
    requires 0xc2 <= a < 0xe0 && 0x80 <= b < 0xc0
    ensures IsScalar(value) && Numbers(value) == [a, b]
  {
    value := 64 * (a - 0xc0) + (b - 0x80);
  }

  lemma ThreeNumbers(a: nat, b: nat, c: nat) returns (value: nat)
    requires TripleNumbers(a, b) && 0x80 <= c < 0xc0
    ensures IsScalar(value) && Numbers(value) == [a, b, c]
  {
    value := 4096 * (a - 0xe0) + 64 * (b - 0x80) + (c - 0x80);
    ThreeDigits(a - 0xe0, b - 0x80, c - 0x80);
  }

  lemma FourNumbers(a: nat, b: nat, c: nat, d: nat) returns (value: nat)
    requires QuadrupleNumbers(a, b) && 0x80 <= c < 0xc0 && 0x80 <= d < 0xc0
    ensures IsScalar(value) && Numbers(value) == [a, b, c, d]
  {
    value := 262144 * (a - 0xf0) + 4096 * (b - 0x80) + 64 * (c - 0x80) + (d - 0x80);
    FourDigits(a - 0xf0, b - 0x80, c - 0x80, d - 0x80);
  }

  lemma ThreeDigits(a: nat, b: nat, c: nat)
    requires b < 64 && c < 64
    ensures var value := 4096 * a + 64 * b + c;
            value / 4096 == a && value / 64 % 64 == b && value % 64 == c
  {
    var value := 4096 * a + 64 * b + c;
    assert value == 64 * (64 * a + b) + c;
    assert value / 64 == 64 * a + b;
  }

  lemma FourDigits(a: nat, b: nat, c: nat, d: nat)
    requires b < 64 && c < 64 && d < 64
    ensures var value := 262144 * a + 4096 * b + 64 * c + d;
            value / 262144 == a && value / 4096 % 64 == b && value / 64 % 64 == c && value % 64 == d
  {
    var value := 262144 * a + 4096 * b + 64 * c + d;
    assert value == 64 * (4096 * a + 64 * b + c) + d;
    assert value / 64 == 4096 * a + 64 * b + c;
    ThreeDigits(a, b, c);
    assert value == 4096 * (64 * a + b) + (64 * c + d);
    assert value / 4096 == 64 * a + b;
  }

  lemma OctetsBack(text: seq<byte>, width: nat)
    requires width <= |text|
    ensures OctetsOf(NumbersOf(text)[..width]) == text[..width]
  {
    forall i | 0 <= i < width ensures OctetsOf(NumbersOf(text)[..width])[i] == text[i] {
      LowOf(text[i], NumbersOf(text)[i]);
    }
  }

  /** Every run of scalar values is encoded in well-formed octets. */
  lemma {:induction false} EncodedIsValid(values: seq<nat>)
    requires AllScalars(values)
    ensures ValidUtf8(Encoded(values))
  {
    hide Width, Numbers, OctetsOf;
    if values != [] {
      EncodedIsValid(values[1..]);
      EncodedIsWide(values[0], Encoded(values[1..]));
      var octets := OctetsOf(Numbers(values[0]));
      assert (octets + Encoded(values[1..]))[|octets|..] == Encoded(values[1..]);
    }
  }

  lemma {:induction false} ValidIsEncoded(text: seq<byte>) returns (values: seq<nat>)
    requires ValidUtf8(text)
    ensures AllScalars(values) && Encoded(values) == text
  {
    hide Width, Numbers, OctetsOf, IsScalar, WidthBy;
    if text == [] {
      values := [];
    } else {
      var width := Width(text);
      var rest := ValidIsEncoded(text[width..]);
      WidthIs(text);
      var first := ScalarOf(NumbersOf(text));
      OctetsBack(text, width);
      values := [first] + rest;
      assert values[1..] == rest && text == text[..width] + text[width..];
    }
  }

  /** Octets are well-formed exactly when they encode Unicode scalar values. */
  lemma ValidIff(text: seq<byte>)
    ensures ValidUtf8(text) <==> exists values :: AllScalars(values) && Encoded(values) == text
  {
    hide ValidUtf8, Encoded, AllScalars;
    if ValidUtf8(text) {
      var values := ValidIsEncoded(text);
    }
    if values :| AllScalars(values) && Encoded(values) == text {
      EncodedIsValid(values);
    }
  }
}
