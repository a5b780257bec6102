/** Octets, and the big-endian integers the wire formats write with them. */
module Octets {

  type byte = bv8

  ghost function Pow256(width: nat): nat {
    if width == 0 then 1 else 256 * Pow256(width - 1)
  }

  /** The unsigned integer a run of octets spells, most significant first. */
  function FromBigEndian(octets: seq<byte>): nat {
    if octets == [] then 0
    else 256 * FromBigEndian(octets[..|octets| - 1]) + octets[|octets| - 1] as nat
  }

  // Conversions between bit vectors and integers are settled here, one at a
  // time, so that no proof elsewhere has to reason about both.

  lemma NextOctet(octet: byte)
    requires octet < 255
    ensures (octet + 1) as int == octet as int + 1
  {
  }

  lemma {:induction false} SomeOctet(value: int) returns (octet: byte)
    requires 0 <= value < 256
    ensures octet as int == value
  {
    if value == 0 {
      octet := 0;
    } else {
      octet := SomeOctet(value - 1);
      NextOctet(octet);
      octet := octet + 1;
    }
  }

  lemma WideExact(octet: byte)
    ensures (octet as int) as byte == octet
  {
  }

  lemma NarrowExact(value: int)
    requires 0 <= value < 256
    ensures (value as byte) as int == value
  {
    var octet := SomeOctet(value);
    WideExact(octet);
  }

  lemma WideInjective(x: byte, y: byte)
    requires x as nat == y as nat
    ensures x == y
  {
  }

  lemma WideMonotone(x: byte, y: byte)
    ensures x < y <==> x as nat < y as nat
  {
  }

  lemma WideBound(octet: byte)
    ensures octet as nat < 256
  {
  }

  function Narrow(value: nat): (octet: byte)
    requires value < 256
    ensures octet as nat == value
  {
    NarrowExact(value);
    value as byte
  }

  /** The least significant octet of an integer, as a truncating cast leaves it. */
  function Low(value: nat): (octet: byte)
    ensures octet as nat == value % 256
  {
    Narrow(value % 256)
  }

  lemma LowOf(octet: byte, value: nat)
    requires octet as nat == value
    ensures Low(value) == octet
  {
    hide *;
    WideBound(octet);
    SmallRemainder(value);
    WideInjective(octet, Low(value));
  }

  lemma SmallRemainder(value: nat)
    requires value < 256
    ensures value % 256 == value
  {
  }

  /** The low `width` octets of `value`, most significant first. */
  function ToBigEndian(value: nat, width: nat): (octets: seq<byte>)
    ensures |octets| == width
  {
    if width == 0 then []
    else ToBigEndian(value / 256, width - 1) + [Low(value)]
  }

  lemma {:induction false} FromBigEndianBound(octets: seq<byte>)
    ensures FromBigEndian(octets) < Pow256(|octets|)
  {
    if octets != [] {
      FromBigEndianBound(octets[..|octets| - 1]);
    }
  }

  /** Writing an integer that fits and reading it back gives the integer. */
  lemma {:induction false} BigEndianRoundTrip(value: nat, width: nat)
    requires value < Pow256(width)
    ensures FromBigEndian(ToBigEndian(value, width)) == value
  {
    if width > 0 {
      var octets := ToBigEndian(value, width);
      assert octets[..width - 1] == ToBigEndian(value / 256, width - 1);
      assert value / 256 < Pow256(width - 1);
      BigEndianRoundTrip(value / 256, width - 1);
      assert octets[width - 1] as nat == value % 256;
    }
  }

  /** Reading octets and writing the integer back gives the octets. */
  lemma {:induction false} BigEndianUnique(octets: seq<byte>)
    ensures ToBigEndian(FromBigEndian(octets), |octets|) == octets
  {
    if octets != [] {
      var front := octets[..|octets| - 1];
      BigEndianUnique(front);
      assert octets == front + [octets[|octets| - 1]];
      assert FromBigEndian(octets) / 256 == FromBigEndian(front);
      assert FromBigEndian(octets) % 256 == octets[|octets| - 1] as nat;
    }
  }

  lemma Pow256Values()
    ensures Pow256(1) == 0x100
    ensures Pow256(2) == 0x1_0000
    ensures Pow256(8) == 0x1_0000_0000_0000_0000
  {
    assert Pow256(3) == 0x100_0000;
    assert Pow256(5) == 0x100_0000_0000;
  }
}
