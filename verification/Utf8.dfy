/** Well-formed UTF-8, and where its characters begin. */
module Utf8 {
  import opened Octets

  predicate IsTail(octet: byte) {
    0x80 <= octet <= 0xbf
  }

  /** The octets the character at the front takes, or zero when there is no well-formed one. */
  function Width(text: seq<byte>): (width: nat)
    ensures width <= 4 && width <= |text|
  {
    if |text| >= 1 && text[0] <= 0x7f then 1
    else if |text| >= 2 && 0xc2 <= text[0] <= 0xdf && IsTail(text[1]) then 2
    else if |text| >= 3 && TripleLead(text[0], text[1]) && IsTail(text[2]) then 3
    else if |text| >= 4 && QuadrupleLead(text[0], text[1]) && IsTail(text[2]) && IsTail(text[3]) then 4
    else 0
  }

  predicate TripleLead(first: byte, second: byte) {
    || (first == 0xe0 && 0xa0 <= second <= 0xbf)
    || (0xe1 <= first <= 0xec && 0x80 <= second <= 0xbf)
    || (first == 0xed && 0x80 <= second <= 0x9f)
    || (0xee <= first <= 0xef && 0x80 <= second <= 0xbf)
  }

  predicate QuadrupleLead(first: byte, second: byte) {
    || (first == 0xf0 && 0x90 <= second <= 0xbf)
    || (0xf1 <= first <= 0xf3 && 0x80 <= second <= 0xbf)
    || (first == 0xf4 && 0x80 <= second <= 0x8f)
  }

  predicate ValidUtf8(text: seq<byte>) {
    text == [] || (Width(text) > 0 && ValidUtf8(text[Width(text)..]))
  }

  /** Whether a cut at `at` falls between octets of different characters. */
  predicate IsBoundary(text: seq<byte>, at: nat) {
    at == 0 || at == |text| || (at < |text| && !IsTail(text[at]))
  }

  lemma WidthShape(text: seq<byte>)
    requires Width(text) > 0
    ensures !IsTail(text[0])
    ensures forall i :: 0 < i < Width(text) ==> IsTail(text[i])
  {
  }

  lemma WidthOfPrefix(text: seq<byte>, cut: nat)
    requires 0 < Width(text) <= cut <= |text|
    ensures Width(text[..cut]) == Width(text)
  {
  }

  lemma WidthOfExtension(text: seq<byte>, cut: nat)
    requires cut <= |text| && Width(text[..cut]) > 0
    ensures Width(text) == Width(text[..cut])
  {
  }

  /** Of valid text, the valid prefixes are exactly those cut on a character boundary. */
  lemma {:induction false} BoundaryIffValidPrefix(text: seq<byte>, cut: nat)
    requires ValidUtf8(text) && cut <= |text|
    ensures IsBoundary(text, cut) <==> ValidUtf8(text[..cut])
  {
    if 0 < cut && text != [] {
      hide Width, IsTail;
      var width := Width(text);
      WidthShape(text);
      if width <= cut {
        WidthOfPrefix(text, cut);
        BoundaryIffValidPrefix(text[width..], cut - width);
        assert text[..cut][width..] == text[width..][..cut - width];
        if width == cut && cut < |text| {
          WidthShape(text[width..]);
        }
      } else if Width(text[..cut]) > 0 {
        WidthOfExtension(text, cut);
      }
    }
  }

  /** A character boundary is never more than three octets back. */
  lemma {:induction false} BoundaryNearby(text: seq<byte>, at: nat) returns (start: nat)
    requires ValidUtf8(text) && at <= |text|
    ensures start <= at <= start + 3 && IsBoundary(text, start)
  {
    var width := Width(text);
    if text == [] {
      start := at;
    } else if at < width {
      start := 0;
    } else {
      var inner := BoundaryNearby(text[width..], at - width);
      start := width + inner;
      if start < |text| {
        assert text[start] == text[width..][inner];
        WidthShape(text[width..]);
      }
    }
  }
}
