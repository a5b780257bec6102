/** The masking of payloads, section 5.3 of RFC 6455. */
module Masking {
  import opened Octets

  function Xor(a: byte, b: byte): byte {
    a ^ b
  }

  function XorWord(a: bv64, b: bv64): bv64 {
    a ^ b
  }

  datatype Mask = Mask(a: byte, b: byte, c: byte, d: byte) {

    function Octets(): (octets: seq<byte>) {
      [a, b, c, d]
    }

    /** The key repeated to the width of a 64-bit word. */
    function Word(): (octets: seq<byte>)
      ensures |octets| == 8
    {
      [a, b, c, d, a, b, c, d]
    }

    function At(i: nat): byte {
      if i % 4 == 0 then a else if i % 4 == 1 then b else if i % 4 == 2 then c else d
    }
  }

  /** Section 5.3: octet i is combined with octet i mod 4 of the key. */
  function Masked(mask: Mask, payload: seq<byte>): (masked: seq<byte>)
    ensures |masked| == |payload|
  {
    seq(|payload|, i requires 0 <= i < |payload| => Xor(payload[i], mask.At(i)))
  }

  lemma MaskedAt(mask: Mask, payload: seq<byte>, i: nat)
    requires i < |payload|
    ensures Masked(mask, payload)[i] == Xor(payload[i], mask.At(i))
  {
    hide Xor, Mask.At;
  }

  /** Applying a key a second time removes it. */
  lemma MaskedTwice(mask: Mask, payload: seq<byte>)
    ensures Masked(mask, Masked(mask, payload)) == payload
  {
    forall i | 0 <= i < |payload|
      ensures Masked(mask, Masked(mask, payload))[i] == payload[i]
    {
      var p, k := payload[i], mask.At(i);
      assert (p ^ k) ^ k == p;
    }
  }

  /** The machine's own reading of eight octets, for either byte order. */
  function FromNative(little: bool, chunk: seq<byte>): bv64
    requires |chunk| == 8
  {
    if little then JoinOctets(chunk[7], chunk[6], chunk[5], chunk[4], chunk[3], chunk[2], chunk[1], chunk[0])
    else JoinOctets(chunk[0], chunk[1], chunk[2], chunk[3], chunk[4], chunk[5], chunk[6], chunk[7])
  }

  function JoinOctets(h: byte, g: byte, f: byte, e: byte, d: byte, c: byte, b: byte, a: byte): bv64 {
    ((h as bv64) << 56) | ((g as bv64) << 48) | ((f as bv64) << 40) | ((e as bv64) << 32)
    | ((d as bv64) << 24) | ((c as bv64) << 16) | ((b as bv64) << 8) | (a as bv64)
  }

  /** Octet `k` of a word, counted from the least significant. */
  function Lane(word: bv64, k: nat): byte
    requires k < 8
  {
    match k
    case 0 => (word & 0xff) as byte
    case 1 => ((word >> 8) & 0xff) as byte
    case 2 => ((word >> 16) & 0xff) as byte
    case 3 => ((word >> 24) & 0xff) as byte
    case 4 => ((word >> 32) & 0xff) as byte
    case 5 => ((word >> 40) & 0xff) as byte
    case 6 => ((word >> 48) & 0xff) as byte
    case _ => ((word >> 56) & 0xff) as byte
  }

  function ToNative(little: bool, word: bv64): (chunk: seq<byte>)
    ensures |chunk| == 8
  {
    var lanes := [Lane(word, 0), Lane(word, 1), Lane(word, 2), Lane(word, 3),
                  Lane(word, 4), Lane(word, 5), Lane(word, 6), Lane(word, 7)];
    if little then lanes
    else [lanes[7], lanes[6], lanes[5], lanes[4], lanes[3], lanes[2], lanes[1], lanes[0]]
  }

  lemma LaneOfXor(word: bv64, key: bv64, k: nat)
    requires k < 8
    ensures Lane(XorWord(word, key), k) == Xor(Lane(word, k), Lane(key, k))
  {
    match k
    case 0 =>
    case 1 =>
    case 2 =>
    case 3 =>
    case 4 =>
    case 5 =>
    case 6 =>
    case _ =>
  }

  lemma LanesOfJoinOctets(h: byte, g: byte, f: byte, e: byte, d: byte, c: byte, b: byte, a: byte)
    ensures var word := JoinOctets(h, g, f, e, d, c, b, a);
            && Lane(word, 0) == a && Lane(word, 1) == b && Lane(word, 2) == c && Lane(word, 3) == d
            && Lane(word, 4) == e && Lane(word, 5) == f && Lane(word, 6) == g && Lane(word, 7) == h
  {
  }

  /** Writing out a word that was read gives the octets back, in either byte order. */
  lemma NativeRoundTrip(little: bool, chunk: seq<byte>)
    requires |chunk| == 8
    ensures ToNative(little, FromNative(little, chunk)) == chunk
  {
    hide Lane, JoinOctets;
    var c := chunk;
    if little {
      LanesOfJoinOctets(c[7], c[6], c[5], c[4], c[3], c[2], c[1], c[0]);
    } else {
      LanesOfJoinOctets(c[0], c[1], c[2], c[3], c[4], c[5], c[6], c[7]);
    }
  }

  lemma NativeAt(little: bool, word: bv64, k: nat)
    requires k < 8
    ensures ToNative(little, word)[k] == Lane(word, if little then k else 7 - k)
  {
    hide Lane;
  }

  lemma NativeXor(little: bool, word: bv64, key: bv64, k: nat)
    requires k < 8
    ensures ToNative(little, XorWord(word, key))[k] == Xor(ToNative(little, word)[k], ToNative(little, key)[k])
  {
    hide *;
    NativeAt(little, XorWord(word, key), k);
    NativeAt(little, word, k);
    NativeAt(little, key, k);
    LaneOfXor(word, key, if little then k else 7 - k);
  }

  lemma WordRepeatsKey(mask: Mask, k: nat)
    requires k < 8
    ensures mask.Word()[k] == mask.At(k)
  {
  }

  /** One exclusive-or of native words masks eight octets, whatever the byte order. */
  lemma WordMasks(little: bool, mask: Mask, chunk: seq<byte>)
    requires |chunk| == 8
    ensures ToNative(little, XorWord(FromNative(little, chunk), FromNative(little, mask.Word()))) == Masked(mask, chunk)
  {
    hide *;
    var word, key := FromNative(little, chunk), FromNative(little, mask.Word());
    NativeRoundTrip(little, chunk);
    NativeRoundTrip(little, mask.Word());
    forall k: nat | k < 8
      ensures ToNative(little, XorWord(word, key))[k] == Masked(mask, chunk)[k]
    {
      NativeXor(little, word, key, k);
      WordRepeatsKey(mask, k);
      MaskedAt(mask, chunk, k);
    }
  }

  /** The key starts over every four octets. */
  lemma AtRestarts(mask: Mask, aligned: nat, i: nat)
    requires aligned % 4 == 0
    ensures mask.At(aligned + i) == mask.At(i)
  {
    assert (aligned + i) % 4 == i % 4;
  }

  /** So an aligned slice masks on its own. */
  lemma MaskedSlice(mask: Mask, payload: seq<byte>, from: nat, to: nat)
    requires from <= to <= |payload| && from % 4 == 0
    ensures Masked(mask, payload)[from..to] == Masked(mask, payload[from..to])
  {
    hide Xor, Mask.At;
    forall k | 0 <= k < to - from
      ensures Masked(mask, payload)[from + k] == Masked(mask, payload[from..to])[k]
    {
      AtRestarts(mask, from, k);
    }
  }

  /** A sequence with one stretch replaced. */
  ghost function Spliced<T>(s: seq<T>, at: nat, stretch: seq<T>): (spliced: seq<T>)
    requires at + |stretch| <= |s|
    ensures |spliced| == |s|
  {
    s[..at] + stretch + s[at + |stretch|..]
  }

  /** Changed as far as `i` and no further. */
  ghost predicate Partly<T>(now: seq<T>, before: seq<T>, after: seq<T>, i: nat) {
    && |now| == |before| == |after| && i <= |now|
    && now[..i] == after[..i] && now[i..] == before[i..]
  }

  lemma PartlyAhead<T>(now: seq<T>, before: seq<T>, after: seq<T>, i: nat, n: nat)
    requires Partly(now, before, after, i) && i + n <= |now|
    ensures now[i..i + n] == before[i..i + n]
  {
    assert now[i..i + n] == now[i..][..n] && before[i..i + n] == before[i..][..n];
  }

  lemma PartlyGrows<T>(now: seq<T>, before: seq<T>, after: seq<T>, i: nat, stretch: seq<T>)
    requires Partly(now, before, after, i) && i + |stretch| <= |now| && stretch == after[i..i + |stretch|]
    ensures Partly(Spliced(now, i, stretch), before, after, i + |stretch|)
  {
    var end := i + |stretch|;
    assert after[..end] == after[..i] + after[i..end];
    assert now[end..] == now[i..][|stretch|..] && before[end..] == before[i..][|stretch|..];
  }

  lemma PartlyStarts<T>(before: seq<T>, after: seq<T>)
    requires |before| == |after|
    ensures Partly(before, before, after, 0)
  {
  }

  lemma PartlyEnds<T>(now: seq<T>, before: seq<T>, after: seq<T>)
    requires Partly(now, before, after, |now|)
    ensures now == after
  {
    assert now[..|now|] == now && after[..|now|] == after;
  }

  /** Masks the eight octets at `at` with one operation on a word. */
  method MaskWord(little: bool, mask: Mask, key: bv64, payload: array<byte>, at: nat)
    requires key == FromNative(little, mask.Word())
    requires at + 8 <= payload.Length
    modifies payload
    ensures payload[..] == Spliced(old(payload[..]), at, Masked(mask, old(payload[..])[at..at + 8]))
  {
    hide FromNative, ToNative, XorWord, Masked, Mask.Word;
    var chunk := payload[at..at + 8];
    assert chunk == payload[..][at..at + 8];
    var masked := ToNative(little, XorWord(FromNative(little, chunk), key));
    WordMasks(little, mask, chunk);
    forall k | 0 <= k < 8 {
      payload[at + k] := masked[k];
    }
  }

  /** Masks the one octet at `at`, `k` past where the key starts over. */
  method MaskOctet(mask: Mask, payload: array<byte>, at: nat, k: nat)
    requires at < payload.Length && k <= at && (at - k) % 4 == 0
    modifies payload
    ensures payload[..] == Spliced(old(payload[..]), at, [Masked(mask, old(payload[..]))[at]])
  {
    hide Xor, Mask.At, Masked;
    AtRestarts(mask, at - k, k);
    MaskedAt(mask, payload[..], at);
    payload[at] := Xor(payload[at], mask.At(k));
  }

  lemma WordStep(mask: Mask, now: seq<byte>, before: seq<byte>, i: nat)
    requires Partly(now, before, Masked(mask, before), i) && i % 4 == 0 && i + 8 <= |now|
    ensures Partly(Spliced(now, i, Masked(mask, now[i..i + 8])), before, Masked(mask, before), i + 8)
  {
    hide *;
    var after := Masked(mask, before);
    PartlyAhead(now, before, after, i, 8);
    PartlyLength(now, before, after, i);
    MaskedSlice(mask, before, i, i + 8);
    PartlyGrows(now, before, after, i, Masked(mask, now[i..i + 8]));
  }

  lemma OctetStep(mask: Mask, now: seq<byte>, before: seq<byte>, i: nat)
    requires Partly(now, before, Masked(mask, before), i) && i < |now|
    ensures Partly(Spliced(now, i, [Masked(mask, now)[i]]), before, Masked(mask, before), i + 1)
  {
    hide *;
    var after := Masked(mask, before);
    PartlyAhead(now, before, after, i, 1);
    PartlyLength(now, before, after, i);
    assert now[i] == now[i..i + 1][0] && before[i] == before[i..i + 1][0];
    MaskedAt(mask, now, i);
    MaskedAt(mask, before, i);
    assert after[i..i + 1] == [after[i]];
    PartlyGrows(now, before, after, i, [after[i]]);
  }

  lemma PartlyLength<T>(now: seq<T>, before: seq<T>, after: seq<T>, i: nat)
    requires Partly(now, before, after, i)
    ensures |now| == |before| == |after|
  {
  }

  /**
   * Masks in place, eight octets in one step and then the tail octet by octet. `little`
   * is the byte order of the machine.
   */
  method ApplyMask(little: bool, mask: Mask, payload: array<byte>)
    modifies payload
    ensures payload[..] == Masked(mask, old(payload[..]))
  {
    hide *;
    ghost var before := payload[..];
    PartlyStarts(before, Masked(mask, before));
    var key := FromNative(little, mask.Word());
    var i := 0;
    while payload.Length - i >= 8
      invariant 0 <= i <= payload.Length && i % 4 == 0
      invariant Partly(payload[..], before, Masked(mask, before), i)
    {
      WordStep(mask, payload[..], before, i);
      MaskWord(little, mask, key, payload, i);
      i := i + 8;
    }
    var tail := i;
    while i < payload.Length
      invariant tail <= i <= payload.Length && tail % 4 == 0
      invariant Partly(payload[..], before, Masked(mask, before), i)
    {
      OctetStep(mask, payload[..], before, i);
      MaskOctet(mask, payload, i, i - tail);
      i := i + 1;
    }
    PartlyEnds(payload[..], before, Masked(mask, before));
  }
}
