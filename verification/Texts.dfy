/** The string operations host names and field values are read with. */
module Texts {
  import opened Wrappers

  /** Unicode white space, as trimming understands it. */
  predicate IsSpace(c: char) {
    || '\t' <= c <= '\r' || c == ' ' || c == '\U{85}' || c == '\U{A0}' || c == '\U{1680}'
    || '\U{2000}' <= c <= '\U{200A}' || c == '\U{2028}' || c == '\U{2029}' || c == '\U{202F}'
    || c == '\U{205F}' || c == '\U{3000}'
  }

  predicate IsQuote(c: char) { c == '"' }

  predicate IsBracket(c: char) { c == '[' || c == ']' }

  predicate IsDot(c: char) { c == '.' }

  predicate IsDigit(c: char) { '0' <= c <= '9' }

  function TrimStart(text: string, drop: char -> bool): string {
    if text != [] && drop(text[0]) then TrimStart(text[1..], drop) else text
  }

  function TrimEnd(text: string, drop: char -> bool): string {
    if text != [] && drop(text[|text| - 1]) then TrimEnd(text[..|text| - 1], drop) else text
  }

  function Trim(text: string, drop: char -> bool): string {
    TrimEnd(TrimStart(text, drop), drop)
  }

  /** Text that begins and ends with something to keep is left alone. */
  lemma TrimKeeps(text: string, drop: char -> bool)
    requires text == [] || (!drop(text[0]) && !drop(text[|text| - 1]))
    ensures Trim(text, drop) == text
  {
  }

  /** What trimming leaves is a stretch of the text that trimming leaves alone. */
  lemma {:induction false} TrimStartLeaves(text: string, drop: char -> bool)
    ensures |TrimStart(text, drop)| <= |text| && forall c :: c in TrimStart(text, drop) ==> c in text
    ensures TrimStart(text, drop) == [] || !drop(TrimStart(text, drop)[0])
  {
    if text != [] && drop(text[0]) {
      TrimStartLeaves(text[1..], drop);
    }
  }

  lemma {:induction false} TrimEndLeaves(text: string, drop: char -> bool)
    ensures TrimEnd(text, drop) <= text
    ensures TrimEnd(text, drop) == [] || !drop(TrimEnd(text, drop)[|TrimEnd(text, drop)| - 1])
  {
    if text != [] && drop(text[|text| - 1]) {
      TrimEndLeaves(text[..|text| - 1], drop);
    }
  }

  lemma TrimLeaves(text: string, drop: char -> bool)
    ensures forall c :: c in Trim(text, drop) ==> c in text
    ensures Trim(Trim(text, drop), drop) == Trim(text, drop)
  {
    hide TrimStart, TrimEnd;
    TrimStartLeaves(text, drop);
    TrimEndLeaves(TrimStart(text, drop), drop);
    TrimKeeps(Trim(text, drop), drop);
  }

  /** Trimmed text begins with something to keep. */
  lemma TrimStarts(text: string, drop: char -> bool)
    ensures Trim(text, drop) == [] || !drop(Trim(text, drop)[0])
  {
    hide TrimStart, TrimEnd;
    TrimStartLeaves(text, drop);
    TrimEndLeaves(TrimStart(text, drop), drop);
  }

  lemma TrimCuts(text: string, drop: char -> bool)
    requires text != "" && drop(text[0])
    ensures |Trim(text, drop)| < |text|
  {
    hide TrimEnd;
    TrimStartLeaves(text[1..], drop);
    TrimEndLeaves(TrimStart(text, drop), drop);
  }

  lemma TrimEndKeeps(text: string, drop: char -> bool)
    requires text == "" || !drop(text[|text| - 1])
    ensures TrimEnd(text, drop) == text
  {
  }

  /** Trimming shortens a text exactly when there is something to trim at either end. */
  lemma TrimShortens(text: string, drop: char -> bool)
    ensures |Trim(text, drop)| <= |text|
    ensures text != "" ==> (|Trim(text, drop)| < |text| <==> drop(text[0]) || drop(text[|text| - 1]))
  {
    hide TrimEnd, TrimStart;
    TrimStartLeaves(text, drop);
    TrimEndLeaves(TrimStart(text, drop), drop);
    if text != "" {
      if drop(text[0]) {
        TrimCuts(text, drop);
      } else if drop(text[|text| - 1]) {
        TrimStartKeeps(text, drop);
      } else {
        TrimKeeps(text, drop);
      }
    }
  }

  lemma TrimStartKeeps(text: string, drop: char -> bool)
    requires text == "" || !drop(text[0])
    ensures TrimStart(text, drop) == text
  {
  }

  // --- trimming, by what is trimmed

  predicate All(text: string, p: char -> bool) {
    forall i :: 0 <= i < |text| ==> p(text[i])
  }

  lemma {:induction false} TrimStartIs(front: string, rest: string, drop: char -> bool)
    requires All(front, drop) && (rest != "" ==> !drop(rest[0]))
    ensures TrimStart(front + rest, drop) == rest
  {
    if front == "" {
      assert front + rest == rest;
    } else {
      assert (front + rest)[1..] == front[1..] + rest;
      TrimStartIs(front[1..], rest, drop);
    }
  }

  lemma {:induction false} TrimEndIs(rest: string, tail: string, drop: char -> bool)
    requires All(tail, drop) && (rest != "" ==> !drop(rest[|rest| - 1]))
    ensures TrimEnd(rest + tail, drop) == rest
  {
    if tail == "" {
      assert rest + tail == rest;
    } else {
      assert (rest + tail)[..|rest + tail| - 1] == rest + tail[..|tail| - 1];
      TrimEndIs(rest, tail[..|tail| - 1], drop);
    }
  }

  lemma TrimIs(front: string, rest: string, tail: string, drop: char -> bool)
    requires All(front, drop) && All(tail, drop)
    requires rest != "" && !drop(rest[0]) && !drop(rest[|rest| - 1])
    ensures Trim(front + rest + tail, drop) == rest
  {
    assert front + rest + tail == front + (rest + tail);
    TrimStartIs(front, rest + tail, drop);
    TrimEndIs(rest, tail, drop);
  }

  /** What trimming leaves stands between two stretches of what it drops. */
  lemma {:induction false} TrimStartSplits(text: string, drop: char -> bool) returns (front: string)
    ensures All(front, drop) && text == front + TrimStart(text, drop)
  {
    if text != "" && drop(text[0]) {
      var rest := TrimStartSplits(text[1..], drop);
      front := [text[0]] + rest;
    } else {
      front := "";
    }
  }

  lemma {:induction false} TrimEndSplits(text: string, drop: char -> bool) returns (tail: string)
    ensures All(tail, drop) && text == TrimEnd(text, drop) + tail
  {
    if text != "" && drop(text[|text| - 1]) {
      var rest := TrimEndSplits(text[..|text| - 1], drop);
      tail := rest + [text[|text| - 1]];
      assert text == text[..|text| - 1] + [text[|text| - 1]];
    } else {
      tail := "";
    }
  }

  lemma TrimSplits(text: string, drop: char -> bool) returns (front: string, tail: string)
    ensures All(front, drop) && All(tail, drop) && text == front + Trim(text, drop) + tail
  {
    hide TrimStart, TrimEnd;
    front := TrimStartSplits(text, drop);
    tail := TrimEndSplits(TrimStart(text, drop), drop);
  }

  // --- case

  function Lower(c: char): char {
    if 'A' <= c <= 'Z' then (c as int + 32) as char else c
  }

  function Lowered(text: string): (lowered: string)
    ensures |lowered| == |text|
    ensures forall i :: 0 <= i < |text| ==> lowered[i] == Lower(text[i])
  {
    seq(|text|, i requires 0 <= i < |text| => Lower(text[i]))
  }

  lemma LoweredTwice(text: string)
    ensures Lowered(Lowered(text)) == Lowered(text)
  {
    assert forall i | 0 <= i < |text| :: Lower(Lower(text[i])) == Lower(text[i]);
  }

  /** The first place a character stands at, or the length when it does not occur. */
  function IndexOf(text: string, c: char): (index: nat)
    ensures index <= |text| && c !in text[..index]
    ensures index < |text| ==> text[index] == c
  {
    if text == [] || text[0] == c then 0
    else
      var rest := IndexOf(text[1..], c);
      assert text[..1 + rest] == [text[0]] + text[1..][..rest];
      1 + rest
  }

  lemma {:induction false} IndexIsUnique(text: string, c: char, index: nat)
    requires index <= |text| && c !in text[..index] && (index < |text| ==> text[index] == c)
    ensures IndexOf(text, c) == index
  {
    if index > 0 {
      assert text[0] == text[..index][0];
      assert text[..index] == [text[0]] + text[1..][..index - 1];
      IndexIsUnique(text[1..], c, index - 1);
    }
  }

  /** Where a character last stands, if it does. */
  function LastIndexOf(text: string, c: char): (at: Option<nat>)
    ensures at.None? <==> c !in text
    ensures at.Some? ==> at.value < |text| && text[at.value] == c && c !in text[at.value + 1..]
  {
    if text == "" then None
    else if text[|text| - 1] == c then Some(|text| - 1)
    else
      var front := text[..|text| - 1];
      var at := LastIndexOf(front, c);
      assert text == front + [text[|text| - 1]];
      assert at.Some? ==> text[at.value + 1..] == front[at.value + 1..] + [text[|text| - 1]];
      at
  }

  lemma {:induction false} LastIndexIs(text: string, c: char, at: nat)
    requires at < |text| && text[at] == c && c !in text[at + 1..]
    ensures LastIndexOf(text, c) == Some(at)
  {
    if at < |text| - 1 {
      var front := text[..|text| - 1];
      assert text[at + 1..] == front[at + 1..] + [text[|text| - 1]];
      LastIndexIs(front, c, at);
    }
  }

  /** The pieces between occurrences of a separator; one more than there are separators. */
  function Split(text: string, c: char): (pieces: seq<string>)
    ensures pieces != []
    decreases |text|
  {
    var at := IndexOf(text, c);
    if at == |text| then [text] else [text[..at]] + Split(text[at + 1..], c)
  }

  lemma SplitFront(front: string, c: char, rest: string)
    requires c !in front
    ensures Split(front + [c] + rest, c) == [front] + Split(rest, c)
  {
    var text := front + [c] + rest;
    assert text[..|front|] == front && text[|front| + 1..] == rest;
    IndexIsUnique(text, c, |front|);
  }

  lemma SplitWhole(text: string, c: char)
    requires c !in text
    ensures Split(text, c) == [text]
  {
    assert text[..|text|] == text;
    IndexIsUnique(text, c, |text|);
  }

  /** No piece of a split text holds the separator. */
  lemma {:induction false} SplitPieces(text: string, c: char)
    ensures forall i :: 0 <= i < |Split(text, c)| ==> c !in Split(text, c)[i]
    decreases |text|
  {
    var at := IndexOf(text, c);
    if at < |text| {
      SplitPieces(text[at + 1..], c);
    } else {
      assert text[..at] == text;
    }
  }

  /** Parts written one after another, each behind a semicolon and a space. */
  function Joined(parts: seq<string>): string {
    if parts == [] then "" else Joined(parts[..|parts| - 1]) + "; " + parts[|parts| - 1]
  }

  lemma {:induction false} SplitAppended(front: string, part: string)
    requires ';' !in part
    ensures Split(front + "; " + part, ';') == Split(front, ';') + [" " + part]
    decreases |front|
  {
    var at := IndexOf(front, ';');
    var text := front + "; " + part;
    if at == |front| {
      assert front[..at] == front;
      assert text == front + [';'] + (" " + part);
      SplitFront(front, ';', " " + part);
      SplitWhole(" " + part, ';');
    } else {
      var head, rest := front[..at], front[at + 1..];
      assert text == head + [';'] + (rest + "; " + part);
      SplitFront(head, ';', rest + "; " + part);
      SplitAppended(rest, part);
    }
  }

  /** The same parts, each behind the space alone. */
  function Spaced(parts: seq<string>): seq<string> {
    if parts == [] then [] else Spaced(parts[..|parts| - 1]) + [" " + parts[|parts| - 1]]
  }

  /** Splitting undoes joining, when no part holds a semicolon of its own. */
  lemma {:induction false} SplitJoined(head: string, parts: seq<string>)
    requires ';' !in head && forall i :: 0 <= i < |parts| ==> ';' !in parts[i]
    ensures Split(head + Joined(parts), ';') == [head] + Spaced(parts)
  {
    hide Split;
    if parts == [] {
      assert head + Joined(parts) == head;
      SplitWhole(head, ';');
    } else {
      var front, last := parts[..|parts| - 1], parts[|parts| - 1];
      SplitJoined(head, front);
      assert head + Joined(parts) == head + Joined(front) + "; " + last;
      SplitAppended(head + Joined(front), last);
    }
  }

  /** What stands before the first occurrence and what after, when there is one. */
  function SplitOnce(text: string, c: char): (halves: Option<(string, string)>)
    ensures halves.None? <==> c !in text
    ensures halves.Some? ==> text == halves.value.0 + [c] + halves.value.1 && c !in halves.value.0
  {
    var at := IndexOf(text, c);
    if at == |text| then
      assert text[..at] == text;
      None
    else Some((text[..at], text[at + 1..]))
  }

  lemma SplitOnceFront(front: string, c: char, rest: string)
    requires c !in front
    ensures SplitOnce(front + [c] + rest, c) == Some((front, rest))
  {
    var text := front + [c] + rest;
    assert text[..|front|] == front && text[|front| + 1..] == rest;
    IndexIsUnique(text, c, |front|);
  }

  // --- decimals

  const I64_MAX := 0x7fff_ffff_ffff_ffff

  predicate AllDigits(text: string) {
    forall i :: 0 <= i < |text| ==> IsDigit(text[i])
  }

  type i64 = x: int | -I64_MAX - 1 <= x <= I64_MAX witness 0

  function Digit(value: nat): (digit: char)
    requires value < 10
    ensures IsDigit(digit) && digit as int - 48 == value
  {
    (48 + value) as char
  }

  /** The shortest decimal of a number. */
  function Decimal(value: nat): (digits: string)
    ensures digits != [] && forall i :: 0 <= i < |digits| ==> IsDigit(digits[i])
  {
    if value < 10 then [Digit(value)] else Decimal(value / 10) + [Digit(value % 10)]
  }

  function ReadDecimal(digits: string): nat
    requires forall i :: 0 <= i < |digits| ==> IsDigit(digits[i])
  {
    if digits == [] then 0
    else
      assert IsDigit(digits[|digits| - 1]);
      10 * ReadDecimal(digits[..|digits| - 1]) + (digits[|digits| - 1] as int - 48)
  }

  lemma {:induction false} DecimalReadsBack(value: nat)
    ensures ReadDecimal(Decimal(value)) == value
  {
    if value >= 10 {
      DecimalReadsBack(value / 10);
      var digits := Decimal(value);
      assert digits[..|digits| - 1] == Decimal(value / 10);
    } else {
      assert Decimal(value)[..0] == [];
    }
  }

  ghost function Pow10(exponent: nat): nat {
    if exponent == 0 then 1 else 10 * Pow10(exponent - 1)
  }

  lemma {:induction false} DecimalLength(value: nat, width: nat)
    requires width > 0 && value < Pow10(width)
    ensures |Decimal(value)| <= width
  {
    if value >= 10 {
      assert Pow10(1) == 10;
      assert value / 10 < Pow10(width - 1);
      DecimalLength(value / 10, width - 1);
    }
  }
}
