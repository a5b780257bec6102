/** Fields made of parts between semicolons, as texts. */
module Parts {
  import opened Wrappers
  import opened Texts

  /** What stands between two semicolons: nothing but space, or a name and perhaps a text behind an equals sign. */
  datatype Part =
    | Blank(space: string)
    | Flag(before: string, name: string, after: string)
    | Valued(before: string, name: string, gap: string, lead: string, text: string, after: string)

  function Written(part: Part): string {
    match part
    case Blank(space) => space
    case Flag(before, name, after) => before + name + after
    case Valued(before, name, gap, lead, text, after) => before + name + gap + "=" + lead + text + after
  }

  /** A text with no space at either end. */
  predicate Tight(text: string) {
    text != "" ==> !IsSpace(text[0]) && !IsSpace(text[|text| - 1])
  }

  predicate Sound(part: Part) {
    match part
    case Blank(space) => All(space, IsSpace)
    case Flag(before, name, after) =>
      && All(before, IsSpace) && All(after, IsSpace)
      && name != "" && Tight(name) && '=' !in name && ';' !in name
    case Valued(before, name, gap, lead, text, after) =>
      && All(before, IsSpace) && All(gap, IsSpace) && All(lead, IsSpace) && All(after, IsSpace)
      && Tight(name) && '=' !in name && ';' !in name && Tight(text) && ';' !in text
  }

  /** The parts of a field, one semicolon between each two. */
  function Field(parts: seq<Part>): string
    requires parts != []
  {
    if |parts| == 1 then Written(parts[0]) else Written(parts[0]) + ";" + Field(parts[1..])
  }

  ghost predicate AllSound(parts: seq<Part>) {
    parts != [] && forall i :: 0 <= i < |parts| ==> Sound(parts[i])
  }

  /** A part names something, in whatever case. */
  predicate Named(part: Part, name: string) {
    !part.Blank? && Lowered(part.name) == name
  }

  // --- trimming and cutting one part

  lemma SpaceIsNoMark()
    ensures !IsSpace('=') && !IsSpace(';')
  {
  }

  lemma SpaceHasNoMark(text: string)
    requires All(text, IsSpace)
    ensures '=' !in text && ';' !in text
  {
    SpaceIsNoMark();
  }

  lemma AllJoins(a: string, b: string)
    requires All(a, IsSpace) && All(b, IsSpace)
    ensures All(a + b, IsSpace)
  {
  }

  lemma BlankTrims(space: string)
    requires All(space, IsSpace)
    ensures Trim(space, IsSpace) == ""
  {
    assert space + "" == space;
    TrimStartIs(space, "", IsSpace);
  }

  lemma TightTrims(front: string, text: string, tail: string)
    requires All(front, IsSpace) && All(tail, IsSpace) && Tight(text)
    ensures Trim(front + text + tail, IsSpace) == text
  {
    hide IsSpace;
    if text == "" {
      assert front + text + tail == front + tail;
      AllJoins(front, tail);
      BlankTrims(front + tail);
    } else {
      TrimIs(front, text, tail, IsSpace);
    }
  }

  /** What is left of an equals sign, and what is right of it, once the whole is trimmed. */
  function Left(name: string, gap: string): string {
    if name == "" then "" else name + gap
  }

  function Right(lead: string, text: string): string {
    if text == "" then "" else lead + text
  }

  lemma ValuedTrims(before: string, name: string, gap: string, lead: string, text: string, after: string)
    requires All(before, IsSpace) && All(gap, IsSpace) && All(lead, IsSpace) && All(after, IsSpace)
    requires Tight(name) && Tight(text) && '=' !in name
    ensures Trim(before + name + gap + "=" + lead + text + after, IsSpace)
            == Left(name, gap) + ['='] + Right(lead, text)
    ensures '=' !in Left(name, gap)
  {
    hide IsSpace, Trim, Left, Right, Tight;
    var front, tail := if name == "" then before + gap else before, if text == "" then lead + after else after;
    var core := Left(name, gap) + ['='] + Right(lead, text);
    AllJoins(before, gap);
    AllJoins(lead, after);
    CoreTight(name, gap, lead, text);
    TightTrims(front, core, tail);
    LeftHasNoMark(name, gap);
    Recut(before, name, gap, lead, text, after);
  }

  lemma LeftHasNoMark(name: string, gap: string)
    requires All(gap, IsSpace) && '=' !in name
    ensures '=' !in Left(name, gap)
  {
    hide IsSpace;
    SpaceHasNoMark(gap);
  }

  lemma Recut(before: string, name: string, gap: string, lead: string, text: string, after: string)
    ensures before + name + gap + "=" + lead + text + after
            == (if name == "" then before + gap else before) + (Left(name, gap) + ['='] + Right(lead, text))
               + (if text == "" then lead + after else after)
  {
  }

  lemma CoreTight(name: string, gap: string, lead: string, text: string)
    requires Tight(name) && Tight(text)
    ensures Tight(Left(name, gap) + ['='] + Right(lead, text))
  {
    SpaceIsNoMark();
    hide IsSpace;
  }

  lemma HalvesTrim(name: string, gap: string, lead: string, text: string)
    requires All(gap, IsSpace) && All(lead, IsSpace) && Tight(name) && Tight(text)
    ensures Trim(Left(name, gap), IsSpace) == name && Trim(Right(lead, text), IsSpace) == text
  {
    hide IsSpace, Trim;
    TightTrims("", name, if name == "" then "" else gap);
    TightTrims(if text == "" then "" else lead, text, "");
    assert "" + name + gap == name + gap && lead + text + "" == lead + text && "" + "" + "" == "";
  }

  // --- cutting a field

  function Pieces(parts: seq<Part>): seq<string> {
    if parts == [] then [] else [Written(parts[0])] + Pieces(parts[1..])
  }

  lemma WrittenIsOnePiece(part: Part)
    requires Sound(part)
    ensures ';' !in Written(part)
  {
    hide IsSpace;
    match part
    case Blank(space) => SpaceHasNoMark(space);
    case Flag(before, _, after) =>
      SpaceHasNoMark(before);
      SpaceHasNoMark(after);
    case Valued(before, _, gap, lead, _, after) =>
      SpaceHasNoMark(before);
      SpaceHasNoMark(gap);
      SpaceHasNoMark(lead);
      SpaceHasNoMark(after);
  }

  lemma {:induction false} FieldSplits(parts: seq<Part>)
    requires AllSound(parts)
    ensures Split(Field(parts), ';') == Pieces(parts)
  {
    hide Sound, Written, Split;
    WrittenIsOnePiece(parts[0]);
    if |parts| == 1 {
      SplitWhole(Written(parts[0]), ';');
      assert parts[1..] == [];
    } else {
      FieldSplits(parts[1..]);
      SplitFront(Written(parts[0]), ';', Field(parts[1..]));
    }
  }

  lemma {:induction false} PiecesGrow(parts: seq<Part>, last: Part)
    ensures Pieces(parts + [last]) == Pieces(parts) + [Written(last)]
  {
    hide Written;
    if parts == [] {
      assert [last][1..] == [];
    } else {
      PiecesGrow(parts[1..], last);
      assert (parts + [last])[1..] == parts[1..] + [last];
    }
  }

  // --- every text is a field

  lemma PartOf(piece: string) returns (part: Part)
    requires ';' !in piece
    ensures Sound(part) && Written(part) == piece
  {
    hide IsSpace, Trim;
    var before, after := TrimSplits(piece, IsSpace);
    var core := Trim(piece, IsSpace);
    assert piece == before + core + after;
    if core == "" {
      AllJoins(before, after);
      part := Blank(before + after);
    } else {
      CoreIsTight(piece);
      match SplitOnce(core, '=')
      case None => part := Flag(before, core, after);
      case Some((left, right)) =>
        part := ValuedOf(before, left, right, after);
    }
  }

  lemma ValuedOf(before: string, left: string, right: string, after: string) returns (part: Part)
    requires All(before, IsSpace) && All(after, IsSpace)
    requires '=' !in left && ';' !in left && ';' !in right
    ensures Sound(part) && Written(part) == before + (left + ['='] + right) + after
  {
    hide IsSpace, Trim;
    var first, gap := TrimSplits(left, IsSpace);
    var lead, last := TrimSplits(right, IsSpace);
    var name, text := Trim(left, IsSpace), Trim(right, IsSpace);
    CoreIsTight(left);
    CoreIsTight(right);
    AllJoins(before, first);
    AllJoins(last, after);
    part := Valued(before + first, name, gap, lead, text, last + after);
    Regrouped(before, first, name, gap, lead, text, last, after);
  }

  lemma Regrouped(a: string, b: string, c: string, d: string, e: string, f: string, g: string, h: string)
    ensures (a + b) + c + d + "=" + e + f + (g + h) == a + ((b + c + d) + ['='] + (e + f + g)) + h
  {
  }

  lemma CoreIsTight(text: string)
    ensures Tight(Trim(text, IsSpace)) && forall c :: c in Trim(text, IsSpace) ==> c in text
  {
    hide IsSpace, Trim;
    TrimLeaves(text, IsSpace);
    TrimShortens(Trim(text, IsSpace), IsSpace);
  }

  /** Every text is a field of some parts, so what holds of those holds of every text. */
  lemma {:induction false} EveryTextIsAField(text: string) returns (parts: seq<Part>)
    ensures AllSound(parts) && Field(parts) == text
    decreases |text|
  {
    hide Sound, Written;
    var at := IndexOf(text, ';');
    var first := PartOf(text[..at]);
    if at == |text| {
      parts := [first];
      assert text[..at] == text;
    } else {
      var rest := EveryTextIsAField(text[at + 1..]);
      parts := [first] + rest;
      assert parts[1..] == rest;
      assert text == text[..at] + ";" + text[at + 1..];
    }
  }
}
