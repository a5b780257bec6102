/** The fields a Strict-Transport-Security policy may be read from, and what each of them says. */
module HstsFields {
  import opened Wrappers
  import opened Texts
  import opened Parts
  import opened HstsPolicy

  // --- what a field says

  /** A text of digits, perhaps in quotes, is an age; one past the largest is the largest. */
  ghost predicate IsAge(text: string, age: i64) {
    exists open: string, digits: string, close: string ::
      text == open + digits + close && All(open, IsQuote) && All(close, IsQuote) && Spells(digits, age)
  }

  predicate Spells(digits: string, age: i64) {
    && digits != "" && AllDigits(digits)
    && age == if ReadDecimal(digits) > I64_MAX then I64_MAX else ReadDecimal(digits)
  }

  /**
   * A field says a policy: no directive twice, an age that is one, and the two
   * flags just when they are there; anything else is let pass.
   */
  ghost predicate Means(parts: seq<Part>, policy: Policy) {
    && (forall i, j | 0 <= i < j < |parts| && !parts[i].Blank? && !parts[j].Blank? ::
          Lowered(parts[i].name) != Lowered(parts[j].name))
    && (exists i :: 0 <= i < |parts| && Named(parts[i], "max-age") && parts[i].Valued?
                    && IsAge(parts[i].text, policy.maxAge))
    && (policy.includeSubdomains <==> exists i :: 0 <= i < |parts| && Named(parts[i], "includesubdomains"))
    && (policy.preload <==> exists i :: 0 <= i < |parts| && Named(parts[i], "preload"))
  }

  // --- reading one part

  function Read(part: Part): Option<Directive> {
    match part
    case Blank(_) => None
    case Flag(_, name, _) => Some(Directive(Lowered(name), None))
    case Valued(_, name, _, _, text, _) => Some(Directive(Lowered(name), Some(text)))
  }

  lemma ReadsPart(part: Part)
    requires Sound(part)
    ensures ReadDirective(Written(part)) == Read(part)
  {
    hide IsSpace, Trim, Lowered, SplitOnce;
    match part
    case Blank(space) => BlankTrims(space);
    case Flag(before, name, after) => TightTrims(before, name, after);
    case Valued(before, name, gap, lead, text, after) =>
      ValuedTrims(before, name, gap, lead, text, after);
      HalvesTrim(name, gap, lead, text);
      SplitOnceFront(Left(name, gap), '=', Right(lead, text));
  }

  // --- reading the parts of a field

  function Spoken(parts: seq<Part>): seq<Directive> {
    if parts == [] then []
    else
      Spoken(parts[..|parts| - 1])
      + match Read(parts[|parts| - 1])
        case Some(directive) => [directive]
        case None => []
  }

  lemma {:induction false} PiecesAreRead(parts: seq<Part>)
    requires forall i :: 0 <= i < |parts| ==> Sound(parts[i])
    ensures Directives(Pieces(parts)) == Spoken(parts)
  {
    hide Sound, Written, ReadDirective, Read;
    if parts != [] {
      var front, last := parts[..|parts| - 1], parts[|parts| - 1];
      PiecesAreRead(front);
      PiecesGrow(front, last);
      assert front + [last] == parts;
      ReadsPart(last);
      var pieces := Pieces(front);
      assert (pieces + [Written(last)])[..|pieces|] == pieces;
    }
  }

  // --- what they say together

  ghost predicate Distinct(parts: seq<Part>) {
    forall i, j | 0 <= i < j < |parts| && !parts[i].Blank? && !parts[j].Blank? ::
      Lowered(parts[i].name) != Lowered(parts[j].name)
  }

  ghost predicate Said(parts: seq<Part>, name: string) {
    exists i :: 0 <= i < |parts| && Named(parts[i], name)
  }

  ghost predicate Aged(parts: seq<Part>, age: i64) {
    exists i :: 0 <= i < |parts| && Named(parts[i], "max-age") && parts[i].Valued? && IsAge(parts[i].text, age)
  }

  ghost predicate HasAge(directives: seq<Directive>, age: i64) {
    exists i :: 0 <= i < |directives| && directives[i].name == "max-age" && ReadAge(directives[i].argument) == Some(age)
  }

  lemma AgeIff(text: string, age: i64)
    ensures ReadAge(Some(text)) == Some(age) <==> IsAge(text, age)
  {
    if IsAge(text, age) {
      AgeIsRead(text, age);
    }
    if ReadAge(Some(text)) == Some(age) {
      hide Trim;
      var open, close := TrimSplits(text, IsQuote);
      assert text == open + Trim(text, IsQuote) + close && Spells(Trim(text, IsQuote), age);
    }
  }

  lemma AgeIsRead(text: string, age: i64)
    requires IsAge(text, age)
    ensures ReadAge(Some(text)) == Some(age)
  {
    hide Trim;
    var open: string, digits: string, close: string :|
      text == open + digits + close && All(open, IsQuote) && All(close, IsQuote) && Spells(digits, age);
    assert !IsQuote(digits[0]) && !IsQuote(digits[|digits| - 1]);
    TrimIs(open, digits, close, IsQuote);
  }

  lemma NamesGrow(directives: seq<Directive>, last: Directive, name: string)
    ensures Names(directives + [last], name) <==> Names(directives, name) || last.name == name
  {
    var all := directives + [last];
    assert all[|directives|] == last && forall i | 0 <= i < |directives| :: all[i] == directives[i];
  }

  lemma SaidGrows(parts: seq<Part>, last: Part, name: string)
    ensures Said(parts + [last], name) <==> Said(parts, name) || Named(last, name)
  {
    hide Named;
    var all := parts + [last];
    assert all[|parts|] == last && forall i | 0 <= i < |parts| :: all[i] == parts[i];
  }

  lemma {:induction false} SaidIff(parts: seq<Part>, name: string)
    ensures Said(parts, name) <==> Names(Spoken(parts), name)
  {
    hide Names, Said, Lowered;
    if parts == [] {
      NothingSaid(name);
    } else {
      var front, last := parts[..|parts| - 1], parts[|parts| - 1];
      SaidIff(front, name);
      SaidGrows(front, last, name);
      assert front + [last] == parts && Spoken(front) + [] == Spoken(front);
      if !last.Blank? {
        NamesGrow(Spoken(front), Read(last).value, name);
      }
    }
  }

  lemma NothingSaid(name: string)
    ensures !Said([], name) && !Names([], name)
  {
  }

  lemma DistinctGrows(parts: seq<Part>, last: Part)
    ensures Distinct(parts + [last])
            <==> Distinct(parts) && (last.Blank? || !Said(parts, Lowered(last.name)))
  {
    hide Lowered;
    var all := parts + [last];
    assert all[|parts|] == last && forall i | 0 <= i < |parts| :: all[i] == parts[i];
  }

  lemma DirectivesDistinctGrow(directives: seq<Directive>, last: Directive)
    ensures HstsPolicy.Distinct(directives + [last])
            <==> HstsPolicy.Distinct(directives) && !Names(directives, last.name)
  {
    var all := directives + [last];
    assert all[|directives|] == last && forall i | 0 <= i < |directives| :: all[i] == directives[i];
  }

  lemma {:induction false} DistinctIff(parts: seq<Part>)
    ensures Distinct(parts) <==> HstsPolicy.Distinct(Spoken(parts))
  {
    hide Names, Said, Lowered, Distinct, HstsPolicy.Distinct;
    if parts == [] {
      NothingDistinct();
    } else {
      var front, last := parts[..|parts| - 1], parts[|parts| - 1];
      DistinctIff(front);
      DistinctGrows(front, last);
      assert front + [last] == parts && Spoken(front) + [] == Spoken(front);
      if !last.Blank? {
        SaidIff(front, Lowered(last.name));
        DirectivesDistinctGrow(Spoken(front), Read(last).value);
      }
    }
  }

  lemma NothingDistinct()
    ensures Distinct([]) && HstsPolicy.Distinct([])
  {
  }

  lemma AgedGrows(parts: seq<Part>, last: Part, age: i64)
    ensures Aged(parts + [last], age)
            <==> Aged(parts, age) || (Named(last, "max-age") && last.Valued? && IsAge(last.text, age))
  {
    hide Named, IsAge;
    var all := parts + [last];
    assert all[|parts|] == last && forall i | 0 <= i < |parts| :: all[i] == parts[i];
  }

  lemma HasAgeGrows(directives: seq<Directive>, last: Directive, age: i64)
    ensures HasAge(directives + [last], age)
            <==> HasAge(directives, age) || (last.name == "max-age" && ReadAge(last.argument) == Some(age))
  {
    hide ReadAge;
    var all := directives + [last];
    assert all[|directives|] == last && forall i | 0 <= i < |directives| :: all[i] == directives[i];
  }

  lemma {:induction false} AgedIff(parts: seq<Part>, age: i64)
    ensures Aged(parts, age) <==> HasAge(Spoken(parts), age)
  {
    hide Aged, HasAge, Lowered, IsAge;
    if parts == [] {
      NothingAged(age);
    } else {
      var front, last := parts[..|parts| - 1], parts[|parts| - 1];
      AgedIff(front, age);
      AgedGrows(front, last, age);
      assert front + [last] == parts && Spoken(front) + [] == Spoken(front);
      if !last.Blank? {
        HasAgeGrows(Spoken(front), Read(last).value, age);
        if last.Valued? {
          AgeIff(last.text, age);
        }
      }
    }
  }

  lemma NothingAged(age: i64)
    ensures !Aged([], age) && !HasAge([], age)
  {
  }

  lemma MeansIff(parts: seq<Part>, policy: Policy)
    ensures Means(parts, policy) <==> HstsPolicy.Says(Spoken(parts), policy)
  {
    hide Lowered, IsAge, ReadAge, Spoken;
    DistinctIff(parts);
    AgedIff(parts, policy.maxAge);
    SaidIff(parts, "includesubdomains");
    SaidIff(parts, "preload");
  }

  /** A field says a policy exactly when its parts do. */
  lemma FieldMeansIff(parts: seq<Part>, policy: Policy)
    requires AllSound(parts)
    ensures Meaning(Field(parts)) == Some(policy) <==> Means(parts, policy)
  {
    hide Means, Field, Split, Directives, HstsPolicy.Says, Sound;
    FieldSplits(parts);
    PiecesAreRead(parts);
    MeansIff(parts, policy);
    if HstsPolicy.Says(Spoken(parts), policy) {
      MeaningIs(Field(parts), policy);
    }
  }
}
