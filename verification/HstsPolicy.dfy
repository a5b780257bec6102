/** The Strict-Transport-Security field, section 6.1 of RFC 6797. */
module HstsPolicy {
  import opened Wrappers
  import opened Texts

  const BUFFER := 64
  const DIGITS := 20

  datatype Policy = Policy(maxAge: i64, includeSubdomains: bool, preload: bool)

  function Max0(age: int): nat {
    if age < 0 then 0 else age
  }

  // --- writing

  function Piece(part: string, wanted: bool): string {
    if wanted then part else ""
  }

  /** The field value in full; a negative age is written as zero. */
  function Render(policy: Policy): string {
    "max-age=" + Decimal(Max0(policy.maxAge))
    + Piece("; includeSubDomains", policy.includeSubdomains)
    + Piece("; preload", policy.preload)
  }

  lemma AgeFits(age: i64)
    ensures |Decimal(Max0(age))| <= 19
  {
    assert Pow10(5) == 10_0000;
    assert Pow10(10) == 100_0000_0000;
    assert Pow10(15) == 1000_0000_0000_0000;
    assert Pow10(19) == 1000_0000_0000_0000_0000;
    DecimalLength(Max0(age), 19);
  }

  /** No policy needs more than 55 octets of the 64 the field is built in. */
  lemma RenderFits(policy: Policy)
    ensures |Render(policy)| <= 55
  {
    hide Decimal;
    AgeFits(policy.maxAge);
  }

  /** Appends as much of a part as fits, and says how far the buffer is then filled. */
  method Append(out: array<char>, written: nat, part: string) returns (end: nat)
    requires written <= out.Length
    modifies out
    ensures end == if written + |part| <= out.Length then written + |part| else out.Length
    ensures out[..end] == old(out[..written]) + part[..end - written]
    ensures out[end..] == old(out[end..])
  {
    end := if written + |part| <= out.Length then written + |part| else out.Length;
    forall i | written <= i < end {
      out[i] := part[i - written];
    }
  }

  /** Fills the end of the buffer with a decimal, and says where it begins. */
  method WriteDigits(value: nat, digits: array<char>) returns (index: nat)
    requires |Decimal(value)| <= digits.Length
    modifies digits
    ensures index <= digits.Length && digits[index..] == Decimal(value)
  {
    index := digits.Length;
    var age := value;
    assert digits[index..] == [] && Decimal(value) == Decimal(age) + digits[index..];
    while true
      invariant |Decimal(age)| <= index <= digits.Length
      invariant Decimal(age) + digits[index..] == Decimal(value)
      decreases age
    {
      ghost var tail := digits[index..];
      index := index - 1;
      digits[index] := Digit(age % 10);
      assert digits[index..] == [Digit(age % 10)] + tail;
      if age < 10 {
        break;
      }
      assert Decimal(age) == Decimal(age / 10) + [Digit(age % 10)];
      assert Decimal(age / 10) + digits[index..] == Decimal(age) + tail;
      age := age / 10;
    }
  }

  /** Appends a part there is room for. */
  method AppendWhole(out: array<char>, written: nat, part: string) returns (end: nat)
    requires written + |part| <= out.Length
    modifies out
    ensures end == written + |part| && out[..end] == old(out[..written]) + part
  {
    end := Append(out, written, part);
    assert part[..end - written] == part;
  }

  /** The field value, built in a fixed buffer. Nothing of it is cut off. */
  method Value(policy: Policy) returns (text: string)
    ensures text == Render(policy)
  {
    hide Decimal;
    AgeFits(policy.maxAge);
    var out := new char[BUFFER];
    var written := AppendWhole(out, 0, "max-age=");
    var digits := new char[DIGITS];
    var index := WriteDigits(Max0(policy.maxAge), digits);
    assert out[..written] == "max-age=";
    written := AppendWhole(out, written, digits[index..]);
    ghost var front := out[..written];
    if policy.includeSubdomains {
      written := AppendWhole(out, written, "; includeSubDomains");
    }
    assert out[..written] == front + Piece("; includeSubDomains", policy.includeSubdomains);
    if policy.preload {
      written := AppendWhole(out, written, "; preload");
    }
    text := out[..written];
    assert text == front + Piece("; includeSubDomains", policy.includeSubdomains) + Piece("; preload", policy.preload);
  }

  // --- reading

  datatype Directive = Directive(name: string, argument: Option<string>)

  /** One directive, its name folded to lower case; None for a blank piece. */
  function ReadDirective(piece: string): Option<Directive> {
    var directive := Trim(piece, IsSpace);
    if directive == "" then None
    else
      match SplitOnce(directive, '=')
      case Some((name, rest)) => Some(Directive(Lowered(Trim(name, IsSpace)), Some(Trim(rest, IsSpace))))
      case None => Some(Directive(Lowered(directive), None))
  }

  function Directives(pieces: seq<string>): seq<Directive> {
    if pieces == [] then []
    else
      Directives(pieces[..|pieces| - 1])
      + match ReadDirective(pieces[|pieces| - 1])
        case Some(directive) => [directive]
        case None => []
  }

  /** A max-age argument: digits, perhaps quoted, clamped to the largest age there is. */
  function ReadAge(argument: Option<string>): (age: Option<i64>)
    ensures age.Some? ==> age.value >= 0
  {
    if argument.None? then None
    else
      var digits := Trim(argument.value, IsQuote);
      if digits == "" || !AllDigits(digits) then None
      else if ReadDecimal(digits) > I64_MAX then Some(I64_MAX)
      else Some(ReadDecimal(digits))
  }

  predicate Names(directives: seq<Directive>, name: string) {
    exists i :: 0 <= i < |directives| && directives[i].name == name
  }

  ghost predicate Distinct(directives: seq<Directive>) {
    forall i, j :: 0 <= i < j < |directives| ==> directives[i].name != directives[j].name
  }

  /** What a list of directives says: an age is required, and nothing may be said twice. */
  ghost predicate Says(directives: seq<Directive>, policy: Policy) {
    && Distinct(directives)
    && (exists i :: 0 <= i < |directives| && directives[i].name == "max-age"
                    && ReadAge(directives[i].argument) == Some(policy.maxAge))
    && (policy.includeSubdomains <==> Names(directives, "includesubdomains"))
    && (policy.preload <==> Names(directives, "preload"))
  }

  /** What a field value says, if anything can be made of it at all. */
  ghost function Meaning(value: string): Option<Policy> {
    var directives := Directives(Split(value, ';'));
    if policy :| Says(directives, policy) then Some(policy) else None
  }

  /** No field says two things. */
  lemma SaysOnce(directives: seq<Directive>, p: Policy, q: Policy)
    requires Says(directives, p) && Says(directives, q)
    ensures p == q
  {
    hide ReadAge;
    var i :| 0 <= i < |directives| && directives[i].name == "max-age"
             && ReadAge(directives[i].argument) == Some(p.maxAge);
    var j :| 0 <= j < |directives| && directives[j].name == "max-age"
             && ReadAge(directives[j].argument) == Some(q.maxAge);
    assert i == j;
  }

  lemma MeaningIs(value: string, policy: Policy)
    requires Says(Directives(Split(value, ';')), policy)
    ensures Meaning(value) == Some(policy)
  {
    hide Says, Directives;
    SaysOnce(Directives(Split(value, ';')), policy, Meaning(value).value);
  }

  lemma {:induction false} DirectivesPrefix(pieces: seq<string>, count: nat)
    requires count <= |pieces|
    ensures Directives(pieces[..count]) <= Directives(pieces)
    decreases |pieces|
  {
    hide ReadDirective;
    if count < |pieces| {
      var front := pieces[..|pieces| - 1];
      DirectivesPrefix(front, count);
      assert front[..count] == pieces[..count];
    } else {
      assert pieces[..count] == pieces;
    }
  }

  /** A directive said twice, or an age that is not one, spoils the whole field. */
  lemma SpoiltStays(front: seq<Directive>, directives: seq<Directive>, policy: Policy)
    requires front <= directives && Says(directives, policy)
    ensures Distinct(front)
    ensures forall i :: 0 <= i < |front| && front[i].name == "max-age"
                        ==> ReadAge(front[i].argument) == Some(policy.maxAge)
  {
    hide ReadAge;
    var j :| 0 <= j < |directives| && directives[j].name == "max-age"
             && ReadAge(directives[j].argument) == Some(policy.maxAge);
    assert forall i | 0 <= i < |front| :: front[i] == directives[i];
  }

  /** Whether a policy being read reflects the directives read so far. */
  ghost predicate SoFar(directives: seq<Directive>, seen: set<string>, policy: Policy) {
    && Distinct(directives)
    && (forall name :: name in seen <==> Names(directives, name))
    && (policy.maxAge < 0 <==> !Names(directives, "max-age"))
    && (forall i :: 0 <= i < |directives| && directives[i].name == "max-age" ==>
          ReadAge(directives[i].argument) == Some(policy.maxAge))
    && (policy.includeSubdomains <==> Names(directives, "includesubdomains"))
    && (policy.preload <==> Names(directives, "preload"))
  }

  function Applied(policy: Policy, directive: Directive): Option<Policy> {
    if directive.name == "max-age" then
      match ReadAge(directive.argument)
      case Some(age) => Some(policy.(maxAge := age))
      case None => None
    else if directive.name == "includesubdomains" then Some(policy.(includeSubdomains := true))
    else if directive.name == "preload" then Some(policy.(preload := true))
    else Some(policy)
  }

  lemma SoFarGrows(front: seq<Directive>, seen: set<string>, policy: Policy, directive: Directive)
    requires SoFar(front, seen, policy) && directive.name !in seen
    requires Applied(policy, directive).Some?
    ensures SoFar(front + [directive], seen + {directive.name}, Applied(policy, directive).value)
  {
    var directives := front + [directive];
    var after := Applied(policy, directive).value;
    assert directives[|front|] == directive && forall i | 0 <= i < |front| :: directives[i] == front[i];
    forall name ensures Names(directives, name) <==> Names(front, name) || name == directive.name {
      assert Names(front, name) ==> exists i :: 0 <= i < |front| && directives[i].name == name;
    }
    assert !Names(front, directive.name);
    assert forall i | 0 <= i < |front| :: front[i].name != directive.name;
    if directive.name == "max-age" {
      assert ReadAge(directive.argument) == Some(after.maxAge);
    }
  }

  lemma DirectivesStep(pieces: seq<string>, i: nat)
    requires i < |pieces|
    ensures Directives(pieces[..i + 1])
            == if ReadDirective(pieces[i]).Some? then Directives(pieces[..i]) + [ReadDirective(pieces[i]).value]
               else Directives(pieces[..i])
  {
    hide ReadDirective;
    assert pieces[..i + 1][..i] == pieces[..i];
  }

  lemma Spoils(front: seq<Directive>, seen: set<string>, policy: Policy, directive: Directive, all: seq<Directive>)
    requires SoFar(front, seen, policy) && front + [directive] <= all
    requires directive.name in seen || Applied(policy, directive).None?
    ensures forall p :: !Says(all, p)
  {
    hide Says, ReadAge;
    assert (front + [directive])[|front|] == directive;
    assert forall i | 0 <= i < |front| :: (front + [directive])[i] == front[i];
    forall p ensures !Says(all, p) {
      if Says(all, p) {
        SpoiltStays(front + [directive], all, p);
      }
    }
  }

  lemma SoFarEnds(all: seq<Directive>, seen: set<string>, policy: Policy)
    requires SoFar(all, seen, policy)
    ensures policy.maxAge >= 0 ==> Says(all, policy)
    ensures policy.maxAge < 0 ==> forall p :: !Says(all, p)
  {
    hide ReadAge;
  }

  lemma MeaningNone(value: string)
    requires forall p :: !Says(Directives(Split(value, ';')), p)
    ensures Meaning(value) == None
  {
    hide Says, Directives;
  }

  /** Reads a field value, one directive at a time. */
  method Parse(value: string) returns (result: Option<Policy>)
    ensures result == Meaning(value)
  {
    hide ReadDirective, Directives, SoFar, Says, ReadAge, Meaning, Applied;
    var pieces := Split(value, ';');
    ghost var all := Directives(pieces);
    assert pieces[..|pieces|] == pieces;
    var policy, seen := Policy(-1, false, false), {};
    SoFarStarts(pieces);
    for i := 0 to |pieces|
      invariant SoFar(Directives(pieces[..i]), seen, policy)
    {
      ghost var front := Directives(pieces[..i]);
      DirectivesStep(pieces, i);
      DirectivesPrefix(pieces, i + 1);
      var directive := ReadDirective(pieces[i]);
      if directive.Some? {
        var after := Applied(policy, directive.value);
        if directive.value.name in seen || after.None? {
          Spoils(front, seen, policy, directive.value, all);
          MeaningNone(value);
          return None;
        }
        SoFarGrows(front, seen, policy, directive.value);
        seen := seen + {directive.value.name};
        policy := after.value;
      }
    }
    SoFarEnds(all, seen, policy);
    if policy.maxAge < 0 {
      MeaningNone(value);
      return None;
    }
    MeaningIs(value, policy);
    return Some(policy);
  }

  lemma SoFarStarts(pieces: seq<string>)
    ensures SoFar(Directives(pieces[..0]), {}, Policy(-1, false, false))
  {
  }

  // --- what is written is what is read

  lemma ReadAgeDirective(digits: string)
    requires digits != "" && forall i :: 0 <= i < |digits| ==> IsDigit(digits[i])
    ensures ReadDirective("max-age=" + digits) == Some(Directive("max-age", Some(digits)))
  {
    var piece := "max-age=" + digits;
    assert piece == "max-age" + ['='] + digits;
    assert IsDigit(piece[|piece| - 1]) && IsDigit(digits[0]) && IsDigit(digits[|digits| - 1]);
    TrimKeeps(piece, IsSpace);
    SplitOnceFront("max-age", '=', digits);
    TrimKeeps("max-age", IsSpace);
    TrimKeeps(digits, IsSpace);
    assert Lowered("max-age") == "max-age";
  }

  /** A directive without an argument, written after a space. */
  lemma ReadFlag(name: string)
    requires name != "" && '=' !in name && !IsSpace(name[0]) && !IsSpace(name[|name| - 1])
    ensures ReadDirective(" " + name) == Some(Directive(Lowered(name), None))
  {
    assert (" " + name)[1..] == name;
    assert TrimStart(" " + name, IsSpace) == TrimStart(name, IsSpace) == name;
    TrimKeeps(name, IsSpace);
  }

  lemma ReadAgeOf(age: i64)
    ensures ReadAge(Some(Decimal(Max0(age)))) == Some(Max0(age))
  {
    var digits := Decimal(Max0(age));
    assert IsDigit(digits[0]) && IsDigit(digits[|digits| - 1]);
    TrimKeeps(digits, IsQuote);
    DecimalReadsBack(Max0(age));
  }

  function Age(policy: Policy): string {
    "max-age=" + Decimal(Max0(policy.maxAge))
  }

  function Flags(policy: Policy): seq<string> {
    (if policy.includeSubdomains then [" includeSubDomains"] else [])
    + (if policy.preload then [" preload"] else [])
  }

  function PlainFlags(policy: Policy): seq<string> {
    (if policy.includeSubdomains then ["includeSubDomains"] else []) + (if policy.preload then ["preload"] else [])
  }

  lemma JoinedOne(flag: string)
    ensures Joined([flag]) == "; " + flag && Spaced([flag]) == [" " + flag]
    ensures Joined([]) == "" && Spaced([]) == []
  {
    assert [flag][..0] == [];
  }

  lemma JoinedTwo(first: string, second: string)
    ensures Joined([first, second]) == "; " + first + "; " + second
    ensures Spaced([first, second]) == [" " + first, " " + second]
  {
    hide Joined, Spaced;
    JoinedOne(first);
    JoinedLast([first], second);
    assert [first] + [second] == [first, second];
  }

  lemma JoinedLast(parts: seq<string>, last: string)
    ensures Joined(parts + [last]) == Joined(parts) + "; " + last
    ensures Spaced(parts + [last]) == Spaced(parts) + [" " + last]
  {
    assert (parts + [last])[..|parts|] == parts;
  }

  lemma FlagTexts()
    ensures "; " + "includeSubDomains" == "; includeSubDomains" && "; " + "preload" == "; preload"
    ensures " " + "includeSubDomains" == " includeSubDomains" && " " + "preload" == " preload"
  {
  }

  lemma FlagsJoin(policy: Policy)
    ensures Piece("; includeSubDomains", policy.includeSubdomains) + Piece("; preload", policy.preload)
            == Joined(PlainFlags(policy))
    ensures Spaced(PlainFlags(policy)) == Flags(policy)
  {
    hide Joined, Spaced;
    FlagTexts();
    if policy.includeSubdomains && policy.preload {
      JoinedTwo("includeSubDomains", "preload");
      assert PlainFlags(policy) == ["includeSubDomains", "preload"];
      assert Flags(policy) == [" includeSubDomains", " preload"];
      assert "; includeSubDomains" + "; " + "preload" == "; includeSubDomains" + "; preload";
    } else if policy.includeSubdomains {
      JoinedOne("includeSubDomains");
      assert PlainFlags(policy) == ["includeSubDomains"] && Flags(policy) == [" includeSubDomains"];
      assert "; includeSubDomains" + "" == "; includeSubDomains";
    } else if policy.preload {
      JoinedOne("preload");
      assert PlainFlags(policy) == ["preload"] && Flags(policy) == [" preload"];
      assert "" + "; preload" == "; preload";
    } else {
      JoinedOne("");
      assert PlainFlags(policy) == [] && Flags(policy) == [];
    }
  }

  lemma NoSemicolons(policy: Policy)
    ensures ';' !in Age(policy) && forall i :: 0 <= i < |PlainFlags(policy)| ==> ';' !in PlainFlags(policy)[i]
  {
    hide Decimal;
  }

  /** The pieces a rendered field splits into. */
  lemma SplitRendered(policy: Policy)
    ensures Split(Render(policy), ';') == [Age(policy)] + Flags(policy)
  {
    hide Split, Decimal, Joined, Spaced, PlainFlags, Flags, Piece;
    FlagsJoin(policy);
    NoSemicolons(policy);
    var subdomains := Piece("; includeSubDomains", policy.includeSubdomains);
    var preload := Piece("; preload", policy.preload);
    assert Render(policy) == Age(policy) + subdomains + preload == Age(policy) + (subdomains + preload);
    SplitJoined(Age(policy), PlainFlags(policy));
  }

  lemma DirectivesAppend(pieces: seq<string>, last: string, directive: Directive)
    requires ReadDirective(last) == Some(directive)
    ensures Directives(pieces + [last]) == Directives(pieces) + [directive]
  {
    hide ReadDirective;
    assert (pieces + [last])[..|pieces|] == pieces;
  }

  lemma RenderedDirectives(policy: Policy)
    ensures Directives([Age(policy)] + Flags(policy))
            == [Directive("max-age", Some(Decimal(Max0(policy.maxAge))))]
               + (if policy.includeSubdomains then [Directive("includesubdomains", None)] else [])
               + (if policy.preload then [Directive("preload", None)] else [])
  {
    hide ReadDirective, Decimal;
    ReadAgeDirective(Decimal(Max0(policy.maxAge)));
    SubdomainsDirective();
    PreloadDirective();
    var pieces := [Age(policy)];
    DirectivesAppend([], Age(policy), Directive("max-age", Some(Decimal(Max0(policy.maxAge)))));
    assert [] + [Age(policy)] == pieces;
    if policy.includeSubdomains {
      DirectivesAppend(pieces, " includeSubDomains", Directive("includesubdomains", None));
      pieces := pieces + [" includeSubDomains"];
    }
    if policy.preload {
      DirectivesAppend(pieces, " preload", Directive("preload", None));
      pieces := pieces + [" preload"];
    }
    assert pieces == [Age(policy)] + Flags(policy);
  }

  lemma LoweredSubdomains()
    ensures Lowered("includeSubDomains") == "includesubdomains"
  {
  }

  lemma SubdomainsDirective()
    ensures ReadDirective(" includeSubDomains") == Some(Directive("includesubdomains", None))
  {
    hide ReadDirective, Lowered;
    ReadFlag("includeSubDomains");
    FlagTexts();
    LoweredSubdomains();
  }

  lemma PreloadDirective()
    ensures ReadDirective(" preload") == Some(Directive("preload", None))
  {
    hide ReadDirective;
    ReadFlag("preload");
    assert " " + "preload" == " preload";
    assert Lowered("preload") == "preload";
  }

  /** Reading a written policy gives it back, a negative age clamped to zero. */
  lemma RenderReadsBack(policy: Policy)
    ensures Meaning(Render(policy)) == Some(policy.(maxAge := Max0(policy.maxAge)))
  {
    hide Render, Split, Decimal, ReadAge, Directives, Meaning, Age, Flags;
    var back := policy.(maxAge := Max0(policy.maxAge));
    SplitRendered(policy);
    RenderedDirectives(policy);
    ReadAgeOf(policy.maxAge);
    var directives := Directives(Split(Render(policy), ';'));
    assert directives[0].name == "max-age";
    assert policy.includeSubdomains ==> directives[1].name == "includesubdomains";
    assert policy.preload ==> directives[|directives| - 1].name == "preload";
    MeaningIs(Render(policy), back);
  }
}
