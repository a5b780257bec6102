/** The Set-Cookie field, read and written; section 4.1 of RFC 6265. */
module SetCookies {
  import opened Wrappers
  import opened Texts

  datatype SameSite = Strict | Lax | Unrestricted

  datatype SetCookie = SetCookie(
    name: string,
    value: string,
    expires: Option<string>,
    maxAge: Option<i64>,
    domain: Option<string>,
    path: Option<string>,
    secure: bool,
    httpOnly: bool,
    sameSite: Option<SameSite>)

  function Plain(name: string, value: string): SetCookie {
    SetCookie(name, value, None, None, None, None, false, false, None)
  }

  // --- reading

  function ReadSameSite(value: string): Option<SameSite> {
    var lowered := Lowered(value);
    if lowered == "strict" then Some(Strict)
    else if lowered == "lax" then Some(Lax)
    else if lowered == "none" then Some(Unrestricted)
    else None
  }

  /** An age: perhaps a minus sign, then digits; too large a number saturates. */
  function ReadSignedAge(text: string): (age: Option<i64>)
    ensures age != Some(-I64_MAX - 1)
  {
    var negative := text != "" && text[0] == '-';
    var digits := if negative then text[1..] else text;
    if digits == "" || !AllDigits(digits) then None
    else
      var magnitude := if ReadDecimal(digits) > I64_MAX then I64_MAX else ReadDecimal(digits);
      Some(if negative then -magnitude else magnitude)
  }

  /** An attribute's name folded to lower case, and its value, empty when it has none. */
  function ReadAttribute(attribute: string): (string, string) {
    match SplitOnce(attribute, '=')
    case Some((key, raw)) => (Lowered(Trim(key, IsSpace)), Trim(raw, IsSpace))
    case None => (Lowered(Trim(attribute, IsSpace)), "")
  }

  function Assign(cookie: SetCookie, key: string, raw: string): SetCookie {
    if key == "expires" then cookie.(expires := Some(raw))
    else if key == "max-age" then cookie.(maxAge := ReadSignedAge(raw))
    else if key == "domain" then cookie.(domain := Some(raw))
    else if key == "path" then cookie.(path := Some(raw))
    else if key == "secure" then cookie.(secure := true)
    else if key == "httponly" then cookie.(httpOnly := true)
    else if key == "samesite" then cookie.(sameSite := ReadSameSite(raw))
    else cookie
  }

  function Attributed(cookie: SetCookie, attributes: seq<string>): SetCookie {
    if attributes == [] then cookie
    else
      var (key, raw) := ReadAttribute(attributes[|attributes| - 1]);
      Assign(Attributed(cookie, attributes[..|attributes| - 1]), key, raw)
  }

  /** The cookie a field sets; None when it carries no pair. */
  function Read(field: string): Option<SetCookie> {
    var parts := Split(field, ';');
    match SplitOnce(parts[0], '=')
    case None => None
    case Some((name, value)) => Some(Attributed(Plain(Trim(name, IsSpace), Trim(value, IsSpace)), parts[1..]))
  }

  method Parse(field: string) returns (result: Option<SetCookie>)
    ensures result == Read(field)
  {
    hide ReadAttribute, Assign;
    var parts := Split(field, ';');
    var pair := SplitOnce(parts[0], '=');
    if pair.None? {
      return None;
    }
    var attributes := parts[1..];
    var cookie := Plain(Trim(pair.value.0, IsSpace), Trim(pair.value.1, IsSpace));
    ghost var plain := cookie;
    for i := 0 to |attributes|
      invariant cookie == Attributed(plain, attributes[..i])
    {
      assert attributes[..i + 1][..i] == attributes[..i];
      var (key, raw) := ReadAttribute(attributes[i]);
      cookie := Assign(cookie, key, raw);
    }
    assert attributes[..|attributes|] == attributes;
    return Some(cookie);
  }

  // --- writing

  predicate IsSeparator(c: char) {
    c <= ' ' || c == '\U{7F}' || c in "()<>@,;:\\\"/[]?={}"
  }

  predicate IsForbidden(c: char) {
    c < '!' || c > '~' || c in " \",;\\"
  }

  predicate Writable(cookie: SetCookie) {
    && cookie.name != ""
    && (forall i :: 0 <= i < |cookie.name| ==> !IsSeparator(cookie.name[i]))
    && (forall i :: 0 <= i < |cookie.value| ==> !IsForbidden(cookie.value[i]))
  }

  function Magnitude(age: int): nat {
    if age < 0 then -age else age
  }

  function Signed(age: i64): string {
    if age < 0 then "-" + Decimal(Magnitude(age)) else Decimal(Magnitude(age))
  }

  function SameSiteName(sameSite: SameSite): string {
    match sameSite
    case Strict => "Strict"
    case Lax => "Lax"
    case Unrestricted => "None"
  }

  function Labelled(lead: string, value: Option<string>): seq<string> {
    if value.Some? then [lead + "=" + value.value] else []
  }

  function Flag(lead: string, wanted: bool): seq<string> {
    if wanted then [lead] else []
  }

  function AgeText(cookie: SetCookie): Option<string> {
    if cookie.maxAge.Some? then Some(Signed(cookie.maxAge.value)) else None
  }

  function SiteText(cookie: SetCookie): Option<string> {
    if cookie.sameSite.Some? then Some(SameSiteName(cookie.sameSite.value)) else None
  }

  function Attributes(cookie: SetCookie): seq<string> {
    Labelled("Expires", cookie.expires)
    + Labelled("Max-Age", AgeText(cookie))
    + Labelled("Domain", cookie.domain)
    + Labelled("Path", cookie.path)
    + Flag("Secure", cookie.secure)
    + Flag("HttpOnly", cookie.httpOnly)
    + Labelled("SameSite", SiteText(cookie))
  }

  /** The field a cookie is written as; None for a name or value that would break out of it. */
  function Build(cookie: SetCookie): Option<string> {
    if Writable(cookie) then Some(cookie.name + "=" + cookie.value + Joined(Attributes(cookie))) else None
  }

  // --- reading what was written

  /** A text that survives standing between two semicolons. */
  predicate CleanText(text: string) {
    ';' !in text && Trim(text, IsSpace) == text
  }

  predicate Clean(text: Option<string>) {
    text.Some? ==> CleanText(text.value)
  }

  /** What a field can carry: everything trimmed, no semicolon inside, and not the one age without a magnitude. */
  predicate Carried(cookie: SetCookie) {
    && CleanText(cookie.name)
    && Clean(cookie.expires) && Clean(cookie.domain) && Clean(cookie.path)
    && cookie.maxAge != Some(-I64_MAX - 1)
  }

  lemma AttributeIsClean(attribute: string)
    requires ';' !in attribute
    ensures CleanText(ReadAttribute(attribute).1)
  {
    match SplitOnce(attribute, '=')
    case Some((_, raw)) => TrimLeaves(raw, IsSpace);
    case None =>
  }

  /** An attribute changes no name, and a text or an age only to what it says. */
  lemma AssignedIs(cookie: SetCookie, key: string, raw: string)
    ensures var given := Assign(cookie, key, raw);
            && given.name == cookie.name
            && (given.expires == cookie.expires || given.expires == Some(raw))
            && (given.domain == cookie.domain || given.domain == Some(raw))
            && (given.path == cookie.path || given.path == Some(raw))
            && (given.maxAge == cookie.maxAge || given.maxAge == ReadSignedAge(raw))
  {
    hide ReadSignedAge, ReadSameSite;
  }

  lemma AssignedIsCarried(cookie: SetCookie, key: string, raw: string)
    requires Carried(cookie) && CleanText(raw)
    ensures Carried(Assign(cookie, key, raw))
  {
    hide Assign, CleanText, ReadSignedAge;
    AssignedIs(cookie, key, raw);
  }

  lemma {:induction false} AttributedIsCarried(cookie: SetCookie, attributes: seq<string>)
    requires Carried(cookie) && forall i :: 0 <= i < |attributes| ==> ';' !in attributes[i]
    ensures Carried(Attributed(cookie, attributes))
  {
    hide ReadAttribute, CleanText, Assign, Carried;
    if attributes != [] {
      var front, last := attributes[..|attributes| - 1], attributes[|attributes| - 1];
      AttributedIsCarried(cookie, front);
      AttributeIsClean(last);
      AssignedIsCarried(Attributed(cookie, front), ReadAttribute(last).0, ReadAttribute(last).1);
    }
  }

  /** Whatever is read could have been carried. */
  lemma ReadIsCarried(field: string)
    ensures Read(field).Some? ==> Carried(Read(field).value)
  {
    hide Split, Attributed;
    SplitPieces(field, ';');
    var parts := Split(field, ';');
    match SplitOnce(parts[0], '=')
    case None =>
    case Some((name, value)) =>
      assert ';' !in parts[0];
      TrimLeaves(name, IsSpace);
      AttributedIsCarried(Plain(Trim(name, IsSpace), Trim(value, IsSpace)), parts[1..]);
  }

  lemma SignedReadsBack(age: i64)
    requires age != -I64_MAX - 1
    ensures ReadSignedAge(Signed(age)) == Some(age) && CleanText(Signed(age))
  {
    hide Decimal, ReadDecimal, CleanText;
    var digits := Decimal(Magnitude(age));
    DecimalReadsBack(Magnitude(age));
    SignedIsClean(age);
    if age < 0 {
      assert Signed(age)[1..] == digits;
    } else {
      assert IsDigit(digits[0]);
    }
  }

  lemma SignedIsClean(age: i64)
    ensures CleanText(Signed(age))
  {
    hide Decimal, Trim;
    var text, digits := Signed(age), Decimal(Magnitude(age));
    assert text == digits || text == "-" + digits;
    assert forall i | 0 <= i < |text| :: text[i] == '-' || IsDigit(text[i]);
    TrimKeeps(text, IsSpace);
  }

  /** An attribute written behind a space is read as its name and its value. */
  lemma ReadsLabelled(attribute: string, lead: string, value: string)
    requires attribute == " " + lead + "=" + value
    requires lead != "" && '=' !in lead && !IsSpace(lead[0]) && !IsSpace(lead[|lead| - 1])
    requires Trim(value, IsSpace) == value
    ensures ReadAttribute(attribute) == (Lowered(lead), value)
  {
    hide Trim;
    assert attribute == (" " + lead) + ['='] + value;
    SplitOnceFront(" " + lead, '=', value);
    TrimsLeadingSpace(lead);
  }

  lemma ReadsFlag(lead: string)
    requires lead != "" && '=' !in lead && !IsSpace(lead[0]) && !IsSpace(lead[|lead| - 1])
    ensures ReadAttribute(" " + lead) == (Lowered(lead), "")
  {
    hide Trim;
    TrimsLeadingSpace(lead);
  }

  lemma TrimsLeadingSpace(text: string)
    requires text != "" && !IsSpace(text[0]) && !IsSpace(text[|text| - 1])
    ensures Trim(" " + text, IsSpace) == text
  {
    assert (" " + text)[1..] == text;
    assert TrimStart(" " + text, IsSpace) == TrimStart(text, IsSpace) == text;
    TrimKeeps(text, IsSpace);
  }

  lemma LoweredLabels()
    ensures Lowered("Expires") == "expires" && Lowered("Max-Age") == "max-age"
    ensures Lowered("Domain") == "domain" && Lowered("Path") == "path"
    ensures Lowered("Secure") == "secure" && Lowered("HttpOnly") == "httponly"
    ensures Lowered("SameSite") == "samesite"
  {
  }

  lemma SiteReadsBack(sameSite: SameSite)
    ensures ReadSameSite(SameSiteName(sameSite)) == Some(sameSite) && CleanText(SameSiteName(sameSite))
  {
    assert Lowered("Strict") == "strict" && Lowered("Lax") == "lax" && Lowered("None") == "none";
    TrimKeeps(SameSiteName(sameSite), IsSpace);
  }

  lemma Appended(cookie: SetCookie, parts: seq<string>, last: string)
    ensures Attributed(cookie, Spaced(parts + [last]))
            == var (key, raw) := ReadAttribute(" " + last); Assign(Attributed(cookie, Spaced(parts)), key, raw)
  {
    hide ReadAttribute, Assign;
    assert (parts + [last])[..|parts|] == parts;
    assert Spaced(parts + [last]) == Spaced(parts) + [" " + last];
    assert Spaced(parts + [last])[..|Spaced(parts)|] == Spaced(parts);
  }

  /** Whether a text names an attribute no character of which reading changes but in case. */
  predicate IsLead(lead: string) {
    lead != "" && '=' !in lead && ';' !in lead && !IsSpace(lead[0]) && !IsSpace(lead[|lead| - 1])
  }

  lemma LabelledStage(cookie: SetCookie, parts: seq<string>, lead: string, value: Option<string>)
    requires IsLead(lead) && Clean(value)
    ensures var before := Attributed(cookie, Spaced(parts));
            Attributed(cookie, Spaced(parts + Labelled(lead, value)))
            == if value.Some? then Assign(before, Lowered(lead), value.value) else before
  {
    hide ReadAttribute, Assign, Attributed, Spaced;
    if value.Some? {
      Appended(cookie, parts, lead + "=" + value.value);
      ReadsLabelled(" " + (lead + "=" + value.value), lead, value.value);
    } else {
      assert parts + [] == parts;
    }
  }

  lemma FlagStage(cookie: SetCookie, parts: seq<string>, lead: string, wanted: bool)
    requires IsLead(lead)
    ensures var before := Attributed(cookie, Spaced(parts));
            Attributed(cookie, Spaced(parts + Flag(lead, wanted)))
            == if wanted then Assign(before, Lowered(lead), "") else before
  {
    hide ReadAttribute, Assign, Attributed, Spaced;
    if wanted {
      Appended(cookie, parts, lead);
      ReadsFlag(lead);
    } else {
      assert parts + [] == parts;
    }
  }

  lemma TextsAreClean(cookie: SetCookie)
    requires cookie.maxAge != Some(-I64_MAX - 1)
    ensures Clean(AgeText(cookie)) && Clean(SiteText(cookie))
    ensures AgeText(cookie).Some? == cookie.maxAge.Some? && SiteText(cookie).Some? == cookie.sameSite.Some?
    ensures cookie.maxAge.Some? ==> ReadSignedAge(AgeText(cookie).value) == cookie.maxAge
    ensures cookie.sameSite.Some? ==> ReadSameSite(SiteText(cookie).value) == cookie.sameSite
  {
    hide ReadSignedAge, ReadSameSite, CleanText, Signed, SameSiteName;
    if cookie.maxAge.Some? {
      SignedReadsBack(cookie.maxAge.value);
    }
    if cookie.sameSite.Some? {
      SiteReadsBack(cookie.sameSite.value);
    }
  }

  function Lifetime(cookie: SetCookie): seq<string> {
    Labelled("Expires", cookie.expires) + Labelled("Max-Age", AgeText(cookie))
    + Labelled("Domain", cookie.domain) + Labelled("Path", cookie.path)
  }

  lemma LifetimeReadsBack(cookie: SetCookie)
    requires Carried(cookie)
    ensures Attributed(Plain(cookie.name, cookie.value), Spaced(Lifetime(cookie)))
            == SetCookie(cookie.name, cookie.value, cookie.expires, cookie.maxAge, cookie.domain, cookie.path,
                         false, false, None)
  {
    hide ReadAttribute, Attributed, Spaced, CleanText, ReadSignedAge, ReadSameSite;
    hide Labelled, Lowered, AgeText, SiteText, Assign;
    TextsAreClean(cookie);
    LoweredLabels();
    AssignEach();
    var plain := Plain(cookie.name, cookie.value);
    NoAttributes(plain);
    LabelledStage(plain, [], "Expires", cookie.expires);
    var parts := [] + Labelled("Expires", cookie.expires);
    LabelledStage(plain, parts, "Max-Age", AgeText(cookie));
    parts := parts + Labelled("Max-Age", AgeText(cookie));
    LabelledStage(plain, parts, "Domain", cookie.domain);
    parts := parts + Labelled("Domain", cookie.domain);
    LabelledStage(plain, parts, "Path", cookie.path);
    assert parts + Labelled("Path", cookie.path) == Lifetime(cookie);
  }

  /** Attributes written are attributes read. */
  lemma AttributesReadBack(cookie: SetCookie)
    requires Carried(cookie)
    ensures Attributed(Plain(cookie.name, cookie.value), Spaced(Attributes(cookie))) == cookie
  {
    hide ReadAttribute, Attributed, Spaced, CleanText, ReadSignedAge, ReadSameSite;
    hide Labelled, Flag, Lowered, AgeText, SiteText, Assign, Lifetime, Attributes;
    LifetimeReadsBack(cookie);
    TextsAreClean(cookie);
    LoweredLabels();
    AssignEach();
    var plain, parts := Plain(cookie.name, cookie.value), Lifetime(cookie);
    FlagStage(plain, parts, "Secure", cookie.secure);
    parts := parts + Flag("Secure", cookie.secure);
    FlagStage(plain, parts, "HttpOnly", cookie.httpOnly);
    parts := parts + Flag("HttpOnly", cookie.httpOnly);
    LabelledStage(plain, parts, "SameSite", SiteText(cookie));
    AttributesAre(cookie);
  }

  lemma AttributesAre(cookie: SetCookie)
    ensures Attributes(cookie)
            == Lifetime(cookie) + Flag("Secure", cookie.secure) + Flag("HttpOnly", cookie.httpOnly)
               + Labelled("SameSite", SiteText(cookie))
  {
    hide Labelled, Flag;
  }

  lemma AssignEach()
    ensures forall c, raw :: Assign(c, "expires", raw) == c.(expires := Some(raw))
    ensures forall c, raw :: Assign(c, "max-age", raw) == c.(maxAge := ReadSignedAge(raw))
    ensures forall c, raw :: Assign(c, "domain", raw) == c.(domain := Some(raw))
    ensures forall c, raw :: Assign(c, "path", raw) == c.(path := Some(raw))
    ensures forall c, raw :: Assign(c, "secure", raw) == c.(secure := true)
    ensures forall c, raw :: Assign(c, "httponly", raw) == c.(httpOnly := true)
    ensures forall c, raw :: Assign(c, "samesite", raw) == c.(sameSite := ReadSameSite(raw))
  {
    hide ReadSignedAge, ReadSameSite;
  }

  lemma NoAttributes(cookie: SetCookie)
    ensures Attributed(cookie, Spaced([])) == cookie
  {
  }

  lemma AttributesHoldNoSemicolon(cookie: SetCookie)
    requires Carried(cookie)
    ensures forall i :: 0 <= i < |Attributes(cookie)| ==> ';' !in Attributes(cookie)[i]
  {
    hide ReadSignedAge, ReadSameSite, AgeText, SiteText, Labelled, Flag, Trim;
    TextsAreClean(cookie);
    LabelledHoldsNone("Expires", cookie.expires);
    LabelledHoldsNone("Max-Age", AgeText(cookie));
    LabelledHoldsNone("Domain", cookie.domain);
    LabelledHoldsNone("Path", cookie.path);
    FlagHoldsNone("Secure", cookie.secure);
    FlagHoldsNone("HttpOnly", cookie.httpOnly);
    LabelledHoldsNone("SameSite", SiteText(cookie));
  }

  lemma LabelledHoldsNone(lead: string, value: Option<string>)
    requires ';' !in lead && Clean(value)
    ensures forall i :: 0 <= i < |Labelled(lead, value)| ==> ';' !in Labelled(lead, value)[i]
  {
    hide Trim;
  }

  lemma FlagHoldsNone(lead: string, wanted: bool)
    requires ';' !in lead
    ensures forall i :: 0 <= i < |Flag(lead, wanted)| ==> ';' !in Flag(lead, wanted)[i]
  {
  }

  lemma WritableParts(cookie: SetCookie)
    requires Writable(cookie)
    ensures '=' !in cookie.name && ';' !in cookie.name && ';' !in cookie.value
    ensures Trim(cookie.value, IsSpace) == cookie.value
  {
    assert IsSeparator('=') && IsSeparator(';') && IsForbidden(';');
    if cookie.value != "" {
      assert !IsForbidden(cookie.value[0]) && !IsForbidden(cookie.value[|cookie.value| - 1]);
    }
    TrimKeeps(cookie.value, IsSpace);
  }

  /**
   * A cookie that can be written at all is read back as itself exactly when
   * everything in it can be carried: among the rest, when no attribute holds
   * a semicolon or outer white space, and neither does the name, whose
   * characters beyond ASCII writing does not look at.
   */
  lemma BuiltReadsBackIff(cookie: SetCookie)
    requires Build(cookie).Some?
    ensures Read(Build(cookie).value) == Some(cookie) <==> Carried(cookie)
  {
    hide Split, Attributed, Attributes, Joined, Spaced, CleanText, Writable;
    var text := Build(cookie).value;
    ReadIsCarried(text);
    if Carried(cookie) {
      WritableParts(cookie);
      AttributesHoldNoSemicolon(cookie);
      SplitJoined(cookie.name + "=" + cookie.value, Attributes(cookie));
      SplitOnceFront(cookie.name, '=', cookie.value);
      assert cookie.name + "=" + cookie.value == cookie.name + ['='] + cookie.value;
      CleanIsTrimmed(cookie.name);
      AttributesReadBack(cookie);
      var parts := Split(text, ';');
      assert parts == [cookie.name + "=" + cookie.value] + Spaced(Attributes(cookie));
      assert parts[1..] == Spaced(Attributes(cookie));
    }
  }

  lemma CleanIsTrimmed(text: string)
    requires CleanText(text)
    ensures Trim(text, IsSpace) == text
  {
  }

  lemma NoSeparator(c: char)
    requires 'a' <= c <= 'z' || c > '\U{7F}'
    ensures !IsSeparator(c)
  {
  }

  lemma SpacedNameIsWritable()
    ensures Writable(Plain("\U{3000}id", ""))
  {
    hide IsSeparator, IsForbidden;
    var name := "\U{3000}id";
    forall i | 0 <= i < |name| ensures !IsSeparator(name[i]) {
      NoSeparator(name[i]);
    }
  }

  /** A name may be written that reading then trims. */
  lemma OuterSpaceIsLost()
    ensures var cookie := Plain("\U{3000}id", "");
            Build(cookie).Some? && Read(Build(cookie).value) != Some(cookie)
  {
    hide Joined, Split, Attributed, Attributes, Read, Trim, Writable;
    var cookie := Plain("\U{3000}id", "");
    SpacedNameIsWritable();
    TrimCuts(cookie.name, IsSpace);
    BuiltReadsBackIff(cookie);
  }
}
