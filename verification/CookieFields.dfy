/** The fields a cookie may be set by, and the cookie each of them sets. */
module CookieFields {
  import opened Wrappers
  import opened Texts
  import opened Parts
  import opened SetCookies

  // --- what a field sets

  /** What a part gives for its name: the text behind the equals sign, or none. */
  function TextOf(part: Part): string {
    if part.Valued? then part.text else ""
  }

  /** The last attribute of a name stands at a place. */
  ghost predicate LastAt(parts: seq<Part>, name: string, k: nat) {
    && 0 < k < |parts| && Named(parts[k], name)
    && forall j | k < j < |parts| :: !Named(parts[j], name)
  }

  /** The last attribute of a name says this, or there is none and nothing is said. */
  ghost predicate LastSays(parts: seq<Part>, name: string, said: Option<string>) {
    match said
    case None => forall j | 0 < j < |parts| :: !Named(parts[j], name)
    case Some(text) => exists k: nat :: LastAt(parts, name, k) && TextOf(parts[k]) == text
  }

  /** A text says an age: perhaps a minus sign, and digits; one past the largest is the largest. */
  ghost predicate SaysAge(text: string, age: i64) {
    exists sign: string, digits: string ::
      && text == sign + digits && (sign == "" || sign == "-") && digits != "" && AllDigits(digits)
      && var size := if ReadDecimal(digits) > I64_MAX then I64_MAX else ReadDecimal(digits);
         age == if sign == "-" then -size else size
  }

  ghost predicate SaysSite(text: string, site: SameSite) {
    || (Lowered(text) == "strict" && site == Strict) || (Lowered(text) == "lax" && site == Lax)
    || (Lowered(text) == "none" && site == Unrestricted)
  }

  /** The last Max-Age decides the age, and gives none when it is not one. */
  ghost predicate AgeIs(parts: seq<Part>, age: Option<i64>) {
    match age
    case Some(seconds) => exists text :: LastSays(parts, "max-age", Some(text)) && SaysAge(text, seconds)
    case None => || LastSays(parts, "max-age", None)
                 || exists text :: LastSays(parts, "max-age", Some(text)) && forall n: i64 :: !SaysAge(text, n)
  }

  ghost predicate SiteIs(parts: seq<Part>, site: Option<SameSite>) {
    match site
    case Some(which) => exists text :: LastSays(parts, "samesite", Some(text)) && SaysSite(text, which)
    case None => || LastSays(parts, "samesite", None)
                 || exists text :: LastSays(parts, "samesite", Some(text)) && forall s :: !SaysSite(text, s)
  }

  ghost predicate HasFlag(parts: seq<Part>, name: string) {
    exists k :: 0 < k < |parts| && Named(parts[k], name)
  }

  /** The first part gives the name and the value; of each attribute the last one counts, and unknown ones do not. */
  ghost predicate Sets(parts: seq<Part>, cookie: SetCookie) {
    && parts != [] && parts[0].Valued?
    && cookie.name == parts[0].name && cookie.value == parts[0].text
    && LastSays(parts, "expires", cookie.expires) && LastSays(parts, "domain", cookie.domain)
    && LastSays(parts, "path", cookie.path)
    && AgeIs(parts, cookie.maxAge) && SiteIs(parts, cookie.sameSite)
    && (cookie.secure <==> HasFlag(parts, "secure")) && (cookie.httpOnly <==> HasFlag(parts, "httponly"))
  }

  // --- reading one part

  lemma ReadsPart(part: Part)
    requires Sound(part)
    ensures ReadAttribute(Written(part)) == (if part.Blank? then "" else Lowered(part.name), TextOf(part))
  {
    hide IsSpace, Trim, Lowered, SplitOnce;
    match part
    case Blank(space) =>
      SpaceHasNoMark(space);
      BlankTrims(space);
      LoweredNothing();
    case Flag(before, name, after) =>
      SpaceHasNoMark(before);
      SpaceHasNoMark(after);
      TightTrims(before, name, after);
    case Valued(before, name, gap, lead, text, after) => ReadsValued(part);
  }

  lemma LoweredNothing()
    ensures Lowered("") == ""
  {
  }

  lemma ReadsValued(part: Part)
    requires Sound(part) && part.Valued?
    ensures SplitOnce(Written(part), '=').Some?
    ensures var (key, raw) := SplitOnce(Written(part), '=').value;
            Trim(key, IsSpace) == part.name && Trim(raw, IsSpace) == part.text
  {
    hide IsSpace, Trim, SplitOnce;
    match part
    case Valued(before, name, gap, lead, text, after) =>
      SpaceHasNoMark(before);
      SpaceHasNoMark(gap);
      TightTrims(before, name, gap);
      TightTrims(lead, text, after);
      assert Written(part) == (before + name + gap) + ['='] + (lead + text + after);
      SplitOnceFront(before + name + gap, '=', lead + text + after);
  }

  // --- one attribute more

  lemma LastAtGrows(parts: seq<Part>, part: Part, name: string, k: nat)
    requires parts != []
    ensures LastAt(parts + [part], name, k)
            <==> if Named(part, name) then k == |parts| else LastAt(parts, name, k)
  {
    hide Named;
    var all := parts + [part];
    assert all[|parts|] == part && forall i | 0 <= i < |parts| :: all[i] == parts[i];
  }

  lemma LastSaysGrows(parts: seq<Part>, part: Part, name: string, said: Option<string>)
    requires parts != []
    ensures LastSays(parts + [part], name, said)
            <==> if Named(part, name) then said == Some(TextOf(part)) else LastSays(parts, name, said)
  {
    hide Named, LastAt, TextOf;
    var all := parts + [part];
    assert all[|parts|] == part && forall i | 0 <= i < |parts| :: all[i] == parts[i];
    forall k: nat ensures LastAt(all, name, k) <==> if Named(part, name) then k == |parts| else LastAt(parts, name, k) {
      LastAtGrows(parts, part, name, k);
    }
    forall k: nat | LastAt(parts, name, k) ensures k < |parts| {
      LastAtInside(parts, name, k);
    }
  }

  lemma LastAtInside(parts: seq<Part>, name: string, k: nat)
    requires LastAt(parts, name, k)
    ensures k < |parts|
  {
  }

  lemma HasFlagGrows(parts: seq<Part>, part: Part, name: string)
    requires parts != []
    ensures HasFlag(parts + [part], name) <==> HasFlag(parts, name) || Named(part, name)
  {
    hide Named;
    var all := parts + [part];
    assert all[|parts|] == part && forall i | 0 <= i < |parts| :: all[i] == parts[i];
  }

  lemma AgeIff(text: string, age: i64)
    ensures ReadSignedAge(text) == Some(age) <==> SaysAge(text, age)
  {
    hide ReadDecimal;
    if ReadSignedAge(text) == Some(age) {
      var sign := if text[0] == '-' then "-" else "";
      assert text == sign + (if text[0] == '-' then text[1..] else text);
    }
    if SaysAge(text, age) {
      SaidAgeIsRead(text, age);
    }
  }

  lemma SaidAgeIsRead(text: string, age: i64)
    requires SaysAge(text, age)
    ensures ReadSignedAge(text) == Some(age)
  {
    hide ReadDecimal;
    var sign: string, digits: string :|
      && text == sign + digits && (sign == "" || sign == "-") && digits != "" && AllDigits(digits)
      && var size := if ReadDecimal(digits) > I64_MAX then I64_MAX else ReadDecimal(digits);
         age == if sign == "-" then -size else size;
    assert IsDigit(digits[0]);
    if sign == "-" {
      assert text[1..] == digits;
    } else {
      assert text == digits;
    }
  }

  lemma SiteIff(text: string, site: SameSite)
    ensures ReadSameSite(text) == Some(site) <==> SaysSite(text, site)
  {
    hide Lowered;
  }

  lemma AgeGrows(parts: seq<Part>, part: Part, age: Option<i64>)
    requires parts != [] && AgeIs(parts, age)
    ensures AgeIs(parts + [part], if Named(part, "max-age") then ReadSignedAge(TextOf(part)) else age)
  {
    hide Named, LastSays, SaysAge, ReadSignedAge;
    forall said ensures LastSays(parts + [part], "max-age", said)
                        <==> if Named(part, "max-age") then said == Some(TextOf(part))
                             else LastSays(parts, "max-age", said)
    {
      LastSaysGrows(parts, part, "max-age", said);
    }
    if Named(part, "max-age") {
      forall n: i64 ensures ReadSignedAge(TextOf(part)) == Some(n) <==> SaysAge(TextOf(part), n) {
        AgeIff(TextOf(part), n);
      }
      assert LastSays(parts + [part], "max-age", Some(TextOf(part)));
    }
  }

  lemma SiteGrows(parts: seq<Part>, part: Part, site: Option<SameSite>)
    requires parts != [] && SiteIs(parts, site)
    ensures SiteIs(parts + [part], if Named(part, "samesite") then ReadSameSite(TextOf(part)) else site)
  {
    hide Named, LastSays, SaysSite, ReadSameSite;
    forall said ensures LastSays(parts + [part], "samesite", said)
                        <==> if Named(part, "samesite") then said == Some(TextOf(part))
                             else LastSays(parts, "samesite", said)
    {
      LastSaysGrows(parts, part, "samesite", said);
    }
    if Named(part, "samesite") {
      forall s ensures ReadSameSite(TextOf(part)) == Some(s) <==> SaysSite(TextOf(part), s) {
        SiteIff(TextOf(part), s);
      }
      assert LastSays(parts + [part], "samesite", Some(TextOf(part)));
    }
  }

  /** What an attribute assigns, by its part. */
  lemma AssignIs(cookie: SetCookie, part: Part)
    ensures var after := Assign(cookie, if part.Blank? then "" else Lowered(part.name), TextOf(part));
            && after.name == cookie.name && after.value == cookie.value
            && after.expires == (if Named(part, "expires") then Some(TextOf(part)) else cookie.expires)
            && after.domain == (if Named(part, "domain") then Some(TextOf(part)) else cookie.domain)
            && after.path == (if Named(part, "path") then Some(TextOf(part)) else cookie.path)
            && after.maxAge == (if Named(part, "max-age") then ReadSignedAge(TextOf(part)) else cookie.maxAge)
            && after.sameSite == (if Named(part, "samesite") then ReadSameSite(TextOf(part)) else cookie.sameSite)
            && after.secure == (cookie.secure || Named(part, "secure"))
            && after.httpOnly == (cookie.httpOnly || Named(part, "httponly"))
  {
    hide Lowered, ReadSignedAge, ReadSameSite, TextOf;
  }

  lemma SetsGrows(parts: seq<Part>, part: Part, cookie: SetCookie)
    requires Sets(parts, cookie)
    ensures Sets(parts + [part], Assign(cookie, if part.Blank? then "" else Lowered(part.name), TextOf(part)))
  {
    hide Assign, Named, LastSays, AgeIs, SiteIs, HasFlag, TextOf, ReadSignedAge, ReadSameSite;
    AssignIs(cookie, part);
    var after := Assign(cookie, if part.Blank? then "" else Lowered(part.name), TextOf(part));
    LastSaysGrows(parts, part, "expires", after.expires);
    LastSaysGrows(parts, part, "domain", after.domain);
    LastSaysGrows(parts, part, "path", after.path);
    AgeGrows(parts, part, cookie.maxAge);
    SiteGrows(parts, part, cookie.sameSite);
    HasFlagGrows(parts, part, "secure");
    HasFlagGrows(parts, part, "httponly");
  }

  lemma PairAloneSets(part: Part)
    requires part.Valued?
    ensures Sets([part], Plain(part.name, part.text))
  {
  }

  lemma {:induction false} AttributesAreSet(parts: seq<Part>)
    requires AllSound(parts) && parts[0].Valued?
    ensures Sets(parts, Attributed(Plain(parts[0].name, parts[0].text), Pieces(parts[1..])))
  {
    hide Sets, Sound, Assign, ReadAttribute, Written, TextOf;
    if |parts| == 1 {
      assert parts == [parts[0]] && parts[1..] == [];
      PairAloneSets(parts[0]);
    } else {
      var front, last := parts[..|parts| - 1], parts[|parts| - 1];
      AttributesAreSet(front);
      assert parts[1..] == front[1..] + [last] && front + [last] == parts;
      PiecesGrow(front[1..], last);
      var pieces := Pieces(front[1..]);
      assert (pieces + [Written(last)])[..|pieces|] == pieces;
      ReadsPart(last);
      SetsGrows(front, last, Attributed(Plain(parts[0].name, parts[0].text), pieces));
    }
  }

  // --- no field sets two cookies

  lemma OneLast(parts: seq<Part>, name: string, a: Option<string>, b: Option<string>)
    requires LastSays(parts, name, a) && LastSays(parts, name, b)
    ensures a == b
  {
    hide Named, TextOf;
  }

  lemma OneAge(parts: seq<Part>, a: Option<i64>, b: Option<i64>)
    requires AgeIs(parts, a) && AgeIs(parts, b)
    ensures a == b
  {
    hide LastSays, SaysAge;
    forall p, q | LastSays(parts, "max-age", p) && LastSays(parts, "max-age", q) ensures p == q {
      OneLast(parts, "max-age", p, q);
    }
    if a.Some? && b.Some? {
      var text :| LastSays(parts, "max-age", Some(text)) && SaysAge(text, a.value);
      AgeIff(text, a.value);
      AgeIff(text, b.value);
    }
  }

  lemma OneSite(parts: seq<Part>, a: Option<SameSite>, b: Option<SameSite>)
    requires SiteIs(parts, a) && SiteIs(parts, b)
    ensures a == b
  {
    hide LastSays, SaysSite;
    forall p, q | LastSays(parts, "samesite", p) && LastSays(parts, "samesite", q) ensures p == q {
      OneLast(parts, "samesite", p, q);
    }
    if a.Some? && b.Some? {
      var text :| LastSays(parts, "samesite", Some(text)) && SaysSite(text, a.value);
      SiteIff(text, a.value);
      SiteIff(text, b.value);
    }
  }

  lemma OneIsSet(parts: seq<Part>, a: SetCookie, b: SetCookie)
    requires Sets(parts, a) && Sets(parts, b)
    ensures a == b
  {
    hide LastSays, AgeIs, SiteIs, HasFlag;
    OneLast(parts, "expires", a.expires, b.expires);
    OneLast(parts, "domain", a.domain, b.domain);
    OneLast(parts, "path", a.path, b.path);
    OneAge(parts, a.maxAge, b.maxAge);
    OneSite(parts, a.sameSite, b.sameSite);
  }

  /** A field sets a cookie exactly when its parts do; and every text is a field of some parts. */
  lemma FieldSetsIff(parts: seq<Part>, cookie: SetCookie)
    requires AllSound(parts)
    ensures SetCookies.Read(Field(parts)) == Some(cookie) <==> Sets(parts, cookie)
  {
    FieldSplits(parts);
    assert Pieces(parts)[0] == Written(parts[0]) && Pieces(parts)[1..] == Pieces(parts[1..]);
    if parts[0].Valued? {
      ReadsValued(parts[0]);
      hide Sets, Sound, Field, Pieces, Split, SplitOnce, Trim, Written, Attributed;
      AttributesAreSet(parts);
      var read := Attributed(Plain(parts[0].name, parts[0].text), Pieces(parts[1..]));
      if Sets(parts, cookie) {
        OneIsSet(parts, cookie, read);
      }
    } else {
      hide Field, Pieces, Split;
      NoPair(parts[0]);
    }
  }

  lemma NoPair(part: Part)
    requires Sound(part) && !part.Valued?
    ensures SplitOnce(Written(part), '=') == None
  {
    hide IsSpace;
    match part
    case Blank(space) => SpaceHasNoMark(space);
    case Flag(before, _, after) =>
      SpaceHasNoMark(before);
      SpaceHasNoMark(after);
  }

  // --- what may be written, and how

  lemma SeparatorIff(c: char)
    ensures IsSeparator(c) <==> c <= ' ' || c == '\U{7F}' || c in "()<>@,;:\\\"/[]?={}"
  {
  }

  function Attribute(lead: string, text: Option<string>): string {
    if text.Some? then "; " + lead + "=" + text.value else ""
  }

  function Mark(lead: string, wanted: bool): string {
    if wanted then "; " + lead else ""
  }

  lemma JoinedGrows(parts: seq<string>, more: seq<string>)
    requires |more| <= 1
    ensures Joined(parts + more) == Joined(parts) + if more == [] then "" else "; " + more[0]
  {
    if more == [] {
      assert parts + more == parts && Joined(parts) + "" == Joined(parts);
    } else {
      assert (parts + more)[..|parts|] == parts;
    }
  }

  lemma LabelledJoins(parts: seq<string>, lead: string, text: Option<string>)
    ensures Joined(parts + Labelled(lead, text)) == Joined(parts) + Attribute(lead, text)
  {
    hide Joined;
    JoinedGrows(parts, Labelled(lead, text));
    if text.Some? {
      assert "; " + (lead + "=" + text.value) == "; " + lead + "=" + text.value;
    }
  }

  lemma FlagJoins(parts: seq<string>, lead: string, wanted: bool)
    ensures Joined(parts + SetCookies.Flag(lead, wanted)) == Joined(parts) + Mark(lead, wanted)
  {
    hide Joined;
    JoinedGrows(parts, SetCookies.Flag(lead, wanted));
  }

  lemma AttributesAreJoined(cookie: SetCookie)
    ensures Joined(SetCookies.Attributes(cookie))
            == Attribute("Expires", cookie.expires)
               + Attribute("Max-Age", AgeText(cookie))
               + Attribute("Domain", cookie.domain) + Attribute("Path", cookie.path)
               + Mark("Secure", cookie.secure) + Mark("HttpOnly", cookie.httpOnly)
               + Attribute("SameSite", SiteText(cookie))
  {
    hide Joined, Labelled, SetCookies.Flag, Attribute, Mark, AgeText, SiteText;
    var parts: seq<string> := [];
    NothingJoins();
    LabelledJoins(parts, "Expires", cookie.expires);
    assert parts + Labelled("Expires", cookie.expires) == Labelled("Expires", cookie.expires);
    assert "" + Attribute("Expires", cookie.expires) == Attribute("Expires", cookie.expires);
    parts := Labelled("Expires", cookie.expires);
    LabelledJoins(parts, "Max-Age", AgeText(cookie));
    parts := parts + Labelled("Max-Age", AgeText(cookie));
    LabelledJoins(parts, "Domain", cookie.domain);
    parts := parts + Labelled("Domain", cookie.domain);
    LabelledJoins(parts, "Path", cookie.path);
    parts := parts + Labelled("Path", cookie.path);
    FlagJoins(parts, "Secure", cookie.secure);
    parts := parts + SetCookies.Flag("Secure", cookie.secure);
    FlagJoins(parts, "HttpOnly", cookie.httpOnly);
    parts := parts + SetCookies.Flag("HttpOnly", cookie.httpOnly);
    LabelledJoins(parts, "SameSite", SiteText(cookie));
  }

  lemma NothingJoins()
    ensures Joined([]) == ""
  {
  }

  /**
   * A cookie is written just when its name is a token in ASCII, whatever it
   * holds beyond, and its value no more than a cookie may hold; and then as its
   * pair and its attributes, each behind a semicolon and a space.
   */
  lemma BuildIs(cookie: SetCookie)
    ensures Build(cookie).Some?
            <==> && cookie.name != ""
                 && (forall i :: 0 <= i < |cookie.name| ==>
                       var c := cookie.name[i]; c > ' ' && c != '\U{7F}' && c !in "()<>@,;:\\\"/[]?={}")
                 && (forall i :: 0 <= i < |cookie.value| ==>
                       var c := cookie.value[i]; '!' <= c <= '~' && c !in "\",;\\")
    ensures Build(cookie).Some? ==>
              Build(cookie).value
              == cookie.name + "=" + cookie.value
                 + (Attribute("Expires", cookie.expires)
                    + Attribute("Max-Age", AgeText(cookie))
                    + Attribute("Domain", cookie.domain) + Attribute("Path", cookie.path)
                    + Mark("Secure", cookie.secure) + Mark("HttpOnly", cookie.httpOnly)
                    + Attribute("SameSite", SiteText(cookie)))
  {
    hide IsSeparator, IsForbidden, Joined, SetCookies.Attributes, Attribute, Mark;
    AttributesAreJoined(cookie);
    forall i | 0 <= i < |cookie.name|
      ensures IsSeparator(cookie.name[i])
              <==> var c := cookie.name[i]; !(c > ' ' && c != '\U{7F}' && c !in "()<>@,;:\\\"/[]?={}")
    {
      SeparatorIff(cookie.name[i]);
    }
    forall i | 0 <= i < |cookie.value|
      ensures IsForbidden(cookie.value[i])
              <==> var c := cookie.value[i]; !('!' <= c <= '~' && c !in "\",;\\")
    {
      ForbiddenIff(cookie.value[i]);
    }
  }

  lemma ForbiddenIff(c: char)
    ensures IsForbidden(c) <==> !('!' <= c <= '~' && c !in "\",;\\")
  {
  }
}
