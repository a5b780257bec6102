/** Absolute URLs, taken apart and written back. */
module Urls {
  import opened Wrappers
  import opened Texts

  datatype Url = Url(scheme: string, host: string, port: nat, target: string)

  datatype Error =
    | NoScheme | MalformedTarget | NoClosingBracket | BadPort | TrailingCharacters
    | MalformedLiteral | NoHost | MalformedHost

  function DefaultPort(scheme: string): nat {
    if scheme == "https" || scheme == "wss" then 443 else 80
  }

  /** Whether a URL's scheme asks for TLS. */
  predicate Secure(url: Url) {
    url.scheme == "https" || url.scheme == "wss"
  }

  // --- characters

  /** Neither white space nor a control character. */
  predicate IsVisible(c: char) {
    c > ' ' && c != '\U{7F}'
  }

  predicate AllVisible(text: string) {
    forall i :: 0 <= i < |text| ==> IsVisible(text[i])
  }

  predicate IsTarget(target: string) {
    target != "" && AllVisible(target)
  }

  predicate IsAuthority(authority: string) {
    authority != "" && AllVisible(authority)
  }

  predicate IsDelimiter(c: char) {
    c == '/' || c == '?' || c == '#' || c == '@' || c == '[' || c == ']' || c == ':'
  }

  predicate IsHost(host: string) {
    host != "" && forall i :: 0 <= i < |host| ==> IsVisible(host[i]) && !IsDelimiter(host[i])
  }

  predicate IsLiteralChar(c: char) {
    IsDigit(c) || 'a' <= c <= 'f' || 'A' <= c <= 'F' || c == ':' || c == '.'
  }

  predicate IsLiteral(host: string) {
    host != "" && forall i :: 0 <= i < |host| ==> IsLiteralChar(host[i])
  }

  // --- writing

  function Authority(url: Url): string {
    (if ':' in url.host then "[" + url.host + "]" else url.host)
    + (if url.port == DefaultPort(url.scheme) then "" else ":" + Decimal(url.port))
  }

  function Print(url: Url): string {
    url.scheme + "://" + Authority(url) + url.target
  }

  // --- reading

  /** Whether "://" stands at a place. */
  predicate SeparatorAt(text: string, i: nat) {
    i + 3 <= |text| && text[i] == ':' && text[i + 1] == '/' && text[i + 2] == '/'
  }

  /** Where a scheme's separator first stands, if it does. */
  function SchemeEnd(text: string): (end: Option<nat>)
    ensures end.Some? ==> SeparatorAt(text, end.value) && forall i: nat :: i < end.value ==> !SeparatorAt(text, i)
    ensures end.None? ==> forall i: nat :: !SeparatorAt(text, i)
  {
    if |text| < 3 then None
    else if SeparatorAt(text, 0) then Some(0)
    else
      var rest := text[1..];
      assert forall i: nat :: i > 0 ==> SeparatorAt(text, i) == SeparatorAt(rest, i - 1);
      match SchemeEnd(rest)
      case None => None
      case Some(end) => Some(end + 1)
  }

  predicate EndsAuthority(c: char) {
    c == '/' || c == '?' || c == '#'
  }

  /** How long the authority is that a text begins with. */
  function AuthorityEnd(text: string): (end: nat)
    ensures end <= |text| && forall i :: 0 <= i < end ==> !EndsAuthority(text[i])
    ensures end < |text| ==> EndsAuthority(text[end])
  {
    if text == "" || EndsAuthority(text[0]) then 0 else 1 + AuthorityEnd(text[1..])
  }

  /** An authority without the user information in front of it. */
  function WithoutUser(authority: string): string {
    match LastIndexOf(authority, '@')
    case None => authority
    case Some(at) => authority[at + 1..]
  }

  /** A port of sixteen bits, in digits, perhaps behind a plus sign. */
  function ReadPort(text: string): (port: Option<nat>)
    ensures port.Some? ==> port.value < 0x1_0000
  {
    var digits := if text != "" && text[0] == '+' then text[1..] else text;
    if digits == "" || !AllDigits(digits) then None
    else if ReadDecimal(digits) >= 0x1_0000 then None
    else Some(ReadDecimal(digits))
  }

  /** The host and the port of a bracketed authority, its opening bracket gone. */
  function ReadLiteral(rest: string): Result<(string, Option<nat>), Error> {
    match SplitOnce(rest, ']')
    case None => Err(NoClosingBracket)
    case Some((host, after)) =>
      if after != "" && after[0] != ':' then Err(TrailingCharacters)
      else
        var port := if after == "" then None else ReadPort(after[1..]);
        if after != "" && port.None? then Err(BadPort)
        else if !IsLiteral(host) then Err(MalformedLiteral)
        else Ok((host, port))
  }

  function ReadPlain(authority: string): Result<(string, Option<nat>), Error> {
    match LastIndexOf(authority, ':')
    case None => Ok((authority, None))
    case Some(at) =>
      match ReadPort(authority[at + 1..])
      case None => Err(BadPort)
      case Some(port) => Ok((authority[..at], Some(port)))
  }

  function ReadAuthority(authority: string): Result<(string, Option<nat>), Error> {
    if authority != "" && authority[0] == '[' then ReadLiteral(authority[1..])
    else
      match ReadPlain(authority)
      case Err(error) => Err(error)
      case Ok((host, port)) =>
        if host == "" then Err(NoHost) else if !IsHost(host) then Err(MalformedHost) else Ok((host, port))
  }

  function Parse(text: string): Result<Url, Error> {
    match SchemeEnd(text)
    case None => Err(NoScheme)
    case Some(end) =>
      var scheme, rest := Lowered(text[..end]), text[end + 3..];
      var cut := AuthorityEnd(rest);
      var target := if cut == |rest| then "/" else rest[cut..];
      if !IsTarget(target) then Err(MalformedTarget)
      else
        match ReadAuthority(WithoutUser(rest[..cut]))
        case Err(error) => Err(error)
        case Ok((host, port)) =>
          Ok(Url(scheme, host, if port.Some? then port.value else DefaultPort(scheme), target))
  }

  // --- what parsing returns

  /** A host that came out of a URL: a plain one, or what an IPv6 literal's brackets held. */
  predicate IsReadHost(host: string) {
    IsHost(host) || IsLiteral(host)
  }

  ghost predicate Normal(url: Url) {
    && Lowered(url.scheme) == url.scheme
    && (forall i: nat :: i < |url.scheme| ==> !SeparatorAt(url.scheme + "://", i))
    && IsReadHost(url.host) && url.port < 0x1_0000
    && IsTarget(url.target) && EndsAuthority(url.target[0])
  }

  lemma AuthorityIsRead(authority: string)
    ensures match ReadAuthority(authority)
            case Err(_) => true
            case Ok((host, port)) => IsReadHost(host) && (port.Some? ==> port.value < 0x1_0000)
  {
    hide IsHost, IsLiteral, ReadPort, LastIndexOf;
  }

  lemma LowerKeepsSeparators(c: char)
    ensures Lower(c) == ':' <==> c == ':'
    ensures Lower(c) == '/' <==> c == '/'
  {
  }

  /** Only the text up to and with a separator decides where the first one is. */
  lemma FirstSeparator(scheme: string, rest: string)
    requires forall i: nat :: i < |scheme| ==> !SeparatorAt(scheme + "://", i)
    ensures SchemeEnd(scheme + "://" + rest) == Some(|scheme|)
  {
    hide SchemeEnd;
    var head, text := scheme + "://", scheme + "://" + rest;
    assert SeparatorAt(text, |scheme|);
    forall i: nat | i < |scheme| ensures !SeparatorAt(text, i) {
      assert forall k | i <= k < i + 3 && k < |head| :: text[k] == head[k];
      assert !SeparatorAt(head, i);
    }
    assert SchemeEnd(text).Some? && SchemeEnd(text).value == |scheme|;
  }

  lemma LoweredSeparator(text: string, end: nat, i: nat)
    requires SeparatorAt(text, end) && i < end
    ensures SeparatorAt(Lowered(text[..end]) + "://", i) ==> SeparatorAt(text, i)
  {
    var head := Lowered(text[..end]) + "://";
    forall k | i <= k < i + 3 && k < |head|
      ensures (head[k] == ':' <==> text[k] == ':') && (head[k] == '/' <==> text[k] == '/') {
      LowerKeepsSeparators(text[k]);
    }
  }

  /** Whatever is parsed is in normal form. */
  lemma ParsedIsNormal(text: string)
    ensures Parse(text).Ok? ==> Normal(Parse(text).value)
  {
    hide ReadAuthority, IsTarget, IsReadHost, WithoutUser;
    match SchemeEnd(text)
    case None =>
    case Some(end) =>
      var scheme, rest := Lowered(text[..end]), text[end + 3..];
      LoweredTwice(text[..end]);
      forall i: nat | i < end ensures !SeparatorAt(scheme + "://", i) {
        LoweredSeparator(text, end, i);
      }
      AuthorityIsRead(WithoutUser(rest[..AuthorityEnd(rest)]));
      DefaultIsAPort(scheme);
  }

  lemma DefaultIsAPort(scheme: string)
    ensures DefaultPort(scheme) < 0x1_0000
  {
  }

  // --- writing a normal URL and reading it back

  lemma PortReadsBack(port: nat)
    requires port < 0x1_0000
    ensures ReadPort(Decimal(port)) == Some(port)
  {
    DecimalReadsBack(port);
    assert IsDigit(Decimal(port)[0]);
  }

  function PortPart(url: Url): string {
    if url.port == DefaultPort(url.scheme) then "" else ":" + Decimal(url.port)
  }

  function PortRead(url: Url): Option<nat> {
    if url.port == DefaultPort(url.scheme) then None else Some(url.port)
  }

  lemma BracketedReadsBack(url: Url)
    requires Normal(url) && ':' in url.host
    ensures ReadAuthority("[" + url.host + "]" + PortPart(url)) == Ok((url.host, PortRead(url)))
  {
    hide ReadPort, DefaultPort, Decimal;
    PortReadsBack(url.port);
    var authority := "[" + url.host + "]" + PortPart(url);
    assert IsLiteral(url.host) by {
      assert exists i :: 0 <= i < |url.host| && IsDelimiter(url.host[i]);
    }
    assert ']' !in url.host;
    assert authority[1..] == url.host + [']'] + PortPart(url);
    SplitOnceFront(url.host, ']', PortPart(url));
    assert PortPart(url) != "" ==> PortPart(url)[1..] == Decimal(url.port);
  }

  lemma PlainReadsBack(url: Url)
    requires Normal(url) && ':' !in url.host
    ensures ReadAuthority(url.host + PortPart(url)) == Ok((url.host, PortRead(url)))
  {
    hide ReadPort, DefaultPort, LastIndexOf;
    PortReadsBack(url.port);
    assert IsHost(url.host) by {
      assert forall i | 0 <= i < |url.host| :: url.host[i] != ':';
    }
    var authority := url.host + PortPart(url);
    assert authority[0] == url.host[0] && IsDelimiter('[');
    if PortPart(url) == "" {
      assert authority == url.host;
    } else {
      assert authority[|url.host| + 1..] == Decimal(url.port) && authority[..|url.host|] == url.host;
      LastIndexIs(authority, ':', |url.host|);
    }
  }

  lemma AuthorityReadsBack(url: Url)
    requires Normal(url)
    ensures ReadAuthority(Authority(url)) == Ok((url.host, PortRead(url)))
  {
    hide ReadAuthority, Normal, Decimal;
    if ':' in url.host {
      BracketedReadsBack(url);
      assert Authority(url) == "[" + url.host + "]" + PortPart(url);
    } else {
      PlainReadsBack(url);
      assert Authority(url) == url.host + PortPart(url);
    }
  }

  /** A parsed URL's authority may be sent, and holds nothing that ends one or sets user information off. */
  lemma AuthorityIsSafe(url: Url)
    requires Normal(url)
    ensures IsAuthority(Authority(url)) && '@' !in Authority(url)
    ensures forall i :: 0 <= i < |Authority(url)| ==> !EndsAuthority(Authority(url)[i])
  {
    hide DefaultPort, Decimal;
    var host, port := url.host, PortPart(url);
    assert forall i | 0 <= i < |host| :: IsVisible(host[i]) && !EndsAuthority(host[i]) && host[i] != '@' by {
      assert IsHost(host) || IsLiteral(host);
    }
    assert forall i | 0 <= i < |port| :: port[i] == ':' || IsDigit(port[i]);
    assert Authority(url) == (if ':' in host then "[" + host + "]" else host) + port;
  }

  lemma AuthorityEndIs(authority: string, target: string)
    requires forall i :: 0 <= i < |authority| ==> !EndsAuthority(authority[i])
    requires target != "" && EndsAuthority(target[0])
    ensures AuthorityEnd(authority + target) == |authority|
  {
    var text := authority + target;
    assert text[|authority|] == target[0];
    assert forall i | 0 <= i < |authority| :: text[i] == authority[i];
    assert !(AuthorityEnd(text) < |authority|);
  }

  /** A URL in normal form, written out and parsed, is itself again. */
  lemma NormalReadsBack(url: Url)
    requires Normal(url)
    ensures Parse(Print(url)) == Ok(url)
  {
    hide ReadAuthority, Authority, SchemeEnd, DefaultPort, AuthorityEnd, IsReadHost, AllVisible;
    var authority := Authority(url);
    var rest := authority + url.target;
    FirstSeparator(url.scheme, rest);
    assert Print(url) == url.scheme + "://" + rest;
    assert Print(url)[..|url.scheme|] == url.scheme && Print(url)[|url.scheme| + 3..] == rest;
    AuthorityIsSafe(url);
    AuthorityEndIs(authority, url.target);
    assert rest[..|authority|] == authority && rest[|authority|..] == url.target;
    AuthorityReadsBack(url);
  }

  /** Parsing a parsed URL's own writing changes nothing, whatever was discarded the first time. */
  lemma ParsedReadsBack(text: string)
    ensures Parse(text).Ok? ==> Parse(Print(Parse(text).value)) == Parse(text)
  {
    hide Parse, Print, Normal;
    ParsedIsNormal(text);
    if Parse(text).Ok? {
      NormalReadsBack(Parse(text).value);
    }
  }

  /** The URLs parsing can return are exactly those in normal form. */
  lemma ParsedIffNormal(url: Url)
    ensures Normal(url) <==> exists text :: Parse(text) == Ok(url)
  {
    hide Parse, Print, Normal;
    if Normal(url) {
      NormalReadsBack(url);
    } else if text :| Parse(text) == Ok(url) {
      ParsedIsNormal(text);
    }
  }

  // --- what a target begins with

  /**
   * A target begins with a slash exactly when no query or fragment begins
   * before the first slash behind the scheme, or there is no slash at all and
   * neither of them.
   */
  lemma TargetBeginsWithSlashIff(text: string)
    requires Parse(text).Ok?
    ensures var rest := text[SchemeEnd(text).value + 3..];
            Parse(text).value.target[0] == '/'
            <==> forall i :: 0 <= i < |rest| && (rest[i] == '?' || rest[i] == '#') ==> '/' in rest[..i]
  {
    hide SchemeEnd, AuthorityEnd, ReadAuthority, IsTarget, WithoutUser, Lowered;
    TargetIsRest(text);
    SlashEndsIff(text[SchemeEnd(text).value + 3..]);
  }

  lemma TargetIsRest(text: string)
    requires Parse(text).Ok?
    ensures var rest := text[SchemeEnd(text).value + 3..];
            Parse(text).value.target == if AuthorityEnd(rest) == |rest| then "/" else rest[AuthorityEnd(rest)..]
  {
    hide ReadAuthority, IsTarget, SchemeEnd, WithoutUser, AuthorityEnd, Lowered;
  }

  lemma SlashEndsIff(rest: string)
    ensures AuthorityEnd(rest) == |rest| || rest[AuthorityEnd(rest)] == '/'
            <==> forall i :: 0 <= i < |rest| && (rest[i] == '?' || rest[i] == '#') ==> '/' in rest[..i]
  {
    hide AuthorityEnd;
    var cut := AuthorityEnd(rest);
    if cut < |rest| && rest[cut] == '/' {
      forall i | 0 <= i < |rest| && (rest[i] == '?' || rest[i] == '#') ensures '/' in rest[..i] {
        assert i > cut && rest[..i][cut] == '/';
      }
    } else if cut < |rest| {
      assert forall h | 0 <= h < cut :: rest[..cut][h] == rest[h];
    }
  }

  /** A query straight behind the authority is left to begin the target. */
  lemma QueryBeginsTarget()
    ensures Parse("http://h?q") == Ok(Url("http", "h", 80, "?q"))
  {
    hide Parse;
    var url := Url("http", "h", 80, "?q");
    assert Lowered("http") == "http";
    QueryIsNormal();
    assert Print(url) == "http://h?q" by {
      assert ':' !in "h" && Authority(url) == "h" + "";
      assert "http" + "://" + "h" + "?q" == "http://h?q";
    }
    NormalReadsBack(url);
  }

  lemma QueryIsNormal()
    ensures Normal(Url("http", "h", 80, "?q"))
  {
    assert Lowered("http") == "http";
  }
}
