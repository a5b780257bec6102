/** The texts a URL may be read from, and what each of them means. */
module UrlSpellings {
  import opened Wrappers
  import opened Texts
  import opened Urls

  /** The pieces of a URL as it is written; user, port and target may be left out. */
  datatype Spelling = Spelling(
    scheme: string, user: string, host: string, bracketed: bool, port: Option<string>, target: string)

  predicate Visible(text: string) {
    forall i :: 0 <= i < |text| ==> text[i] > ' ' && text[i] != '\U{7F}'
  }

  /** A port's digits, perhaps behind a plus sign. */
  predicate IsPort(port: string) {
    var digits := if port != "" && port[0] == '+' then port[1..] else port;
    digits != "" && AllDigits(digits) && ReadDecimal(digits) < 65536
  }

  function PortOf(port: string): nat
    requires IsPort(port)
  {
    ReadDecimal(if port[0] == '+' then port[1..] else port)
  }

  /** Which pieces may stand together. */
  ghost predicate Sound(s: Spelling) {
    && (forall i: nat :: i < |s.scheme| ==> !SeparatorAt(s.scheme + "://", i))
    && (s.user != "" ==> s.user[|s.user| - 1] == '@')
    && '/' !in s.user && '?' !in s.user && '#' !in s.user
    && s.host != ""
    && (if s.bracketed then forall i :: 0 <= i < |s.host| ==> s.host[i] in "0123456789abcdefABCDEF:."
        else Visible(s.host) && forall i :: 0 <= i < |s.host| ==> s.host[i] !in "/?#@[]:")
    && (s.port.Some? ==> IsPort(s.port.value))
    && (s.target != "" ==> s.target[0] in "/?#") && Visible(s.target)
  }

  function HostText(s: Spelling): string {
    if s.bracketed then "[" + s.host + "]" else s.host
  }

  function PortText(s: Spelling): string {
    if s.port.Some? then ":" + s.port.value else ""
  }

  function Spelled(s: Spelling): string {
    s.scheme + "://" + (s.user + (HostText(s) + PortText(s)) + s.target)
  }

  /** What a spelling means: the scheme folded, the user left out, and defaults for the port and the target. */
  ghost function Meant(s: Spelling): Url
    requires Sound(s)
  {
    var scheme := Lowered(s.scheme);
    Url(scheme, s.host,
        if s.port.Some? then PortOf(s.port.value) else if scheme == "https" || scheme == "wss" then 443 else 80,
        if s.target == "" then "/" else s.target)
  }

  // --- a spelling is read as what it means

  lemma PortIsRead(port: string)
    ensures ReadPort(port) == if IsPort(port) then Some(PortOf(port)) else None
  {
  }

  lemma HostIff(host: string)
    ensures IsHost(host)
            <==> host != "" && Visible(host) && forall i :: 0 <= i < |host| ==> host[i] !in "/?#@[]:"
  {
    forall i | 0 <= i < |host| ensures IsDelimiter(host[i]) <==> host[i] in "/?#@[]:" {
      DelimiterIff(host[i]);
    }
  }

  lemma DelimiterIff(c: char)
    ensures IsDelimiter(c) <==> c in "/?#@[]:"
  {
  }

  lemma LiteralCharIff(c: char)
    ensures IsLiteralChar(c) <==> c in "0123456789abcdefABCDEF:."
  {
    assert "0123456789abcdefABCDEF:." == "0123456789" + "abcdef" + "ABCDEF" + ":.";
    DigitIff(c);
    HexIff(c);
  }

  lemma DigitIff(c: char)
    ensures IsDigit(c) <==> c in "0123456789"
  {
  }

  lemma HexIff(c: char)
    ensures 'a' <= c <= 'f' <==> c in "abcdef"
    ensures 'A' <= c <= 'F' <==> c in "ABCDEF"
  {
  }

  lemma LiteralIff(host: string)
    ensures IsLiteral(host)
            <==> host != "" && forall i :: 0 <= i < |host| ==> host[i] in "0123456789abcdefABCDEF:."
  {
    hide IsLiteralChar;
    forall i | 0 <= i < |host| ensures IsLiteralChar(host[i]) <==> host[i] in "0123456789abcdefABCDEF:." {
      LiteralCharIff(host[i]);
    }
  }

  lemma PortHasNoMark(port: string)
    requires IsPort(port)
    ensures forall i :: 0 <= i < |port| ==> IsDigit(port[i]) || port[i] == '+'
  {
    if port[0] == '+' {
      assert forall i | 1 <= i < |port| :: port[i] == port[1..][i - 1];
    }
  }

  lemma BracketedIsRead(host: string, port: Option<string>)
    requires IsLiteral(host) && (port.Some? ==> IsPort(port.value))
    ensures var text := "[" + host + "]" + (if port.Some? then ":" + port.value else "");
            ReadAuthority(text) == Ok((host, if port.Some? then Some(PortOf(port.value)) else None))
  {
    hide IsPort, PortOf, ReadLiteral, IsLiteral;
    var behind := if port.Some? then ":" + port.value else "";
    var text := "[" + host + "]" + behind;
    LiteralIsRead(host, port);
    assert text[0] == '[' && text[1..] == host + "]" + behind;
  }

  lemma LiteralIsRead(host: string, port: Option<string>)
    requires IsLiteral(host) && (port.Some? ==> IsPort(port.value))
    ensures var text := host + "]" + (if port.Some? then ":" + port.value else "");
            ReadLiteral(text) == Ok((host, if port.Some? then Some(PortOf(port.value)) else None))
  {
    NoBracket(host);
    hide IsPort, PortOf, ReadPort, IsLiteral, SplitOnce;
    var behind := if port.Some? then ":" + port.value else "";
    SplitOnceFront(host, ']', behind);
    if port.Some? {
      PortIsRead(port.value);
      assert behind[1..] == port.value;
    }
  }

  lemma NoBracket(host: string)
    requires IsLiteral(host)
    ensures ']' !in host
  {
  }

  lemma PlainIsRead(host: string, port: Option<string>)
    requires IsHost(host) && (port.Some? ==> IsPort(port.value))
    ensures var text := host + (if port.Some? then ":" + port.value else "");
            ReadAuthority(text) == Ok((host, if port.Some? then Some(PortOf(port.value)) else None))
  {
    hide IsPort, PortOf, ReadPort, LastIndexOf;
    assert forall i | 0 <= i < |host| :: host[i] != ':';
    assert host[0] != '[';
    if port.Some? {
      var text := host + (":" + port.value);
      PortIsRead(port.value);
      PortHasNoMark(port.value);
      assert text[|host| + 1..] == port.value && text[..|host|] == host;
      LastIndexIs(text, ':', |host|);
    } else {
      assert host + "" == host;
    }
  }

  /** Whatever the user information, it ends at the last at sign. */
  lemma UserIsDropped(user: string, rest: string)
    requires user != "" ==> user[|user| - 1] == '@'
    requires '@' !in rest
    ensures WithoutUser(user + rest) == rest
  {
    hide LastIndexOf;
    var text := user + rest;
    if user == "" {
      assert text == rest;
    } else {
      assert text[|user|..] == rest;
      LastIndexIs(text, '@', |user| - 1);
    }
  }

  predicate NoMark(text: string) {
    forall i :: 0 <= i < |text| ==> text[i] !in "/?#@"
  }

  lemma PortTextHasNoMark(s: Spelling)
    requires s.port.Some? ==> IsPort(s.port.value)
    ensures NoMark(PortText(s))
  {
    hide IsPort;
    if s.port.Some? {
      PortHasNoMark(s.port.value);
      forall i | 0 <= i < |PortText(s)| ensures PortText(s)[i] !in "/?#@" {
        assert i > 0 ==> PortText(s)[i] == s.port.value[i - 1];
      }
    }
  }

  lemma HostHasNoMark(s: Spelling)
    requires Sound(s)
    ensures NoMark(HostText(s))
  {
    hide SeparatorAt, IsPort;
    CharsHaveNoMark(s.host);
    hide Sound;
    if s.bracketed {
      BracketsAddNoMark(s.host);
    }
  }

  lemma CharsHaveNoMark(host: string)
    requires forall i :: 0 <= i < |host| ==> host[i] in "0123456789abcdefABCDEF:." || host[i] !in "/?#@[]:"
    ensures NoMark(host)
  {
    forall i | 0 <= i < |host| ensures host[i] !in "/?#@" {
      HostCharIsNoMark(host[i]);
    }
  }

  lemma BracketsAddNoMark(host: string)
    requires NoMark(host)
    ensures NoMark("[" + host + "]")
  {
    var text := "[" + host + "]";
    forall i | 0 <= i < |text| ensures text[i] !in "/?#@" {
      assert 0 < i <= |host| ==> text[i] == host[i - 1];
    }
  }

  lemma HostCharIsNoMark(c: char)
    requires c in "0123456789abcdefABCDEF:." || c !in "/?#@[]:"
    ensures c !in "/?#@"
  {
    if c in "0123456789abcdefABCDEF:." {
      hide IsDigit;
      LiteralCharIff(c);
    }
  }

  /** What stands between the separator and the target holds nothing that ends an authority. */
  lemma AuthorityText(s: Spelling)
    requires Sound(s)
    ensures var text := HostText(s) + PortText(s);
            && '@' !in text
            && forall i :: 0 <= i < |s.user + text| ==> !EndsAuthority((s.user + text)[i])
  {
    hide IsPort, SeparatorAt, Visible;
    HostHasNoMark(s);
    PortTextHasNoMark(s);
    var text := HostText(s) + PortText(s);
    forall i | 0 <= i < |s.user + text| ensures !EndsAuthority((s.user + text)[i]) {
      if i < |s.user| {
        assert (s.user + text)[i] == s.user[i];
      } else {
        assert (s.user + text)[i] == text[i - |s.user|];
      }
    }
  }

  lemma SoundParts(s: Spelling)
    requires Sound(s)
    ensures forall i: nat :: i < |s.scheme| ==> !SeparatorAt(s.scheme + "://", i)
    ensures s.user != "" ==> s.user[|s.user| - 1] == '@'
    ensures s.port.Some? ==> IsPort(s.port.value)
    ensures if s.bracketed then IsLiteral(s.host) else IsHost(s.host)
    ensures s.target != "" ==> IsTarget(s.target) && EndsAuthority(s.target[0])
  {
    hide IsPort, IsLiteral, IsHost, SeparatorAt;
    LiteralIff(s.host);
    HostIff(s.host);
  }

  lemma HostIsRead(s: Spelling)
    requires Sound(s)
    ensures ReadAuthority(HostText(s) + PortText(s))
            == Ok((s.host, if s.port.Some? then Some(PortOf(s.port.value)) else None))
  {
    hide IsPort, PortOf, ReadAuthority, IsLiteral, IsHost, Sound;
    SoundParts(s);
    if s.bracketed {
      BracketedIsRead(s.host, s.port);
    } else {
      PlainIsRead(s.host, s.port);
    }
  }

  lemma AuthorityWhole(authority: string)
    requires forall i :: 0 <= i < |authority| ==> !EndsAuthority(authority[i])
    ensures AuthorityEnd(authority) == |authority|
  {
  }

  /** A spelling is read as what it means. */
  lemma SpellingIsRead(s: Spelling)
    requires Sound(s)
    ensures Parse(Spelled(s)) == Ok(Meant(s))
  {
    hide ReadAuthority, WithoutUser, AuthorityEnd, IsPort, PortOf, SeparatorAt, SchemeEnd, Sound;
    var text := HostText(s) + PortText(s);
    var authority := s.user + text;
    var rest := authority + s.target;
    assert Spelled(s) == s.scheme + "://" + rest;
    SoundParts(s);
    HostIsRead(s);
    FirstSeparator(s.scheme, rest);
    assert Spelled(s)[..|s.scheme|] == s.scheme && Spelled(s)[|s.scheme| + 3..] == rest;
    AuthorityText(s);
    if s.target == "" {
      assert rest == authority;
      AuthorityWhole(authority);
    } else {
      AuthorityEndIs(authority, s.target);
    }
    assert rest[..|authority|] == authority && rest[|authority|..] == s.target;
    UserIsDropped(s.user, text);
  }

  // --- whatever is read is spelled so

  lemma PortIsSpelled(text: string)
    requires ReadPort(text).Some?
    ensures IsPort(text)
  {
  }

  lemma LiteralIsSpelled(text: string) returns (host: string, port: Option<string>)
    requires text != "" && text[0] == '[' && ReadAuthority(text).Ok?
    ensures IsLiteral(host) && (port.Some? ==> IsPort(port.value))
    ensures text == "[" + host + "]" + if port.Some? then ":" + port.value else ""
  {
    hide IsPort, ReadPort, IsLiteral;
    hide ReadPlain, SplitOnce;
    var (inner, after) := SplitOnce(text[1..], ']').value;
    host := inner;
    assert text == "[" + text[1..] && text[1..] == host + [']'] + after;
    if after == "" {
      port := None;
    } else {
      port := Some(after[1..]);
      PortIsSpelled(after[1..]);
      assert after == ":" + after[1..];
    }
  }

  lemma PlainIsSpelled(text: string) returns (host: string, port: Option<string>)
    requires (text == "" || text[0] != '[') && ReadAuthority(text).Ok?
    ensures IsHost(host) && (port.Some? ==> IsPort(port.value))
    ensures text == host + if port.Some? then ":" + port.value else ""
  {
    hide IsPort, ReadPort, IsHost;
    match LastIndexOf(text, ':')
    case None =>
      host, port := text, None;
    case Some(at) =>
      host, port := text[..at], Some(text[at + 1..]);
      PortIsSpelled(text[at + 1..]);
      assert text == text[..at] + ":" + text[at + 1..];
  }

  lemma SeparatorThere(text: string, end: nat)
    requires SeparatorAt(text, end)
    ensures text == text[..end] + "://" + text[end + 3..]
  {
  }

  lemma SchemeIsFirst(text: string, end: nat)
    requires SchemeEnd(text) == Some(end)
    ensures forall i: nat :: i < end ==> !SeparatorAt(text[..end] + "://", i)
  {
    hide SchemeEnd;
    var head := text[..end] + "://";
    SeparatorThere(text, end);
    forall i: nat | i < end ensures !SeparatorAt(head, i) {
      assert !SeparatorAt(text, i);
      assert forall k | i <= k < i + 3 && k < |head| :: head[k] == text[k];
    }
  }

  /** Nothing in a text ends an authority. */
  predicate Plain(text: string) {
    '/' !in text && '?' !in text && '#' !in text
  }

  /** An authority is user information, ended by its last at sign, and an address. */
  lemma AuthorityIsCut(authority: string) returns (user: string, address: string)
    requires Plain(authority)
    ensures authority == user + address && address == WithoutUser(authority) && '@' !in address
    ensures Plain(user) && Plain(address) && (user != "" ==> user[|user| - 1] == '@')
  {
    hide LastIndexOf;
    address := WithoutUser(authority);
    user := authority[..|authority| - |address|];
  }

  /** What stands behind a separator is user information, an address and a target. */
  lemma RestIsCut(rest: string) returns (user: string, address: string, target: string)
    ensures rest == user + address + target && '@' !in address && Plain(user) && Plain(address)
    ensures user != "" ==> user[|user| - 1] == '@'
    ensures address == WithoutUser(rest[..AuthorityEnd(rest)]) && target == rest[AuthorityEnd(rest)..]
    ensures target != "" ==> EndsAuthority(target[0])
  {
    var authority := rest[..AuthorityEnd(rest)];
    target := rest[AuthorityEnd(rest)..];
    assert Plain(authority) by {
      assert forall i | 0 <= i < |authority| :: !EndsAuthority(rest[i]);
    }
    hide AuthorityEnd, WithoutUser, EndsAuthority, Plain;
    user, address := AuthorityIsCut(authority);
    assert rest == authority + target;
  }

  lemma SoundWhen(s: Spelling)
    requires forall i: nat :: i < |s.scheme| ==> !SeparatorAt(s.scheme + "://", i)
    requires s.user != "" ==> s.user[|s.user| - 1] == '@'
    requires '/' !in s.user && '?' !in s.user && '#' !in s.user
    requires s.port.Some? ==> IsPort(s.port.value)
    requires if s.bracketed then IsLiteral(s.host) else IsHost(s.host)
    requires s.target != "" ==> IsTarget(s.target) && EndsAuthority(s.target[0])
    ensures Sound(s)
  {
    hide IsPort, IsLiteral, IsHost, SeparatorAt;
    LiteralIff(s.host);
    HostIff(s.host);
  }

  /** An authority without user information is spelled by the host and the port it is read as. */
  lemma AuthorityIsSpelled(text: string) returns (host: string, bracketed: bool, port: Option<string>)
    requires ReadAuthority(text).Ok?
    ensures port.Some? ==> IsPort(port.value)
    ensures if bracketed then IsLiteral(host) else IsHost(host)
    ensures text == (if bracketed then "[" + host + "]" else host) + (if port.Some? then ":" + port.value else "")
  {
    hide ReadAuthority, IsPort, IsLiteral, IsHost;
    if text != "" && text[0] == '[' {
      bracketed := true;
      host, port := LiteralIsSpelled(text);
    } else {
      bracketed := false;
      host, port := PlainIsSpelled(text);
    }
  }

  lemma ParsedPieces(text: string)
    requires Parse(text).Ok?
    ensures SchemeEnd(text).Some? && SchemeEnd(text).value + 3 <= |text|
    ensures var rest := text[SchemeEnd(text).value + 3..];
            var cut := AuthorityEnd(rest);
            && ReadAuthority(WithoutUser(rest[..cut])).Ok?
            && (cut < |rest| ==> IsTarget(rest[cut..]))
  {
    hide ReadAuthority, WithoutUser, IsTarget;
  }

  /** A text that is read at all is the spelling of what it is read as. */
  lemma ReadIsSpelled(text: string) returns (s: Spelling)
    requires Parse(text).Ok?
    ensures Sound(s) && text == Spelled(s)
  {
    hide Parse, ReadAuthority, IsPort, SeparatorAt, IsLiteral, IsHost, IsTarget, AuthorityEnd, EndsAuthority;
    hide Sound, WithoutUser, SchemeEnd;
    ParsedPieces(text);
    var end := SchemeEnd(text).value;
    SchemeIsFirst(text, end);
    SeparatorThere(text, end);
    var user, address, target := RestIsCut(text[end + 3..]);
    var host, bracketed, port := AuthorityIsSpelled(address);
    s := Spelling(text[..end], user, host, bracketed, port, target);
    SoundWhen(s);
  }

  /** The texts that are read are exactly the sound spellings, each for what it means. */
  lemma ParseIff(text: string, url: Url)
    ensures Parse(text) == Ok(url) <==> exists s :: Sound(s) && text == Spelled(s) && url == Meant(s)
  {
    hide Parse, Sound, Spelled, Meant;
    if Parse(text) == Ok(url) {
      var s := ReadIsSpelled(text);
      SpellingIsRead(s);
    }
    if s :| Sound(s) && text == Spelled(s) && url == Meant(s) {
      SpellingIsRead(s);
    }
  }

  /** User information, whatever it is, does not change what a URL means. */
  lemma UserIsIgnored(url: Url, user: string)
    requires Normal(url) && '/' !in user && '?' !in user && '#' !in user
    ensures Parse(url.scheme + "://" + user + "@" + Authority(url) + url.target) == Ok(url)
  {
    hide Sound, Normal, IsHost, IsLiteral, IsPort, PortOf, Parse, DefaultPort;
    var s := NormalSpelling(url, user + "@");
    SpellingIsRead(s);
    assert Spelled(s) == url.scheme + "://" + user + "@" + Authority(url) + url.target;
  }

  /** The spelling of a URL in normal form, behind some user information. */
  lemma NormalSpelling(url: Url, user: string) returns (s: Spelling)
    requires Normal(url) && '/' !in user && '?' !in user && '#' !in user
    requires user != "" ==> user[|user| - 1] == '@'
    ensures Sound(s) && s.scheme == url.scheme && s.user == user && s.target == url.target
    ensures HostText(s) + PortText(s) == Authority(url) && Meant(s) == url
  {
    hide Sound, IsHost, IsLiteral, SeparatorAt, Decimal, IsPort, PortOf;
    var port := if url.port == DefaultPort(url.scheme) then None else Some(Decimal(url.port));
    s := Spelling(url.scheme, user, url.host, ':' in url.host, port, url.target);
    PortReadsBack(url.port);
    PortIsRead(Decimal(url.port));
    NormalHost(url);
    SoundWhen(s);
  }

  lemma NormalHost(url: Url)
    requires Normal(url)
    ensures if ':' in url.host then IsLiteral(url.host) else IsHost(url.host)
  {
    if ':' in url.host {
      assert IsDelimiter(':');
    } else if !IsHost(url.host) {
      forall i | 0 <= i < |url.host| ensures IsVisible(url.host[i]) && !IsDelimiter(url.host[i]) {
        assert IsLiteralChar(url.host[i]) && url.host[i] != ':';
      }
    }
  }
}
