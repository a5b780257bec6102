/** Why a text is refused as a URL, said of its pieces. */
module UrlErrors {
  import opened Wrappers
  import opened Texts
  import opened Urls
  import opened UrlSpellings

  /**
   * A text cut at its first separator, behind the last at sign of what follows,
   * and where a target begins; every text that has a separator is cut so.
   */
  ghost predicate Cut(scheme: string, user: string, address: string, target: string) {
    && (forall i: nat :: i < |scheme| ==> !SeparatorAt(scheme + "://", i))
    && (user != "" ==> user[|user| - 1] == '@') && '@' !in address
    && Plain(user) && Plain(address)
    && (target != "" ==> target[0] == '/' || target[0] == '?' || target[0] == '#')
  }

  function Text(scheme: string, user: string, address: string, target: string): string {
    scheme + "://" + (user + address + target)
  }

  /** What a cut text is refused for, as far as its target and its address decide. */
  function Judged(address: string, target: string): Option<Error> {
    if !Visible(target) then Some(MalformedTarget)
    else
      match ReadAuthority(address)
      case Err(error) => Some(error)
      case Ok(_) => None
  }

  lemma CutIsJudged(scheme: string, user: string, address: string, target: string)
    requires Cut(scheme, user, address, target)
    ensures Parse(Text(scheme, user, address, target)).Ok? <==> Judged(address, target).None?
    ensures Judged(address, target).Some? ==>
              Parse(Text(scheme, user, address, target)) == Err(Judged(address, target).value)
  {
    hide ReadAuthority, WithoutUser, AuthorityEnd, SeparatorAt, SchemeEnd, Lowered;
    var authority := user + address;
    var rest, text := authority + target, Text(scheme, user, address, target);
    FirstSeparator(scheme, rest);
    assert text == scheme + "://" + rest;
    assert text[..|scheme|] == scheme && text[|scheme| + 3..] == rest;
    if target == "" {
      assert rest == authority;
      AuthorityWhole(authority);
    } else {
      AuthorityEndIs(authority, target);
    }
    assert rest[..|authority|] == authority && rest[|authority|..] == target;
    UserIsDropped(user, address);
  }

  /** Every text with a separator is cut so. */
  lemma EveryTextIsCut(text: string) returns (scheme: string, user: string, address: string, target: string)
    requires SchemeEnd(text).Some?
    ensures Cut(scheme, user, address, target) && text == Text(scheme, user, address, target)
  {
    var end := SchemeEnd(text).value;
    assert end + 3 <= |text|;
    SchemeIsFirst(text, end);
    SeparatorThere(text, end);
    hide SchemeEnd, SeparatorAt;
    scheme := text[..end];
    user, address, target := RestIsCut(text[end + 3..]);
  }

  /** A text without a separator is refused for that, and no other is. */
  lemma NoSchemeIff(text: string)
    ensures Parse(text) == Err(NoScheme) <==> !exists scheme: string, rest: string :: text == scheme + "://" + rest
  {
    hide ReadAuthority, WithoutUser, AuthorityEnd, Lowered, IsTarget;
    if scheme: string, rest: string :| text == scheme + "://" + rest {
      assert SeparatorAt(text, |scheme|);
    }
    if SchemeEnd(text).Some? {
      var end := SchemeEnd(text).value;
      SeparatorThere(text, end);
      AuthorityError(WithoutUser(text[end + 3..][..AuthorityEnd(text[end + 3..])]));
    }
  }

  lemma AuthorityError(authority: string)
    ensures ReadAuthority(authority) != Err(NoScheme) && ReadAuthority(authority) != Err(MalformedTarget)
  {
    hide ReadPort, IsHost, IsLiteral, LastIndexOf, SplitOnce;
  }

  // --- the address

  /** An address that opens a bracket and never closes it. */
  lemma OpenBracketIs(address: string)
    requires address != "" && address[0] == '[' && ']' !in address
    ensures ReadAuthority(address) == Err(NoClosingBracket)
  {
    assert ']' !in address[1..];
  }

  /** What is refused in a bracketed address, in the order it is looked at: what follows, the port, what it holds. */
  lemma LiteralErrorIs(host: string, after: string)
    requires ']' !in host
    ensures ReadAuthority("[" + host + "]" + after)
            == if after != "" && after[0] != ':' then Err(TrailingCharacters)
               else if after != "" && !IsPort(after[1..]) then Err(BadPort)
               else if host == "" || exists i :: 0 <= i < |host| && host[i] !in "0123456789abcdefABCDEF:."
               then Err(MalformedLiteral)
               else Ok((host, if after == "" then None else Some(PortOf(after[1..]))))
  {
    hide ReadPort, IsPort, PortOf, IsLiteral, SplitOnce, ReadPlain;
    var text := "[" + host + "]" + after;
    assert text[0] == '[' && text[1..] == host + [']'] + after;
    SplitOnceFront(host, ']', after);
    LiteralIff(host);
    if after != "" {
      PortIsRead(after[1..]);
    }
  }

  /** And in any other: the port behind the last colon, and then the host. */
  lemma PlainErrorIs(host: string, port: Option<string>)
    requires host != "" ==> host[0] != '['
    requires match port
             case None => ':' !in host
             case Some(text) => ':' !in text
    ensures ReadAuthority(host + if port.Some? then ":" + port.value else "")
            == if port.Some? && !IsPort(port.value) then Err(BadPort)
               else if host == "" then Err(NoHost)
               else if !Visible(host) || exists i :: 0 <= i < |host| && host[i] in "/?#@[]:" then Err(MalformedHost)
               else Ok((host, if port.Some? then Some(PortOf(port.value)) else None))
  {
    hide ReadPort, IsPort, PortOf, IsHost, ReadLiteral, LastIndexOf;
    HostIff(host);
    if port.Some? {
      var text := host + (":" + port.value);
      PortIsRead(port.value);
      assert text[|host| + 1..] == port.value && text[..|host|] == host && text[0] == (host + ":")[0];
      LastIndexIs(text, ':', |host|);
    } else {
      assert host + "" == host;
    }
  }
}
