/** Which requests a cookie set at one URL is sent with, said without the rules the jar applies. */
module CookieScopes {
  import opened Wrappers
  import opened Texts
  import opened Clocks
  import Urls
  import SetCookies
  import opened Cookies
  import opened CookieJar
  import opened JarRuns
  import JarAnswers

  // --- paths

  /** A query or a fragment, or nothing. */
  predicate IsTail(tail: string) {
    tail == "" || tail[0] == '?' || tail[0] == '#'
  }

  /** A text with no query or fragment in it. */
  predicate IsPath(path: string) {
    '?' !in path && '#' !in path
  }

  lemma PathOfIs(path: string, tail: string)
    requires IsPath(path) && IsTail(tail)
    ensures PathOf(path + tail) == path
  {
    var target := path + tail;
    PathUpTo(target, '?', path);
    PathUpTo(target, '#', path);
    if tail != "" {
      assert target[|path|] == tail[0];
      IndexIsUnique(target, tail[0], |path|);
    } else {
      assert target == path;
    }
  }

  lemma PathUpTo(target: string, c: char, path: string)
    requires path <= target && c !in path
    ensures IndexOf(target, c) >= |path|
  {
    assert forall i | 0 <= i < |path| :: target[i] == path[i] != c;
  }

  /** A path is another, or continues it at a slash. */
  ghost predicate Under(path: string, cookiePath: string) {
    || path == cookiePath
    || exists rest: string ::
         && path == cookiePath + rest && rest != ""
         && (rest[0] == '/' || (cookiePath != "" && cookiePath[|cookiePath| - 1] == '/'))
  }

  lemma PathMatchesIff(path: string, tail: string, cookiePath: string)
    requires IsPath(path) && IsTail(tail)
    ensures PathMatches(path + tail, cookiePath) <==> Under(path, cookiePath)
  {
    PathOfIs(path, tail);
    hide PathOf;
    if PathMatches(path + tail, cookiePath) && path != cookiePath {
      var rest := path[|cookiePath|..];
      assert path == cookiePath + rest;
    }
  }

  /** The default path is everything before the last slash, and a slash when that leaves nothing. */
  lemma DefaultPathIs(front: string, leaf: string, tail: string)
    requires IsPath(front) && IsPath(leaf) && '/' !in leaf && IsTail(tail)
    ensures DefaultPath(front + "/" + leaf + tail) == if front == "" then "/" else front
    ensures DefaultPath(leaf + tail) == "/"
  {
    PathOfIs(leaf, tail);
    var path := front + "/" + leaf;
    assert IsPath(path);
    PathOfIs(path, tail);
    hide PathOf;
    assert path[|front|] == '/' && path[|front| + 1..] == leaf && path[..|front|] == front;
    LastIndexIs(path, '/', |front|);
  }

  // --- hosts

  /** A host that is no address, and continues a domain at a dot. */
  ghost predicate Beneath(isAddress: Address, host: string, domain: string) {
    !isAddress(host) && exists front: string :: host == front + "." + domain
  }

  /** What a Domain attribute asks for, without the dots in front of it; nothing when there is none. */
  ghost predicate Asks(attribute: Option<string>, asked: string) {
    match attribute
    case None => asked == ""
    case Some(text) =>
      exists dots: string, name: string ::
        && text == dots + name && All(dots, IsDot)
        && (name != "" ==> name[0] != '.') && asked == Lowered(name)
  }

  /** Whether a host may set a cookie for what it asked for. */
  ghost predicate MaySet(isAddress: Address, host: string, asked: string) {
    asked == "" || asked == host || ('.' in asked && Beneath(isAddress, host, asked))
  }

  lemma ScopeIs(isAddress: Address, host: string, attribute: Option<string>, asked: string)
    requires Asks(attribute, asked) && (attribute.Some? ==> SetCookies.CleanText(attribute.value))
    ensures Scope(isAddress, host, attribute)
            == if !MaySet(isAddress, host, asked) then None
               else if asked == "" then Some((host, true)) else Some((asked, false))
  {
    hide TrimStart, DomainMatches, Lowered;
    if attribute.Some? {
      var dots: string, name: string :|
        && attribute.value == dots + name && All(dots, IsDot)
        && (name != "" ==> name[0] != '.') && asked == Lowered(name);
      TrimStartIs(dots, name, IsDot);
    }
    DomainMatchesIff(isAddress, host, asked);
  }

  // --- from one URL to another

  /** Whether a cookie set at one URL goes with a request for another, whose path is given. */
  ghost predicate Sent(setup: Setup, from: Url, cookie: SetCookies.SetCookie, asked: string, cookiePath: string,
                       now: Instant, other: Url, path: string, later: Instant)
  {
    && (cookie.maxAge.Some? && now + cookie.maxAge.value * 1_000_000_000 <= setup.latest ==>
          later < now + cookie.maxAge.value * 1_000_000_000)
    && (cookie.secure ==> other.scheme == "https" || other.scheme == "wss")
    && (if asked == "" then Lowered(other.host) == Lowered(from.host)
        else Lowered(other.host) == asked || Beneath(setup.isAddress, Lowered(other.host), asked))
    && Under(path, cookiePath)
  }

  /** A Cookie field with one more pair at its end. */
  function Extended(field: Option<string>, pair: string): string {
    match field
    case None => pair
    case Some(text) => text + "; " + pair
  }

  lemma HeaderGrows(setup: Setup, others: Entries, cookie: StoredCookie, url: Url, now: Instant)
    ensures Header(setup, others + [cookie], url, now)
            == if Matches(setup.isAddress, cookie, url, now)
               then Some(Extended(Header(setup, others, url, now), cookie.name + "=" + cookie.value))
               else Header(setup, others, url, now)
  {
    hide Matches, Matching, Pairs;
    JarAnswers.NewestIsLast(setup, others, cookie, url, now);
    var before := Matching(setup, others, url, now);
    PairsGrow(before, cookie);
    NothingMatches(setup, url, now);
    if before != [] {
      Regrouped(Pairs(before), cookie.name, cookie.value);
    } else {
      assert "" + "" + cookie.name + "=" + cookie.value == cookie.name + "=" + cookie.value;
    }
  }

  lemma Regrouped(front: string, name: string, value: string)
    ensures front + "; " + name + "=" + value == front + "; " + (name + "=" + value)
  {
  }

  /** The cookie a readable field leaves, when its host may set it and its age has not passed. */
  function Left(setup: Setup, from: Url, cookie: SetCookies.SetCookie, asked: string, now: Instant): StoredCookie {
    StoredCookie(cookie.name, cookie.value, if asked == "" then Lowered(from.host) else asked, asked == "",
                 if cookie.path.Some? then cookie.path.value else DefaultPath(from.target), cookie.secure,
                 if cookie.maxAge.None? || cookie.maxAge.value < 0 then None
                 else Deadline(setup, now, cookie.maxAge.value))
  }

  lemma KeptIsLeft(setup: Setup, from: Url, field: string, cookie: SetCookies.SetCookie, asked: string, now: Instant)
    requires SetCookies.Read(field) == Some(cookie) && Asks(cookie.domain, asked)
    ensures var change := ChangeOf(setup, from, field, now);
            if !MaySet(setup.isAddress, Lowered(from.host), asked) then change == Ignored
            else if cookie.maxAge.Some? && cookie.maxAge.value <= 0
            then change == Dropped(KeyOf(Left(setup, from, cookie, asked, now)))
            else change == Kept(Left(setup, from, cookie, asked, now))
  {
    SetCookies.ReadIsCarried(field);
    hide Scope, DefaultPath, SetCookies.Read, SetCookies.CleanText, Asks, MaySet, Deadline;
    ScopeIs(setup.isAddress, Lowered(from.host), cookie.domain, asked);
  }

  lemma LeftMatchesIff(setup: Setup, from: Url, cookie: SetCookies.SetCookie, asked: string, now: Instant,
                       other: Url, path: string, tail: string, later: Instant)
    requires other.target == path + tail && IsPath(path) && IsTail(tail)
    requires cookie.maxAge.Some? ==> cookie.maxAge.value > 0
    ensures var left := Left(setup, from, cookie, asked, now);
            Matches(setup.isAddress, left, other, later)
            <==> Sent(setup, from, cookie, asked, left.path, now, other, path, later)
  {
    hide DefaultPath, PathMatches, Under, DomainMatches, Lowered;
    var left := Left(setup, from, cookie, asked, now);
    PathMatchesIff(path, tail, left.path);
    DomainMatchesIff(setup.isAddress, Lowered(other.host), asked);
  }

  /** A field that asks for a domain its host may not set cookies for changes nothing. */
  lemma ForeignIsIgnored(setup: Setup, ops: seq<Op>, from: Url, field: string, cookie: SetCookies.SetCookie,
                         asked: string, now: Instant)
    requires SetCookies.Read(field) == Some(cookie) && Asks(cookie.domain, asked)
    requires !MaySet(setup.isAddress, Lowered(from.host), asked)
    ensures After(setup, ops + [Store(from, field, now)]) == After(setup, ops)
  {
    hide SetCookies.Read, Asks, MaySet, ChangeOf;
    KeptIsLeft(setup, from, field, cookie, asked, now);
    var all := ops + [Store(from, field, now)];
    assert all[..|ops|] == ops;
  }

  /**
   * A cookie set at one URL is the last pair of the Cookie field for another
   * exactly when it has not expired, may travel by that URL's transport, goes
   * back to the host that set it, or to the domain it asked for and the hosts
   * beneath, and the request's path is its own or continues it at a slash;
   * and otherwise it leaves that field as the other cookies make it.
   */
  lemma SentElsewhereIff(setup: Setup, ops: seq<Op>, from: Url, field: string, cookie: SetCookies.SetCookie,
                         asked: string, now: Instant, other: Url, path: string, tail: string, later: Instant)
    requires setup.maxCookies > 0 && SetCookies.Read(field) == Some(cookie) && Asks(cookie.domain, asked)
    requires MaySet(setup.isAddress, Lowered(from.host), asked)
    requires cookie.maxAge.Some? ==> cookie.maxAge.value > 0
    requires other.target == path + tail && IsPath(path) && IsTail(tail)
    ensures var jar := After(setup, ops + [Store(from, field, now)]);
            var cookiePath := if cookie.path.Some? then cookie.path.value else DefaultPath(from.target);
            && jar != []
            && var rest := Header(setup, jar[..|jar| - 1], other, later);
               Header(setup, jar, other, later)
               == if Sent(setup, from, cookie, asked, cookiePath, now, other, path, later)
                  then Some(Extended(rest, cookie.name + "=" + cookie.value)) else rest
  {
    hide SetCookies.Read, Asks, MaySet, ChangeOf, Trimmed, Thinned, Alive, Without, Header, Matches, DefaultPath;
    hide Sent, Deadline, Extended;
    KeptIsLeft(setup, from, field, cookie, asked, now);
    var all, left := ops + [Store(from, field, now)], Left(setup, from, cookie, asked, now);
    assert all[..|ops|] == ops;
    var others := Trimmed(setup, Thinned(setup, Alive(Without(After(setup, ops), KeyOf(left)), now), left.domain));
    assert After(setup, all) == others + [left] && (others + [left])[..|others|] == others;
    HeaderGrows(setup, others, left, other, later);
    LeftMatchesIff(setup, from, cookie, asked, now, other, path, tail, later);
  }
}
