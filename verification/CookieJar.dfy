/** The client's bounded cookie store, section 5.3 of RFC 6265. */
module CookieJar {
  import opened Wrappers
  import opened Texts
  import opened Clocks
  import opened SetCookies
  import opened Cookies

  /** What a jar is set up with, and what it asks of the platform. */
  datatype Setup = Setup(
    maxCookies: nat,
    maxPerDomain: nat,
    isAddress: Address,
    latest: Instant)    // the last instant the clock can name

  type Entries = seq<StoredCookie>

  datatype Key = Key(name: string, domain: string, path: string)

  function KeyOf(cookie: StoredCookie): Key {
    Key(cookie.name, cookie.domain, cookie.path)
  }

  function Without(entries: Entries, key: Key): Entries {
    if entries == [] then []
    else
      var last := entries[|entries| - 1];
      Without(entries[..|entries| - 1], key) + if KeyOf(last) == key then [] else [last]
  }

  function Alive(entries: Entries, now: Instant): Entries {
    if entries == [] then []
    else
      var last := entries[|entries| - 1];
      Alive(entries[..|entries| - 1], now) + if Expired(last, now) then [] else [last]
  }

  lemma {:induction false} AliveHolds(entries: Entries, now: Instant, cookie: StoredCookie)
    ensures cookie in Alive(entries, now) <==> cookie in entries && !Expired(cookie, now)
  {
    hide Expired;
    if entries != [] {
      var front := entries[..|entries| - 1];
      AliveHolds(front, now, cookie);
      assert entries == front + [entries[|entries| - 1]];
    }
  }

  function Count(entries: Entries, domain: string): nat {
    if entries == [] then 0
    else Count(entries[..|entries| - 1], domain) + if entries[|entries| - 1].domain == domain then 1 else 0
  }

  /** Where the oldest cookie of a domain stands, or the length when there is none. */
  function OldestOf(entries: Entries, domain: string): (index: nat)
    ensures index <= |entries|
    ensures index < |entries| ==> entries[index].domain == domain
    ensures forall i :: 0 <= i < index ==> entries[i].domain != domain
  {
    if entries == [] || entries[0].domain == domain then 0 else 1 + OldestOf(entries[1..], domain)
  }

  function Removed(entries: Entries, index: nat): Entries
    requires index < |entries|
  {
    entries[..index] + entries[index + 1..]
  }

  /** The entries a domain at its ceiling leaves, without its oldest. */
  function Thinned(setup: Setup, entries: Entries, domain: string): Entries {
    var oldest := OldestOf(entries, domain);
    if Count(entries, domain) >= setup.maxPerDomain && oldest < |entries| then Removed(entries, oldest) else entries
  }

  /** The entries a jar at its ceiling leaves, without as many of the oldest as make room for one. */
  function Trimmed(setup: Setup, entries: Entries): Entries {
    if |entries| < setup.maxCookies then entries
    else if setup.maxCookies == 0 then []
    else entries[|entries| - setup.maxCookies + 1..]
  }

  datatype Change = Ignored | Dropped(key: Key) | Kept(cookie: StoredCookie)

  /** What a field changes: a cookie to keep, one to drop because its age has passed, or nothing. */
  function ChangeOf(setup: Setup, url: Url, field: string, now: Instant): Change {
    var host := Lowered(url.host);
    match Read(field)
    case None => Ignored
    case Some(cookie) =>
      match Scope(setup.isAddress, host, cookie.domain)
      case None => Ignored
      case Some((domain, hostOnly)) =>
        var path := if cookie.path.Some? then cookie.path.value else DefaultPath(url.target);
        if cookie.maxAge.Some? && cookie.maxAge.value <= 0 then Dropped(Key(cookie.name, domain, path))
        else
          var expires := if cookie.maxAge.None? then None else Deadline(setup, now, cookie.maxAge.value);
          Kept(StoredCookie(cookie.name, cookie.value, domain, hostOnly, path, cookie.secure, expires))
  }

  /** A deadline the clock cannot name is none at all. */
  function Deadline(setup: Setup, now: Instant, seconds: nat): (expires: Option<Instant>)
    ensures seconds > 0 && expires.Some? ==> expires.value > now
  {
    if Lapse(now, seconds) > setup.latest then None else Some(Lapse(now, seconds))
  }

  function Changed(setup: Setup, entries: Entries, change: Change, now: Instant): Entries {
    match change
    case Ignored => entries
    case Dropped(key) => Without(entries, key)
    case Kept(cookie) =>
      var others := Without(entries, KeyOf(cookie));
      if setup.maxCookies == 0 then others
      else Trimmed(setup, Thinned(setup, Alive(others, now), cookie.domain)) + [cookie]
  }

  function Learned(setup: Setup, entries: Entries, url: Url, fields: seq<string>, now: Instant): Entries {
    if fields == [] then entries
    else
      Changed(setup, Learned(setup, entries, url, fields[..|fields| - 1], now),
              ChangeOf(setup, url, fields[|fields| - 1], now), now)
  }

  /** The cookies that belong on a request, in the order they were stored. */
  function Matching(setup: Setup, entries: Entries, url: Url, now: Instant): Entries {
    if entries == [] then []
    else
      var last := entries[|entries| - 1];
      Matching(setup, entries[..|entries| - 1], url, now)
      + if Matches(setup.isAddress, last, url, now) then [last] else []
  }

  function Pairs(cookies: Entries): string {
    if cookies == [] then ""
    else
      var last := cookies[|cookies| - 1];
      Pairs(cookies[..|cookies| - 1]) + (if |cookies| == 1 then "" else "; ") + last.name + "=" + last.value
  }

  function Header(setup: Setup, entries: Entries, url: Url, now: Instant): Option<string> {
    var cookies := Matching(setup, entries, url, now);
    if cookies == [] then None else Some(Pairs(cookies))
  }

  lemma NothingMatches(setup: Setup, url: Url, now: Instant)
    ensures Matching(setup, [], url, now) == [] && Pairs([]) == ""
  {
  }

  lemma MatchingGrows(setup: Setup, entries: Entries, i: nat, url: Url, now: Instant)
    requires i < |entries|
    ensures Matching(setup, entries[..i + 1], url, now)
            == if Matches(setup.isAddress, entries[i], url, now)
               then Matching(setup, entries[..i], url, now) + [entries[i]]
               else Matching(setup, entries[..i], url, now)
  {
    hide Matches;
    assert entries[..i + 1][..i] == entries[..i];
  }

  lemma PairsGrow(cookies: Entries, cookie: StoredCookie)
    ensures Pairs(cookies + [cookie])
            == Pairs(cookies) + (if cookies == [] then "" else "; ") + cookie.name + "=" + cookie.value
  {
    assert (cookies + [cookie])[..|cookies|] == cookies;
  }

  /** The shared jar, changed in place by whoever holds its lock. */
  class Jar {
    const setup: Setup
    var entries: Entries

    constructor (setup: Setup)
      ensures this.setup == setup && entries == []
    {
      this.setup := setup;
      this.entries := [];
    }

    /** Makes room for one more cookie in a domain. */
    method Evict(domain: string)
      modifies this`entries
      ensures entries == Trimmed(setup, Thinned(setup, old(entries), domain))
    {
      var oldest := OldestOf(entries, domain);
      if Count(entries, domain) >= setup.maxPerDomain && oldest < |entries| {
        entries := Removed(entries, oldest);
      }
      ghost var thinned := entries;
      ghost var gone := 0;
      while entries != [] && |entries| >= setup.maxCookies
        invariant gone <= |thinned| && entries == thinned[gone..]
        invariant gone > 0 ==> |entries| + 1 >= setup.maxCookies
        decreases |entries|
      {
        entries := entries[1..];
        gone := gone + 1;
      }
    }

    method Learn(url: Url, fields: seq<string>, now: Instant)
      modifies this`entries
      ensures entries == Learned(setup, old(entries), url, fields, now)
    {
      hide Scope, DefaultPath, Matches, Trimmed, Thinned, Without, Alive, Read;
      var host := Lowered(url.host);
      for i := 0 to |fields|
        invariant entries == Learned(setup, old(entries), url, fields[..i], now)
      {
        assert fields[..i + 1][..i] == fields[..i];
        var cookie := Parse(fields[i]);
        if cookie.None? {
          continue;
        }
        var scope := Scope(setup.isAddress, host, cookie.value.domain);
        if scope.None? {
          continue;
        }
        var (domain, hostOnly) := scope.value;
        var path := if cookie.value.path.Some? then cookie.value.path.value else DefaultPath(url.target);
        entries := Without(entries, Key(cookie.value.name, domain, path));
        if cookie.value.maxAge.Some? && cookie.value.maxAge.value <= 0 {
          continue;
        }
        if setup.maxCookies == 0 {
          continue;
        }
        var expires := if cookie.value.maxAge.None? then None else Deadline(setup, now, cookie.value.maxAge.value);
        Prune(now);
        Evict(domain);
        entries := entries + [StoredCookie(cookie.value.name, cookie.value.value, domain, hostOnly, path,
                                           cookie.value.secure, expires)];
      }
      assert fields[..|fields|] == fields;
    }

    /** The Cookie field of a request, if any cookie belongs on it. */
    method Cookie(url: Url, now: Instant) returns (field: Option<string>)
      ensures field == Header(setup, entries, url, now)
    {
      hide Matching, Matches, Pairs;
      var cookies: Entries := [];
      var pairs := "";
      NothingMatches(setup, url, now);
      for i := 0 to |entries|
        invariant cookies == Matching(setup, entries[..i], url, now)
        invariant pairs == Pairs(cookies)
      {
        MatchingGrows(setup, entries, i, url, now);
        if Matches(setup.isAddress, entries[i], url, now) {
          PairsGrow(cookies, entries[i]);
          pairs := pairs + (if cookies == [] then "" else "; ") + entries[i].name + "=" + entries[i].value;
          cookies := cookies + [entries[i]];
        }
      }
      assert entries[..|entries|] == entries;
      return if cookies == [] then None else Some(pairs);
    }

    /** Keeps the unexpired cookies, one at a time and in order. */
    method Prune(now: Instant)
      modifies this`entries
      ensures entries == Alive(old(entries), now)
      ensures forall cookie :: cookie in entries <==> cookie in old(entries) && !Expired(cookie, now)
    {
      var kept: Entries := [];
      for i := 0 to |entries|
        invariant entries == old(entries) && kept == Alive(entries[..i], now)
      {
        assert entries[..i + 1][..i] == entries[..i];
        if !Expired(entries[i], now) {
          kept := kept + [entries[i]];
        }
      }
      assert entries[..|entries|] == entries;
      entries := kept;
      forall cookie ensures cookie in entries <==> cookie in old(entries) && !Expired(cookie, now) {
        AliveHolds(old(entries), now, cookie);
      }
    }
  }
}
