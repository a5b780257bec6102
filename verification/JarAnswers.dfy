/** What a cookie jar answers: pruning never shows, and a host gets back what it set. */
module JarAnswers {
  import opened Wrappers
  import opened Texts
  import opened Clocks
  import SetCookies
  import Urls
  import opened Cookies
  import opened CookieJar
  import opened JarRuns
  import JarBounds

  /** Keeping what was alive at one instant keeps what is alive at another, when nothing has come back to life. */
  lemma {:induction false} AliveAgain(entries: Entries, earlier: Instant, now: Instant)
    requires forall i :: 0 <= i < |entries| && Expired(entries[i], earlier) ==> Expired(entries[i], now)
    ensures Alive(Alive(entries, earlier), now) == Alive(entries, now)
  {
    hide Expired;
    if entries != [] {
      var front, last := entries[..|entries| - 1], entries[|entries| - 1];
      AliveAgain(front, earlier, now);
      var kept := Alive(front, earlier);
      assert (kept + [last])[..|kept|] == kept && kept + [] == kept;
    }
  }

  lemma {:induction false} AliveWithout(entries: Entries, key: Key, now: Instant)
    ensures Alive(Without(entries, key), now) == Without(Alive(entries, now), key)
  {
    hide Expired, KeyOf;
    if entries != [] {
      var front, last := entries[..|entries| - 1], entries[|entries| - 1];
      AliveWithout(front, key, now);
      var others, alive := Without(front, key), Alive(front, now);
      assert (others + [last])[..|others|] == others && (alive + [last])[..|alive|] == alive;
      assert others + [] == others && alive + [] == alive;
    }
  }

  /** Only unexpired cookies belong on a request. */
  lemma {:induction false} MatchingReadsTheLiving(setup: Setup, entries: Entries, url: Url, now: Instant)
    ensures Matching(setup, Alive(entries, now), url, now) == Matching(setup, entries, url, now)
  {
    hide PathMatches, DomainMatches;
    if entries != [] {
      var front, last := entries[..|entries| - 1], entries[|entries| - 1];
      MatchingReadsTheLiving(setup, front, url, now);
      var alive := Alive(front, now);
      assert (alive + [last])[..|alive|] == alive && alive + [] == alive;
      assert Matches(setup.isAddress, last, url, now) ==> !Expired(last, now);
    }
  }

  // --- pruning is invisible

  function WithoutPrunes(ops: seq<Op>): seq<Op> {
    if ops == [] then []
    else
      WithoutPrunes(ops[..|ops| - 1]) + if ops[|ops| - 1].Prune? then [] else [ops[|ops| - 1]]
  }

  /** Two jars hold the same living cookies, in the same order, at every instant steady from here on. */
  ghost predicate SameLiving(past: seq<Instant>, a: Entries, b: Entries) {
    forall now | SteadyAt(past, now) :: Alive(a, now) == Alive(b, now)
  }

  ghost predicate AllDated(past: seq<Instant>, entries: Entries) {
    forall i | 0 <= i < |entries| :: DatedCookie(past, entries[i])
  }

  lemma HeldAreDated(setup: Setup, ops: seq<Op>)
    ensures AllDated(Times(ops), After(setup, ops))
  {
    hide After, Stands, DatedCookie;
    RunIsOrderly(setup, ops);
    var entries := After(setup, ops);
    forall i | 0 <= i < |entries| ensures DatedCookie(Times(ops), entries[i]) {
      StandsIsDated(setup, ops, entries[i]);
    }
  }

  lemma LaterLiving(past: seq<Instant>, now: Instant, a: Entries, b: Entries)
    requires SameLiving(past, a, b)
    ensures SameLiving(past + [now], a, b)
  {
    hide SteadyAt;
    forall t | SteadyAt(past + [now], t) ensures Alive(a, t) == Alive(b, t) {
      SteadyBefore(past, now, t);
    }
  }

  /** Pruning one of two such jars keeps them such. */
  lemma PrunedLiving(past: seq<Instant>, now: Instant, a: Entries, b: Entries)
    requires SameLiving(past, a, b) && AllDated(past, a)
    ensures SameLiving(past + [now], Alive(a, now), b)
  {
    hide SteadyAt, DatedCookie, Expired;
    forall t | SteadyAt(past + [now], t) ensures Alive(Alive(a, now), t) == Alive(b, t) {
      SteadyBefore(past, now, t);
      forall i | 0 <= i < |a| && Expired(a[i], now) ensures Expired(a[i], t) {
        ExpiredStays(past, now, a[i], t);
      }
      AliveAgain(a, now, t);
    }
  }

  lemma WithoutLiving(past: seq<Instant>, now: Instant, a: Entries, b: Entries, key: Key)
    requires SameLiving(past, a, b)
    ensures SameLiving(past + [now], Without(a, key), Without(b, key))
  {
    hide SteadyAt, Alive, Without;
    forall t | SteadyAt(past + [now], t) ensures Alive(Without(a, key), t) == Alive(Without(b, key), t) {
      SteadyBefore(past, now, t);
      AliveWithout(a, key, t);
      AliveWithout(b, key, t);
    }
  }

  /** A field taken in by both keeps them such. */
  lemma ChangedLiving(setup: Setup, past: seq<Instant>, now: Instant, a: Entries, b: Entries, change: Change)
    requires SameLiving(past, a, b) && SteadyAt(past, now)
    ensures SameLiving(past + [now], Changed(setup, a, change, now), Changed(setup, b, change, now))
  {
    hide SteadyAt, Alive, Without, Trimmed, Thinned;
    match change
    case Ignored => LaterLiving(past, now, a, b);
    case Dropped(key) => WithoutLiving(past, now, a, b, key);
    case Kept(cookie) =>
      WithoutLiving(past, now, a, b, KeyOf(cookie));
      AliveWithout(a, KeyOf(cookie), now);
      AliveWithout(b, KeyOf(cookie), now);
  }

  /** At steady instants a jar and one that was never pruned hold the same living cookies in the same order. */
  lemma {:induction false} PrunesLeaveTheLiving(setup: Setup, ops: seq<Op>)
    requires Steady(Times(ops))
    ensures SameLiving(Times(ops), After(setup, ops), After(setup, WithoutPrunes(ops)))
  {
    hide Alive, ChangeOf, Changed, SteadyAt, SameLiving, DatedCookie;
    if ops == [] {
      SameIsLiving([]);
    } else {
      var n := |ops| - 1;
      var front, last := ops[..n], ops[n];
      TimesPrefix(ops, n);
      assert ops[..n + 1] == ops;
      SteadyPrefix(Times(ops), n);
      PrunesLeaveTheLiving(setup, front);
      var pruned, whole, kept := After(setup, front), After(setup, WithoutPrunes(front)), WithoutPrunes(front);
      assert SteadyAt(Times(ops)[..n], Times(ops)[n]);
      match last
      case Prune(now) =>
        HeldAreDated(setup, front);
        PrunedLiving(Times(front), now, pruned, whole);
        assert kept + [] == kept;
      case Store(url, field, now) =>
        assert (kept + [last])[..|kept|] == kept;
        ChangedLiving(setup, Times(front), now, pruned, whole, ChangeOf(setup, url, field, now));
    }
  }

  lemma SameIsLiving(entries: Entries)
    ensures SameLiving([], entries, entries)
  {
  }

  /** Pruning, wherever it happened, changes no Cookie field at a steady instant. */
  lemma PruningNeverShows(setup: Setup, ops: seq<Op>, url: Url, now: Instant)
    requires Steady(Times(ops)) && SteadyAt(Times(ops), now)
    ensures Header(setup, After(setup, ops), url, now) == Header(setup, After(setup, WithoutPrunes(ops)), url, now)
  {
    hide Alive, After, WithoutPrunes, Matching, SteadyAt;
    PrunesLeaveTheLiving(setup, ops);
    MatchingReadsTheLiving(setup, After(setup, ops), url, now);
    MatchingReadsTheLiving(setup, After(setup, WithoutPrunes(ops)), url, now);
  }

  // --- what is set is sent back

  lemma KeptIsAlive(setup: Setup, url: Url, field: string, now: Instant, cookie: StoredCookie)
    requires ChangeOf(setup, url, field, now) == Kept(cookie)
    ensures !Expired(cookie, now)
  {
    hide Scope, SetCookies.Read, DefaultPath;
  }

  lemma NewestIsLast(setup: Setup, entries: Entries, cookie: StoredCookie, url: Url, now: Instant)
    ensures Matching(setup, entries + [cookie], url, now)
            == if Matches(setup.isAddress, cookie, url, now) then Matching(setup, entries, url, now) + [cookie]
               else Matching(setup, entries, url, now)
  {
    hide Matches;
    assert (entries + [cookie])[..|entries|] == entries;
  }

  /**
   * A cookie a response sets is the newest the jar then holds. It is sent at
   * once on a request for the same URL, behind every other, exactly when the
   * transport may carry it and the target lies under its path.
   */
  lemma SetIsSentBack(setup: Setup, ops: seq<Op>, url: Url, field: string, now: Instant, cookie: StoredCookie)
    returns (others: Entries)
    requires setup.maxCookies > 0 && ChangeOf(setup, url, field, now) == Kept(cookie)
    ensures After(setup, ops + [Store(url, field, now)]) == others + [cookie]
    ensures Header(setup, others + [cookie], url, now)
            == if (cookie.secure ==> Urls.Secure(url)) && PathMatches(url.target, cookie.path)
               then Some(Pairs(Matching(setup, others, url, now) + [cookie]))
               else Header(setup, others, url, now)
  {
    hide ChangeOf, Scope, DomainMatches, PathMatches, Trimmed, Thinned, Alive, Without, Expired, Matching, Pairs;
    var op := Store(url, field, now);
    assert (ops + [op])[..|ops|] == ops;
    others := Trimmed(setup, Thinned(setup, Alive(Without(After(setup, ops), KeyOf(cookie)), now), cookie.domain));
    KeptIsAlive(setup, url, field, now, cookie);
    KeptIsScoped(setup, url, field, now, cookie);
    NewestIsLast(setup, others, cookie, url, now);
  }

  /**
   * A cookie a server builds is the cookie its client keeps: its name and
   * value under the scope and path it asked for, for as long as it asked, or
   * none at all when its age has passed.
   */
  lemma BuiltIsKept(setup: Setup, url: Url, cookie: SetCookies.SetCookie, now: Instant, later: Instant)
    requires SetCookies.Build(cookie).Some? && SetCookies.Carried(cookie)
    requires Scope(setup.isAddress, Lowered(url.host), cookie.domain).Some?
    ensures var change := ChangeOf(setup, url, SetCookies.Build(cookie).value, now);
            var (domain, hostOnly) := Scope(setup.isAddress, Lowered(url.host), cookie.domain).value;
            var path := if cookie.path.Some? then cookie.path.value else DefaultPath(url.target);
            if cookie.maxAge.Some? && cookie.maxAge.value <= 0
            then change == Dropped(Key(cookie.name, domain, path))
            else
              && change.Kept? && KeyOf(change.cookie) == Key(cookie.name, domain, path)
              && change.cookie.value == cookie.value && change.cookie.secure == cookie.secure
              && change.cookie.hostOnly == hostOnly
              && (Expired(change.cookie, later)
                  <==> cookie.maxAge.Some? && Lapse(now, cookie.maxAge.value) <= later
                       && Lapse(now, cookie.maxAge.value) <= setup.latest)
  {
    hide Scope, DefaultPath, SetCookies.Read, SetCookies.Build, SetCookies.Carried;
    SetCookies.BuiltReadsBackIff(cookie);
  }

  // --- the exact condition on the instants

  /** A cookie for some seconds set at one time, a prune at a later one, and nothing else. */
  function PruneOps(times: seq<Instant>, k: nat, r: nat, field: string): (ops: seq<Op>)
    requires k < r < |times|
    ensures |ops| == |times| && Times(ops) == times
  {
    seq(|times|, i requires 0 <= i < |times| =>
      if i == r then Prune(times[i]) else Store(HERE, if i == k then field else "", times[i]))
  }

  const HERE := Urls.Url("http", "a", 80, "/")

  function Lasting(seconds: i64): SetCookies.SetCookie {
    SetCookies.Plain("a", "").(maxAge := Some(seconds))
  }

  function RoomForOne(deadline: Instant): Setup {
    Setup(1, 1, _ => false, deadline)
  }

  lemma EmptyFieldIsIgnored(setup: Setup, now: Instant)
    ensures ChangeOf(setup, HERE, "", now) == Ignored
  {
    SplitWhole("", ';');
  }

  lemma ScopeOfHere(isAddress: Address)
    ensures Scope(isAddress, Lowered("a"), None) == Some(("a", true))
  {
    assert Lowered("a") == "a";
  }

  /** A cookie kept for the host that set it alone, on any transport, matches there for as long as it lives. */
  lemma MatchesHere(isAddress: Address, cookie: StoredCookie, now: Instant)
    requires cookie.hostOnly && cookie.domain == "a" && cookie.path == "/" && !cookie.secure
    ensures Matches(isAddress, cookie, HERE, now) <==> !Expired(cookie, now)
  {
    hide Expired, PathMatches;
    assert Lowered("a") == "a";
    SlashMatches();
  }

  lemma LastingChanges(seconds: i64, from: Instant, later: Instant)
    requires seconds >= 1
    ensures SetCookies.Build(Lasting(seconds)).Some?
    ensures var field := SetCookies.Build(Lasting(seconds)).value;
            var change := ChangeOf(RoomForOne(Lapse(from, seconds)), HERE, field, from);
            && change.Kept? && change.cookie.hostOnly && !change.cookie.secure
            && KeyOf(change.cookie) == Key("a", "a", "/")
            && (Expired(change.cookie, later) <==> Lapse(from, seconds) <= later)
  {
    hide SetCookies.Read, SetCookies.Build, SetCookies.Carried;
    hide ChangeOf, Expired, Scope, DefaultPath, PathMatches, KeyOf;
    var setup := RoomForOne(Lapse(from, seconds));
    LastingIsBuilt(seconds);
    ScopeOfHere(setup.isAddress);
    SlashMatches();
    BuiltIsKept(setup, HERE, Lasting(seconds), from, later);
  }

  /** The cookie such a field leaves is sent to where it came from until it lapses, and not after. */
  lemma LastingIsKept(seconds: i64, from: Instant) returns (field: string, cookie: StoredCookie)
    requires seconds >= 1
    ensures ChangeOf(RoomForOne(Lapse(from, seconds)), HERE, field, from) == Kept(cookie)
    ensures forall now: Instant :: Matches(RoomForOne(Lapse(from, seconds)).isAddress, cookie, HERE, now)
                                   <==> now < Lapse(from, seconds)
    ensures forall now: Instant :: Expired(cookie, now) <==> Lapse(from, seconds) <= now
  {
    hide SetCookies.Build, ChangeOf, Expired, Matches, RoomForOne;
    LastingChanges(seconds, from, 0);
    field := SetCookies.Build(Lasting(seconds)).value;
    cookie := ChangeOf(RoomForOne(Lapse(from, seconds)), HERE, field, from).cookie;
    forall now: Instant
      ensures Expired(cookie, now) <==> Lapse(from, seconds) <= now
      ensures Matches(RoomForOne(Lapse(from, seconds)).isAddress, cookie, HERE, now) <==> now < Lapse(from, seconds)
    {
      LastingChanges(seconds, from, now);
      MatchesHere(RoomForOne(Lapse(from, seconds)).isAddress, cookie, now);
    }
  }

  lemma LastingIsBuilt(seconds: i64)
    requires seconds >= 1
    ensures SetCookies.Build(Lasting(seconds)).Some? && SetCookies.Carried(Lasting(seconds))
  {
    TrimKeeps("a", IsSpace);
  }

  lemma SlashMatches()
    ensures DefaultPath("/") == "/" && PathMatches("/", "/")
  {
    assert "/"[..1] == "/" && "/"[..0] == "";
  }

  function HeldOf(cookie: StoredCookie, held: bool): Entries {
    if held then [cookie] else []
  }

  lemma PruneStep(times: seq<Instant>, k: nat, r: nat, seconds: i64, field: string, cookie: StoredCookie, i: nat)
    requires k < r < |times| && i < |times| && seconds >= 1 && Lapse(times[k], seconds) <= times[r]
    requires ChangeOf(RoomForOne(Lapse(times[k], seconds)), HERE, field, times[k]) == Kept(cookie)
    requires forall now: Instant :: Expired(cookie, now) <==> Lapse(times[k], seconds) <= now
    ensures var setup, op := RoomForOne(Lapse(times[k], seconds)), PruneOps(times, k, r, field)[i];
            && (op.Prune? <==> i == r)
            && Applied(setup, HeldOf(cookie, k < i <= r), op) == HeldOf(cookie, k < i + 1 <= r)
            && (i != r ==> Applied(setup, HeldOf(cookie, k < i), op) == HeldOf(cookie, k < i + 1))
  {
    hide ChangeOf, Expired, Changed, Alive;
    var setup := RoomForOne(Lapse(times[k], seconds));
    EmptyFieldIsIgnored(setup, times[i]);
    JarBounds.StoredAlone(setup, cookie, times[k]);
    ChangedIgnored(setup, []);
    ChangedIgnored(setup, [cookie]);
    OneAlive(cookie, times[i]);
  }

  /** What a run of such operations holds, and what it would hold without the prune. */
  lemma {:induction false} PruneRuns(times: seq<Instant>, k: nat, r: nat, seconds: i64, field: string,
                                     cookie: StoredCookie, n: nat)
    requires k < r < |times| && n <= |times| && seconds >= 1 && Lapse(times[k], seconds) <= times[r]
    requires ChangeOf(RoomForOne(Lapse(times[k], seconds)), HERE, field, times[k]) == Kept(cookie)
    requires forall now: Instant :: Expired(cookie, now) <==> Lapse(times[k], seconds) <= now
    ensures var setup, ops := RoomForOne(Lapse(times[k], seconds)), PruneOps(times, k, r, field)[..n];
            && After(setup, ops) == HeldOf(cookie, k < n <= r)
            && After(setup, WithoutPrunes(ops)) == HeldOf(cookie, k < n)
  {
    hide ChangeOf, Expired, Applied, RoomForOne;
    if n > 0 {
      var ops := PruneOps(times, k, r, field);
      PruneRuns(times, k, r, seconds, field, cookie, n - 1);
      PruneStep(times, k, r, seconds, field, cookie, n - 1);
      hide PruneOps, HeldOf;
      assert ops[..n][..n - 1] == ops[..n - 1];
      var kept := WithoutPrunes(ops[..n - 1]);
      assert (kept + [ops[n - 1]])[..|kept|] == kept && kept + [] == kept;
    }
  }

  lemma ChangedIgnored(setup: Setup, entries: Entries)
    ensures forall now :: Changed(setup, entries, Ignored, now) == entries
  {
  }

  lemma OneAlive(cookie: StoredCookie, now: Instant)
    ensures Alive([], now) == [] && Alive([cookie], now) == if Expired(cookie, now) then [] else [cookie]
  {
    assert [cookie][..0] == [];
  }

  lemma OneHeader(setup: Setup, cookie: StoredCookie, url: Url, now: Instant)
    ensures Header(setup, [], url, now) == None
    ensures Matches(setup.isAddress, cookie, url, now) ==> Header(setup, [cookie], url, now) != None
  {
    hide Matches;
    assert [cookie][..0] == [];
  }

  /** A lifetime over at one time and not at a later one is a cookie the prune took and the other jar sends. */
  lemma PruningShows(times: seq<Instant>, k: nat, r: nat, j: nat, seconds: i64) returns (setup: Setup, ops: seq<Op>)
    requires k < r < j < |times| && seconds >= 1 && times[j] < Lapse(times[k], seconds) <= times[r]
    ensures Times(ops) == times
    ensures Header(setup, After(setup, ops[..j]), HERE, times[j])
            != Header(setup, After(setup, WithoutPrunes(ops[..j])), HERE, times[j])
  {
    hide ChangeOf, Matches, After, WithoutPrunes, Header, Expired;
    var field, cookie := LastingIsKept(seconds, times[k]);
    setup, ops := RoomForOne(Lapse(times[k], seconds)), PruneOps(times, k, r, field);
    PruneRuns(times, k, r, seconds, field, cookie, j);
    OneHeader(setup, cookie, HERE, times[j]);
  }

  /**
   * Over every jar and every run with these instants, pruning changes no
   * Cookie field at any of them, exactly when no lifetime begun at one of them
   * was over at a later one and is not over at a later one still.
   */
  lemma PruningNeverShowsIff(times: seq<Instant>)
    ensures (forall setup, ops, url, j | Times(ops) == times && 0 <= j < |times| ::
               Header(setup, After(setup, ops[..j]), url, times[j])
               == Header(setup, After(setup, WithoutPrunes(ops[..j])), url, times[j]))
            <==> Steady(times)
  {
    hide Header, After, WithoutPrunes, SteadyAt;
    if Steady(times) {
      forall setup, ops, url, j | Times(ops) == times && 0 <= j < |times|
        ensures Header(setup, After(setup, ops[..j]), url, times[j])
                == Header(setup, After(setup, WithoutPrunes(ops[..j])), url, times[j])
      {
        SteadyPrefix(times, j);
        TimesPrefix(ops, j);
        PruningNeverShows(setup, ops[..j], url, times[j]);
      }
    } else {
      var j :| 0 <= j < |times| && !SteadyAt(times[..j], times[j]);
      var k, r, seconds := Unsteady(times[..j], times[j]);
      var setup, ops := PruningShows(times, k, r, j, seconds);
    }
  }

  lemma Unsteady(times: seq<Instant>, now: Instant) returns (k: nat, r: nat, seconds: i64)
    requires !SteadyAt(times, now)
    ensures k < r < |times| && seconds >= 1 && now < Lapse(times[k], seconds) <= times[r]
  {
    var a, b, c :| 0 <= a < b < |times| && 1 <= c <= I64_MAX && now < Lapse(times[a], c) <= times[b];
    k, r, seconds := a, b, c;
  }
}
