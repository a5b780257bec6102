/** The cookie jar over whole runs: its bounds, its order, and what pruning cannot change. */
module JarRuns {
  import opened Wrappers
  import opened Texts
  import opened Clocks
  import opened Cookies
  import opened CookieJar
  import opened Sublists

  /** One Set-Cookie field of a response, or a sweep of the jar. */
  datatype Op =
    | Store(url: Url, field: string, now: Instant)
    | Prune(now: Instant)

  function ChangeBy(setup: Setup, op: Op): Change {
    match op
    case Store(url, field, now) => ChangeOf(setup, url, field, now)
    case Prune(_) => Ignored
  }

  function Applied(setup: Setup, entries: Entries, op: Op): Entries {
    match op
    case Store(url, field, now) => Changed(setup, entries, ChangeOf(setup, url, field, now), now)
    case Prune(now) => Alive(entries, now)
  }

  /** The jar after a run from empty. */
  function After(setup: Setup, ops: seq<Op>): Entries {
    if ops == [] then [] else Applied(setup, After(setup, ops[..|ops| - 1]), ops[|ops| - 1])
  }

  /** The instants operations carry, in the order they take the lock. */
  function Times(ops: seq<Op>): (times: seq<Instant>)
    ensures |times| == |ops|
  {
    seq(|ops|, i requires 0 <= i < |ops| => ops[i].now)
  }

  lemma TimesPrefix(ops: seq<Op>, n: nat)
    requires n < |ops|
    ensures Times(ops[..n + 1]) == Times(ops[..n]) + [ops[n].now]
    ensures Times(ops)[..n] == Times(ops[..n])
  {
  }

  function Stores(url: Url, fields: seq<string>, now: Instant): seq<Op> {
    if fields == [] then [] else Stores(url, fields[..|fields| - 1], now) + [Store(url, fields[|fields| - 1], now)]
  }

  /** Learning a response's fields is storing them one after another. */
  lemma {:induction false} LearnedIsStores(setup: Setup, ops: seq<Op>, url: Url, fields: seq<string>, now: Instant)
    ensures Learned(setup, After(setup, ops), url, fields, now) == After(setup, ops + Stores(url, fields, now))
  {
    hide Changed, ChangeOf;
    if fields == [] {
      assert ops + [] == ops;
    } else {
      var front, last := fields[..|fields| - 1], Store(url, fields[|fields| - 1], now);
      LearnedIsStores(setup, ops, url, front, now);
      var all := ops + Stores(url, fields, now);
      assert all == (ops + Stores(url, front, now)) + [last];
      assert all[..|all| - 1] == ops + Stores(url, front, now);
    }
  }

  // --- what operations keep

  lemma {:induction false} WithoutIsSublist(entries: Entries, key: Key)
    ensures Sublist(Without(entries, key), entries)
    ensures forall i :: 0 <= i < |Without(entries, key)| ==> KeyOf(Without(entries, key)[i]) != key
  {
    hide Sublist;
    if entries == [] {
      SublistSelf(entries);
    } else {
      var front, last := entries[..|entries| - 1], entries[|entries| - 1];
      WithoutIsSublist(front, key);
      SublistGrows(Without(front, key), front, last);
      assert entries == front + [last];
      assert Without(front, key) + [] == Without(front, key);
    }
  }

  lemma {:induction false} AliveIsSublist(entries: Entries, now: Instant)
    ensures Sublist(Alive(entries, now), entries)
    ensures forall i :: 0 <= i < |Alive(entries, now)| ==> !Expired(Alive(entries, now)[i], now)
  {
    hide Sublist, Expired;
    if entries == [] {
      SublistSelf(entries);
    } else {
      var front, last := entries[..|entries| - 1], entries[|entries| - 1];
      AliveIsSublist(front, now);
      SublistGrows(Alive(front, now), front, last);
      assert entries == front + [last];
      assert Alive(front, now) + [] == Alive(front, now);
    }
  }

  lemma RemovedIsSublist(entries: Entries, index: nat)
    requires index < |entries|
    ensures Sublist(Removed(entries, index), entries)
  {
    assert Picks(seq(|entries| - 1, i => if i < index then i else i + 1), Removed(entries, index), entries);
  }

  lemma RoomIsSublist(setup: Setup, entries: Entries, domain: string)
    ensures Sublist(Trimmed(setup, Thinned(setup, entries, domain)), entries)
  {
    hide Sublist, OldestOf, Count, Removed;
    var thinned := Thinned(setup, entries, domain);
    SublistSelf(entries);
    if OldestOf(entries, domain) < |entries| {
      RemovedIsSublist(entries, OldestOf(entries, domain));
    }
    assert Sublist(thinned, entries);
    SublistSelf(thinned);
    if |thinned| >= setup.maxCookies {
      RestIsSublist(thinned, if setup.maxCookies == 0 then |thinned| else |thinned| - setup.maxCookies + 1);
    }
    assert thinned[|thinned|..] == [];
    SublistTrans(Trimmed(setup, thinned), thinned, entries);
  }

  /** A change keeps some of the entries, in order, none of them under the key it touches, and perhaps adds one. */
  lemma ChangedIsSublist(setup: Setup, entries: Entries, change: Change, now: Instant) returns (others: Entries)
    ensures Sublist(others, entries)
    ensures change.Ignored? ==> Changed(setup, entries, change, now) == others
    ensures change.Dropped? ==> Changed(setup, entries, change, now) == others && Absent(others, change.key)
    ensures change.Kept? ==>
              && Absent(others, KeyOf(change.cookie))
              && Changed(setup, entries, change, now)
                 == if setup.maxCookies == 0 then others else others + [change.cookie]
  {
    hide Sublist, Trimmed, Thinned, Alive;
    match change
    case Ignored =>
      others := entries;
      SublistSelf(entries);
    case Dropped(key) =>
      others := Without(entries, key);
      WithoutIsSublist(entries, key);
    case Kept(cookie) =>
      var without := Without(entries, KeyOf(cookie));
      WithoutIsSublist(entries, KeyOf(cookie));
      if setup.maxCookies == 0 {
        others := without;
      } else {
        var alive := Alive(without, now);
        others := Trimmed(setup, Thinned(setup, alive, cookie.domain));
        AliveIsSublist(without, now);
        RoomIsSublist(setup, alive, cookie.domain);
        SublistTrans(others, alive, without);
        AbsentStays(others, without, KeyOf(cookie));
        SublistTrans(others, without, entries);
      }
  }

  ghost predicate Absent(entries: Entries, key: Key) {
    forall i :: 0 <= i < |entries| ==> KeyOf(entries[i]) != key
  }

  lemma AbsentStays(part: Entries, whole: Entries, key: Key)
    requires Sublist(part, whole) && Absent(whole, key)
    ensures Absent(part, key)
  {
  }

  // --- provenance and order

  /** The last operation that touched a key, by keeping a cookie under it or dropping one. */
  function LastTouch(setup: Setup, ops: seq<Op>, key: Key): (at: Option<nat>)
    ensures at.Some? ==> at.value < |ops|
  {
    if ops == [] then None
    else
      var front := ops[..|ops| - 1];
      match ChangeBy(setup, ops[|ops| - 1])
      case Ignored => LastTouch(setup, front, key)
      case Dropped(which) => if which == key then Some(|ops| - 1) else LastTouch(setup, front, key)
      case Kept(cookie) => if KeyOf(cookie) == key then Some(|ops| - 1) else LastTouch(setup, front, key)
  }

  /** The cookie the log leaves under its key: the last field to touch the key made it. */
  ghost predicate Stands(setup: Setup, ops: seq<Op>, cookie: StoredCookie) {
    var at := LastTouch(setup, ops, KeyOf(cookie));
    at.Some? && ChangeBy(setup, ops[at.value]) == Kept(cookie)
  }

  ghost predicate Earlier(setup: Setup, ops: seq<Op>, a: StoredCookie, b: StoredCookie) {
    var p, q := LastTouch(setup, ops, KeyOf(a)), LastTouch(setup, ops, KeyOf(b));
    p.Some? && q.Some? && p.value < q.value
  }

  /** Every entry is what its log leaves under its key, and entries are in the order their keys were last stored. */
  ghost predicate Orderly(setup: Setup, ops: seq<Op>, entries: Entries) {
    && (forall i :: 0 <= i < |entries| ==> Stands(setup, ops, entries[i]))
    && (forall i, j :: 0 <= i < j < |entries| ==> Earlier(setup, ops, entries[i], entries[j]))
  }

  ghost predicate DistinctKeys(entries: Entries) {
    forall i, j :: 0 <= i < j < |entries| ==> KeyOf(entries[i]) != KeyOf(entries[j])
  }

  lemma OrderlyIsDistinct(setup: Setup, ops: seq<Op>, entries: Entries)
    requires Orderly(setup, ops, entries)
    ensures DistinctKeys(entries)
  {
    hide LastTouch, Stands, ChangeBy;
    forall i, j | 0 <= i < j < |entries| ensures KeyOf(entries[i]) != KeyOf(entries[j]) {
      assert Earlier(setup, ops, entries[i], entries[j]);
    }
  }

  lemma SublistOrderly(setup: Setup, ops: seq<Op>, part: Entries, whole: Entries)
    requires Orderly(setup, ops, whole) && Sublist(part, whole)
    ensures Orderly(setup, ops, part)
  {
    hide Stands, Earlier;
    var picks: seq<nat> :| Picks(picks, part, whole);
    forall i, j | 0 <= i < j < |part| ensures Earlier(setup, ops, part[i], part[j]) {
      assert picks[i] < picks[j];
    }
  }

  function Touched(change: Change): Option<Key> {
    match change
    case Ignored => None
    case Dropped(key) => Some(key)
    case Kept(cookie) => Some(KeyOf(cookie))
  }

  /** An operation changes the last touch of its own key alone. */
  lemma LastTouchGrows(setup: Setup, ops: seq<Op>, op: Op, key: Key)
    ensures LastTouch(setup, ops + [op], key)
            == if Touched(ChangeBy(setup, op)) == Some(key) then Some(|ops|) else LastTouch(setup, ops, key)
  {
    hide ChangeBy;
    assert (ops + [op])[..|ops|] == ops;
  }

  lemma UntouchedOrderly(setup: Setup, ops: seq<Op>, op: Op, entries: Entries)
    requires Orderly(setup, ops, entries)
    requires var key := Touched(ChangeBy(setup, op)); key.Some? ==> Absent(entries, key.value)
    ensures Orderly(setup, ops + [op], entries)
  {
    hide LastTouch, ChangeBy, Touched;
    forall i | 0 <= i < |entries|
      ensures LastTouch(setup, ops + [op], KeyOf(entries[i])) == LastTouch(setup, ops, KeyOf(entries[i]))
    {
      LastTouchGrows(setup, ops, op, KeyOf(entries[i]));
    }
    forall i | 0 <= i < |entries| ensures Stands(setup, ops + [op], entries[i]) {
      assert Stands(setup, ops, entries[i]);
      assert forall k | 0 <= k < |ops| :: (ops + [op])[k] == ops[k];
    }
    forall i, j | 0 <= i < j < |entries| ensures Earlier(setup, ops + [op], entries[i], entries[j]) {
      assert Earlier(setup, ops, entries[i], entries[j]);
    }
  }

  lemma KeptOrderly(setup: Setup, ops: seq<Op>, op: Op, others: Entries, cookie: StoredCookie)
    requires Orderly(setup, ops, others) && ChangeBy(setup, op) == Kept(cookie) && Absent(others, KeyOf(cookie))
    ensures Orderly(setup, ops + [op], others + [cookie])
  {
    hide LastTouch, ChangeBy;
    UntouchedOrderly(setup, ops, op, others);
    LastTouchGrows(setup, ops, op, KeyOf(cookie));
    var entries, all := others + [cookie], ops + [op];
    forall i | 0 <= i < |others| ensures Earlier(setup, all, others[i], cookie) {
      LastTouchGrows(setup, ops, op, KeyOf(others[i]));
      assert Stands(setup, ops, others[i]);
    }
  }

  lemma AppliedOrderly(setup: Setup, ops: seq<Op>, entries: Entries, op: Op)
    requires Orderly(setup, ops, entries)
    ensures Orderly(setup, ops + [op], Applied(setup, entries, op))
  {
    hide Orderly, Sublist, ChangeOf, Changed, Alive, Absent;
    match op
    case Prune(now) =>
      AliveIsSublist(entries, now);
      SublistOrderly(setup, ops, Alive(entries, now), entries);
      UntouchedOrderly(setup, ops, op, Alive(entries, now));
    case Store(url, field, now) =>
      var change := ChangeOf(setup, url, field, now);
      var others := ChangedIsSublist(setup, entries, change, now);
      SublistOrderly(setup, ops, others, entries);
      if change.Kept? && setup.maxCookies > 0 {
        KeptOrderly(setup, ops, op, others, change.cookie);
      } else {
        UntouchedOrderly(setup, ops, op, others);
      }
  }

  /** After any run the entries stand in the order their keys were last stored, one for each key. */
  lemma {:induction false} RunIsOrderly(setup: Setup, ops: seq<Op>)
    ensures Orderly(setup, ops, After(setup, ops)) && DistinctKeys(After(setup, ops))
  {
    hide Orderly, DistinctKeys, Applied;
    if ops == [] {
      NothingIsOrderly(setup);
    } else {
      var front, last := ops[..|ops| - 1], ops[|ops| - 1];
      RunIsOrderly(setup, front);
      AppliedOrderly(setup, front, After(setup, front), last);
      assert front + [last] == ops;
    }
    OrderlyIsDistinct(setup, ops, After(setup, ops));
  }

  lemma NothingIsOrderly(setup: Setup)
    ensures Orderly(setup, [], [])
  {
  }

  /** Every cookie held was set by some host, for itself or for a domain it lies in. */
  lemma HeldForItsHost(setup: Setup, ops: seq<Op>, i: nat)
    requires i < |After(setup, ops)|
    ensures var cookie := After(setup, ops)[i];
            exists k :: 0 <= k < |ops| && ops[k].Store?
                        && ChangeBy(setup, ops[k]) == Kept(cookie)
                        && DomainMatches(setup.isAddress, Lowered(ops[k].url.host), cookie.domain)
                        && (cookie.hostOnly ==> cookie.domain == Lowered(ops[k].url.host))
                        && (cookie.domain != Lowered(ops[k].url.host) ==> '.' in cookie.domain)
  {
    hide After, DistinctKeys, LastTouch, ChangeOf, DomainMatches;
    RunIsOrderly(setup, ops);
    var cookie := After(setup, ops)[i];
    assert Stands(setup, ops, cookie);
    var k := LastTouch(setup, ops, KeyOf(cookie)).value;
    KeptIsScoped(setup, ops[k].url, ops[k].field, ops[k].now, cookie);
  }

  lemma KeptIsScoped(setup: Setup, url: Url, field: string, now: Instant, cookie: StoredCookie)
    requires ChangeOf(setup, url, field, now) == Kept(cookie)
    ensures DomainMatches(setup.isAddress, Lowered(url.host), cookie.domain)
    ensures cookie.hostOnly ==> cookie.domain == Lowered(url.host)
    ensures cookie.domain != Lowered(url.host) ==> '.' in cookie.domain
  {
    hide Scope, DomainMatches, SetCookies.Read, DefaultPath;
    ScopeIsTheHosts(setup.isAddress, Lowered(url.host), SetCookies.Read(field).value.domain);
  }

  // --- deadlines

  ghost predicate DatedCookie(past: seq<Instant>, cookie: StoredCookie) {
    cookie.expires.Some? ==> Dated(past, cookie.expires.value)
  }

  lemma KeptIsDated(setup: Setup, url: Url, field: string, now: Instant, cookie: StoredCookie)
    requires ChangeOf(setup, url, field, now) == Kept(cookie)
    ensures cookie.expires.Some?
            ==> exists seconds :: 1 <= seconds <= I64_MAX && cookie.expires.value == Lapse(now, seconds)
  {
    hide Scope, DefaultPath, SetCookies.Read;
    var age := SetCookies.Read(field).value.maxAge;
    if cookie.expires.Some? {
      assert cookie.expires.value == Lapse(now, age.value);
    }
  }

  /** A cookie the log leaves lapses, if ever, whole seconds after one of its instants. */
  lemma StandsIsDated(setup: Setup, ops: seq<Op>, cookie: StoredCookie)
    requires Stands(setup, ops, cookie)
    ensures DatedCookie(Times(ops), cookie)
  {
    hide LastTouch, ChangeOf;
    var k := LastTouch(setup, ops, KeyOf(cookie)).value;
    KeptIsDated(setup, ops[k].url, ops[k].field, ops[k].now, cookie);
    if cookie.expires.Some? {
      var seconds :| 1 <= seconds <= I64_MAX && cookie.expires.value == Lapse(ops[k].now, seconds);
      assert Times(ops)[k] == ops[k].now;
    }
  }

  /** What has expired at one instant has at every later steady one. */
  lemma ExpiredStays(past: seq<Instant>, now: Instant, cookie: StoredCookie, later: Instant)
    requires DatedCookie(past, cookie) && Expired(cookie, now) && SteadyAt(past + [now], later)
    ensures Expired(cookie, later)
  {
    hide Dated, SteadyAt;
    OverStaysOver(past, now, cookie.expires.value, later);
  }
}
