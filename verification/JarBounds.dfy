/** The cookie jar's ceilings, and what a jar with room to spare holds. */
module JarBounds {
  import opened Wrappers
  import opened Texts
  import opened Clocks
  import opened Cookies
  import opened CookieJar
  import SetCookies
  import Urls
  import opened JarRuns
  import opened Sublists

  // --- counting

  lemma {:induction false} CountBound(entries: Entries, domain: string)
    ensures Count(entries, domain) <= |entries|
  {
    if entries != [] {
      CountBound(entries[..|entries| - 1], domain);
    }
  }

  lemma {:induction false} CountJoins(front: Entries, rest: Entries, domain: string)
    ensures Count(front + rest, domain) == Count(front, domain) + Count(rest, domain)
  {
    if rest == [] {
      assert front + rest == front;
    } else {
      var shorter := rest[..|rest| - 1];
      CountJoins(front, shorter, domain);
      assert (front + rest)[..|front + rest| - 1] == front + shorter;
    }
  }

  lemma CountOne(cookie: StoredCookie, domain: string)
    ensures Count([cookie], domain) == if cookie.domain == domain then 1 else 0
  {
    assert [cookie][..0] == [];
  }

  lemma {:induction false} CountSublist(picks: seq<nat>, part: Entries, whole: Entries, domain: string)
    requires Picks(picks, part, whole)
    ensures Count(part, domain) <= Count(whole, domain)
  {
    if part != [] {
      var last := |part| - 1;
      var cut := picks[last];
      CountSublist(picks[..last], part[..last], whole[..cut], domain);
      assert whole == whole[..cut] + [whole[cut]] + whole[cut + 1..];
      CountJoins(whole[..cut] + [whole[cut]], whole[cut + 1..], domain);
      CountJoins(whole[..cut], [whole[cut]], domain);
      CountOne(whole[cut], domain);
    }
  }

  lemma SublistShrinks(part: Entries, whole: Entries, domain: string)
    requires Sublist(part, whole)
    ensures |part| <= |whole| && Count(part, domain) <= Count(whole, domain)
  {
    hide Picks, Count;
    var picks: seq<nat> :| Picks(picks, part, whole);
    SublistLength(picks, part, whole);
    CountSublist(picks, part, whole, domain);
  }

  // --- the ceilings

  function DomainCeiling(setup: Setup): nat {
    if setup.maxPerDomain == 0 then 1 else setup.maxPerDomain
  }

  ghost predicate Bounded(setup: Setup, entries: Entries) {
    |entries| <= setup.maxCookies && forall domain :: Count(entries, domain) <= DomainCeiling(setup)
  }

  lemma SublistBounded(setup: Setup, part: Entries, whole: Entries)
    requires Bounded(setup, whole) && Sublist(part, whole)
    ensures Bounded(setup, part)
  {
    hide Sublist, Count, DomainCeiling;
    SublistShrinks(part, whole, "");
    forall domain ensures Count(part, domain) <= DomainCeiling(setup) {
      SublistShrinks(part, whole, domain);
    }
  }

  lemma RemovedCounts(entries: Entries, index: nat, domain: string)
    requires index < |entries|
    ensures Count(Removed(entries, index), domain)
            == Count(entries, domain) - if entries[index].domain == domain then 1 else 0
  {
    var front, rest := entries[..index], entries[index + 1..];
    assert entries == front + [entries[index]] + rest;
    CountJoins(front, rest, domain);
    CountJoins(front + [entries[index]], rest, domain);
    CountJoins(front, [entries[index]], domain);
    CountOne(entries[index], domain);
  }

  lemma {:induction false} NoneCounts(entries: Entries, domain: string)
    requires forall i :: 0 <= i < |entries| ==> entries[i].domain != domain
    ensures Count(entries, domain) == 0
  {
    if entries != [] {
      NoneCounts(entries[..|entries| - 1], domain);
    }
  }

  /** Thinning a domain leaves it room for one more. */
  lemma ThinnedHasRoom(setup: Setup, entries: Entries, domain: string)
    requires Bounded(setup, entries)
    ensures Count(Thinned(setup, entries, domain), domain) < DomainCeiling(setup)
  {
    hide Count, Removed;
    var oldest := OldestOf(entries, domain);
    if oldest < |entries| {
      RemovedCounts(entries, oldest, domain);
    } else {
      NoneCounts(entries, domain);
    }
  }

  lemma StoringBounded(setup: Setup, entries: Entries, cookie: StoredCookie)
    requires Bounded(setup, entries) && setup.maxCookies > 0
    ensures Bounded(setup, Trimmed(setup, Thinned(setup, entries, cookie.domain)) + [cookie])
  {
    hide Count, DomainCeiling, Thinned, Sublist;
    var domain := cookie.domain;
    var thinned := Thinned(setup, entries, domain);
    var trimmed := Trimmed(setup, thinned);
    ThinnedHasRoom(setup, entries, domain);
    RoomIsSublist(setup, entries, domain);
    SublistBounded(setup, trimmed, entries);
    TrimmedHasRoom(setup, thinned);
    SublistShrinks(trimmed, thinned, domain);
    forall d ensures Count(trimmed + [cookie], d) <= DomainCeiling(setup) {
      CountJoins(trimmed, [cookie], d);
      CountOne(cookie, d);
    }
  }

  lemma TrimmedHasRoom(setup: Setup, entries: Entries)
    ensures setup.maxCookies > 0 ==> |Trimmed(setup, entries)| < setup.maxCookies
    ensures Sublist(Trimmed(setup, entries), entries)
  {
    SublistSelf(entries);
    RestIsSublist(entries, |entries|);
    assert entries[|entries|..] == [];
    if |entries| >= setup.maxCookies > 0 {
      RestIsSublist(entries, |entries| - setup.maxCookies + 1);
    }
  }

  lemma AppliedBounded(setup: Setup, entries: Entries, op: Op)
    requires Bounded(setup, entries)
    ensures Bounded(setup, Applied(setup, entries, op))
  {
    hide Bounded, Sublist, ChangeOf, Alive, Without, Trimmed, Thinned;
    match op
    case Prune(now) =>
      AliveIsSublist(entries, now);
      SublistBounded(setup, Alive(entries, now), entries);
    case Store(url, field, now) =>
      match ChangeOf(setup, url, field, now) {
        case Ignored =>
        case Dropped(key) =>
          WithoutIsSublist(entries, key);
          SublistBounded(setup, Without(entries, key), entries);
        case Kept(cookie) =>
          var others := Without(entries, KeyOf(cookie));
          WithoutIsSublist(entries, KeyOf(cookie));
          SublistBounded(setup, others, entries);
          if setup.maxCookies > 0 {
            AliveIsSublist(others, now);
            SublistBounded(setup, Alive(others, now), others);
            StoringBounded(setup, Alive(others, now), cookie);
          }
      }
  }

  /** No run takes the jar or a domain past its ceiling, but for the one cookie a ceiling of zero leaves. */
  lemma {:induction false} RunIsBounded(setup: Setup, ops: seq<Op>)
    ensures Bounded(setup, After(setup, ops))
  {
    hide Applied;
    if ops != [] {
      RunIsBounded(setup, ops[..|ops| - 1]);
      AppliedBounded(setup, After(setup, ops[..|ops| - 1]), ops[|ops| - 1]);
    }
  }

  /** A cookie with no attributes, set by any host, is stored in a jar that holds anything. */
  lemma FirstIsStored(setup: Setup) returns (ops: seq<Op>, domain: string)
    requires setup.maxCookies > 0
    ensures Count(After(setup, ops), domain) == 1
  {
    var cookie, url := SetCookies.Plain("a", ""), Urls.Url("http", "h", 80, "/");
    PlainIsKept(setup, url, 0);
    var op := Store(url, SetCookies.Build(cookie).value, 0);
    var kept := ChangeBy(setup, op).cookie;
    ops, domain := [op], kept.domain;
    hide ChangeOf, SetCookies.Build, Count, Changed;
    StoredAlone(setup, kept, 0);
    assert ops[..0] == [];
    CountOne(kept, domain);
  }

  lemma StoredAlone(setup: Setup, cookie: StoredCookie, now: Instant)
    requires setup.maxCookies > 0
    ensures Changed(setup, [], Kept(cookie), now) == [cookie]
  {
    assert [] + [cookie] == [cookie];
  }

  lemma PlainIsKept(setup: Setup, url: Url, now: Instant)
    ensures SetCookies.Build(SetCookies.Plain("a", "")).Some?
    ensures ChangeOf(setup, url, SetCookies.Build(SetCookies.Plain("a", "")).value, now).Kept?
  {
    hide SetCookies.Read, Trim;
    PlainIsCarried();
    hide SetCookies.Build, SetCookies.Carried;
    SetCookies.BuiltReadsBackIff(SetCookies.Plain("a", ""));
  }

  lemma PlainIsCarried()
    ensures SetCookies.Build(SetCookies.Plain("a", "")).Some? && SetCookies.Carried(SetCookies.Plain("a", ""))
  {
    TrimKeeps("a", IsSpace);
  }

  /**
   * Every run keeps every domain within the ceiling it is given exactly when
   * that is not zero, or the jar holds nothing at all.
   */
  lemma DomainCeilingKeptIff(setup: Setup)
    ensures (forall ops, domain :: Count(After(setup, ops), domain) <= setup.maxPerDomain)
            <==> setup.maxPerDomain >= 1 || setup.maxCookies == 0
  {
    hide Count, After;
    if setup.maxPerDomain >= 1 || setup.maxCookies == 0 {
      forall ops, domain ensures Count(After(setup, ops), domain) <= setup.maxPerDomain {
        RunIsBounded(setup, ops);
        CountBound(After(setup, ops), domain);
      }
    } else {
      var ops, domain := FirstIsStored(setup);
    }
  }

  // --- a jar with room to spare

  /** Every key the log ever kept a cookie under. */
  ghost function KeysOf(setup: Setup, ops: seq<Op>): set<Key> {
    if ops == [] then {}
    else
      KeysOf(setup, ops[..|ops| - 1])
      + match ChangeBy(setup, ops[|ops| - 1])
        case Kept(cookie) => {KeyOf(cookie)}
        case _ => {}
  }

  ghost function InDomain(keys: set<Key>, domain: string): set<Key> {
    set key | key in keys && key.domain == domain
  }

  /** Whether a set of keys stays within every ceiling. */
  ghost predicate Fits(setup: Setup, keys: set<Key>) {
    |keys| <= setup.maxCookies && forall domain :: |InDomain(keys, domain)| <= setup.maxPerDomain
  }

  ghost predicate KeysIn(entries: Entries, keys: set<Key>) {
    forall i :: 0 <= i < |entries| ==> KeyOf(entries[i]) in keys
  }

  lemma {:induction false} DistinctLength(entries: Entries, keys: set<Key>)
    requires DistinctKeys(entries) && KeysIn(entries, keys)
    ensures |entries| <= |keys|
  {
    if entries != [] {
      var front, key := entries[..|entries| - 1], KeyOf(entries[|entries| - 1]);
      DistinctLength(front, keys - {key});
    }
  }

  lemma {:induction false} DistinctCount(entries: Entries, keys: set<Key>, domain: string)
    requires DistinctKeys(entries) && KeysIn(entries, keys)
    ensures Count(entries, domain) <= |InDomain(keys, domain)|
  {
    if entries != [] {
      var front, key := entries[..|entries| - 1], KeyOf(entries[|entries| - 1]);
      DistinctCount(front, keys - {key}, domain);
      if key.domain == domain {
        assert InDomain(keys, domain) == InDomain(keys - {key}, domain) + {key};
      } else {
        assert InDomain(keys, domain) == InDomain(keys - {key}, domain);
      }
    }
  }

  /** With room for another key there is nothing to evict. */
  lemma NothingEvicted(setup: Setup, entries: Entries, keys: set<Key>, key: Key)
    requires DistinctKeys(entries) && KeysIn(entries, keys - {key}) && key in keys && Fits(setup, keys)
    ensures Trimmed(setup, Thinned(setup, entries, key.domain)) == entries && setup.maxCookies > 0
  {
    hide DistinctKeys, Count;
    var others := keys - {key};
    DistinctLength(entries, others);
    DistinctCount(entries, others, key.domain);
    assert InDomain(keys, key.domain) == InDomain(others, key.domain) + {key};
  }

  lemma {:induction false} WithoutHolds(entries: Entries, key: Key, cookie: StoredCookie)
    ensures cookie in Without(entries, key) <==> cookie in entries && KeyOf(cookie) != key
  {
    if entries != [] {
      var front := entries[..|entries| - 1];
      WithoutHolds(front, key, cookie);
      assert entries == front + [entries[|entries| - 1]];
    }
  }

  lemma StandsAfter(setup: Setup, ops: seq<Op>, op: Op, cookie: StoredCookie)
    ensures var key := Touched(ChangeBy(setup, op));
            Stands(setup, ops + [op], cookie)
            <==> if key == Some(KeyOf(cookie)) then ChangeBy(setup, op) == Kept(cookie) else Stands(setup, ops, cookie)
  {
    hide ChangeBy, LastTouch;
    LastTouchGrows(setup, ops, op, KeyOf(cookie));
  }

  /** Every cookie the log leaves is held, unless it is over at every steady instant. */
  ghost predicate Complete(setup: Setup, ops: seq<Op>, entries: Entries) {
    forall cookie, now | Stands(setup, ops, cookie) && SteadyAt(Times(ops), now) && !Expired(cookie, now) ::
      cookie in entries
  }

  lemma {:induction false} AliveKeysIn(entries: Entries, keys: set<Key>, now: Instant)
    requires DistinctKeys(entries) && KeysIn(entries, keys)
    ensures DistinctKeys(Alive(entries, now)) && KeysIn(Alive(entries, now), keys)
  {
    hide Sublist;
    AliveIsSublist(entries, now);
    SublistKeysIn(Alive(entries, now), entries, keys);
  }

  lemma SublistKeysIn(part: Entries, whole: Entries, keys: set<Key>)
    requires DistinctKeys(whole) && KeysIn(whole, keys) && Sublist(part, whole)
    ensures DistinctKeys(part) && KeysIn(part, keys)
  {
    var picks: seq<nat> :| Picks(picks, part, whole);
    forall i, j | 0 <= i < j < |part| ensures KeyOf(part[i]) != KeyOf(part[j]) {
      assert picks[i] < picks[j];
    }
  }

  /** What keeping a cookie does when every key fits: nothing but the expired is lost. */
  lemma RoomyKept(setup: Setup, entries: Entries, cookie: StoredCookie, now: Instant, keys: set<Key>)
    requires DistinctKeys(entries) && KeysIn(entries, keys) && KeyOf(cookie) in keys && Fits(setup, keys)
    ensures Changed(setup, entries, Kept(cookie), now) == Alive(Without(entries, KeyOf(cookie)), now) + [cookie]
    ensures KeysIn(Changed(setup, entries, Kept(cookie), now), keys)
  {
    hide Trimmed, Thinned, Fits, DistinctKeys, Sublist, Alive, Without, KeyOf;
    var key := KeyOf(cookie);
    var others := Without(entries, key);
    WithoutIsSublist(entries, key);
    SublistKeysIn(others, entries, keys);
    assert KeysIn(others, keys - {key});
    AliveKeysIn(others, keys - {key}, now);
    DomainOfKey(cookie);
    NothingEvicted(setup, Alive(others, now), keys, key);
  }

  lemma DomainOfKey(cookie: StoredCookie)
    ensures KeyOf(cookie).domain == cookie.domain
  {
  }

  lemma AppliedComplete(setup: Setup, ops: seq<Op>, entries: Entries, op: Op, keys: set<Key>)
    requires Complete(setup, ops, entries)
    requires DistinctKeys(entries) && KeysIn(entries, keys) && Fits(setup, keys)
    requires ChangeBy(setup, op).Kept? ==> KeyOf(ChangeBy(setup, op).cookie) in keys
    ensures Complete(setup, ops + [op], Applied(setup, entries, op))
    ensures KeysIn(Applied(setup, entries, op), keys)
  {
    hide Stands, ChangeOf, Expired, Alive, Without, KeyOf, Fits, DistinctKeys, Sublist, Trimmed, Thinned;
    hide SteadyAt, DatedCookie;
    var change, after := ChangeBy(setup, op), Applied(setup, entries, op);
    if change.Kept? {
      RoomyKept(setup, entries, change.cookie, op.now, keys);
    } else if change.Dropped? {
      WithoutIsSublist(entries, change.key);
      SublistKeysIn(after, entries, keys);
    } else if op.Prune? {
      AliveKeysIn(entries, keys, op.now);
    }
    assert Times(ops + [op]) == Times(ops) + [op.now];
    forall cookie, now | Stands(setup, ops + [op], cookie) && SteadyAt(Times(ops + [op]), now) && !Expired(cookie, now)
      ensures cookie in after
    {
      StandsAfter(setup, ops, op, cookie);
      SteadyBefore(Times(ops), op.now, now);
      if Stands(setup, ops, cookie) {
        StandsIsDated(setup, ops, cookie);
        if Expired(cookie, op.now) {
          ExpiredStays(Times(ops), op.now, cookie, now);
        }
      }
      if change.Kept? {
        var others := Without(entries, KeyOf(change.cookie));
        WithoutHolds(entries, KeyOf(change.cookie), cookie);
        AliveHolds(others, op.now, cookie);
      } else if change.Dropped? {
        WithoutHolds(entries, change.key, cookie);
      } else if op.Prune? {
        AliveHolds(entries, op.now, cookie);
      }
    }
  }

  lemma {:induction false} RunIsComplete(setup: Setup, ops: seq<Op>, k: nat)
    requires k <= |ops| && Fits(setup, KeysOf(setup, ops))
    ensures Complete(setup, ops[..k], After(setup, ops[..k]))
    ensures KeysIn(After(setup, ops[..k]), KeysOf(setup, ops))
  {
    hide Fits, DistinctKeys, Orderly, Applied, ChangeBy, KeysOf, Expired, LastTouch, SteadyAt;
    if k > 0 {
      var front := ops[..k - 1];
      RunIsComplete(setup, ops, k - 1);
      RunIsOrderly(setup, front);
      KeyIsNamed(setup, ops, k - 1);
      AppliedComplete(setup, front, After(setup, front), ops[k - 1], KeysOf(setup, ops));
      assert ops[..k] == front + [ops[k - 1]];
      assert ops[..k][..k - 1] == front;
    } else {
      assert ops[..0] == [];
      NothingStands(setup);
    }
  }

  lemma NothingStands(setup: Setup)
    ensures forall cookie :: !Stands(setup, [], cookie)
  {
  }

  lemma {:induction false} KeyIsNamed(setup: Setup, ops: seq<Op>, i: nat)
    requires i < |ops|
    ensures ChangeBy(setup, ops[i]).Kept? ==> KeyOf(ChangeBy(setup, ops[i]).cookie) in KeysOf(setup, ops)
  {
    hide ChangeBy, KeyOf;
    if i < |ops| - 1 {
      KeyIsNamed(setup, ops[..|ops| - 1], i);
    }
  }

  /** With room for every key the log names, the jar's unexpired cookies at a steady instant are the log's exactly. */
  lemma RoomyJarIsItsLog(setup: Setup, ops: seq<Op>, now: Instant, cookie: StoredCookie)
    requires SteadyAt(Times(ops), now) && Fits(setup, KeysOf(setup, ops)) && !Expired(cookie, now)
    ensures cookie in After(setup, ops) <==> Stands(setup, ops, cookie)
  {
    hide Fits, KeysOf, DistinctKeys, After, Stands, Expired, SteadyAt;
    assert ops[..|ops|] == ops;
    RunIsComplete(setup, ops, |ops|);
    RunIsOrderly(setup, ops);
  }
}
