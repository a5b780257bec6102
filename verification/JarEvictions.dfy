/** Which cookies a jar lets go of to make room, and how many. */
module JarEvictions {
  import opened Wrappers
  import opened Clocks
  import opened Cookies
  import opened CookieJar
  import opened Sublists

  /** A cookie that neither has expired nor is the one being replaced. */
  predicate Remains(cookie: StoredCookie, stored: StoredCookie, now: Instant) {
    && !(cookie.expires.Some? && cookie.expires.value <= now)
    && !(cookie.name == stored.name && cookie.domain == stored.domain && cookie.path == stored.path)
  }

  /** The places of the cookies that remain. */
  function Remaining(entries: Entries, stored: StoredCookie, now: Instant): set<nat> {
    set i: nat | i < |entries| && Remains(entries[i], stored, now)
  }

  /** Those of one domain. */
  function OfDomain(entries: Entries, stored: StoredCookie, now: Instant): set<nat> {
    set i: nat | i < |entries| && Remains(entries[i], stored, now) && entries[i].domain == stored.domain
  }

  function Elements(picks: seq<nat>): set<nat> {
    set i | 0 <= i < |picks| :: picks[i]
  }

  lemma {:induction false} ElementsSize(picks: seq<nat>)
    requires forall i, j :: 0 <= i < j < |picks| ==> picks[i] < picks[j]
    ensures |Elements(picks)| == |picks|
  {
    if picks == [] {
      assert Elements(picks) == {};
    } else {
      var front, last := picks[..|picks| - 1], picks[|picks| - 1];
      ElementsSize(front);
      assert last !in Elements(front);
      assert Elements(picks) == Elements(front) + {last} by {
        forall e ensures e in Elements(picks) <==> e in Elements(front) + {last} {
          if e in Elements(picks) {
            var i :| 0 <= i < |picks| && picks[i] == e;
            assert i < |front| ==> front[i] == e;
          }
          if e in Elements(front) {
            var i :| 0 <= i < |front| && front[i] == e;
            assert picks[i] == e;
          }
        }
      }
    }
  }

  // --- what remains, picked out of the entries

  ghost predicate PicksRemaining(picks: seq<nat>, alive: Entries, entries: Entries, stored: StoredCookie,
                                 now: Instant)
  {
    Picks(picks, alive, entries) && Elements(picks) == Remaining(entries, stored, now)
  }

  lemma {:induction false} AliveIsRemaining(entries: Entries, stored: StoredCookie, now: Instant)
    returns (picks: seq<nat>)
    ensures PicksRemaining(picks, Alive(Without(entries, KeyOf(stored)), now), entries, stored, now)
  {
    if entries == [] {
      picks := [];
    } else {
      var n := |entries| - 1;
      var front, last := entries[..n], entries[n];
      var earlier := AliveIsRemaining(front, stored, now);
      hide Alive, Without, PicksRemaining, Remains;
      AliveGrows(entries, stored, now);
      picks := if Remains(last, stored, now) then earlier + [n] else earlier;
      GrownPicks(earlier, Alive(Without(front, KeyOf(stored)), now), entries, stored, now);
    }
  }

  lemma AliveGrows(entries: Entries, stored: StoredCookie, now: Instant)
    requires entries != []
    ensures var (front, last) := (entries[..|entries| - 1], entries[|entries| - 1]);
            var alive := Alive(Without(front, KeyOf(stored)), now);
            Alive(Without(entries, KeyOf(stored)), now)
            == if Remains(last, stored, now) then alive + [last] else alive
  {
    var front, last := entries[..|entries| - 1], entries[|entries| - 1];
    var others := Without(front, KeyOf(stored));
    assert (others + [last])[..|others|] == others && others + [] == others;
    assert Alive(others, now) + [] == Alive(others, now);
  }

  lemma GrownPicks(earlier: seq<nat>, alive: Entries, entries: Entries, stored: StoredCookie, now: Instant)
    requires entries != [] && PicksRemaining(earlier, alive, entries[..|entries| - 1], stored, now)
    ensures var (n, last) := (|entries| - 1, entries[|entries| - 1]);
            if Remains(last, stored, now) then PicksRemaining(earlier + [n], alive + [last], entries, stored, now)
            else PicksRemaining(earlier, alive, entries, stored, now)
  {
    hide Remains;
    var n, last := |entries| - 1, entries[|entries| - 1];
    var front := entries[..n];
    assert forall i | 0 <= i < n :: front[i] == entries[i];
    assert Remaining(entries, stored, now)
           == Remaining(front, stored, now) + if Remains(last, stored, now) then {n} else {};
    ElementsGrow(earlier, n);
  }

  lemma ElementsGrow(picks: seq<nat>, n: nat)
    ensures Elements(picks + [n]) == Elements(picks) + {n}
  {
    var grown := picks + [n];
    assert forall i | 0 <= i < |picks| :: grown[i] == picks[i];
    assert grown[|picks|] == n;
  }

  /** The picked places of a domain. */
  function Chosen(picks: seq<nat>, entries: Entries, domain: string): set<nat> {
    set i | i in Elements(picks) && i < |entries| && entries[i].domain == domain
  }

  lemma ChosenGrows(picks: seq<nat>, last: nat, entries: Entries, domain: string)
    requires last < |entries| && forall i | 0 <= i < |picks| :: picks[i] < last
    ensures |Chosen(picks + [last], entries, domain)|
            == |Chosen(picks, entries, domain)| + if entries[last].domain == domain then 1 else 0
  {
    ElementsGrow(picks, last);
    assert last !in Elements(picks);
    hide Elements;
    var chosen := Chosen(picks, entries, domain);
    assert Chosen(picks + [last], entries, domain)
           == if entries[last].domain == domain then chosen + {last} else chosen;
  }

  lemma {:induction false} CountIs(picks: seq<nat>, alive: Entries, entries: Entries, domain: string)
    requires Picks(picks, alive, entries)
    ensures Count(alive, domain) == |Chosen(picks, entries, domain)|
  {
    if picks == [] {
      assert Chosen(picks, entries, domain) == {};
    } else {
      hide Chosen;
      var n := |picks| - 1;
      var front, last := picks[..n], picks[n];
      CountIs(front, alive[..n], entries, domain);
      ChosenGrows(front, last, entries, domain);
      assert front + [last] == picks;
    }
  }

  // --- what making room leaves of that

  /** Whether a domain has as many cookies as it may. */
  predicate Full(setup: Setup, entries: Entries, stored: StoredCookie, now: Instant) {
    OfDomain(entries, stored, now) != {} && |OfDomain(entries, stored, now)| >= setup.maxPerDomain
  }

  /** What goes is the domain's oldest, when the domain is full, and otherwise older than all that stay. */
  ghost predicate OldestGo(setup: Setup, picks: seq<nat>, entries: Entries, stored: StoredCookie, now: Instant) {
    forall i | i in Remaining(entries, stored, now) && i !in Elements(picks) ::
      || (forall j | j in Elements(picks) :: i < j)
      || (&& Full(setup, entries, stored, now) && i in OfDomain(entries, stored, now)
          && forall j | j in OfDomain(entries, stored, now) :: i <= j)
  }

  function Smaller(a: nat, b: nat): nat {
    if a <= b then a else b
  }

  /** How many cookies stay beside one that is stored. */
  function Room(setup: Setup, entries: Entries, stored: StoredCookie, now: Instant): nat
    requires setup.maxCookies > 0
  {
    var all := |Remaining(entries, stored, now)|;
    Smaller(setup.maxCookies - 1, if Full(setup, entries, stored, now) && all > 0 then all - 1 else all)
  }

  lemma ThinnedPicks(setup: Setup, picks: seq<nat>, alive: Entries, entries: Entries, domain: string)
    returns (thin: seq<nat>)
    requires Picks(picks, alive, entries)
    ensures Picks(thin, Thinned(setup, alive, domain), entries)
    ensures Elements(thin) <= Elements(picks)
    ensures |thin| == if Count(alive, domain) > 0 && Count(alive, domain) >= setup.maxPerDomain then |picks| - 1
                      else |picks|
    ensures forall i | i in Elements(picks) && i !in Elements(thin) ::
              && i < |entries| && entries[i].domain == domain
              && Count(alive, domain) > 0 && Count(alive, domain) >= setup.maxPerDomain
              && forall j | j in Elements(picks) && j < |entries| && entries[j].domain == domain :: i <= j
  {
    hide Count;
    var oldest := OldestOf(alive, domain);
    SomeOldest(alive, domain);
    if Count(alive, domain) >= setup.maxPerDomain && oldest < |alive| {
      thin := WithoutOldest(picks, alive, entries, domain);
    } else {
      thin := picks;
    }
  }

  lemma WithoutOldest(picks: seq<nat>, alive: Entries, entries: Entries, domain: string) returns (thin: seq<nat>)
    requires Picks(picks, alive, entries) && OldestOf(alive, domain) < |alive|
    ensures Picks(thin, Removed(alive, OldestOf(alive, domain)), entries) && |thin| == |picks| - 1
    ensures Elements(thin) <= Elements(picks)
    ensures forall i | i in Elements(picks) && i !in Elements(thin) ::
              && i < |entries| && entries[i].domain == domain
              && forall j | j in Elements(picks) && j < |entries| && entries[j].domain == domain :: i <= j
  {
    var oldest := OldestOf(alive, domain);
    thin := picks[..oldest] + picks[oldest + 1..];
    ElementsWithout(picks, oldest);
    ThinIsPicked(picks, alive, entries, oldest);
    forall j | j in Elements(picks) && j < |entries| && entries[j].domain == domain ensures picks[oldest] <= j {
      var k :| 0 <= k < |picks| && picks[k] == j;
      assert alive[k].domain == domain;
    }
  }

  lemma ThinIsPicked(picks: seq<nat>, alive: Entries, entries: Entries, at: nat)
    requires Picks(picks, alive, entries) && at < |alive|
    ensures Picks(picks[..at] + picks[at + 1..], Removed(alive, at), entries)
  {
    var thin, part := picks[..at] + picks[at + 1..], Removed(alive, at);
    forall k | 0 <= k < |thin|
      ensures thin[k] == picks[if k < at then k else k + 1] && part[k] == alive[if k < at then k else k + 1]
    {
    }
  }

  lemma ElementsWithout(picks: seq<nat>, at: nat)
    requires at < |picks|
    ensures var thin := picks[..at] + picks[at + 1..];
            && (forall e | e in Elements(thin) :: exists k :: 0 <= k < |picks| && k != at && picks[k] == e)
            && (forall e | e in Elements(picks) && e !in Elements(thin) :: e == picks[at])
  {
    var thin := picks[..at] + picks[at + 1..];
    forall e | e in Elements(thin) ensures exists k :: 0 <= k < |picks| && k != at && picks[k] == e {
      var i :| 0 <= i < |thin| && thin[i] == e;
      var k := if i < at then i else i + 1;
      assert picks[k] == e;
    }
    forall k | 0 <= k < |picks| && k != at ensures picks[k] in Elements(thin) {
      assert thin[if k < at then k else k - 1] == picks[k];
    }
  }

  lemma {:induction false} SomeOldest(entries: Entries, domain: string)
    ensures OldestOf(entries, domain) < |entries| <==> Count(entries, domain) > 0
  {
    if entries != [] {
      var n := |entries| - 1;
      SomeOldest(entries[..n], domain);
      var oldest := OldestOf(entries[..n], domain);
      assert oldest < n ==> entries[oldest].domain == domain;
    }
  }

  lemma TrimmedPicks(setup: Setup, thin: seq<nat>, thinned: Entries, entries: Entries) returns (picks: seq<nat>)
    requires setup.maxCookies > 0 && Picks(thin, thinned, entries)
    ensures Picks(picks, Trimmed(setup, thinned), entries)
    ensures |picks| == Smaller(setup.maxCookies - 1, |thin|)
    ensures Elements(picks) <= Elements(thin)
    ensures forall i, j | i in Elements(thin) && i !in Elements(picks) && j in Elements(picks) :: i < j
  {
    var cut := if |thin| < setup.maxCookies then 0 else |thin| - setup.maxCookies + 1;
    picks := thin[cut..];
    assert forall k | 0 <= k < |picks| :: picks[k] == thin[cut + k];
    forall k | cut <= k < |thin| ensures thin[k] in Elements(picks) {
      assert picks[k - cut] == thin[k];
    }
  }

  /**
   * Storing a cookie keeps, in their order, just as many of those that remain
   * as there is room for; and what goes is the oldest of its domain, when the
   * domain is full, and then the oldest of all.
   */
  lemma OldestAreEvicted(setup: Setup, entries: Entries, stored: StoredCookie, now: Instant) returns (picks: seq<nat>)
    requires setup.maxCookies > 0
    ensures var jar := Changed(setup, entries, Kept(stored), now);
            && jar != [] && jar[|jar| - 1] == stored && Picks(picks, jar[..|jar| - 1], entries)
    ensures Elements(picks) <= Remaining(entries, stored, now)
    ensures |picks| == Room(setup, entries, stored, now)
    ensures OldestGo(setup, picks, entries, stored, now)
  {
    hide Alive, Without, Trimmed, Thinned, Picks, KeyOf, Elements, Remains;
    var alive := Alive(Without(entries, KeyOf(stored)), now);
    var all := AliveIsRemaining(entries, stored, now);
    var thin := ThinnedPicks(setup, all, alive, entries, stored.domain);
    picks := TrimmedPicks(setup, thin, Thinned(setup, alive, stored.domain), entries);
    var others := Trimmed(setup, Thinned(setup, alive, stored.domain));
    assert (others + [stored])[..|others|] == others;
    CountIs(all, alive, entries, stored.domain);
    assert OfDomain(entries, stored, now)
           == Chosen(all, entries, stored.domain);
    PicksSize(all, alive, entries);
  }

  lemma PicksSize(picks: seq<nat>, part: Entries, whole: Entries)
    requires Picks(picks, part, whole)
    ensures |Elements(picks)| == |picks|
  {
    ElementsSize(picks);
  }
}
