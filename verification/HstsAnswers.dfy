/** What an HSTS store insists on, in terms of the fields it was told alone. */
module HstsAnswers {
  import opened Wrappers
  import opened Texts
  import opened Clocks
  import HstsPolicy
  import opened HstsStore
  import opened HstsRuns

  /** An event tells the store a policy for a name: received over TLS, and one the clock can name the end of. */
  ghost predicate Tells(setup: Setup, event: Event, name: string, policy: HstsPolicy.Policy) {
    && event.Learn? && event.viaTls && Normalize(setup, event.host) == Some(name)
    && HstsPolicy.Meaning(event.header) == Some(policy)
    && (policy.maxAge > 0 ==> event.now + policy.maxAge * 1_000_000_000 <= setup.latest)
  }

  lemma TellsIs(setup: Setup, event: Event, name: string, policy: HstsPolicy.Policy)
    ensures Tells(setup, event, name, policy) && policy.maxAge <= 0 ==> ChangeBy(setup, event) == Withdrawn(name)
    ensures Tells(setup, event, name, policy) && policy.maxAge > 0 ==>
              ChangeBy(setup, event) == Accepted(name, Entry(event.now + policy.maxAge * 1_000_000_000,
                                                             policy.includeSubdomains))
  {
    hide Normalize, HstsPolicy.Meaning;
  }

  lemma UntoldIsIgnored(setup: Setup, event: Event)
    ensures match ChangeBy(setup, event)
            case Ignored => forall name, policy :: !Tells(setup, event, name, policy)
            case Withdrawn(name) => exists policy :: Tells(setup, event, name, policy) && policy.maxAge <= 0
            case Accepted(name, entry) =>
              exists policy :: Tells(setup, event, name, policy) && policy.maxAge > 0
                && entry == Entry(event.now + policy.maxAge * 1_000_000_000, policy.includeSubdomains)
  {
    hide Normalize, HstsPolicy.Meaning;
    if ChangeBy(setup, event) != Ignored {
      var name, policy := Normalize(setup, event.host).value, HstsPolicy.Meaning(event.header).value;
      assert Tells(setup, event, name, policy);
    }
  }

  // --- the log

  /** The event at a place told a policy for a name, and no later one did. */
  ghost predicate LastTold(setup: Setup, events: seq<Event>, name: string, k: nat, policy: HstsPolicy.Policy) {
    && k < |events| && Tells(setup, events[k], name, policy)
    && forall j, q | k < j < |events| :: !Tells(setup, events[j], name, q)
  }

  lemma {:induction false} LatestIsLastTold(setup: Setup, events: seq<Event>, name: string, entry: Entry)
    ensures Latest(setup, events, name) == Some(entry)
            <==> exists k: nat, policy :: LastTold(setup, events, name, k, policy) && policy.maxAge > 0
                   && entry == Entry(events[k].now + policy.maxAge * 1_000_000_000, policy.includeSubdomains)
  {
    hide Tells, ChangeBy;
    if events != [] {
      var n := |events| - 1;
      var front, last := events[..n], events[n];
      LatestIsLastTold(setup, front, name, entry);
      UntoldIsIgnored(setup, last);
      if policy :| Tells(setup, last, name, policy) {
        TellsIs(setup, last, name, policy);
        assert LastTold(setup, events, name, n, policy);
        OneIsTold(setup, events, name, n, policy);
      } else {
        assert front + [last] == events;
        forall k: nat, policy ensures LastTold(setup, events, name, k, policy)
                                 <==> LastTold(setup, front, name, k, policy)
        {
          ToldBefore(setup, front, last, name, k, policy);
        }
        assert forall k | 0 <= k < |front| :: events[k] == front[k];
        OtherwiseUntold(setup, last, name);
      }
    }
  }

  lemma OneIsTold(setup: Setup, events: seq<Event>, name: string, n: nat, policy: HstsPolicy.Policy)
    requires n + 1 == |events| && LastTold(setup, events, name, n, policy)
    ensures forall k: nat, q :: LastTold(setup, events, name, k, q) ==> k == n && q == policy
  {
    hide Normalize, HstsPolicy.Meaning;
  }

  lemma ToldBefore(setup: Setup, front: seq<Event>, last: Event, name: string, k: nat, policy: HstsPolicy.Policy)
    requires forall q :: !Tells(setup, last, name, q)
    ensures LastTold(setup, front + [last], name, k, policy) <==> LastTold(setup, front, name, k, policy)
  {
    hide Tells;
    var events := front + [last];
    assert forall j | 0 <= j < |front| :: front[j] == events[j];
  }

  lemma OtherwiseUntold(setup: Setup, event: Event, name: string)
    requires forall q :: !Tells(setup, event, name, q)
    ensures match ChangeBy(setup, event)
            case Ignored => true
            case Withdrawn(which) => which != name
            case Accepted(which, _) => which != name
  {
    hide ChangeBy, Tells;
    UntoldIsIgnored(setup, event);
  }

  /** The last policy told for a name has an age not yet over, and covers what is asked of it. */
  ghost predicate Insisted(setup: Setup, events: seq<Event>, name: string, now: Instant, covering: bool) {
    exists k: nat, policy ::
      && LastTold(setup, events, name, k, policy) && policy.maxAge > 0
      && now < events[k].now + policy.maxAge * 1_000_000_000 && (covering ==> policy.includeSubdomains)
  }

  predicate Unexpired(latest: Option<Entry>, now: Instant, covering: bool) {
    latest.Some? && latest.value.expiry > now && (covering ==> latest.value.covers)
  }

  lemma InsistedIff(setup: Setup, events: seq<Event>, name: string, now: Instant, covering: bool)
    ensures Insisted(setup, events, name, now, covering)
            <==> Unexpired(Latest(setup, events, name), now, covering)
  {
    hide Tells, Latest;
    if Latest(setup, events, name).Some? {
      LatestIsLastTold(setup, events, name, Latest(setup, events, name).value);
    }
    if k: nat, policy :|
      && LastTold(setup, events, name, k, policy) && policy.maxAge > 0
      && now < events[k].now + policy.maxAge * 1_000_000_000 && (covering ==> policy.includeSubdomains)
    {
      LatestIsLastTold(setup, events, name,
                       Entry(events[k].now + policy.maxAge * 1_000_000_000, policy.includeSubdomains));
    }
  }

  lemma LogInsistsIff(setup: Setup, events: seq<Event>, name: string, now: Instant)
    ensures LogInsists(setup, events, name, now)
            <==> || Unexpired(Latest(setup, events, name), now, false)
                 || exists p :: IsParent(p, name) && Unexpired(Latest(setup, events, p), now, true)
  {
    hide Latest, IsParent;
    forall c ensures c in Parents(name) <==> c == name || IsParent(c, name) {
      ParentsAreSuffixes(name, c);
    }
    hide Parents;
    if p :| IsParent(p, name) && Unexpired(Latest(setup, events, p), now, true) {
      assert p in Parents(name) && Applies(Latest(setup, events, p).value, p, name);
    }
    if Unexpired(Latest(setup, events, name), now, false) {
      assert name in Parents(name) && Applies(Latest(setup, events, name).value, name, name);
    }
  }

  /**
   * After any run, at an instant steady after it, a host must be reached over
   * TLS exactly when the last policy told for its own name is not over, or the
   * last told for a parent of it is not and covers subdomains; for any host
   * none of whose names has lost its entry to an eviction.
   */
  lemma SecureIff(setup: Setup, events: seq<Event>, states: seq<State>, host: string, now: Instant)
    requires Run(setup, events, states) && SteadyAt(Times(events), now)
    requires Normalize(setup, host).Some? ==>
               var name := Normalize(setup, host).value;
               forall c :: c == name || IsParent(c, name) ==> c !in states[|events|].lost
    ensures Walked(setup, states[|events|].entries, host, now).1
            <==> Normalize(setup, host).Some?
                 && var name := Normalize(setup, host).value;
                    || Insisted(setup, events, name, now, false)
                    || exists p :: IsParent(p, name) && Insisted(setup, events, p, now, true)
  {
    hide Run, Normalize, IsParent, Insisted, Latest, SteadyAt, Times, Unexpired, LogInsists;
    if Normalize(setup, host).Some? {
      var name, entries := Normalize(setup, host).value, states[|events|].entries;
      forall c ensures c in Parents(name) <==> c == name || IsParent(c, name) {
        ParentsAreSuffixes(name, c);
      }
      hide Parents;
      WalkFinds(entries, name, Parents(name), now);
      AnswersMeanTheLog(setup, events, states, name, now);
      forall c, covering ensures Insisted(setup, events, c, now, covering)
                                 <==> Unexpired(Latest(setup, events, c), now, covering)
      {
        InsistedIff(setup, events, c, now, covering);
      }
      LogInsistsIff(setup, events, name, now);
    }
  }

  // --- one event

  /** What an event changes: nothing that is still unexpired, but for what it tells or evicts. */
  lemma OnlyToldChanges(setup: Setup, before: Entries, event: Event, after: Entries, victim: Option<string>)
    requires Step(setup, before, event, after, victim)
    ensures forall n | n in before && before[n].expiry > event.now && Some(n) != victim
                       && !(exists policy :: Tells(setup, event, n, policy)) ::
              n in after && after[n] == before[n]
    ensures forall n | n in after && !(exists policy :: Tells(setup, event, n, policy)) ::
              n in before && after[n] == before[n]
    ensures event.Learn? && !(exists n, policy :: Tells(setup, event, n, policy)) ==> after == before
  {
    hide Tells, ChangeOf, Normalize, Parents, Walk;
    UntoldIsIgnored(setup, event);
    if event.Ask? && Normalize(setup, event.host).Some? {
      var name := Normalize(setup, event.host).value;
      WalkFinds(before, name, Parents(name), event.now);
    }
  }

  /** An entry is evicted only by another accepted into a full store, and none left in it was over sooner. */
  lemma SoonestIsEvicted(setup: Setup, before: Entries, event: Event, after: Entries, gone: string)
    requires Step(setup, before, event, after, Some(gone))
    ensures exists n, policy :: Tells(setup, event, n, policy) && policy.maxAge > 0
                                && (n !in before || before[n].expiry <= event.now) && n != gone
    ensures gone in before && gone !in after && before[gone].expiry > event.now
    ensures forall n :: n in before && before[n].expiry > event.now ==> before[gone].expiry <= before[n].expiry
    ensures |set n | n in before && before[n].expiry > event.now| >= setup.maxEntries
  {
    hide Tells, ChangeOf, Normalize, Parents, Walk;
    UntoldIsIgnored(setup, event);
    var kept := Alive(before, event.now);
    assert forall n | n in before && before[n].expiry > event.now :: n in kept && kept[n] == before[n];
    assert kept.Keys == set n | n in before && before[n].expiry > event.now;
    assert |kept.Keys| == |kept|;
  }

  /**
   * The first policy an empty store is told decides every answer: for its own
   * name until its age has passed, for the names beneath just when it covers
   * subdomains, and for no other name ever.
   */
  lemma FirstPolicyDecides(setup: Setup, policy: HstsPolicy.Policy, host: string, now: Instant,
                           after: Entries, victim: Option<string>, other: string, later: Instant)
    requires Step(setup, map[], Learn(host, HstsPolicy.Render(policy), true, now), after, victim)
    ensures Walked(setup, after, other, later).1
            <==> && Normalize(setup, host).Some? && Normalize(setup, other).Some? && policy.maxAge > 0
                 && later < now + policy.maxAge * 1_000_000_000 <= setup.latest
                 && var (name, asked) := (Normalize(setup, host).value, Normalize(setup, other).value);
                    asked == name || (policy.includeSubdomains && IsParent(name, asked))
  {
    hide Normalize, HstsPolicy.Meaning, HstsPolicy.Render, Parents, IsParent;
    HstsPolicy.RenderReadsBack(policy);
    assert Alive(map[], now) == map[];
    if Normalize(setup, other).Some? {
      var asked := Normalize(setup, other).value;
      WalkFinds(after, asked, Parents(asked), later);
      if Normalize(setup, host).Some? {
        ParentsAreSuffixes(asked, Normalize(setup, host).value);
      }
    }
  }

  /** A field that was not received over TLS changes nothing at all. */
  lemma PlainIsIgnored(setup: Setup, before: Entries, host: string, header: string, now: Instant,
                       after: Entries, victim: Option<string>)
    requires Step(setup, before, Learn(host, header, false, now), after, victim)
    ensures after == before && victim == None
  {
    hide Normalize, HstsPolicy.Meaning;
  }

  // --- names

  /**
   * A host is stored in lower case, without the space around it, then the
   * brackets around that, and then the dots behind; an address is not stored.
   */
  lemma NormalizeIs(setup: Setup, space: string, open: string, host: string, dots: string, close: string, more: string)
    requires All(space, IsSpace) && All(open, IsBracket) && All(dots, IsDot) && All(close, IsBracket)
    requires All(more, IsSpace)
    requires host != "" && !IsBracket(host[0]) && host[|host| - 1] != '.'
    requires dots == "" ==> !IsBracket(host[|host| - 1])
    requires open == "" ==> !IsSpace(host[0])
    requires dots == close == "" ==> !IsSpace(host[|host| - 1])
    ensures Normalize(setup, space + (open + (host + dots) + close) + more)
            == if setup.isAddress(host) then None else Some(Lowered(host))
  {
    hide Trim, TrimEnd, Lowered;
    var bare := host + dots;
    var inner := open + bare + close;
    BracketsAreNoSpace(open, dots, close);
    assert inner[0] == (if open == "" then host[0] else open[0]);
    assert inner[|inner| - 1] == if close != "" then close[|close| - 1]
                                 else if dots != "" then dots[|dots| - 1] else host[|host| - 1];
    TrimIs(space, inner, more, IsSpace);
    assert bare[0] == host[0] && bare[|bare| - 1] == if dots != "" then dots[|dots| - 1] else host[|host| - 1];
    TrimIs(open, bare, close, IsBracket);
    TrimEndIs(host, dots, IsDot);
  }

  lemma BracketsAreNoSpace(open: string, dots: string, close: string)
    requires All(open, IsBracket) && All(dots, IsDot) && All(close, IsBracket)
    ensures open != "" ==> !IsSpace(open[0])
    ensures close != "" ==> !IsSpace(close[|close| - 1])
    ensures dots != "" ==> !IsSpace(dots[|dots| - 1]) && !IsBracket(dots[|dots| - 1])
  {
  }
}
