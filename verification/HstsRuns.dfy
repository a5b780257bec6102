/** The store over whole runs, against the log of everything it was told. */
module HstsRuns {
  import opened Wrappers
  import opened Texts
  import opened Clocks
  import opened HstsStore

  /** The store, and the names whose entries were evicted since they last changed. */
  datatype State = State(entries: Entries, lost: set<string>)

  ghost function LostAfter(lost: set<string>, change: Change, victim: Option<string>): set<string> {
    var kept := match change
      case Ignored => lost
      case Withdrawn(name) => lost - {name}
      case Accepted(name, _) => lost - {name};
    if victim.Some? then kept + {victim.value} else kept
  }

  ghost predicate Next(setup: Setup, before: State, event: Event, after: State) {
    exists victim ::
      && Step(setup, before.entries, event, after.entries, victim)
      && after.lost == LostAfter(before.lost, ChangeBy(setup, event), victim)
  }

  /** A run from the empty store: a state before the first event and one after each. */
  ghost predicate Run(setup: Setup, events: seq<Event>, states: seq<State>): (run: bool)
    ensures run ==> |states| == |events| + 1
  {
    && |states| == |events| + 1
    && states[0] == State(map[], {})
    && forall i :: 0 <= i < |events| ==> Next(setup, states[i], events[i], states[i + 1])
  }

  /** The instants events carry, in the order they take the lock. */
  function Times(events: seq<Event>): (times: seq<Instant>)
    ensures |times| == |events|
  {
    seq(|events|, i requires 0 <= i < |events| => events[i].now)
  }

  lemma TimesPrefix(events: seq<Event>, n: nat)
    requires n < |events|
    ensures Times(events[..n + 1]) == Times(events[..n]) + [events[n].now]
    ensures Times(events)[..n] == Times(events[..n])
  {
  }

  /** The latest accepted policy of a name, read off the log alone. */
  ghost function Latest(setup: Setup, events: seq<Event>, name: string): Option<Entry> {
    if events == [] then None
    else
      match ChangeBy(setup, events[|events| - 1])
      case Ignored => Latest(setup, events[..|events| - 1], name)
      case Withdrawn(which) => if which == name then None else Latest(setup, events[..|events| - 1], name)
      case Accepted(which, entry) =>
        if which == name then Some(entry) else Latest(setup, events[..|events| - 1], name)
  }

  /** What the log means for a name: its own latest policy, or a parent's that covers it, is unexpired. */
  ghost predicate LogInsists(setup: Setup, events: seq<Event>, name: string, now: Instant) {
    exists candidate ::
      && candidate in Parents(name)
      && Latest(setup, events, candidate).Some?
      && Latest(setup, events, candidate).value.expiry > now
      && Applies(Latest(setup, events, candidate).value, candidate, name)
  }

  // --- how many entries are held

  lemma AliveShrinks(entries: Entries, now: Instant)
    ensures |Alive(entries, now)| <= |entries|
  {
    var kept := Alive(entries, now);
    assert kept.Keys <= entries.Keys;
    SubsetSize(kept.Keys, entries.Keys);
    assert |kept.Keys| == |kept| && |entries.Keys| == |entries|;
  }

  lemma SmallerMap(before: Entries, after: Entries)
    requires after.Keys <= before.Keys
    ensures |after| <= |before|
  {
    SubsetSize(after.Keys, before.Keys);
    assert |after.Keys| == |after| && |before.Keys| == |before|;
  }

  function Ceiling(setup: Setup): nat {
    if setup.maxEntries == 0 then 1 else setup.maxEntries
  }

  lemma StoredBounded(setup: Setup, before: Entries, name: string, entry: Entry, now: Instant,
                      after: Entries, victim: Option<string>)
    requires |before| <= Ceiling(setup) && Stored(setup, before, name, entry, now, after, victim)
    ensures |after| <= Ceiling(setup)
  {
    var kept := Alive(before, now);
    AliveShrinks(before, now);
    hide Alive;
    var room := if victim.Some? then kept - {victim.value} else kept;
    assert room.Keys == if victim.Some? then kept.Keys - {victim.value} else kept.Keys;
    assert |room.Keys| == |room| && |kept.Keys| == |kept|;
    assert after.Keys == room.Keys + {name};
    assert |after.Keys| == |after|;
  }

  lemma StepBounded(setup: Setup, before: Entries, event: Event, after: Entries, victim: Option<string>)
    requires |before| <= Ceiling(setup) && Step(setup, before, event, after, victim)
    ensures |after| <= Ceiling(setup)
  {
    hide Stored, Walk, Parents, Normalize, ChangeOf, Ceiling;
    match event
    case Learn(host, header, viaTls, now) =>
      match ChangeOf(setup, host, header, viaTls, now) {
        case Ignored =>
        case Withdrawn(name) => SmallerMap(before, after);
        case Accepted(name, entry) => StoredBounded(setup, before, name, entry, now, after, victim);
      }
    case Ask(host, now) =>
      if Normalize(setup, host).Some? {
        var name := Normalize(setup, host).value;
        WalkFinds(before, name, Parents(name), now);
        SmallerMap(before, after);
      }
    case Prune(now) => AliveShrinks(before, now);
  }

  /** The store never outgrows its ceiling, except for the one entry a ceiling of zero leaves. */
  lemma {:induction false} RunBounded(setup: Setup, events: seq<Event>, states: seq<State>, k: nat)
    requires Run(setup, events, states) && k <= |events|
    ensures |states[k].entries| <= Ceiling(setup)
  {
    hide Step, Ceiling;
    if k > 0 {
      RunBounded(setup, events, states, k - 1);
      assert Next(setup, states[k - 1], events[k - 1], states[k - 1 + 1]);
      var victim :| Step(setup, states[k - 1].entries, events[k - 1], states[k].entries, victim);
      StepBounded(setup, states[k - 1].entries, events[k - 1], states[k].entries, victim);
    } else {
      CeilingPositive(setup);
    }
  }

  lemma CeilingPositive(setup: Setup)
    ensures Ceiling(setup) >= 1
  {
  }

  /** Whether there is any policy the store could accept at all. */
  ghost predicate CanStore(setup: Setup) {
    Lapse(0, 1) <= setup.latest && exists host :: Normalize(setup, host).Some?
  }

  lemma AcceptedCanBeStored(setup: Setup, event: Event)
    ensures ChangeBy(setup, event).Accepted? ==>
              && CanStore(setup)
              && exists seconds :: 1 <= seconds <= I64_MAX
                                   && ChangeBy(setup, event).entry.expiry == Lapse(event.now, seconds)
  {
    hide Normalize, HstsPolicy.Meaning;
    if ChangeBy(setup, event).Accepted? {
      var policy := HstsPolicy.Meaning(event.header).value;
      assert ChangeBy(setup, event).entry.expiry == Lapse(event.now, policy.maxAge);
    }
  }

  lemma EmptyStays(setup: Setup, event: Event, after: Entries, victim: Option<string>)
    requires Step(setup, map[], event, after, victim) && !CanStore(setup)
    ensures after == map[]
  {
    hide Stored, Walk, Parents, Normalize, ChangeOf, CanStore;
    AcceptedCanBeStored(setup, event);
    if event.Ask? && Normalize(setup, event.host).Some? {
      var name := Normalize(setup, event.host).value;
      WalkFinds(map[], name, Parents(name), event.now);
    }
  }

  lemma {:induction false} NothingStored(setup: Setup, events: seq<Event>, states: seq<State>, k: nat)
    requires Run(setup, events, states) && k <= |events| && !CanStore(setup)
    ensures states[k].entries == map[]
  {
    hide Step, CanStore;
    if k > 0 {
      NothingStored(setup, events, states, k - 1);
      assert Next(setup, states[k - 1], events[k - 1], states[k - 1 + 1]);
      var victim :| Step(setup, states[k - 1].entries, events[k - 1], states[k].entries, victim);
      EmptyStays(setup, events[k - 1], states[k].entries, victim);
    }
  }

  /** A policy of one second, learned first of all, is stored whatever the ceiling. */
  lemma FirstIsStored(setup: Setup, host: string) returns (events: seq<Event>, states: seq<State>)
    requires Lapse(0, 1) <= setup.latest && Normalize(setup, host).Some?
    ensures |events| == 1 && Run(setup, events, states) && |states[1].entries| == 1
  {
    hide Normalize, HstsPolicy.Meaning, HstsPolicy.Render;
    var policy := HstsPolicy.Policy(1, false, false);
    HstsPolicy.RenderReadsBack(policy);
    var name, entry := Normalize(setup, host).value, Entry(Lapse(0, 1), false);
    events := [Learn(host, HstsPolicy.Render(policy), true, 0)];
    states := [State(map[], {}), State(map[name := entry], {})];
    assert ChangeBy(setup, events[0]) == Accepted(name, entry);
    assert Alive(map[], 0) == map[];
    assert Step(setup, map[], events[0], map[name := entry], None);
    assert Next(setup, states[0], events[0], states[1]);
  }

  /**
   * Every run keeps the store within the ceiling it is given exactly when
   * that is not zero, or no policy can be accepted to begin with.
   */
  lemma CeilingKeptIff(setup: Setup)
    ensures (forall events, states: seq<State>, k | Run(setup, events, states) && 0 <= k <= |events| ::
               |states[k].entries| <= setup.maxEntries)
            <==> setup.maxEntries >= 1 || !CanStore(setup)
  {
    hide Run, Normalize;
    if setup.maxEntries >= 1 || !CanStore(setup) {
      forall events, states: seq<State>, k | Run(setup, events, states) && 0 <= k <= |events|
        ensures |states[k].entries| <= setup.maxEntries
      {
        if setup.maxEntries >= 1 {
          RunBounded(setup, events, states, k);
        } else {
          NothingStored(setup, events, states, k);
        }
      }
    } else {
      var host :| Normalize(setup, host).Some?;
      var events, states := FirstIsStored(setup, host);
      assert |states[|events|].entries| == 1;
    }
  }

  // --- the store against its log

  /** The store and the log agree on a name, up to entries that are over at every steady instant from here on. */
  ghost predicate Agree(state: State, latest: Option<Entry>, name: string, past: seq<Instant>) {
    if name in state.lost then name !in state.entries
    else
      match latest
      case None => name !in state.entries
      case Some(entry) =>
        && Dated(past, entry.expiry)
        && if name in state.entries then state.entries[name] == entry else Over(past, entry.expiry)
  }

  ghost predicate Over(past: seq<Instant>, deadline: Instant) {
    forall now | SteadyAt(past, now) :: deadline <= now
  }

  lemma OverStays(past: seq<Instant>, later: Instant, deadline: Instant)
    requires Over(past, deadline)
    ensures Over(past + [later], deadline)
  {
    hide SteadyAt;
    forall now | SteadyAt(past + [later], now) ensures deadline <= now {
      SteadyBefore(past, later, now);
    }
  }

  lemma LapsedIsOver(past: seq<Instant>, later: Instant, deadline: Instant)
    requires Dated(past, deadline) && deadline <= later
    ensures Over(past + [later], deadline)
  {
    hide SteadyAt, Dated;
    forall now | SteadyAt(past + [later], now) ensures deadline <= now {
      OverStaysOver(past, later, deadline, now);
    }
  }

  /** Losing only what has expired keeps the agreement. */
  lemma DroppedAgree(before: State, after: State, latest: Option<Entry>, name: string, past: seq<Instant>, now: Instant)
    requires Agree(before, latest, name, past)
    requires OnlyExpiredGone(before.entries, after.entries, now) && after.lost == before.lost
    ensures Agree(after, latest, name, past + [now])
  {
    hide Dated, Over;
    if name !in before.lost && latest.Some? {
      DatedStays(past, now, latest.value.expiry);
      if name in before.entries && name !in after.entries {
        LapsedIsOver(past, now, latest.value.expiry);
      } else if name !in before.entries {
        OverStays(past, now, latest.value.expiry);
      }
    }
  }

  lemma NothingGone(entries: Entries, now: Instant)
    ensures OnlyExpiredGone(entries, entries, now)
  {
  }

  lemma AliveOnlyExpiredGone(entries: Entries, now: Instant)
    ensures OnlyExpiredGone(entries, Alive(entries, now), now)
  {
  }

  lemma WithdrawnAgree(before: State, after: State, which: string, name: string, latest: Option<Entry>,
                       past: seq<Instant>, now: Instant)
    requires Agree(before, latest, name, past)
    requires after.entries == before.entries - {which} && after.lost == before.lost - {which}
    ensures Agree(after, if which == name then None else latest, name, past + [now])
  {
    hide Dated, Over;
    if which != name {
      var same := State(if name in before.entries then map[name := before.entries[name]] else map[], before.lost);
      NothingGone(same.entries, now);
      DroppedAgree(same, same, latest, name, past, now);
    }
  }

  lemma StoredAgree(setup: Setup, before: State, name: string, entry: Entry, now: Instant,
                    after: State, victim: Option<string>, which: string, latest: Option<Entry>, past: seq<Instant>)
    requires Agree(before, latest, which, past) && Dated(past + [now], entry.expiry)
    requires Stored(setup, before.entries, name, entry, now, after.entries, victim)
    requires after.lost == LostAfter(before.lost, Accepted(name, entry), victim)
    ensures Agree(after, if which == name then Some(entry) else latest, which, past + [now])
  {
    hide Dated, Over;
    if which != name && victim != Some(which) {
      var kept := State(Alive(before.entries, now), before.lost);
      AliveOnlyExpiredGone(before.entries, now);
      DroppedAgree(before, kept, latest, which, past, now);
    }
  }

  lemma NextAgree(setup: Setup, log: seq<Event>, before: State, event: Event, after: State, name: string,
                  past: seq<Instant>)
    requires Agree(before, Latest(setup, log, name), name, past)
    requires Next(setup, before, event, after)
    ensures Agree(after, Latest(setup, log + [event], name), name, past + [event.now])
  {
    hide Stored, Walk, Parents, Normalize, ChangeOf, Agree, OnlyExpiredGone, CanStore;
    assert (log + [event])[..|log|] == log;
    var victim :| Step(setup, before.entries, event, after.entries, victim)
                  && after.lost == LostAfter(before.lost, ChangeBy(setup, event), victim);
    var latest := Latest(setup, log, name);
    NothingGone(before.entries, event.now);
    match event
    case Learn(host, header, viaTls, now) =>
      match ChangeOf(setup, host, header, viaTls, now) {
        case Ignored => DroppedAgree(before, after, latest, name, past, now);
        case Withdrawn(which) => WithdrawnAgree(before, after, which, name, latest, past, now);
        case Accepted(which, entry) =>
          AcceptedCanBeStored(setup, event);
          var seconds :| 1 <= seconds <= I64_MAX && entry.expiry == Lapse(now, seconds);
          DatedLast(past, now, seconds);
          StoredAgree(setup, before, which, entry, now, after, victim, name, latest, past);
      }
    case Ask(host, now) =>
      if Normalize(setup, host).Some? {
        var asked := Normalize(setup, host).value;
        WalkFinds(before.entries, asked, Parents(asked), now);
      }
      DroppedAgree(before, after, latest, name, past, now);
    case Prune(now) =>
      AliveOnlyExpiredGone(before.entries, now);
      DroppedAgree(before, after, latest, name, past, now);
  }

  /** After any run, whatever its instants, the store and the log agree on every name. */
  lemma {:induction false} RunAgrees(setup: Setup, events: seq<Event>, states: seq<State>, k: nat, name: string)
    requires Run(setup, events, states) && k <= |events|
    ensures Agree(states[k], Latest(setup, events[..k], name), name, Times(events[..k]))
  {
    hide Next, Latest, Times, Agree;
    if k > 0 {
      RunAgrees(setup, events, states, k - 1, name);
      assert Next(setup, states[k - 1], events[k - 1], states[k - 1 + 1]);
      assert events[..k] == events[..k - 1] + [events[k - 1]];
      TimesPrefix(events, k - 1);
      NextAgree(setup, events[..k - 1], states[k - 1], events[k - 1], states[k], name, Times(events[..k - 1]));
    } else {
      assert events[..0] == [];
      StartAgrees(setup, name);
    }
  }

  lemma StartAgrees(setup: Setup, name: string)
    ensures Agree(State(map[], {}), Latest(setup, [], name), name, Times([]))
  {
  }

  /**
   * Whatever the instants, the store never insists where its log does not; and
   * at an instant steady after them it insists exactly where the log does, for
   * any host none of whose names has lost its entry to an eviction.
   */
  lemma AnswersMeanTheLog(setup: Setup, events: seq<Event>, states: seq<State>, name: string, now: Instant)
    requires Run(setup, events, states)
    ensures var end := states[|events|];
            && (Insists(end.entries, name, now) ==> LogInsists(setup, events, name, now))
            && (SteadyAt(Times(events), now) && (forall c :: c in Parents(name) ==> c !in end.lost) ==>
                  (Insists(end.entries, name, now) <==> LogInsists(setup, events, name, now)))
  {
    hide Next, Latest, Applies, SteadyAt, Dated, Times;
    var end := states[|events|];
    assert events[..|events|] == events;
    forall c ensures Agree(end, Latest(setup, events, c), c, Times(events)) {
      RunAgrees(setup, events, states, |events|, c);
    }
    if Insists(end.entries, name, now) {
      var c :| c in Parents(name) && Live(end.entries, c, now).Some? && Applies(end.entries[c], c, name);
      assert Agree(end, Latest(setup, events, c), c, Times(events));
    }
    if LogInsists(setup, events, name, now) {
      var c :| && c in Parents(name) && Latest(setup, events, c).Some?
               && Latest(setup, events, c).value.expiry > now && Applies(Latest(setup, events, c).value, c, name);
      assert Agree(end, Latest(setup, events, c), c, Times(events));
    }
  }

  // --- from a server's policy to a client's answer

  lemma StoredIsLive(setup: Setup, before: Entries, name: string, entry: Entry, now: Instant,
                     after: Entries, victim: Option<string>, later: Instant)
    requires Stored(setup, before, name, entry, now, after, victim)
    ensures Live(after, name, later) == if entry.expiry > later then Some(entry) else None
  {
    hide Alive;
  }

  /**
   * A policy a server writes, received over TLS, makes the client insist on
   * that host until just its age has passed, and on every host under it when
   * it covers them; a policy of no age makes the client forget the host.
   */
  lemma PolicyTakesEffect(setup: Setup, before: Entries, policy: HstsPolicy.Policy, host: string, name: string,
                          now: Instant, after: Entries, victim: Option<string>, later: Instant)
    requires Step(setup, before, Learn(host, HstsPolicy.Render(policy), true, now), after, victim)
    requires Normalize(setup, host) == Some(name) && now <= later
    requires now + HstsPolicy.Max0(policy.maxAge) * SECOND <= setup.latest
    ensures policy.maxAge <= 0 ==> name !in after
    ensures policy.maxAge > 0 ==> (Live(after, name, later).Some? <==> later < now + policy.maxAge * SECOND)
    ensures later < now + policy.maxAge * SECOND ==>
              && Insists(after, name, later)
              && (policy.includeSubdomains ==> forall under :: name in Parents(under) ==> Insists(after, under, later))
  {
    hide Normalize, HstsPolicy.Meaning, HstsPolicy.Render, Stored, Parents;
    HstsPolicy.RenderReadsBack(policy);
    if policy.maxAge > 0 {
      var entry := Entry(now + policy.maxAge * SECOND, policy.includeSubdomains);
      StoredIsLive(setup, before, name, entry, now, after, victim, later);
      OwnParent(name);
      if later < entry.expiry && policy.includeSubdomains {
        forall under | name in Parents(under) ensures Insists(after, under, later) {
          assert Live(after, name, later).Some? && Applies(after[name], name, under);
        }
      }
    }
  }

  lemma OwnParent(name: string)
    ensures name in Parents(name)
  {
    assert Parents(name)[0] == name;
  }

  // --- when nothing is evicted at all

  /** Every name the log ever accepted a policy for. */
  ghost function NamesOf(setup: Setup, events: seq<Event>): set<string> {
    if events == [] then {}
    else
      NamesOf(setup, events[..|events| - 1])
      + match ChangeBy(setup, events[|events| - 1])
        case Accepted(name, _) => {name}
        case _ => {}
  }

  lemma NoVictim(setup: Setup, before: Entries, name: string, entry: Entry, now: Instant,
                 after: Entries, victim: Option<string>, names: set<string>)
    requires Stored(setup, before, name, entry, now, after, victim)
    requires before.Keys <= names && name in names && |names| <= setup.maxEntries
    ensures victim == None && after.Keys <= names
  {
    var kept := Alive(before, now);
    assert kept.Keys <= before.Keys && |kept.Keys| == |kept|;
    if |kept| >= setup.maxEntries && name !in kept {
      SubsetSize(kept.Keys + {name}, names);
    }
  }

  lemma StepLosesNothing(setup: Setup, before: State, event: Event, after: State, names: set<string>)
    requires Next(setup, before, event, after) && before.lost == {} && before.entries.Keys <= names
    requires ChangeBy(setup, event).Accepted? ==> ChangeBy(setup, event).name in names
    requires |names| <= setup.maxEntries
    ensures after.lost == {} && after.entries.Keys <= names
  {
    hide Stored, Walk, Parents, Normalize, ChangeOf;
    var victim :| Step(setup, before.entries, event, after.entries, victim)
                  && after.lost == LostAfter(before.lost, ChangeBy(setup, event), victim);
    match event
    case Learn(host, header, viaTls, now) =>
      match ChangeOf(setup, host, header, viaTls, now) {
        case Ignored =>
        case Withdrawn(name) =>
        case Accepted(name, entry) => NoVictim(setup, before.entries, name, entry, now, after.entries, victim, names);
      }
    case Ask(host, now) =>
      if Normalize(setup, host).Some? {
        var name := Normalize(setup, host).value;
        WalkFinds(before.entries, name, Parents(name), now);
      }
    case Prune(now) =>
  }

  /** A store with room for every name it is ever told about evicts nothing. */
  lemma {:induction false} NothingIsLost(setup: Setup, events: seq<Event>, states: seq<State>, k: nat)
    requires Run(setup, events, states) && k <= |events|
    requires |NamesOf(setup, events)| <= setup.maxEntries
    ensures states[k].lost == {} && states[k].entries.Keys <= NamesOf(setup, events)
  {
    hide Next, NamesOf, ChangeBy;
    if k > 0 {
      NothingIsLost(setup, events, states, k - 1);
      assert Next(setup, states[k - 1], events[k - 1], states[k - 1 + 1]);
      Named(setup, events, k - 1);
      StepLosesNothing(setup, states[k - 1], events[k - 1], states[k], NamesOf(setup, events));
    }
  }

  lemma {:induction false} Named(setup: Setup, events: seq<Event>, i: nat)
    requires i < |events|
    ensures ChangeBy(setup, events[i]).Accepted? ==> ChangeBy(setup, events[i]).name in NamesOf(setup, events)
  {
    hide ChangeBy;
    if i < |events| - 1 {
      Named(setup, events[..|events| - 1], i);
    }
  }

  /** With room for every name the log mentions, the store is its log exactly. */
  lemma RoomyStoreIsItsLog(setup: Setup, events: seq<Event>, states: seq<State>, name: string, now: Instant)
    requires Run(setup, events, states) && SteadyAt(Times(events), now)
    requires |NamesOf(setup, events)| <= setup.maxEntries
    ensures Insists(states[|events|].entries, name, now) <==> LogInsists(setup, events, name, now)
  {
    hide Run, Insists, LogInsists, NamesOf;
    NothingIsLost(setup, events, states, |events|);
    AnswersMeanTheLog(setup, events, states, name, now);
  }

  lemma NormalA(setup: Setup)
    requires !setup.isAddress("a")
    ensures Normalize(setup, "a") == Some("a")
  {
    assert Lowered("a") == "a";
    TrimKeeps("a", IsSpace);
    TrimKeeps("a", IsBracket);
  }

  // --- the exact condition on the instants

  /** A policy learned at one time, everything dropped at a later one, and nothing else told. */
  function DropEvents(times: seq<Instant>, k: nat, r: nat, seconds: i64): (events: seq<Event>)
    requires k < r < |times|
    ensures |events| == |times| && Times(events) == times
  {
    seq(|times|, i requires 0 <= i < |times| =>
      if i == k then Learn("a", HstsPolicy.Render(HstsPolicy.Policy(seconds, false, false)), true, times[i])
      else if i == r then Prune(times[i])
      else Learn("", "", false, times[i]))
  }

  function DropSetup(deadline: Instant): Setup {
    Setup(1, _ => false, deadline)
  }

  function DropState(n: nat, k: nat, r: nat, entry: Entry): State {
    State(if k < n <= r then map["a" := entry] else map[], {})
  }

  lemma DropChanges(times: seq<Instant>, k: nat, r: nat, seconds: i64, n: nat)
    requires k < r < |times| && n < |times| && seconds >= 1
    ensures ChangeBy(DropSetup(Lapse(times[k], seconds)), DropEvents(times, k, r, seconds)[n])
            == if n == k then Accepted("a", Entry(Lapse(times[k], seconds), false)) else Ignored
  {
    hide Normalize, HstsPolicy.Meaning, HstsPolicy.Render;
    HstsPolicy.RenderReadsBack(HstsPolicy.Policy(seconds, false, false));
    NormalA(DropSetup(Lapse(times[k], seconds)));
  }

  lemma OneAlive(entry: Entry, now: Instant)
    ensures Alive(map[], now) == map[]
    ensures entry.expiry <= now ==> Alive(map["a" := entry], now) == map[]
  {
  }

  lemma DropNext(times: seq<Instant>, k: nat, r: nat, seconds: i64, n: nat)
    requires k < r < |times| && n < |times| && seconds >= 1 && Lapse(times[k], seconds) <= times[r]
    ensures var entry := Entry(Lapse(times[k], seconds), false);
            Next(DropSetup(entry.expiry), DropState(n, k, r, entry), DropEvents(times, k, r, seconds)[n],
                 DropState(n + 1, k, r, entry))
  {
    hide ChangeBy;
    var entry := Entry(Lapse(times[k], seconds), false);
    DropChanges(times, k, r, seconds, n);
    OneAlive(entry, times[n]);
    var before, after := DropState(n, k, r, entry), DropState(n + 1, k, r, entry);
    assert Step(DropSetup(entry.expiry), before.entries, DropEvents(times, k, r, seconds)[n], after.entries, None);
  }

  lemma {:induction false} DropLatest(times: seq<Instant>, k: nat, r: nat, seconds: i64, n: nat)
    requires k < r < |times| && k < n <= |times| && seconds >= 1
    ensures var entry := Entry(Lapse(times[k], seconds), false);
            Latest(DropSetup(entry.expiry), DropEvents(times, k, r, seconds)[..n], "a") == Some(entry)
  {
    hide ChangeBy;
    var events := DropEvents(times, k, r, seconds);
    DropChanges(times, k, r, seconds, n - 1);
    assert events[..n][..n - 1] == events[..n - 1];
    if n - 1 > k {
      DropLatest(times, k, r, seconds, n - 1);
    }
  }

  /** A lifetime over at a time of the run and not over now is one the store has forgotten and its log has not. */
  lemma DroppedDiffers(times: seq<Instant>, k: nat, r: nat, seconds: i64, now: Instant)
    returns (setup: Setup, events: seq<Event>, states: seq<State>)
    requires k < r < |times| && seconds >= 1 && now < Lapse(times[k], seconds) <= times[r]
    ensures Times(events) == times && Run(setup, events, states) && states[|events|].lost == {}
    ensures !Insists(states[|events|].entries, "a", now) && LogInsists(setup, events, "a", now)
  {
    hide Next, Latest, ChangeBy;
    var entry := Entry(Lapse(times[k], seconds), false);
    setup, events := DropSetup(entry.expiry), DropEvents(times, k, r, seconds);
    states := seq(|times| + 1, n requires 0 <= n < |times| + 1 => DropState(n, k, r, entry));
    forall n | 0 <= n < |events| ensures Next(setup, states[n], events[n], states[n + 1]) {
      DropNext(times, k, r, seconds, n);
    }
    assert events[..|events|] == events;
    DropLatest(times, k, r, seconds, |times|);
    OwnParent("a");
  }

  /**
   * At an instant after events at these times, every store over every run of
   * such events insists as its log does on every host none of whose names was
   * evicted, exactly when no lifetime begun at one of the times was over at a
   * later one of them and is not over at that instant.
   */
  lemma AnswersMeanTheLogIff(times: seq<Instant>, now: Instant)
    ensures (forall setup, events, states: seq<State>, name |
               Run(setup, events, states) && Times(events) == times
               && (forall c :: c in Parents(name) ==> c !in states[|events|].lost) ::
               Insists(states[|events|].entries, name, now) <==> LogInsists(setup, events, name, now))
            <==> SteadyAt(times, now)
  {
    hide Run, Insists, LogInsists, Parents, Times;
    if SteadyAt(times, now) {
      forall setup, events, states: seq<State>, name |
        Run(setup, events, states) && Times(events) == times
        && (forall c :: c in Parents(name) ==> c !in states[|events|].lost)
        ensures Insists(states[|events|].entries, name, now) <==> LogInsists(setup, events, name, now)
      {
        AnswersMeanTheLog(setup, events, states, name, now);
      }
    } else {
      var k, r, seconds :|
        0 <= k < r < |times| && 1 <= seconds <= I64_MAX && now < Lapse(times[k], seconds) <= times[r];
      var setup, events, states := DroppedDiffers(times, k, r, seconds, now);
    }
  }

  // --- asking and pruning, in a store that evicts as well

  function Learns(events: seq<Event>): seq<Event> {
    if events == [] then []
    else
      Learns(events[..|events| - 1]) + if events[|events| - 1].Learn? then [events[|events| - 1]] else []
  }

  /** Two stores hold the same living entries at every instant steady from here on. */
  ghost predicate SameLiving(past: seq<Instant>, a: Entries, b: Entries) {
    forall now | SteadyAt(past, now) :: Alive(a, now) == Alive(b, now)
  }

  ghost predicate AllDated(past: seq<Instant>, entries: Entries) {
    forall name | name in entries :: Dated(past, entries[name].expiry)
  }

  lemma DatedGrow(past: seq<Instant>, now: Instant, before: Entries, after: Entries)
    requires AllDated(past, before) && forall name | name in after :: name in before && after[name] == before[name]
    ensures AllDated(past + [now], after)
  {
    hide Dated;
    forall name | name in after ensures Dated(past + [now], after[name].expiry) {
      DatedStays(past, now, after[name].expiry);
    }
  }

  /** Dropping what has expired leaves the living of every later steady instant. */
  lemma DroppedLiving(past: seq<Instant>, now: Instant, a: Entries, b: Entries, after: Entries)
    requires SameLiving(past, a, b) && AllDated(past, a) && OnlyExpiredGone(a, after, now)
    ensures SameLiving(past + [now], after, b) && AllDated(past + [now], after)
  {
    hide Dated, SteadyAt;
    DatedGrow(past, now, a, after);
    forall t | SteadyAt(past + [now], t) ensures Alive(after, t) == Alive(b, t) {
      SteadyBefore(past, now, t);
      forall name | name in a && name !in after ensures a[name].expiry <= t {
        OverStaysOver(past, now, a[name].expiry, t);
      }
      assert Alive(after, t) == Alive(a, t);
    }
  }

  lemma ChangedLiving(setup: Setup, past: seq<Instant>, a: Entries, b: Entries, event: Event, after: Entries,
                      victim: Option<string>) returns (other: Entries)
    requires event.Learn? && Step(setup, a, event, after, victim)
    requires SameLiving(past, a, b) && AllDated(past, a) && AllDated(past, b) && SteadyAt(past, event.now)
    ensures Step(setup, b, event, other, victim)
    ensures SameLiving(past + [event.now], after, other)
    ensures AllDated(past + [event.now], after) && AllDated(past + [event.now], other)
  {
    hide Dated, SteadyAt, ChangeOf, Soonest, Alive;
    var now := event.now;
    match ChangeBy(setup, event)
    case Ignored =>
      other := b;
      LaterLiving(past, now, a, b);
      DatedGrow(past, now, a, a);
      DatedGrow(past, now, b, b);
    case Withdrawn(name) =>
      other := b - {name};
      WithoutLiving(past, now, a, b, name);
      DatedGrow(past, now, a, after);
      DatedGrow(past, now, b, other);
    case Accepted(name, entry) =>
      other := after;
      StoredDated(setup, past, a, event, after, victim);
      SameIsLiving(past + [now], after);
  }

  lemma SameIsLiving(past: seq<Instant>, a: Entries)
    ensures SameLiving(past, a, a)
  {
  }

  lemma LaterLiving(past: seq<Instant>, now: Instant, a: Entries, b: Entries)
    requires SameLiving(past, a, b)
    ensures SameLiving(past + [now], a, b)
  {
    hide SteadyAt;
    forall t | SteadyAt(past + [now], t) ensures Alive(a, t) == Alive(b, t) {
      SteadyBefore(past, now, t);
    }
  }

  lemma WithoutLiving(past: seq<Instant>, now: Instant, a: Entries, b: Entries, name: string)
    requires SameLiving(past, a, b)
    ensures SameLiving(past + [now], a - {name}, b - {name})
  {
    hide SteadyAt;
    forall t | SteadyAt(past + [now], t) ensures Alive(a - {name}, t) == Alive(b - {name}, t) {
      SteadyBefore(past, now, t);
      assert Alive(a - {name}, t) == Alive(a, t) - {name};
      assert Alive(b - {name}, t) == Alive(b, t) - {name};
    }
  }

  lemma StoredDated(setup: Setup, past: seq<Instant>, a: Entries, event: Event, after: Entries, victim: Option<string>)
    requires event.Learn? && ChangeBy(setup, event).Accepted? && Step(setup, a, event, after, victim)
    requires AllDated(past, a)
    ensures AllDated(past + [event.now], after)
  {
    hide Dated, ChangeOf, Soonest, CanStore;
    AcceptedCanBeStored(setup, event);
    var change := ChangeBy(setup, event);
    var seconds :| 1 <= seconds <= I64_MAX && change.entry.expiry == Lapse(event.now, seconds);
    DatedLast(past, event.now, seconds);
    DatedGrow(past, event.now, a, Alive(a, event.now));
    assert forall name | name in after && name != change.name :: name in Alive(a, event.now);
  }

  /**
   * Asking and pruning never show, in a store that evicts too: at steady
   * instants every run is matched by a run of its policies alone that evicts
   * the same entries at the same points and holds the same living ones.
   */
  lemma {:induction false} AsksAndPrunesNeverShow(setup: Setup, events: seq<Event>, states: seq<State>)
    returns (bare: seq<State>)
    requires Run(setup, events, states) && Steady(Times(events))
    ensures Run(setup, Learns(events), bare)
    ensures var (end, other) := (states[|events|], bare[|bare| - 1]);
            && end.lost == other.lost && SameLiving(Times(events), end.entries, other.entries)
            && AllDated(Times(events), end.entries) && AllDated(Times(events), other.entries)
  {
    hide Dated, SteadyAt, Alive, ChangeBy, Step;
    if events == [] {
      bare := [State(map[], {})];
    } else {
      var n := |events| - 1;
      var front, last := events[..n], events[n];
      TimesPrefix(events, n);
      assert events[..n + 1] == events;
      SteadyPrefix(Times(events), n);
      RunPrefix(setup, events, states, n);
      var earlier := AsksAndPrunesNeverShow(setup, front, states[..n + 1]);
      assert Next(setup, states[n], last, states[n + 1]);
      var victim :| Step(setup, states[n].entries, last, states[n + 1].entries, victim)
                    && states[n + 1].lost == LostAfter(states[n].lost, ChangeBy(setup, last), victim);
      var other := earlier[|earlier| - 1];
      assert SteadyAt(Times(events)[..n], Times(events)[n]);
      if last.Learn? {
        var entries :=
          ChangedLiving(setup, Times(front), states[n].entries, other.entries, last, states[n + 1].entries, victim);
        var after := State(entries, states[n + 1].lost);
        assert Next(setup, other, last, after);
        RunExtends(setup, Learns(front), earlier, last, after);
        bare := earlier + [after];
      } else {
        StepDrops(setup, states[n].entries, last, states[n + 1].entries, victim);
        DroppedLiving(Times(front), last.now, states[n].entries, other.entries, states[n + 1].entries);
        DatedGrow(Times(front), last.now, other.entries, other.entries);
        assert Learns(front) + [] == Learns(front);
        bare := earlier;
      }
    }
  }

  lemma RunPrefix(setup: Setup, events: seq<Event>, states: seq<State>, n: nat)
    requires Run(setup, events, states) && n <= |events|
    ensures Run(setup, events[..n], states[..n + 1])
  {
    hide Next;
    forall i | 0 <= i < n ensures Next(setup, states[..n + 1][i], events[..n][i], states[..n + 1][i + 1]) {
      assert Next(setup, states[i], events[i], states[i + 1]);
    }
  }

  lemma RunExtends(setup: Setup, events: seq<Event>, states: seq<State>, event: Event, after: State)
    requires Run(setup, events, states) && Next(setup, states[|events|], event, after)
    ensures Run(setup, events + [event], states + [after])
  {
    hide Next;
    var (all, grown) := (events + [event], states + [after]);
    forall i | 0 <= i < |all| ensures Next(setup, grown[i], all[i], grown[i + 1]) {
      if i < |events| {
        assert Next(setup, states[i], events[i], states[i + 1]);
      }
    }
  }

  lemma StepDrops(setup: Setup, before: Entries, event: Event, after: Entries, victim: Option<string>)
    requires Step(setup, before, event, after, victim) && !event.Learn?
    ensures OnlyExpiredGone(before, after, event.now)
    ensures victim == None && ChangeBy(setup, event) == Ignored
  {
    hide Walk, Parents, Normalize, OnlyExpiredGone;
    NothingGone(before, event.now);
    match event
    case Ask(host, now) =>
      if Normalize(setup, host).Some? {
        var asked := Normalize(setup, host).value;
        WalkFinds(before, asked, Parents(asked), now);
      }
    case Prune(now) => AliveOnlyExpiredGone(before, now);
  }
}
