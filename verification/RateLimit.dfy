/**
 * The pruned history against a log that forgets nothing: when the two decide
 * alike, and when the limits themselves hold, whatever the order of the times.
 */
module RateLimit {
  import opened Wrappers
  import opened RateHistory

  /** What is done to the history while the lock is held. */
  datatype Event = Attempt(ip: Ip, now: Time) | Sweep(now: Time)

  /** What the pruned history answers an attempt, and what the naive log does. */
  predicate Grants(setup: Setup, history: History, e: Event) {
    e.Attempt? && Rate(setup, history, e.ip, e.now).1
  }

  predicate NaiveGrants(setup: Setup, log: History, e: Event) {
    e.Attempt? && Within(setup.rates, RecordOf(log, e.ip), e.now)
  }

  /** One event on the history the gate keeps; which addresses are evicted is not determined. */
  ghost predicate Step(setup: Setup, history: History, e: Event, after: History) {
    match e
    case Attempt(ip, now) =>
      var (rated, within) := Rate(setup, history, ip, now);
      if within then Bounded(rated, ip, Cap(setup), after) else after == rated
    case Sweep(now) => after == Swept(setup, history, now)
  }

  /** The same event on the log: every admission is kept, until its address is evicted. */
  function Logged(setup: Setup, log: History, history: History, e: Event, after: History): History {
    match e
    case Attempt(ip, now) =>
      var (rated, within) := Rate(setup, history, ip, now);
      if within then log[ip := RecordOf(log, ip) + [now]] - (rated.Keys - after.Keys) else log
    case Sweep(_) => log
  }

  /** The instants events carry, in the order the lock is taken. */
  function Times(events: seq<Event>): (times: seq<Time>)
    ensures |times| == |events|
  {
    seq(|events|, i requires 0 <= i < |events| => events[i].now)
  }

  /** Whether an entry was older than the window at some event after its own. */
  ghost predicate Outdated(past: seq<Time>, window: real, at: Time) {
    exists k, r :: 0 <= k < r < |past| && past[k] == at && past[r] - at > window
  }

  /** A record holds all of a log but a front of it, every entry of which was once outdated. */
  ghost predicate Agrees(past: seq<Time>, window: real, record: Record, log: Record) {
    && |record| <= |log|
    && record == log[|log| - |record|..]
    && (forall i :: 0 <= i < |log| ==> log[i] in past)
    && (forall i :: 0 <= i < |log| - |record| ==> Outdated(past, window, log[i]))
  }

  ghost predicate AllAgree(setup: Setup, past: seq<Time>, history: History, log: History) {
    forall ip: Ip :: Agrees(past, Window(setup.rates), RecordOf(history, ip), RecordOf(log, ip))
  }

  /** How many entries lie within a stretch of time. */
  function InWindow(log: Record, from: Time, period: real): nat {
    if log == [] then 0
    else InWindow(log[..|log| - 1], from, period)
         + (if from <= log[|log| - 1] <= from + period then 1 else 0)
  }

  /** No stretch as long as a limit's period holds more admissions than the limit allows. */
  ghost predicate Spaced(rates: seq<(real, nat)>, log: Record) {
    forall k, from | 0 <= k < |rates| :: InWindow(log, from, rates[k].0) <= rates[k].1
  }

  ghost predicate AllSpaced(setup: Setup, log: History) {
    forall ip: Ip :: Spaced(setup.rates, RecordOf(log, ip))
  }

  // --- what pruning leaves

  lemma OutdatedStays(past: seq<Time>, now: Time, window: real, at: Time)
    requires Outdated(past, window, at)
    ensures Outdated(past + [now], window, at)
  {
    var k, r :| 0 <= k < r < |past| && past[k] == at && past[r] - at > window;
    var grown := past + [now];
    assert grown[k] == at && grown[r] == past[r];
  }

  lemma LaterAgrees(past: seq<Time>, now: Time, window: real, record: Record, log: Record)
    requires Agrees(past, window, record, log)
    ensures Agrees(past + [now], window, record, log)
  {
    hide Outdated;
    forall i | 0 <= i < |log| - |record| ensures Outdated(past + [now], window, log[i]) {
      OutdatedStays(past, now, window, log[i]);
    }
  }

  /** Dropping what is older than the window at an event drops only what is outdated by it. */
  lemma {:induction false} FreshAgrees(past: seq<Time>, now: Time, window: real, record: Record, log: Record)
    requires Agrees(past + [now], window, record, log) && window >= 0.0
    requires forall i :: 0 <= i < |log| ==> log[i] in past
    ensures Agrees(past + [now], window, Fresh(record, now, window), log)
    decreases |record|
  {
    if record != [] && Since(now, record[0]) > window {
      var at := |log| - |record|;
      assert record[0] == log[at] && record[1..] == log[at + 1..];
      var k :| 0 <= k < |past| && past[k] == log[at];
      assert (past + [now])[k] == log[at] && (past + [now])[|past|] == now;
      FreshAgrees(past, now, window, record[1..], log);
    }
  }

  lemma GrantAgrees(past: seq<Time>, now: Time, window: real, record: Record, log: Record)
    requires Agrees(past + [now], window, record, log)
    ensures Agrees(past + [now], window, record + [now], log + [now])
  {
    hide Outdated;
    assert (past + [now])[|past|] == now;
  }

  lemma EmptyAgrees(past: seq<Time>, window: real)
    ensures Agrees(past, window, [], [])
  {
  }

  /** Pruning an address at an event leaves its record in agreement. */
  lemma PrunedAgrees(past: seq<Time>, now: Time, window: real, record: Record, log: Record)
    requires Agrees(past, window, record, log) && window >= 0.0
    ensures Agrees(past + [now], window, Fresh(record, now, window), log)
  {
    hide Outdated, Fresh;
    LaterAgrees(past, now, window, record, log);
    FreshAgrees(past, now, window, record, log);
  }

  /** Entries older than the window never count towards any limit. */
  lemma {:induction false} RecentIgnoresFront(record: Record, log: Record, now: Time, period: real)
    requires |record| <= |log| && record == log[|log| - |record|..]
    requires forall i :: 0 <= i < |log| - |record| ==> Since(now, log[i]) > period
    ensures Recent(log, now, period) == Recent(record, now, period)
    decreases |log|
  {
    if log != [] {
      var shorter := log[..|log| - 1];
      if record == [] {
        RecentIgnoresFront([], shorter, now, period);
      } else {
        assert record[..|record| - 1] == shorter[|shorter| - (|record| - 1)..];
        RecentIgnoresFront(record[..|record| - 1], shorter, now, period);
      }
    }
  }

  lemma SweptRecord(setup: Setup, history: History, now: Time, ip: Ip)
    ensures RecordOf(Swept(setup, history, now), ip) == Fresh(RecordOf(history, ip), now, Window(setup.rates))
  {
  }

  /** What one attempt leaves of the record and of the log of any address. */
  lemma AttemptOutcome(setup: Setup, history: History, log: History, ip: Ip, now: Time, after: History, other: Ip)
    requires Step(setup, history, Attempt(ip, now), after)
    ensures var record := Fresh(RecordOf(history, ip), now, Window(setup.rates));
            var logged := Logged(setup, log, history, Attempt(ip, now), after);
            var (kept, entries) := (RecordOf(after, other), RecordOf(logged, other));
            if Grants(setup, history, Attempt(ip, now)) then
              if other == ip then kept == record + [now] && entries == RecordOf(log, ip) + [now]
              else if other in history && other !in after then kept == [] && entries == []
              else kept == RecordOf(history, other) && entries == RecordOf(log, other)
            else
              && entries == RecordOf(log, other)
              && kept == (if other == ip then record else RecordOf(history, other))
  {
    hide Window, Within, Fresh;
  }

  /** Every event, whatever its time, leaves records and logs in agreement. */
  lemma StepAgrees(setup: Setup, past: seq<Time>, history: History, log: History, e: Event, after: History)
    requires AllAgree(setup, past, history, log) && Step(setup, history, e, after)
    ensures AllAgree(setup, past + [e.now], after, Logged(setup, log, history, e, after))
  {
    hide Agrees, Window, Recent, Within, Fresh;
    var window, logged, grown := Window(setup.rates), Logged(setup, log, history, e, after), past + [e.now];
    EmptyAgrees(grown, window);
    forall ip: Ip ensures Agrees(grown, window, RecordOf(after, ip), RecordOf(logged, ip)) {
      var record, entries := RecordOf(history, ip), RecordOf(log, ip);
      LaterAgrees(past, e.now, window, record, entries);
      PrunedAgrees(past, e.now, window, record, entries);
      match e
      case Attempt(caller, now) =>
        AttemptOutcome(setup, history, log, caller, now, after, ip);
        GrantAgrees(past, now, window, Fresh(record, now, window), entries);
      case Sweep(now) => SweptRecord(setup, history, now, ip);
    }
  }

  // --- when the two decide alike

  /** No time is above both an earlier and a later one. */
  ghost predicate Unpeaked(times: seq<Time>) {
    forall k, r, j | 0 <= k < r < j < |times| :: !(times[k] < times[r] && times[j] < times[r])
  }

  /** What has been outdated is older than the window at every later event. */
  lemma StillOutdated(past: seq<Time>, now: Time, window: real, at: Time)
    requires Outdated(past + [now], window, at) && window >= 0.0 && Unpeaked(past + [now])
    ensures Since(now, at) > window
  {
    var grown := past + [now];
    var k, r :| 0 <= k < r < |grown| && grown[k] == at && grown[r] - at > window;
    assert grown[|past|] == now;
  }

  lemma GrantsWithin(setup: Setup, history: History, e: Event)
    requires e.Attempt?
    ensures Grants(setup, history, e)
            <==> Within(setup.rates, Fresh(RecordOf(history, e.ip), e.now, Window(setup.rates)), e.now)
  {
    hide Within, Fresh, Window;
  }

  /** While times have no peak, an event is decided as the naive log decides it. */
  lemma StepDecides(setup: Setup, past: seq<Time>, history: History, log: History, e: Event)
    requires AllAgree(setup, past, history, log) && Unpeaked(past + [e.now])
    ensures Grants(setup, history, e) == NaiveGrants(setup, log, e)
  {
    hide Window, Recent, Fresh, Outdated, Unpeaked, Within;
    if e.Attempt? {
      GrantsWithin(setup, history, e);
      hide Grants;
      var window := Window(setup.rates);
      var record, entries := Fresh(RecordOf(history, e.ip), e.now, window), RecordOf(log, e.ip);
      PrunedAgrees(past, e.now, window, RecordOf(history, e.ip), entries);
      forall i | 0 <= i < |entries| - |record| ensures Since(e.now, entries[i]) > window {
        StillOutdated(past, e.now, window, entries[i]);
      }
      SameAnswer(setup, record, entries, e.now);
    }
  }

  /** Entries older than the window change no limit's answer. */
  lemma SameAnswer(setup: Setup, record: Record, log: Record, now: Time)
    requires |record| <= |log| && record == log[|log| - |record|..]
    requires forall i :: 0 <= i < |log| - |record| ==> Since(now, log[i]) > Window(setup.rates)
    ensures Within(setup.rates, record, now) == Within(setup.rates, log, now)
  {
    hide Recent, Window;
    forall i | 0 <= i < |setup.rates|
      ensures Recent(log, now, setup.rates[i].0) == Recent(record, now, setup.rates[i].0)
    {
      RecentIgnoresFront(record, log, now, setup.rates[i].0);
    }
  }

  // --- when the limits hold

  function Apart(a: Time, b: Time): Time {
    if a >= b then a - b else b - a
  }

  /** Time never comes back nearer to an entry than it has been after it. */
  ghost predicate NeverNearer(times: seq<Time>) {
    forall k, r, j | 0 <= k < r < j < |times| :: times[r] - times[k] <= Apart(times[j], times[k])
  }

  lemma StillApart(past: seq<Time>, now: Time, window: real, at: Time)
    requires Outdated(past + [now], window, at) && window >= 0.0 && NeverNearer(past + [now])
    ensures Apart(now, at) > window
  {
    var grown := past + [now];
    var k, r :| 0 <= k < r < |grown| && grown[k] == at && grown[r] - at > window;
    assert grown[|past|] == now;
  }

  /** A stretch that holds an event's time holds no more entries than that event counts, besides those apart from it. */
  lemma {:induction false} WindowIsRecent(record: Record, log: Record, now: Time, from: Time, period: real)
    requires from <= now <= from + period
    requires |record| <= |log| && record == log[|log| - |record|..]
    requires forall i :: 0 <= i < |log| - |record| ==> Apart(now, log[i]) > period
    ensures InWindow(log, from, period) <= Recent(record, now, period)
    decreases |log|
  {
    if log != [] {
      var shorter := log[..|log| - 1];
      assert forall i :: 0 <= i < |shorter| ==> shorter[i] == log[i];
      if record == [] {
        WindowIsRecent([], shorter, now, from, period);
      } else {
        assert record[..|record| - 1] == shorter[|shorter| - (|record| - 1)..];
        WindowIsRecent(record[..|record| - 1], shorter, now, from, period);
      }
    }
  }

  lemma AdmittedSpaced(rates: seq<(real, nat)>, record: Record, log: Record, now: Time)
    requires Spaced(rates, log) && Within(rates, record, now)
    requires |record| <= |log| && record == log[|log| - |record|..]
    requires forall i :: 0 <= i < |log| - |record| ==> Apart(now, log[i]) > Window(rates)
    ensures Spaced(rates, log + [now])
  {
    hide Recent, Window;
    forall k, from | 0 <= k < |rates| ensures InWindow(log + [now], from, rates[k].0) <= rates[k].1 {
      var period := rates[k].0;
      assert (log + [now])[..|log|] == log;
      assert InWindow(log, from, period) <= rates[k].1;
      if from <= now <= from + period {
        WindowIsRecent(record, log, now, from, period);
      }
    }
  }

  lemma NothingSpaced(rates: seq<(real, nat)>)
    ensures Spaced(rates, [])
  {
  }

  lemma GrantSpaced(setup: Setup, past: seq<Time>, history: History, e: Event, log: Record)
    requires e.Attempt? && Grants(setup, history, e)
    requires Agrees(past, Window(setup.rates), RecordOf(history, e.ip), log)
    requires Spaced(setup.rates, log) && NeverNearer(past + [e.now])
    ensures Spaced(setup.rates, log + [e.now])
  {
    hide Window, Recent, Fresh, Outdated, NeverNearer, Spaced, Within, Grants;
    var window := Window(setup.rates);
    var record := Fresh(RecordOf(history, e.ip), e.now, window);
    PrunedAgrees(past, e.now, window, RecordOf(history, e.ip), log);
    forall i | 0 <= i < |log| - |record| ensures Apart(e.now, log[i]) > window {
      StillApart(past, e.now, window, log[i]);
    }
    GrantsWithin(setup, history, e);
    AdmittedSpaced(setup.rates, record, log, e.now);
  }

  /** While time comes back no nearer, an event keeps every limit. */
  lemma StepSpaced(setup: Setup, past: seq<Time>, history: History, log: History, e: Event, after: History)
    requires AllAgree(setup, past, history, log) && Step(setup, history, e, after)
    requires AllSpaced(setup, log) && NeverNearer(past + [e.now])
    ensures AllSpaced(setup, Logged(setup, log, history, e, after))
  {
    hide Window, Fresh, Agrees, NeverNearer, Spaced, Grants, Step;
    match e
    case Attempt(caller, now) =>
      hide Logged;
      if Grants(setup, history, e) {
        GrantSpaced(setup, past, history, e, RecordOf(log, caller));
      }
      NothingSpaced(setup.rates);
      forall ip: Ip ensures Spaced(setup.rates, RecordOf(Logged(setup, log, history, e, after), ip)) {
        AttemptOutcome(setup, history, log, caller, now, after, ip);
      }
    case Sweep(_) =>
  }

  // --- whole runs

  /** The histories a gate goes through over a run of events, beginning empty. */
  ghost predicate Run(setup: Setup, events: seq<Event>, histories: seq<History>): (run: bool)
    ensures run ==> |histories| == |events| + 1
  {
    && |histories| == |events| + 1 && histories[0] == map[]
    && forall i :: 0 <= i < |events| ==> Step(setup, histories[i], events[i], histories[i + 1])
  }

  ghost function LogAfter(setup: Setup, events: seq<Event>, histories: seq<History>, n: nat): History
    requires Run(setup, events, histories) && n <= |events|
  {
    if n == 0 then map[]
    else Logged(setup, LogAfter(setup, events, histories, n - 1), histories[n - 1], events[n - 1], histories[n])
  }

  lemma TimesPrefix(events: seq<Event>, n: nat)
    requires n < |events|
    ensures Times(events)[..n + 1] == Times(events)[..n] + [events[n].now]
  {
  }

  /** After any run, whatever its times, the pruned history and the log agree. */
  lemma {:induction false} RunAgrees(setup: Setup, events: seq<Event>, histories: seq<History>, n: nat)
    requires Run(setup, events, histories) && n <= |events|
    ensures AllAgree(setup, Times(events)[..n], histories[n], LogAfter(setup, events, histories, n))
  {
    hide Window, Logged, Step, Times, Agrees;
    if n == 0 {
      EmptyAgrees(Times(events)[..0], Window(setup.rates));
    } else {
      RunAgrees(setup, events, histories, n - 1);
      TimesPrefix(events, n - 1);
      StepAgrees(setup, Times(events)[..n - 1], histories[n - 1], LogAfter(setup, events, histories, n - 1),
                 events[n - 1], histories[n]);
    }
  }

  /** Every attempt of a run is granted exactly when a limiter that keeps every admission would grant it. */
  ghost predicate DecidesAsLog(setup: Setup, events: seq<Event>, histories: seq<History>)
    requires Run(setup, events, histories)
  {
    forall n | 0 <= n < |events| ::
      Grants(setup, histories[n], events[n]) == NaiveGrants(setup, LogAfter(setup, events, histories, n), events[n])
  }

  /** At no point of a run has any stretch of time held more admissions of an address than a limit allows. */
  ghost predicate KeepsLimits(setup: Setup, events: seq<Event>, histories: seq<History>)
    requires Run(setup, events, histories)
  {
    forall n | 0 <= n <= |events| :: AllSpaced(setup, LogAfter(setup, events, histories, n))
  }

  lemma UnpeakedPrefix(times: seq<Time>, n: nat)
    requires Unpeaked(times) && n <= |times|
    ensures Unpeaked(times[..n])
  {
  }

  lemma NeverNearerPrefix(times: seq<Time>, n: nat)
    requires NeverNearer(times) && n <= |times|
    ensures NeverNearer(times[..n])
  {
  }

  lemma UnpeakedIsNeverNearer(times: seq<Time>)
    requires Unpeaked(times)
    ensures NeverNearer(times)
  {
  }

  lemma DecidedAt(setup: Setup, events: seq<Event>, histories: seq<History>, n: nat)
    requires Run(setup, events, histories) && n < |events| && Unpeaked(Times(events)[..n + 1])
    ensures Grants(setup, histories[n], events[n])
            == NaiveGrants(setup, LogAfter(setup, events, histories, n), events[n])
  {
    hide Times, Unpeaked, Grants, NaiveGrants, LogAfter, AllAgree, Step;
    RunAgrees(setup, events, histories, n);
    TimesPrefix(events, n);
    StepDecides(setup, Times(events)[..n], histories[n], LogAfter(setup, events, histories, n), events[n]);
  }

  lemma {:induction false} SpacedAt(setup: Setup, events: seq<Event>, histories: seq<History>, n: nat)
    requires Run(setup, events, histories) && n <= |events| && NeverNearer(Times(events)[..n])
    ensures AllSpaced(setup, LogAfter(setup, events, histories, n))
  {
    hide Times, NeverNearer, AllAgree, Step, Logged, Spaced;
    if n == 0 {
      NothingSpaced(setup.rates);
    } else {
      assert Times(events)[..n][..n - 1] == Times(events)[..n - 1];
      NeverNearerPrefix(Times(events)[..n], n - 1);
      SpacedAt(setup, events, histories, n - 1);
      RunAgrees(setup, events, histories, n - 1);
      TimesPrefix(events, n - 1);
      StepSpaced(setup, Times(events)[..n - 1], histories[n - 1], LogAfter(setup, events, histories, n - 1),
                 events[n - 1], histories[n]);
    }
  }

  // --- runs that go wrong

  /** The history a gate with room for every address goes through. */
  function Roomy(setup: Setup, events: seq<Event>, n: nat): (history: History)
    requires n <= |events|
    ensures |history| <= n
  {
    if n == 0 then map[]
    else
      var before := Roomy(setup, events, n - 1);
      match events[n - 1]
      case Attempt(ip, now) =>
        var after := Rate(setup, before, ip, now).0;
        RatedSize(setup, before, ip, now);
        after
      case Sweep(now) =>
        SweptSize(setup, before, now);
        Swept(setup, before, now)
  }

  lemma RatedSize(setup: Setup, history: History, ip: Ip, now: Time)
    ensures |Rate(setup, history, ip, now).0| <= |history| + 1
  {
    hide Fresh, Within, Window;
    var after := Rate(setup, history, ip, now).0;
    assert after.Keys == history.Keys + {ip} && |after.Keys| == |after| && |history.Keys| == |history|;
  }

  lemma SweptSize(setup: Setup, history: History, now: Time)
    ensures |Swept(setup, history, now)| <= |history|
  {
    hide Fresh, Window;
    SubmapSize(Swept(setup, history, now), history);
  }

  function RoomyHistories(setup: Setup, events: seq<Event>): (histories: seq<History>)
    ensures |histories| == |events| + 1
  {
    seq(|events| + 1, n requires 0 <= n < |events| + 1 => Roomy(setup, events, n))
  }

  lemma UnboundedStep(setup: Setup, history: History, ip: Ip, now: Time)
    requires |Rate(setup, history, ip, now).0| <= Cap(setup)
    ensures Step(setup, history, Attempt(ip, now), Rate(setup, history, ip, now).0)
  {
    hide Fresh, Within, Window, Cap;
  }

  lemma RoomyNext(setup: Setup, events: seq<Event>, n: nat)
    requires n < |events| <= Cap(setup)
    ensures Step(setup, Roomy(setup, events, n), events[n], Roomy(setup, events, n + 1))
  {
    hide Rate, Cap, Swept, Bounded;
    assert |Roomy(setup, events, n + 1)| <= n + 1;
    if events[n].Attempt? {
      UnboundedStep(setup, Roomy(setup, events, n), events[n].ip, events[n].now);
    }
  }

  lemma RoomyRuns(setup: Setup, events: seq<Event>)
    requires |events| <= Cap(setup)
    ensures Run(setup, events, RoomyHistories(setup, events))
  {
    hide Roomy, Step, Cap;
    var histories := RoomyHistories(setup, events);
    forall i | 0 <= i < |events| ensures Step(setup, histories[i], events[i], histories[i + 1]) {
      RoomyNext(setup, events, i);
    }
    RoomyStarts(setup, events);
  }

  lemma RoomyStarts(setup: Setup, events: seq<Event>)
    ensures Roomy(setup, events, 0) == map[]
  {
  }

  /** One step of such a run for one address: a step by another leaves it alone. */
  lemma RoomyStep(setup: Setup, events: seq<Event>, n: nat, other: Ip)
    requires |events| <= Cap(setup) && n < |events| && Run(setup, events, RoomyHistories(setup, events))
    ensures var histories := RoomyHistories(setup, events);
            var now, e := events[n].now, events[n];
            var (before, after) := (RecordOf(histories[n], other), RecordOf(histories[n + 1], other));
            var (log, logged) := (RecordOf(LogAfter(setup, events, histories, n), other),
                                  RecordOf(LogAfter(setup, events, histories, n + 1), other));
            var pruned := Fresh(before, now, Window(setup.rates));
            if e.Sweep? then after == pruned && logged == log
            else if e.ip != other then after == before && logged == log
            else if Within(setup.rates, pruned, now) then after == pruned + [now] && logged == log + [now]
            else after == pruned && logged == log
  {
    hide Fresh, Within, Window, Cap, Recent;
    var histories := RoomyHistories(setup, events);
    var history, log := histories[n], LogAfter(setup, events, histories, n);
    assert Step(setup, history, events[n], histories[n + 1]);
    match events[n]
    case Attempt(caller, now) =>
      AttemptOutcome(setup, history, log, caller, now, histories[n + 1], other);
    case Sweep(now) => SweptRecord(setup, history, now, other);
  }

  lemma OneRate(period: real, count: nat, record: Record, now: Time)
    requires period >= 0.0
    ensures Window([(period, count)]) == period
    ensures Within([(period, count)], record, now) <==> Recent(record, now, period) < count
  {
    assert [(period, count)][..0] == [];
    assert Window([]) == 0.0;
  }

  lemma FewCounted(a: Time, b: Time, now: Time, period: real)
    ensures Recent([], now, period) == 0
    ensures Recent([a], now, period) == if Since(now, a) <= period then 1 else 0
    ensures Recent([a, b], now, period) == Recent([a], now, period) + if Since(now, b) <= period then 1 else 0
  {
    assert [a][..0] == [] && [a, b][..1] == [a];
  }

  lemma FreshOfOne(at: Time, now: Time, window: real)
    ensures Fresh([at], now, window) == if Since(now, at) > window then [] else [at]
    ensures Fresh([], now, window) == []
  {
    assert [at][1..] == [];
  }

  /** Three events for one address, and strangers at every other time. */
  datatype Turn = Turn(k: nat, r: nat, j: nat, sweeps: bool)

  function TurnEvents(times: seq<Time>, turn: Turn): (events: seq<Event>)
    ensures |events| == |times| && Times(events) == times
  {
    seq(|times|, i requires 0 <= i < |times| =>
      if i == turn.r && turn.sweeps then Sweep(times[i])
      else Attempt(if i == turn.k || i == turn.r || i == turn.j then 0 else i + 1, times[i]))
  }

  function TurnSetup(times: seq<Time>, turn: Turn, period: real): Setup {
    Setup(0, 0, [(period, if turn.sweeps then 1 else 2)], |times|)
  }

  /** Whether a turn outdates its first entry at its second time, and comes back near it at its third. */
  predicate ComesBack(times: seq<Time>, turn: Turn, period: real) {
    && turn.k < turn.r < turn.j < |times| && period >= 0.0
    && times[turn.r] - times[turn.k] > period
    && Since(times[turn.j], times[turn.k]) <= period
    && (turn.sweeps || times[turn.j] < times[turn.r])
  }

  function TurnRecord(times: seq<Time>, turn: Turn, n: nat): Record
    requires turn.k < turn.r < turn.j < |times| && n <= turn.j
  {
    if n <= turn.k then []
    else if n <= turn.r then [times[turn.k]]
    else if turn.sweeps then [] else [times[turn.r]]
  }

  function TurnLog(times: seq<Time>, turn: Turn, n: nat): Record
    requires turn.k < turn.r < turn.j < |times| && n <= turn.j
  {
    if n <= turn.k then []
    else if n <= turn.r || turn.sweeps then [times[turn.k]]
    else [times[turn.k], times[turn.r]]
  }

  /** Up to its third time the address's record has forgotten what its log has not. */
  lemma {:induction false} TurnRuns(times: seq<Time>, turn: Turn, period: real, n: nat)
    requires ComesBack(times, turn, period) && n <= turn.j
    requires Run(TurnSetup(times, turn, period), TurnEvents(times, turn),
                 RoomyHistories(TurnSetup(times, turn, period), TurnEvents(times, turn)))
    ensures var setup, events := TurnSetup(times, turn, period), TurnEvents(times, turn);
            var histories := RoomyHistories(setup, events);
            && RecordOf(histories[n], 0) == TurnRecord(times, turn, n)
            && RecordOf(LogAfter(setup, events, histories, n), 0) == TurnLog(times, turn, n)
  {
    hide Fresh, Within, Window, Recent, Roomy, Run;
    if n > 0 {
      var setup, events := TurnSetup(times, turn, period), TurnEvents(times, turn);
      TurnRuns(times, turn, period, n - 1);
      RoomyStep(setup, events, n - 1, 0);
      hide RoomyHistories, LogAfter;
      var now, count := times[n - 1], if turn.sweeps then 1 else 2;
      OneRate(period, count, [], now);
      FewCounted(now, now, now, period);
      FreshOfOne(times[turn.k], now, period);
      assert [] + [now] == [now] && [times[turn.k]] + [now] == [times[turn.k], now];
    }
  }

  /** What the record and the log answer at the third time. */
  lemma TurnAnswers(times: seq<Time>, turn: Turn, period: real)
    requires ComesBack(times, turn, period)
    ensures var rates, now := TurnSetup(times, turn, period).rates, times[turn.j];
            && Within(rates, Fresh(TurnRecord(times, turn, turn.j), now, Window(rates)), now)
            && !Within(rates, TurnLog(times, turn, turn.j), now)
  {
    hide Fresh, Within, Window, Recent;
    var now, count := times[turn.j], if turn.sweeps then 1 else 2;
    OneRate(period, count, TurnLog(times, turn, turn.j), now);
    OneRate(period, count, TurnRecord(times, turn, turn.j), now);
    FewCounted(times[turn.k], times[turn.r], now, period);
    FewCounted(times[turn.r], times[turn.r], now, period);
    FreshOfOne(times[turn.r], now, period);
  }

  /** The third event is granted, and the log refuses it. */
  lemma TurnDiffers(times: seq<Time>, turn: Turn, period: real)
    returns (setup: Setup, events: seq<Event>, histories: seq<History>)
    requires ComesBack(times, turn, period)
    ensures setup == TurnSetup(times, turn, period) && events == TurnEvents(times, turn)
    ensures histories == RoomyHistories(setup, events) && Run(setup, events, histories)
    ensures Grants(setup, histories[turn.j], events[turn.j])
    ensures !NaiveGrants(setup, LogAfter(setup, events, histories, turn.j), events[turn.j])
  {
    hide Fresh, Within, Window, Recent, Roomy, Run, Grants, TurnRecord, TurnLog, LogAfter, RoomyHistories;
    setup, events := TurnSetup(times, turn, period), TurnEvents(times, turn);
    histories := RoomyHistories(setup, events);
    RoomyRuns(setup, events);
    TurnRuns(times, turn, period, turn.j);
    TurnAnswers(times, turn, period);
    assert events[turn.j] == Attempt(0, times[turn.j]);
    GrantsWithin(setup, histories[turn.j], events[turn.j]);
  }

  /** After a sweep between them, the log holds the first entry and the third. */
  lemma TurnLogs(times: seq<Time>, turn: Turn, period: real)
    requires ComesBack(times, turn, period) && turn.sweeps
    requires Run(TurnSetup(times, turn, period), TurnEvents(times, turn),
                 RoomyHistories(TurnSetup(times, turn, period), TurnEvents(times, turn)))
    ensures var setup, events := TurnSetup(times, turn, period), TurnEvents(times, turn);
            RecordOf(LogAfter(setup, events, RoomyHistories(setup, events), turn.j + 1), 0)
            == [times[turn.k], times[turn.j]]
  {
    hide Fresh, Within, Window, Recent, Roomy, Run, TurnRecord, TurnLog, LogAfter;
    var setup, events := TurnSetup(times, turn, period), TurnEvents(times, turn);
    TurnRuns(times, turn, period, turn.j);
    TurnAnswers(times, turn, period);
    assert events[turn.j] == Attempt(0, times[turn.j]);
    RoomyStep(setup, events, turn.j, 0);
    hide RoomyHistories, TurnEvents, TurnSetup;
    TurnLogGrows(times, turn, period);
  }

  lemma TurnLogGrows(times: seq<Time>, turn: Turn, period: real)
    requires ComesBack(times, turn, period)
    ensures turn.sweeps ==> TurnLog(times, turn, turn.j) + [times[turn.j]] == [times[turn.k], times[turn.j]]
  {
  }

  // --- the exact conditions on the times

  /**
   * Over every setup and every run with these times each attempt is decided as
   * a limiter that keeps every admission would decide it, exactly when no time
   * lies above both an earlier and a later one.
   */
  lemma DecidesAsLogIff(times: seq<Time>)
    ensures (forall setup, events, histories | Run(setup, events, histories) && Times(events) == times ::
               DecidesAsLog(setup, events, histories))
            <==> Unpeaked(times)
  {
    hide Run, Grants, NaiveGrants, LogAfter;
    if Unpeaked(times) {
      forall setup, events, histories | Run(setup, events, histories) && Times(events) == times
        ensures DecidesAsLog(setup, events, histories)
      {
        forall n | 0 <= n < |events|
          ensures Grants(setup, histories[n], events[n])
                  == NaiveGrants(setup, LogAfter(setup, events, histories, n), events[n])
        {
          UnpeakedPrefix(times, n + 1);
          DecidedAt(setup, events, histories, n);
        }
      }
    } else {
      var k, r, j :| 0 <= k < r < j < |times| && times[k] < times[r] && times[j] < times[r];
      var setup, events, histories := TurnDiffers(times, Turn(k, r, j, false), Since(times[j], times[k]));
      assert !DecidesAsLog(setup, events, histories);
    }
  }

  /**
   * Over every setup and every run with these times every limit is kept,
   * exactly when time never comes back nearer to a time than it has been
   * after it.
   */
  lemma KeepsLimitsIff(times: seq<Time>)
    ensures (forall setup, events, histories | Run(setup, events, histories) && Times(events) == times ::
               KeepsLimits(setup, events, histories))
            <==> NeverNearer(times)
  {
    hide Run, Grants, NaiveGrants, LogAfter, AllSpaced;
    if NeverNearer(times) {
      forall setup, events, histories | Run(setup, events, histories) && Times(events) == times
        ensures KeepsLimits(setup, events, histories)
      {
        forall n | 0 <= n <= |events| ensures AllSpaced(setup, LogAfter(setup, events, histories, n)) {
          NeverNearerPrefix(times, n);
          SpacedAt(setup, events, histories, n);
        }
      }
    } else {
      var k, r, j :| 0 <= k < r < j < |times| && times[r] - times[k] > Apart(times[j], times[k]);
      var setup, events, histories := NearerBreaks(times, k, r, j);
      assert !KeepsLimits(setup, events, histories);
    }
  }

  /** A run with these times grants, at time j, more than a limit allows around time k. */
  lemma NearerBreaks(times: seq<Time>, k: nat, r: nat, j: nat)
    returns (setup: Setup, events: seq<Event>, histories: seq<History>)
    requires k < r < j < |times| && times[r] - times[k] > Apart(times[j], times[k])
    ensures Run(setup, events, histories) && Times(events) == times
    ensures !KeepsLimits(setup, events, histories)
  {
    hide Run, Grants, NaiveGrants, LogAfter, AllSpaced;
    var period := Apart(times[j], times[k]);
    setup, events, histories := TurnDiffers(times, Turn(k, r, j, true), period);
    TurnLogs(times, Turn(k, r, j, true), period);
    TwoWithin(times[k], times[j]);
    NotSpaced(setup, LogAfter(setup, events, histories, j + 1), times[k], times[j], period);
    assert !AllSpaced(setup, LogAfter(setup, events, histories, j + 1));
  }

  lemma TwoWithin(a: Time, b: Time)
    ensures InWindow([a, b], if a <= b then a else b, Apart(a, b)) == 2
    ensures Apart(a, b) == Apart(b, a)
  {
    assert [a, b][..1] == [a] && [a][..0] == [];
    assert InWindow([a], if a <= b then a else b, Apart(a, b)) == 1;
  }

  lemma NotSpaced(setup: Setup, log: History, a: Time, b: Time, period: real)
    requires setup.rates == [(period, 1)] && RecordOf(log, 0) == [a, b]
    requires InWindow([a, b], if a <= b then a else b, period) == 2
    ensures !AllSpaced(setup, log)
  {
    hide InWindow;
    assert setup.rates[0] == (period, 1);
  }

  /** Times in order satisfy both. */
  lemma InOrderIsUnpeaked(times: seq<Time>)
    requires forall i, j | 0 <= i < j < |times| :: times[i] <= times[j]
    ensures Unpeaked(times) && NeverNearer(times)
  {
    UnpeakedIsNeverNearer(times);
  }

  const TWO_IN_TEN := Setup(0, 0, [(10.0, 2)], 4)
  const COMING_BACK := [Attempt(0, 0.0), Attempt(0, 1.0), Attempt(0, 20.0), Attempt(0, 5.0)]

  /** What pruning leaves of a record at a time, and that one more is then allowed. */
  ghost predicate Allows(record: Record, now: Time, pruned: Record) {
    Fresh(record, now, Window(TWO_IN_TEN.rates)) == pruned && Within(TWO_IN_TEN.rates, pruned, now)
  }

  lemma ComingBackAllows()
    ensures Allows([], 0.0, []) && Allows([0.0], 1.0, [0.0])
    ensures Allows([0.0, 1.0], 20.0, []) && Allows([20.0], 5.0, [20.0])
  {
    hide Within, Window, Recent;
    OneRate(10.0, 2, [], 0.0);
    OneRate(10.0, 2, [], 20.0);
    OneRate(10.0, 2, [0.0], 1.0);
    OneRate(10.0, 2, [20.0], 5.0);
    FewCounted(0.0, 0.0, 0.0, 10.0);
    FewCounted(0.0, 0.0, 1.0, 10.0);
    FewCounted(0.0, 0.0, 20.0, 10.0);
    FewCounted(20.0, 20.0, 5.0, 10.0);
    assert [0.0, 1.0][1..] == [1.0] && [1.0][1..] == [];
  }

  /** Where the run has come to. */
  ghost predicate ComingBackAt(n: nat, record: Record, log: Record)
    requires n <= 4
  {
    var histories := RoomyHistories(TWO_IN_TEN, COMING_BACK);
    && Run(TWO_IN_TEN, COMING_BACK, histories)
    && RecordOf(histories[n], 0) == record
    && RecordOf(LogAfter(TWO_IN_TEN, COMING_BACK, histories, n), 0) == log
  }

  lemma ComingBackStep(n: nat, record: Record, log: Record, pruned: Record)
    requires n < 4 && ComingBackAt(n, record, log) && Allows(record, COMING_BACK[n].now, pruned)
    ensures ComingBackAt(n + 1, pruned + [COMING_BACK[n].now], log + [COMING_BACK[n].now])
  {
    hide Within, Window, Recent, Fresh, Roomy, Run, RoomyHistories, LogAfter;
    RoomyStep(TWO_IN_TEN, COMING_BACK, n, 0);
  }

  lemma ComingBackStarts()
    ensures ComingBackAt(0, [], [])
  {
    hide Run;
    RoomyRuns(TWO_IN_TEN, COMING_BACK);
  }

  /** Two admissions are allowed in ten seconds, three granted in five: at 0, at 1 and, after one at 20, at 5. */
  lemma ThreeWithinTen()
    ensures ComingBackAt(4, [20.0, 5.0], [0.0, 1.0, 20.0, 5.0])
    ensures InWindow([0.0, 1.0, 20.0, 5.0], 0.0, 5.0) == 3
  {
    hide ComingBackAt, Allows, InWindow;
    ComingBackAllows();
    ComingBackStarts();
    ComingBackStep(0, [], [], []);
    assert [] + [0.0] == [0.0];
    ComingBackStep(1, [0.0], [0.0], [0.0]);
    assert [0.0] + [1.0] == [0.0, 1.0];
    ComingBackStep(2, [0.0, 1.0], [0.0, 1.0], []);
    assert [] + [20.0] == [20.0] && [0.0, 1.0] + [20.0] == [0.0, 1.0, 20.0];
    ComingBackStep(3, [20.0], [0.0, 1.0, 20.0], [20.0]);
    assert [20.0] + [5.0] == [20.0, 5.0] && [0.0, 1.0, 20.0] + [5.0] == [0.0, 1.0, 20.0, 5.0];
    ThreeCounted();
  }

  lemma ThreeCounted()
    ensures InWindow([0.0, 1.0, 20.0, 5.0], 0.0, 5.0) == 3
  {
    assert [0.0, 1.0, 20.0, 5.0][..3] == [0.0, 1.0, 20.0] && [0.0, 1.0, 20.0][..2] == [0.0, 1.0];
    assert [0.0, 1.0][..1] == [0.0] && [0.0][..0] == [];
    assert InWindow([0.0], 0.0, 5.0) == 1;
    assert InWindow([0.0, 1.0], 0.0, 5.0) == 2;
  }

  // --- how much is remembered

  function Bound(setup: Setup): nat {
    if Cap(setup) == 0 then 1 else Cap(setup)
  }

  predicate EveryLimitAllows(setup: Setup) {
    forall k :: 0 <= k < |setup.rates| ==> setup.rates[k].1 >= 1
  }

  ghost predicate NeverOutgrows(setup: Setup) {
    forall events, histories, n: nat | Run(setup, events, histories) && n <= |events| ::
      |histories[n]| <= Bound(setup)
  }

  lemma SubmapSize(smaller: History, larger: History)
    requires smaller.Keys <= larger.Keys
    ensures |smaller| <= |larger|
  {
    SubsetSize(smaller.Keys, larger.Keys);
    assert |smaller| == |smaller.Keys| && |larger| == |larger.Keys|;
  }

  /** A limit of at least one can only refuse an address that is already remembered. */
  lemma RefusedIsRemembered(setup: Setup, history: History, ip: Ip, now: Time)
    requires EveryLimitAllows(setup) && !Rate(setup, history, ip, now).1
    ensures ip in history
  {
  }

  lemma {:induction false} RunNeverOutgrows(setup: Setup, events: seq<Event>, histories: seq<History>, n: nat)
    requires EveryLimitAllows(setup) && Run(setup, events, histories) && n <= |events|
    ensures |histories[n]| <= Bound(setup)
  {
    if n > 0 {
      RunNeverOutgrows(setup, events, histories, n - 1);
      var e, before := events[n - 1], histories[n - 1];
      assert Step(setup, before, e, histories[n]);
      if e.Attempt? && !Grants(setup, before, e) {
        RefusedIsRemembered(setup, before, e.ip, e.now);
        SubmapSize(histories[n], before);
      } else if e.Sweep? {
        SubmapSize(histories[n], before);
      }
    }
  }

  function Strangers(count: nat): (history: History)
    ensures |history| == count
    ensures forall ip: Ip :: ip in history <==> ip < count
    ensures forall ip :: ip in history ==> history[ip] == []
  {
    if count == 0 then map[] else Strangers(count - 1)[count - 1 := []]
  }

  /** A limit of nothing refuses every stranger, and remembers each of them. */
  lemma RefusedStranger(setup: Setup, count: nat)
    requires !EveryLimitAllows(setup)
    ensures Step(setup, Strangers(count), Attempt(count, 0.0), Strangers(count + 1))
  {
    var k :| 0 <= k < |setup.rates| && setup.rates[k].1 == 0;
    assert !(Recent([], 0.0, setup.rates[k].0) < setup.rates[k].1);
    assert !Within(setup.rates, [], 0.0);
  }

  /**
   * The history stays within its bound over every run exactly when every rate
   * limit allows at least one admission.
   */
  lemma NeverOutgrowsIff(setup: Setup)
    ensures NeverOutgrows(setup) <==> EveryLimitAllows(setup)
  {
    if EveryLimitAllows(setup) {
      forall events, histories, n: nat | Run(setup, events, histories) && n <= |events|
        ensures |histories[n]| <= Bound(setup)
      {
        RunNeverOutgrows(setup, events, histories, n);
      }
    } else {
      var n := Bound(setup) + 1;
      var events := seq(n, i requires 0 <= i < n => Attempt(i, 0.0));
      var histories := seq(n + 1, i requires 0 <= i < n + 1 => Strangers(i));
      forall i | 0 <= i < |events|
        ensures Step(setup, histories[i], events[i], histories[i + 1])
      {
        RefusedStranger(setup, i);
      }
      assert Run(setup, events, histories);
      assert |histories[n]| == n;
    }
  }
}
