/** Admitting from arrival to decision: who is turned away, and who gets a permit. */
module Admissions {
  import opened Wrappers
  import opened RateHistory
  import RateLimit
  import opened GateRuns

  /**
   * In any interleaving, a task that reads the count is turned away exactly
   * when there is a ceiling and as many claims and live permits are
   * outstanding as it allows.
   */
  lemma TurnedAwayIffFull(setup: Setup, steps: seq<Step>, states: seq<State>, n: nat, task: Task)
    requires Run(setup, steps, states) && n < |steps| && steps[n] == Load(task)
    ensures task !in states[n + 1].tasks
            <==> setup.maxConnections != 0 && |Counted(states[n].tasks)| == setup.maxConnections
  {
    hide Run, AllTallied, Counted, SeenUnder;
    RunNext(setup, steps, states, n);
    RunKeeps(setup, steps, states, n);
  }

  // --- the limits, as sets of entries

  /** The entries of a record that lie within a period of an instant, or after it. */
  function Lately(record: Record, now: Time, period: real): set<nat> {
    set i: nat | i < |record| && (if now >= record[i] then now - record[i] else 0.0) <= period
  }

  /** Whether fewer entries than each limit allows lie within its period. */
  predicate Allowed(rates: seq<(real, nat)>, record: Record, now: Time) {
    forall k :: 0 <= k < |rates| ==> |Lately(record, now, rates[k].0)| < rates[k].1
  }

  lemma LatelyGrows(record: Record, now: Time, period: real)
    requires record != []
    ensures var last := |record| - 1;
            && last !in Lately(record[..last], now, period)
            && Lately(record, now, period)
               == Lately(record[..last], now, period) + if Since(now, record[last]) <= period then {last} else {}
  {
  }

  lemma {:induction false} RecentCounts(record: Record, now: Time, period: real)
    ensures Recent(record, now, period) == |Lately(record, now, period)|
  {
    if record == [] {
      assert Lately(record, now, period) == {};
    } else {
      hide Lately, Since;
      RecentCounts(record[..|record| - 1], now, period);
      LatelyGrows(record, now, period);
    }
  }

  lemma WithinIsAllowed(rates: seq<(real, nat)>, record: Record, now: Time)
    ensures Within(rates, record, now) <==> Allowed(rates, record, now)
  {
    hide Recent, Lately;
    forall k | 0 <= k < |rates| ensures Recent(record, now, rates[k].0) == |Lately(record, now, rates[k].0)| {
      RecentCounts(record, now, rates[k].0);
    }
  }

  // --- one task, undisturbed

  /** No step from here to there consults the history. */
  lemma {:induction false} LogStays(setup: Setup, steps: seq<Step>, states: seq<State>, from: nat, end: nat)
    requires Run(setup, steps, states) && from <= end <= |steps|
    requires forall i | from <= i < end :: !steps[i].Sweep? && !steps[i].Decide?
    ensures LogOf(setup, steps, states, end) == LogOf(setup, steps, states, from)
    ensures Events(setup, steps, states, end) == Events(setup, steps, states, from)
    decreases end
  {
    hide Run, RateLimit.LogAfter, RateLimit.Run;
    if from < end {
      LogStays(setup, steps, states, from, end - 1);
      EventsGrow(setup, steps, states, end);
      HistoryRuns(setup, steps, states, end);
      HistoryRuns(setup, steps, states, end - 1);
    }
  }

  /** Arriving changes neither what is counted nor what an address holds. */
  lemma LoadingCountsNothing(tasks: map<Task, Stage>, task: Task, ip: Option<Ip>, address: Ip)
    requires task !in tasks
    ensures Counted(tasks[task := Loading(ip)]) == Counted(tasks)
    ensures Held(tasks[task := Loading(ip)], address) == Held(tasks, address)
  {
  }

  /** A task that arrives, reads the count and, when it is not turned away, takes its claim. */
  ghost predicate Claims(steps: seq<Step>, states: seq<State>, n: nat, task: Task, ip: Option<Ip>) {
    && n + 2 <= |steps| && |states| == |steps| + 1
    && steps[n] == Arrive(task, ip) && steps[n + 1] == Load(task)
    && (task in states[n + 2].tasks ==> n + 3 <= |steps| && steps[n + 2] == Swap(task, false))
  }

  lemma ClaimIff(setup: Setup, steps: seq<Step>, states: seq<State>, n: nat, task: Task, ip: Option<Ip>)
    requires Run(setup, steps, states) && Claims(steps, states, n, task, ip)
    ensures task in states[n + 2].tasks
            <==> setup.maxConnections == 0 || |Counted(states[n].tasks)| < setup.maxConnections
    ensures task in states[n + 2].tasks ==>
              && states[n + 3].perIp == states[n].perIp
              && At(states[n + 3], task, if ip.Some? then Claiming(ip.value) else Holding(None))
  {
    hide Run, Counted, Held, AllTallied, SeenUnder;
    RunNext(setup, steps, states, n);
    RunNext(setup, steps, states, n + 1);
    RunKeeps(setup, steps, states, n);
    LoadingCountsNothing(states[n].tasks, task, ip, 0);
    TurnedAwayIffFull(setup, steps, states, n + 1, task);
    if task in states[n + 2].tasks {
      RunNext(setup, steps, states, n + 2);
    }
  }

  /**
   * A task no other comes between, from its arrival to its decision, gets a
   * permit exactly when there is room in all, room for its address, and each
   * limit still allows an admission by the log of every one there was.
   */
  lemma AdmittedIff(setup: Setup, steps: seq<Step>, states: seq<State>, n: nat, task: Task, ip: Ip, now: Time)
    requires Run(setup, steps, states) && Claims(steps, states, n, task, Some(ip))
    requires task in states[n + 2].tasks ==>
               && n + 4 <= |steps| && steps[n + 3] == Decide(task, now)
               && RateLimit.Unpeaked(RateLimit.Times(Events(setup, steps, states, n + 4)))
    ensures (task in states[n + 2].tasks && At(states[n + 4], task, Holding(Some(ip))))
            <==>
              && (setup.maxConnections == 0 || |Counted(states[n].tasks)| < setup.maxConnections)
              && (setup.maxPerIp == 0 || |Held(states[n].tasks, ip)| < setup.maxPerIp)
              && Allowed(setup.rates, RecordOf(LogOf(setup, steps, states, n), ip), now)
  {
    hide Run, Counted, Held, Within, Allowed, RateLimit.Unpeaked, Events;
    ClaimIff(setup, steps, states, n, task, Some(ip));
    if task in states[n + 2].tasks {
      DecisionsAreNaive(setup, steps, states, n + 3, ip);
      LogStays(setup, steps, states, n, n + 3);
      CountsStayHonest(setup, steps, states, n);
      WithinIsAllowed(setup.rates, RecordOf(LogOf(setup, steps, states, n), ip), now);
    }
  }

  /** Without an address there is only the room in all to ask for. */
  lemma AdmittedWithoutAddressIff(setup: Setup, steps: seq<Step>, states: seq<State>, n: nat, task: Task)
    requires Run(setup, steps, states) && Claims(steps, states, n, task, None)
    ensures (task in states[n + 2].tasks && At(states[n + 3], task, Holding(None)))
            <==> setup.maxConnections == 0 || |Counted(states[n].tasks)| < setup.maxConnections
  {
    hide Run, Counted;
    ClaimIff(setup, steps, states, n, task, None);
  }

  // --- what a sweep reclaims

  /** History is kept for the longest period of any limit, and no longer. */
  lemma {:induction false} WindowIsLongest(rates: seq<(real, nat)>)
    ensures forall k :: 0 <= k < |rates| ==> rates[k].0 <= Window(rates)
    ensures Window(rates) == 0.0 || exists k :: 0 <= k < |rates| && rates[k].0 == Window(rates)
  {
    if rates != [] {
      var front := rates[..|rates| - 1];
      WindowIsLongest(front);
      assert forall k | 0 <= k < |front| :: front[k] == rates[k];
    }
  }

  lemma LatelyRest(record: Record, now: Time, period: real, i: nat)
    requires record != []
    ensures i in Lately(record, now, period)
            <==> if i == 0 then Since(now, record[0]) <= period else i - 1 in Lately(record[1..], now, period)
  {
  }

  lemma {:induction false} FreshIsSuffix(record: Record, now: Time, window: real)
    requires window >= 0.0
    ensures var left := Fresh(record, now, window);
            && |left| <= |record| && left == record[|record| - |left|..]
            && (forall i: nat :: i < |record| - |left| ==> i !in Lately(record, now, window))
            && (left != [] ==> |record| - |left| in Lately(record, now, window))
  {
    hide Lately, Since;
    if record != [] {
      var left := Fresh(record, now, window);
      forall i: nat ensures i in Lately(record, now, window)
                            <==> if i == 0 then Since(now, record[0]) <= window
                                 else i - 1 in Lately(record[1..], now, window)
      {
        LatelyRest(record, now, window, i);
      }
      if Since(now, record[0]) > window {
        FreshIsSuffix(record[1..], now, window);
      }
    }
  }

  /**
   * A sweep keeps an address exactly when some admission of it is still within
   * every limit's reach, and then its admissions from the first such one on.
   */
  lemma SweptIff(setup: Setup, s: State, now: Time, after: State, ip: Ip)
    requires Next(setup, s, GateRuns.Sweep(now), after)
    ensures after == s.(history := after.history)
    ensures ip in after.history
            <==> ip in s.history && Lately(s.history[ip], now, Window(setup.rates)) != {}
    ensures ip in after.history ==>
              exists from: nat :: from in Lately(s.history[ip], now, Window(setup.rates))
                             && (forall i :: i in Lately(s.history[ip], now, Window(setup.rates)) ==> from <= i)
                             && after.history[ip] == s.history[ip][from..]
  {
    hide Fresh, Lately, Window;
    if ip in s.history {
      var record, window := s.history[ip], Window(setup.rates);
      FreshIsSuffix(record, now, window);
      var left := Fresh(record, now, window);
      if left == [] && Lately(record, now, window) != {} {
        var i :| i in Lately(record, now, window);
        LatelyInside(record, now, window);
      } else if left != [] {
        var from := |record| - |left|;
        assert from in Lately(record, now, window) && after.history[ip] == record[from..];
      }
    }
  }

  lemma LatelyInside(record: Record, now: Time, period: real)
    ensures forall i :: i in Lately(record, now, period) ==> i < |record|
  {
  }

  // --- what an admission makes the gate forget

  /**
   * An admission is remembered under its address, last. What is then too many
   * to remember goes, just as many addresses as are too many, never the one
   * admitted, and no address goes whose first admission is later than the
   * first of one that stays.
   */
  lemma OldestAddressesGo(setup: Setup, s: State, task: Task, ip: Ip, now: Time, after: State)
    requires Next(setup, s, Decide(task, now), after)
    requires At(s, task, Claiming(ip)) && At(after, task, Holding(Some(ip)))
    ensures ip in after.history && after.history[ip] != [] && after.history[ip][|after.history[ip]| - 1] == now
    ensures forall other :: other in after.history && other != ip ==>
              other in s.history && after.history[other] == s.history[other]
    ensures var all := |s.history[ip := after.history[ip]]|;
            var most := if setup.maxHistory >= setup.maxConnections then setup.maxHistory else setup.maxConnections;
            |after.history| == if all <= most then all else if most == 0 then 1 else most
    ensures forall gone, kept | gone in s.history && gone !in after.history && kept in after.history && kept != ip ::
              s.history[gone] == [] || (s.history[kept] != [] && s.history[gone][0] <= s.history[kept][0])
  {
    hide Fresh, Within, Window;
    var record := Fresh(RecordOf(s.history, ip), now, Window(setup.rates));
    var rated := s.history[ip := record + [now]];
    assert Rate(setup, s.history, ip, now) == (rated, true);
    assert Bounded(rated, ip, Cap(setup), after.history);
    assert after.history[ip] == record + [now] && s.history[ip := after.history[ip]] == rated;
    forall gone, kept | gone in s.history && gone !in after.history && kept in after.history && kept != ip
      ensures s.history[gone] == [] || (s.history[kept] != [] && s.history[gone][0] <= s.history[kept][0])
    {
      assert rated[gone] == s.history[gone] && rated[kept] == s.history[kept];
      assert NoLater(rated[gone], rated[kept]);
    }
  }
}
