/**
 * An admission gate under every interleaving of the tasks that use it. A step
 * is one atomic operation, or one stretch under the lock.
 */
module GateRuns {
  import opened Wrappers
  import opened RateHistory
  import RateLimit

  type Task = nat

  const WORD := 0x1_0000_0000

  /** Where a task stands between two steps. */
  datatype Stage =
    | Loading(ip: Option<Ip>)                // about to read the count
    | Swapping(ip: Option<Ip>, seen: nat)    // about to replace the count it read
    | Claiming(address: Ip)                       // counted, and waiting for the lock
    | Refunding                              // counted, and refused under the lock
    | Holding(ip: Option<Ip>)                // a live permit
    | Settling(address: Ip)                       // given back, and waiting for the lock

  datatype State = State(connections: nat, perIp: map<Ip, nat>, history: History, tasks: map<Task, Stage>)

  datatype Step =
    | Arrive(task: Task, ip: Option<Ip>)
    | Load(task: Task)
    | Swap(task: Task, spurious: bool)       // a weak exchange may fail for no reason
    | Decide(task: Task, now: Time)
    | Refund(task: Task)
    | Drop(task: Task)
    | Settle(task: Task)
    | Sweep(now: Time)

  const EMPTY := State(0, map[], map[], map[])

  /** The word arithmetic of the atomic. */
  function Up(count: nat): nat {
    (count + 1) % WORD
  }

  function Down(count: nat): nat {
    (count + WORD - 1) % WORD
  }

  function CountOf(perIp: map<Ip, nat>, ip: Ip): nat {
    if ip in perIp then perIp[ip] else 0
  }

  ghost predicate At(s: State, task: Task, stage: Stage) {
    task in s.tasks && s.tasks[task] == stage
  }

  /** One step of the gate or of a task using it. */
  ghost predicate Next(setup: Setup, s: State, step: Step, after: State) {
    match step
    case Arrive(task, ip) =>
      && task !in s.tasks && |s.tasks| + 1 < WORD
      && after == s.(tasks := s.tasks[task := Loading(ip)])
    case Load(task) =>
      && task in s.tasks && s.tasks[task].Loading?
      && after == s.(tasks :=
           if setup.maxConnections != 0 && s.connections >= setup.maxConnections then s.tasks - {task}
           else s.tasks[task := Swapping(s.tasks[task].ip, s.connections)])
    case Swap(task, spurious) =>
      && task in s.tasks && s.tasks[task].Swapping?
      && var (ip, seen) := (s.tasks[task].ip, s.tasks[task].seen);
         if spurious || s.connections != seen then after == s.(tasks := s.tasks[task := Loading(ip)])
         else after == s.(connections := Up(seen),
                          tasks := s.tasks[task := if ip.Some? then Claiming(ip.value) else Holding(None)])
    case Decide(task, now) =>
      && task in s.tasks && s.tasks[task].Claiming?
      && var ip := s.tasks[task].address;
         var count := CountOf(s.perIp, ip);
         var (rated, within) := Rate(setup, s.history, ip, now);
         if setup.maxPerIp != 0 && count >= setup.maxPerIp then after == s.(tasks := s.tasks[task := Refunding])
         else if !within then after == s.(history := rated, tasks := s.tasks[task := Refunding])
         else
           && Bounded(rated, ip, Cap(setup), after.history)
           && after == s.(perIp := s.perIp[ip := Up(count)], history := after.history,
                          tasks := s.tasks[task := Holding(Some(ip))])
    case Refund(task) =>
      && At(s, task, Refunding)
      && after == s.(connections := Down(s.connections), tasks := s.tasks - {task})
    case Drop(task) =>
      && task in s.tasks && s.tasks[task].Holding?
      && after == s.(connections := Down(s.connections),
                     tasks := if s.tasks[task].ip.Some? then s.tasks[task := Settling(s.tasks[task].ip.value)]
                              else s.tasks - {task})
    case Settle(task) =>
      && task in s.tasks && s.tasks[task].Settling?
      && after == s.(perIp := Settled(s.perIp, s.tasks[task].address), tasks := s.tasks - {task})
    case Sweep(now) =>
      after == s.(history := Swept(setup, s.history, now))
  }

  // --- what the counts stand for

  predicate Counts(stage: Stage) {
    stage.Claiming? || stage.Refunding? || stage.Holding?
  }

  /** The tasks whose claim is in the total: claims not yet settled, and live permits. */
  function Counted(tasks: map<Task, Stage>): set<Task> {
    set t | t in tasks && Counts(tasks[t])
  }

  predicate Holds(stage: Stage, ip: Ip) {
    stage == Holding(Some(ip)) || stage == Settling(ip)
  }

  /** The tasks in an address's tally: its live permits, and those on their way out. */
  function Held(tasks: map<Task, Stage>, ip: Ip): set<Task> {
    set t | t in tasks && Holds(tasks[t], ip)
  }

  ghost predicate Tallied(perIp: map<Ip, nat>, tasks: map<Task, Stage>, ip: Ip) {
    && (ip in perIp <==> Held(tasks, ip) != {})
    && CountOf(perIp, ip) == |Held(tasks, ip)|
  }

  /** Every address's tally counts its holders, and no address is kept for none. */
  ghost predicate AllTallied(perIp: map<Ip, nat>, tasks: map<Task, Stage>) {
    forall ip: Ip :: Tallied(perIp, tasks, ip)
  }

  /** A count about to be swapped in was read under the ceiling. */
  predicate SeenUnder(setup: Setup, tasks: map<Task, Stage>) {
    forall t :: t in tasks && tasks[t].Swapping? && setup.maxConnections != 0 ==> tasks[t].seen < setup.maxConnections
  }

  predicate UnderPerIp(setup: Setup, perIp: map<Ip, nat>) {
    setup.maxPerIp != 0 ==> forall ip :: ip in perIp ==> perIp[ip] <= setup.maxPerIp
  }

  ghost predicate Invariant(setup: Setup, s: State) {
    && |s.tasks| < WORD
    && s.connections == |Counted(s.tasks)|
    && (setup.maxConnections != 0 ==> s.connections <= setup.maxConnections)
    && SeenUnder(setup, s.tasks)
    && AllTallied(s.perIp, s.tasks)
    && UnderPerIp(setup, s.perIp)
  }

  lemma EmptyIsInvariant(setup: Setup)
    ensures Invariant(setup, EMPTY)
  {
    assert Counted(EMPTY.tasks) == {};
    forall ip: Ip ensures Tallied(EMPTY.perIp, EMPTY.tasks, ip) {
      assert Held(EMPTY.tasks, ip) == {};
    }
  }

  // --- what moving one task does to the counts

  lemma CountsFit(tasks: map<Task, Stage>)
    ensures |Counted(tasks)| <= |tasks|
    ensures forall ip: Ip :: |Held(tasks, ip)| <= |tasks|
  {
    assert |tasks.Keys| == |tasks|;
    SubsetSize(Counted(tasks), tasks.Keys);
    forall ip: Ip ensures |Held(tasks, ip)| <= |tasks| {
      SubsetSize(Held(tasks, ip), tasks.Keys);
    }
  }

  function One(yes: bool): nat {
    if yes then 1 else 0
  }

  lemma CountedMove(tasks: map<Task, Stage>, task: Task, stage: Stage)
    ensures Counted(tasks[task := stage]) == (Counted(tasks) - {task}) + (if Counts(stage) then {task} else {})
    ensures task in Counted(tasks) <==> task in tasks && Counts(tasks[task])
  {
  }

  /** A task moved to a stage, or begun there. */
  lemma Move(tasks: map<Task, Stage>, task: Task, stage: Stage)
    ensures |tasks[task := stage]| == |tasks| + One(task !in tasks)
    ensures |Counted(tasks[task := stage])|
         == |Counted(tasks)| - One(task in tasks && Counts(tasks[task])) + One(Counts(stage))
  {
    var moved := tasks[task := stage];
    assert |tasks.Keys| == |tasks| && |moved.Keys| == |moved| && moved.Keys == tasks.Keys + {task};
    CountedMove(tasks, task, stage);
    hide Counted;
    var others := Counted(tasks) - {task};
    assert |others| == |Counted(tasks)| - One(task in Counted(tasks));
  }

  /** A task that is done. */
  lemma Leave(tasks: map<Task, Stage>, task: Task)
    requires task in tasks
    ensures |tasks - {task}| == |tasks| - 1
    ensures |Counted(tasks - {task})| == |Counted(tasks)| - One(Counts(tasks[task]))
  {
    var left := tasks - {task};
    assert |tasks.Keys| == |tasks| && |left.Keys| == |left| && left.Keys == tasks.Keys - {task};
    assert Counted(left) == Counted(tasks) - {task};
  }

  predicate HoldsNothing(stage: Stage) {
    !(stage.Holding? && stage.ip.Some?) && !stage.Settling?
  }

  lemma MoveTallies(perIp: map<Ip, nat>, tasks: map<Task, Stage>, task: Task, stage: Stage)
    requires AllTallied(perIp, tasks)
    requires if task in tasks
             then (HoldsNothing(tasks[task]) && HoldsNothing(stage))
                  || (tasks[task].Holding? && tasks[task].ip.Some? && stage == Settling(tasks[task].ip.value))
             else HoldsNothing(stage)
    ensures AllTallied(perIp, tasks[task := stage])
  {
    var moved := tasks[task := stage];
    forall ip: Ip ensures Tallied(perIp, moved, ip) {
      assert Tallied(perIp, tasks, ip);
      assert Held(moved, ip) == Held(tasks, ip);
    }
  }

  lemma LeaveTallies(perIp: map<Ip, nat>, tasks: map<Task, Stage>, task: Task)
    requires AllTallied(perIp, tasks) && task in tasks && HoldsNothing(tasks[task])
    ensures AllTallied(perIp, tasks - {task})
  {
    forall ip: Ip ensures Tallied(perIp, tasks - {task}, ip) {
      assert Tallied(perIp, tasks, ip);
      assert Held(tasks - {task}, ip) == Held(tasks, ip);
    }
  }

  lemma GrantTallies(perIp: map<Ip, nat>, tasks: map<Task, Stage>, task: Task, address: Ip)
    requires AllTallied(perIp, tasks) && task in tasks && HoldsNothing(tasks[task]) && |tasks| < WORD
    ensures Up(CountOf(perIp, address)) == CountOf(perIp, address) + 1
    ensures AllTallied(perIp[address := CountOf(perIp, address) + 1], tasks[task := Holding(Some(address))])
  {
    hide Held;
    var granted, tally := tasks[task := Holding(Some(address))], perIp[address := CountOf(perIp, address) + 1];
    assert Tallied(perIp, tasks, address);
    GrantHeld(tasks, task, address, address);
    CountsFit(granted);
    Move(tasks, task, Holding(Some(address)));
    forall ip: Ip ensures Tallied(tally, granted, ip) {
      assert Tallied(perIp, tasks, ip);
      GrantHeld(tasks, task, address, ip);
    }
  }

  lemma GrantHeld(tasks: map<Task, Stage>, task: Task, address: Ip, ip: Ip)
    requires task in tasks && HoldsNothing(tasks[task])
    ensures task !in Held(tasks, ip)
    ensures Held(tasks[task := Holding(Some(address))], ip)
            == if ip == address then Held(tasks, ip) + {task} else Held(tasks, ip)
  {
  }

  lemma SettleTallies(perIp: map<Ip, nat>, tasks: map<Task, Stage>, task: Task, address: Ip)
    requires AllTallied(perIp, tasks) && task in tasks && tasks[task] == Settling(address)
    ensures address in perIp && perIp[address] >= 1
    ensures AllTallied(Settled(perIp, address), tasks - {task})
  {
    assert Tallied(perIp, tasks, address) && task in Held(tasks, address);
    forall ip: Ip ensures Tallied(Settled(perIp, address), tasks - {task}, ip) {
      assert Tallied(perIp, tasks, ip);
      assert Held(tasks - {task}, ip) == Held(tasks, ip) - {task};
    }
  }

  lemma DownByOne(count: nat)
    requires 0 < count < WORD
    ensures Down(count) == count - 1
  {
  }

  lemma UpByOne(count: nat)
    requires count + 1 < WORD
    ensures Up(count) == count + 1
  {
  }

  // --- every step keeps the counts

  lemma DecideKeeps(setup: Setup, s: State, task: Task, now: Time, after: State)
    requires Invariant(setup, s) && Next(setup, s, Decide(task, now), after)
    ensures Invariant(setup, after)
  {
    hide Rate, Bounded, AllTallied, Counted, Up;
    var ip := s.tasks[task].address;
    Move(s.tasks, task, after.tasks[task]);
    if after.tasks[task] == Refunding {
      MoveTallies(s.perIp, s.tasks, task, Refunding);
    } else {
      GrantTallies(s.perIp, s.tasks, task, ip);
    }
  }

  lemma SettleKeeps(setup: Setup, s: State, task: Task, after: State)
    requires Invariant(setup, s) && Next(setup, s, Settle(task), after)
    ensures Invariant(setup, after)
    ensures s.tasks[task].address in s.perIp && s.perIp[s.tasks[task].address] >= 1
  {
    hide AllTallied, Counted;
    Leave(s.tasks, task);
    SettleTallies(s.perIp, s.tasks, task, s.tasks[task].address);
  }

  lemma SwapKeeps(setup: Setup, s: State, task: Task, spurious: bool, after: State)
    requires Invariant(setup, s) && Next(setup, s, Swap(task, spurious), after)
    ensures Invariant(setup, after)
  {
    hide AllTallied, Counted, Up;
    Move(s.tasks, task, after.tasks[task]);
    MoveTallies(s.perIp, s.tasks, task, after.tasks[task]);
    CountsFit(after.tasks);
    if !spurious && s.connections == s.tasks[task].seen {
      UpByOne(s.connections);
    }
  }

  lemma DropKeeps(setup: Setup, s: State, step: Step, after: State)
    requires Invariant(setup, s) && Next(setup, s, step, after)
    requires step.Refund? || step.Drop?
    ensures Invariant(setup, after)
    ensures s.connections >= 1
  {
    hide AllTallied, Counted, Down;
    CountsFit(s.tasks);
    Leave(s.tasks, step.task);
    DownByOne(s.connections);
    if step.task in after.tasks {
      Move(s.tasks, step.task, after.tasks[step.task]);
      MoveTallies(s.perIp, s.tasks, step.task, after.tasks[step.task]);
    } else {
      LeaveTallies(s.perIp, s.tasks, step.task);
    }
  }

  lemma EntryKeeps(setup: Setup, s: State, step: Step, after: State)
    requires Invariant(setup, s) && Next(setup, s, step, after)
    requires step.Arrive? || step.Load?
    ensures Invariant(setup, after)
  {
    hide AllTallied, Counted;
    if step.task in after.tasks {
      Move(s.tasks, step.task, after.tasks[step.task]);
      MoveTallies(s.perIp, s.tasks, step.task, after.tasks[step.task]);
    } else {
      Leave(s.tasks, step.task);
      LeaveTallies(s.perIp, s.tasks, step.task);
    }
  }

  /** No step of any task breaks the counts, and no count is ever taken below zero. */
  lemma NextKeeps(setup: Setup, s: State, step: Step, after: State)
    requires Invariant(setup, s) && Next(setup, s, step, after)
    ensures Invariant(setup, after)
    ensures step.Refund? || step.Drop? ==> s.connections >= 1
    ensures step.Settle? && step.task in s.tasks && s.tasks[step.task].Settling? ==>
              var ip := s.tasks[step.task].address; ip in s.perIp && s.perIp[ip] >= 1
  {
    match step
    case Decide(task, now) => hide Invariant, Next; DecideKeeps(setup, s, task, now, after);
    case Settle(task) => hide Invariant, Next; SettleKeeps(setup, s, task, after);
    case Swap(task, spurious) => hide Invariant, Next; SwapKeeps(setup, s, task, spurious, after);
    case Sweep(_) => hide Swept, AllTallied, Counted;
    case Arrive(_, _) => hide Invariant, Next; EntryKeeps(setup, s, step, after);
    case Load(_) => hide Invariant, Next; EntryKeeps(setup, s, step, after);
    case _ => hide Invariant, Next; DropKeeps(setup, s, step, after);
  }

  // --- whole runs

  ghost predicate Run(setup: Setup, steps: seq<Step>, states: seq<State>): (run: bool)
    ensures run ==> |states| == |steps| + 1
  {
    && |states| == |steps| + 1 && states[0] == EMPTY
    && forall i :: 0 <= i < |steps| ==> Next(setup, states[i], steps[i], states[i + 1])
  }

  lemma {:induction false} RunKeeps(setup: Setup, steps: seq<Step>, states: seq<State>, n: nat)
    requires Run(setup, steps, states) && n <= |steps|
    ensures Invariant(setup, states[n])
  {
    hide Invariant, Next;
    if n == 0 {
      EmptyIsInvariant(setup);
    } else {
      RunKeeps(setup, steps, states, n - 1);
      NextKeeps(setup, states[n - 1], steps[n - 1], states[n]);
    }
  }

  /**
   * Whatever the interleaving: neither ceiling is ever passed, the counts are
   * those of the claims and permits outstanding, and once none is left the
   * total is zero and no address is remembered as holding anything.
   */
  lemma CountsStayHonest(setup: Setup, steps: seq<Step>, states: seq<State>, n: nat)
    requires Run(setup, steps, states) && n <= |steps|
    ensures var s := states[n];
            && (setup.maxConnections != 0 ==> s.connections <= setup.maxConnections)
            && (setup.maxPerIp != 0 ==> forall ip :: ip in s.perIp ==> s.perIp[ip] <= setup.maxPerIp)
            && s.connections == |Counted(s.tasks)|
            && (forall ip: Ip :: CountOf(s.perIp, ip) == |Held(s.tasks, ip)|)
            && (forall ip :: ip in s.perIp ==> s.perIp[ip] >= 1)
            && (s.tasks == map[] ==> s.connections == 0 && s.perIp == map[])
  {
    RunKeeps(setup, steps, states, n);
    var s := states[n];
    forall ip: Ip
      ensures CountOf(s.perIp, ip) == |Held(s.tasks, ip)|
      ensures ip in s.perIp ==> s.perIp[ip] >= 1 && Held(s.tasks, ip) != {}
    {
      assert Tallied(s.perIp, s.tasks, ip);
    }
    if s.tasks == map[] {
      assert Counted(s.tasks) == {};
      assert s.perIp.Keys == {} by {
        forall ip: Ip ensures ip !in s.perIp {
          assert Tallied(s.perIp, s.tasks, ip) && Held(s.tasks, ip) == {};
        }
      }
    }
  }

  // --- the rate limiter inside the run

  /** The events the history sees, in the order the lock is taken. */
  ghost function Events(setup: Setup, steps: seq<Step>, states: seq<State>, n: nat): seq<RateLimit.Event>
    requires Run(setup, steps, states) && n <= |steps|
  {
    if n == 0 then []
    else
      var earlier := Events(setup, steps, states, n - 1);
      if Rates(setup, states[n - 1], steps[n - 1]) then earlier + [EventOf(states[n - 1], steps[n - 1])] else earlier
  }

  /** Whether a step consults the history at all; an address over its ceiling does not get that far. */
  ghost predicate Rates(setup: Setup, s: State, step: Step): (rates: bool)
    ensures rates && !step.Sweep? ==> step.Decide? && step.task in s.tasks && s.tasks[step.task].Claiming?
  {
    || step.Sweep?
    || (step.Decide? && step.task in s.tasks && s.tasks[step.task].Claiming?
        && !(setup.maxPerIp != 0 && CountOf(s.perIp, s.tasks[step.task].address) >= setup.maxPerIp))
  }

  ghost function EventOf(s: State, step: Step): RateLimit.Event
    requires step.Sweep? || (step.Decide? && step.task in s.tasks && s.tasks[step.task].Claiming?)
  {
    if step.Sweep? then RateLimit.Sweep(step.now) else RateLimit.Attempt(s.tasks[step.task].address, step.now)
  }

  ghost function Histories(setup: Setup, steps: seq<Step>, states: seq<State>, n: nat): (histories: seq<History>)
    requires Run(setup, steps, states) && n <= |steps|
    ensures |histories| == |Events(setup, steps, states, n)| + 1
    ensures histories[|histories| - 1] == states[n].history
  {
    if n == 0 then [map[]]
    else
      var earlier := Histories(setup, steps, states, n - 1);
      assert Next(setup, states[n - 1], steps[n - 1], states[n]);
      if Rates(setup, states[n - 1], steps[n - 1]) then earlier + [states[n].history] else earlier
  }

  /** The next step extends the run of locked events by the event it is, if it is one. */
  lemma HistoryStep(setup: Setup, s: State, step: Step, after: State)
    requires Next(setup, s, step, after)
    ensures if Rates(setup, s, step) then RateLimit.Step(setup, s.history, EventOf(s, step), after.history)
            else after.history == s.history
  {
    hide Rate, Bounded, Swept;
  }

  lemma RunExtends(setup: Setup, events: seq<RateLimit.Event>, histories: seq<History>, e: RateLimit.Event,
                   after: History)
    requires RateLimit.Run(setup, events, histories)
    requires RateLimit.Step(setup, histories[|events|], e, after)
    ensures RateLimit.Run(setup, events + [e], histories + [after])
  {
    hide RateLimit.Step;
    var longer, all := events + [e], histories + [after];
    forall i | 0 <= i < |longer|
      ensures RateLimit.Step(setup, all[i], longer[i], all[i + 1])
    {
      if i < |events| {
        assert RateLimit.Step(setup, histories[i], events[i], histories[i + 1]);
      }
    }
  }

  lemma EventsGrow(setup: Setup, steps: seq<Step>, states: seq<State>, n: nat)
    requires Run(setup, steps, states) && 0 < n <= |steps|
    ensures var events, histories := Events(setup, steps, states, n - 1), Histories(setup, steps, states, n - 1);
            var s, step := states[n - 1], steps[n - 1];
            && histories[|events|] == s.history
            && (Events(setup, steps, states, n), Histories(setup, steps, states, n))
            == (if Rates(setup, s, step) then (events + [EventOf(s, step)], histories + [states[n].history])
                else (events, histories))
  {
    hide Run;
  }

  lemma HistoryStart(setup: Setup, steps: seq<Step>, states: seq<State>)
    requires Run(setup, steps, states)
    ensures RateLimit.Run(setup, Events(setup, steps, states, 0), Histories(setup, steps, states, 0))
  {
  }

  lemma RunNext(setup: Setup, steps: seq<Step>, states: seq<State>, n: nat)
    requires Run(setup, steps, states) && n < |steps|
    ensures Next(setup, states[n], steps[n], states[n + 1])
  {
    hide Next;
  }

  /**
   * However tasks interleave, the history goes through a run of locked events,
   * so what is proved of every such run holds of the gate.
   */
  lemma {:induction false} HistoryRuns(setup: Setup, steps: seq<Step>, states: seq<State>, n: nat)
    requires Run(setup, steps, states) && n <= |steps|
    ensures RateLimit.Run(setup, Events(setup, steps, states, n), Histories(setup, steps, states, n))
  {
    hide *;
    if n == 0 {
      HistoryStart(setup, steps, states);
    } else {
      var s, step, after := states[n - 1], steps[n - 1], states[n];
      RunNext(setup, steps, states, n - 1);
      HistoryRuns(setup, steps, states, n - 1);
      HistoryStep(setup, s, step, after);
      EventsGrow(setup, steps, states, n);
      if Rates(setup, s, step) {
        RunExtends(setup, Events(setup, steps, states, n - 1), Histories(setup, steps, states, n - 1),
                   EventOf(s, step), after.history);
      }
    }
  }

  /** The log of every admission in the run, each kept until its address is evicted. */
  ghost function LogOf(setup: Setup, steps: seq<Step>, states: seq<State>, n: nat): History
    requires Run(setup, steps, states) && n <= |steps|
  {
    HistoryRuns(setup, steps, states, n);
    var events := Events(setup, steps, states, n);
    RateLimit.LogAfter(setup, events, Histories(setup, steps, states, n), |events|)
  }

  /**
   * In any interleaving, an address is given a permit exactly when it is under
   * its own ceiling and a limiter that keeps every admission would grant it,
   * as long as no time brought under the lock so far lies above both an
   * earlier and a later one.
   */
  lemma DecisionsAreNaive(setup: Setup, steps: seq<Step>, states: seq<State>, n: nat, ip: Ip)
    requires Run(setup, steps, states) && n < |steps| && steps[n].Decide?
    requires At(states[n], steps[n].task, Claiming(ip))
    requires RateLimit.Unpeaked(RateLimit.Times(Events(setup, steps, states, n + 1)))
    ensures At(states[n + 1], steps[n].task, Holding(Some(ip))) <==>
              && (setup.maxPerIp == 0 || CountOf(states[n].perIp, ip) < setup.maxPerIp)
              && Within(setup.rates, RecordOf(LogOf(setup, steps, states, n), ip), steps[n].now)
  {
    var s, step := states[n], steps[n];
    assert Next(setup, s, step, states[n + 1]);
    if Rates(setup, s, step) {
      DecidesAsLog(setup, steps, states, n);
      hide Bounded, Within;
    }
  }

  lemma DecidesAsLog(setup: Setup, steps: seq<Step>, states: seq<State>, n: nat)
    requires Run(setup, steps, states) && n < |steps| && Rates(setup, states[n], steps[n])
    requires RateLimit.Unpeaked(RateLimit.Times(Events(setup, steps, states, n + 1)))
    ensures var e := EventOf(states[n], steps[n]);
            RateLimit.Grants(setup, states[n].history, e)
            == RateLimit.NaiveGrants(setup, LogOf(setup, steps, states, n), e)
  {
    hide Next, RateLimit.Run, Run, RateLimit.Grants, RateLimit.NaiveGrants, RateLimit.Unpeaked, RateLimit.AllAgree;
    var events, histories := Events(setup, steps, states, n), Histories(setup, steps, states, n);
    var e := EventOf(states[n], steps[n]);
    HistoryRuns(setup, steps, states, n);
    RateLimit.RunAgrees(setup, events, histories, |events|);
    assert RateLimit.Times(events)[..|events|] == RateLimit.Times(events);
    assert RateLimit.Times(events + [e]) == RateLimit.Times(events) + [e.now];
    RateLimit.StepDecides(setup, RateLimit.Times(events), states[n].history, LogOf(setup, steps, states, n), e);
  }

  /**
   * In any interleaving, every stretch as long as a limit's period holds no
   * more admissions of an address than the limit allows, as long as the times
   * brought under the lock never come back nearer to one than they have been
   * after it; and with limits of at least one, no more addresses are
   * remembered than the gate is set up for, whatever the times.
   */
  lemma LimitsAreKept(setup: Setup, steps: seq<Step>, states: seq<State>, n: nat, ip: Ip)
    requires Run(setup, steps, states) && n <= |steps|
    ensures RateLimit.NeverNearer(RateLimit.Times(Events(setup, steps, states, n))) ==>
              RateLimit.Spaced(setup.rates, RecordOf(LogOf(setup, steps, states, n), ip))
    ensures RateLimit.EveryLimitAllows(setup) ==> |states[n].history| <= RateLimit.Bound(setup)
  {
    hide Next, RateLimit.Run, Run, RateLimit.Spaced, RateLimit.NeverNearer;
    var events, histories := Events(setup, steps, states, n), Histories(setup, steps, states, n);
    HistoryRuns(setup, steps, states, n);
    assert RateLimit.Times(events)[..|events|] == RateLimit.Times(events);
    if RateLimit.NeverNearer(RateLimit.Times(events)) {
      RateLimit.SpacedAt(setup, events, histories, |events|);
    }
    if RateLimit.EveryLimitAllows(setup) {
      RateLimit.RunNeverOutgrows(setup, events, histories, |events|);
    }
  }
}
