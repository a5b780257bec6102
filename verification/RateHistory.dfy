/** The per-address bookkeeping an admission gate keeps behind its lock. */
module RateHistory {

  type Ip = nat
  type Time = real   // seconds on a clock of the caller's

  /** What a gate is set up with. Zero connections, in all or for one address, is unbounded. */
  datatype Setup = Setup(
    maxConnections: nat,
    maxPerIp: nat,
    rates: seq<(real, nat)>,    // a period and the admissions allowed within it
    maxHistory: nat)

  type Record = seq<Time>
  type History = map<Ip, Record>

  function Since(now: Time, at: Time): Time {
    if now >= at then now - at else 0.0
  }

  function Window(rates: seq<(real, nat)>): (window: real)
    ensures window >= 0.0
    ensures forall i :: 0 <= i < |rates| ==> rates[i].0 <= window
  {
    if rates == [] then 0.0
    else
      var rest := Window(rates[..|rates| - 1]);
      if rates[|rates| - 1].0 > rest then rates[|rates| - 1].0 else rest
  }

  function Cap(setup: Setup): nat {
    if setup.maxHistory >= setup.maxConnections then setup.maxHistory else setup.maxConnections
  }

  function RecordOf(history: History, ip: Ip): Record {
    if ip in history then history[ip] else []
  }

  /** A record without the entries at its front that are older than the window. */
  function Fresh(record: Record, now: Time, window: real): Record {
    if record != [] && Since(now, record[0]) > window then Fresh(record[1..], now, window) else record
  }

  /** How many entries lie within a period. */
  function Recent(record: Record, now: Time, period: real): nat {
    if record == [] then 0
    else Recent(record[..|record| - 1], now, period)
         + (if Since(now, record[|record| - 1]) <= period then 1 else 0)
  }

  predicate Within(rates: seq<(real, nat)>, record: Record, now: Time) {
    forall i :: 0 <= i < |rates| ==> Recent(record, now, rates[i].0) < rates[i].1
  }

  /** Whether an address is within every limit, recording the attempt when it is. */
  function Rate(setup: Setup, history: History, ip: Ip, now: Time): (History, bool) {
    var record := Fresh(RecordOf(history, ip), now, Window(setup.rates));
    if Within(setup.rates, record, now) then (history[ip := record + [now]], true)
    else (history[ip := record], false)
  }

  /** Whether one record's front is no later than another's; an empty record comes first. */
  predicate NoLater(a: Record, b: Record) {
    a == [] || (b != [] && a[0] <= b[0])
  }

  /**
   * What bounding the history may leave: nothing is touched under the cap;
   * over it, just enough addresses go, never `keep`, and the ones that go are
   * the ones that connected longest ago.
   */
  ghost predicate Bounded(before: History, keep: Ip, cap: nat, after: History) {
    && after.Keys <= before.Keys && (forall ip :: ip in after ==> after[ip] == before[ip])
    && (|before| <= cap ==> after == before)
    && (|before| > cap ==> |after| == if cap == 0 then 1 else cap)
    && keep in after
    && forall gone, kept | gone in before && gone !in after && kept in after && kept != keep ::
         NoLater(before[gone], before[kept])
  }

  function Swept(setup: Setup, history: History, now: Time): History {
    var window := Window(setup.rates);
    map ip | ip in history && Fresh(history[ip], now, window) != [] :: Fresh(history[ip], now, window)
  }

  /** One connection of an address given back. */
  function Settled(perIp: map<Ip, nat>, ip: Ip): map<Ip, nat> {
    if ip !in perIp then perIp
    else if perIp[ip] <= 1 then perIp - {ip}
    else perIp[ip := perIp[ip] - 1]
  }

  /** The state behind the lock, changed in place by whoever holds it. */
  class GateState {
    const setup: Setup
    const window: real
    var perIp: map<Ip, nat>
    var history: History

    ghost predicate Valid()
    {
      window == Window(setup.rates)
    }

    constructor (setup: Setup)
      ensures Valid() && this.setup == setup && perIp == map[] && history == map[]
    {
      this.setup := setup;
      this.perIp, this.history := map[], map[];
      var widest := 0.0;
      for i := 0 to |setup.rates|
        invariant widest == Window(setup.rates[..i])
      {
        assert setup.rates[..i + 1][..i] == setup.rates[..i];
        widest := if setup.rates[i].0 > widest then setup.rates[i].0 else widest;
      }
      assert setup.rates[..|setup.rates|] == setup.rates;
      this.window := widest;
    }

    method CountRecent(record: Record, now: Time, period: real) returns (recent: nat)
      ensures recent == Recent(record, now, period)
    {
      recent := 0;
      for i := 0 to |record|
        invariant recent == Recent(record[..i], now, period)
      {
        assert record[..i + 1][..i] == record[..i];
        if Since(now, record[i]) <= period {
          recent := recent + 1;
        }
      }
      assert record[..|record|] == record;
    }

    method PruneFront(record: Record, now: Time) returns (pruned: Record)
      requires Valid()
      ensures pruned == Fresh(record, now, Window(setup.rates))
    {
      pruned := record;
      while pruned != [] && Since(now, pruned[0]) > window
        invariant Fresh(pruned, now, window) == Fresh(record, now, window)
        decreases |pruned|
      {
        pruned := pruned[1..];
      }
    }

    method CheckRate(ip: Ip, now: Time) returns (within: bool)
      requires Valid()
      modifies this`history
      ensures (history, within) == Rate(setup, old(history), ip, now)
    {
      var record := PruneFront(RecordOf(history, ip), now);
      history := history[ip := record];
      for i := 0 to |setup.rates|
        invariant history == old(history)[ip := record]
        invariant forall j :: 0 <= j < i ==> Recent(record, now, setup.rates[j].0) < setup.rates[j].1
      {
        var (period, count) := setup.rates[i];
        var recent := CountRecent(record, now, period);
        if recent >= count {
          return false;
        }
      }
      history := history[ip := record + [now]];
      assert history == old(history)[ip := record + [now]];
      return true;
    }

    /** The address, other than `keep`, whose record begins earliest. */
    method Victim(keep: Ip) returns (victim: Ip)
      requires exists ip :: ip in history && ip != keep
      ensures victim in history && victim != keep
      ensures forall ip :: ip in history && ip != keep ==> NoLater(history[victim], history[ip])
    {
      var others := history.Keys - {keep};
      ghost var other :| other in history && other != keep;
      assert other in others;
      victim :| victim in others;
      others := others - {victim};
      while others != {}
        invariant others <= history.Keys - {keep} && victim in history && victim != keep
        invariant forall ip :: ip in history && ip != keep && ip !in others ==> NoLater(history[victim], history[ip])
        decreases others
      {
        var ip :| ip in others;
        if !NoLater(history[victim], history[ip]) {
          victim := ip;
        }
        others := others - {ip};
      }
    }

    method BoundHistory(keep: Ip)
      requires keep in history
      modifies this`history
      ensures Bounded(old(history), keep, Cap(setup), history)
    {
      var cap := Cap(setup);
      while |history| > cap && history.Keys != {keep}
        invariant history.Keys <= old(history).Keys && keep in history
        invariant forall ip :: ip in history ==> history[ip] == old(history)[ip]
        invariant |old(history)| <= cap ==> history == old(history)
        invariant |old(history)| > cap ==> |history| >= cap
        invariant forall gone, kept | gone in old(history) && gone !in history && kept in history && kept != keep ::
                    NoLater(old(history)[gone], old(history)[kept])
        decreases |history|
      {
        OthersThan(history, keep);
        var victim := Victim(keep);
        ghost var before := history;
        history := history - {victim};
        assert history.Keys == before.Keys - {victim};
        assert |history.Keys| == |history| && |before.Keys| == |before|;
      }
      assert |history.Keys| == |history|;
      if history.Keys == {keep} {
        assert |history| == 1;
      }
    }

    /** The locked half of admitting: refused, or recorded and counted. */
    method AdmitLocked(ip: Ip, now: Time) returns (granted: bool)
      requires Valid()
      modifies this
      ensures var count := if ip in old(perIp) then old(perIp)[ip] else 0;
              var (rated, within) := Rate(setup, old(history), ip, now);
              if setup.maxPerIp != 0 && count >= setup.maxPerIp
              then !granted && history == old(history) && perIp == old(perIp)
              else if !within then !granted && history == rated && perIp == old(perIp)
              else granted && Bounded(rated, ip, Cap(setup), history) && perIp == old(perIp)[ip := count + 1]
    {
      var count := if ip in perIp then perIp[ip] else 0;
      if setup.maxPerIp != 0 && count >= setup.maxPerIp {
        return false;
      }
      var within := CheckRate(ip, now);
      if !within {
        return false;
      }
      BoundHistory(ip);
      perIp := perIp[ip := count + 1];
      return true;
    }

    /** The locked half of releasing. */
    method Settle(ip: Ip)
      modifies this`perIp
      ensures perIp == Settled(old(perIp), ip)
    {
      if ip in perIp {
        var count := if perIp[ip] > 0 then perIp[ip] - 1 else 0;
        perIp := perIp[ip := count];
        if count == 0 {
          perIp := perIp - {ip};
        }
        assert count == 0 ==> perIp == old(perIp) - {ip};
      }
    }

    /** Drops the history that has aged out, one address at a time. */
    method Sweep(now: Time)
      requires Valid()
      modifies this`history
      ensures history == Swept(setup, old(history), now)
    {
      var left := history.Keys;
      while left != {}
        invariant left <= history.Keys <= old(history).Keys
        invariant forall ip :: ip in left ==> history[ip] == old(history)[ip]
        invariant forall ip :: ip in old(history) && ip !in left ==>
                    (ip in history <==> Fresh(old(history)[ip], now, window) != [])
        invariant forall ip :: ip in history && ip !in left ==> history[ip] == Fresh(old(history)[ip], now, window)
        decreases left
      {
        var ip :| ip in left;
        var record := PruneFront(history[ip], now);
        history := if record == [] then history - {ip} else history[ip := record];
        left := left - {ip};
      }
    }
  }

  lemma OthersThan(history: History, keep: Ip)
    requires keep in history && history.Keys != {keep}
    ensures exists ip :: ip in history && ip != keep
  {
    assert !(history.Keys <= {keep});
    var ip :| ip in history.Keys && ip !in {keep};
  }
}
