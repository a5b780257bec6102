/** The monotonic clock that deadlines are set by, and what it may do between calls. */
module Clocks {
  import opened Texts

  type Instant = nat   // nanoseconds on a clock of the caller's

  const SECOND := 1_000_000_000

  /** The instant a lifetime of whole seconds is over. */
  function Lapse(from: Instant, seconds: nat): Instant {
    from + seconds * SECOND
  }

  /** Whether an instant is the end of a lifetime begun at one of these times. */
  ghost predicate Dated(times: seq<Instant>, deadline: Instant) {
    exists k, seconds :: 0 <= k < |times| && 1 <= seconds <= I64_MAX && deadline == Lapse(times[k], seconds)
  }

  /** No lifetime begun at one of these times was over at a later one of them and is not over now. */
  ghost predicate SteadyAt(times: seq<Instant>, now: Instant) {
    forall k, r, seconds | 0 <= k < r < |times| && 1 <= seconds <= I64_MAX ::
      !(now < Lapse(times[k], seconds) <= times[r])
  }

  /** At none of these times has a lifetime that was over come back. */
  ghost predicate Steady(times: seq<Instant>) {
    forall j | 0 <= j < |times| :: SteadyAt(times[..j], times[j])
  }

  lemma SteadyPrefix(times: seq<Instant>, n: nat)
    requires Steady(times) && n <= |times|
    ensures Steady(times[..n])
  {
    hide SteadyAt;
    forall j | 0 <= j < n ensures SteadyAt(times[..n][..j], times[..n][j]) {
      assert times[..n][..j] == times[..j];
    }
  }

  lemma SteadyBefore(times: seq<Instant>, later: Instant, now: Instant)
    requires SteadyAt(times + [later], now)
    ensures SteadyAt(times, now)
  {
    var all := times + [later];
    assert forall i | 0 <= i < |times| :: all[i] == times[i];
  }

  /** A lifetime that is over at one time is over at every later one that is steady. */
  lemma OverStaysOver(times: seq<Instant>, later: Instant, deadline: Instant, now: Instant)
    requires Dated(times, deadline) && deadline <= later && SteadyAt(times + [later], now)
    ensures deadline <= now
  {
    var k, seconds :| 0 <= k < |times| && 1 <= seconds <= I64_MAX && deadline == Lapse(times[k], seconds);
    var all := times + [later];
    assert all[k] == times[k] && all[|times|] == later;
  }

  lemma DatedStays(times: seq<Instant>, later: Instant, deadline: Instant)
    requires Dated(times, deadline)
    ensures Dated(times + [later], deadline)
  {
    var k, seconds :| 0 <= k < |times| && 1 <= seconds <= I64_MAX && deadline == Lapse(times[k], seconds);
    assert (times + [later])[k] == times[k];
  }

  lemma DatedLast(times: seq<Instant>, now: Instant, seconds: nat)
    requires 1 <= seconds <= I64_MAX
    ensures Dated(times + [now], Lapse(now, seconds))
  {
    assert (times + [now])[|times|] == now;
  }

  /** Times in order are steady. */
  lemma InOrderIsSteady(times: seq<Instant>)
    requires forall i, j | 0 <= i < j < |times| :: times[i] <= times[j]
    ensures Steady(times)
  {
  }
}
