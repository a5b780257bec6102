/** The client's memory of hosts that insist on TLS, sections 8.1 to 8.3 of RFC 6797. */
module HstsStore {
  import opened Wrappers
  import opened Texts
  import opened Clocks
  import opened HstsPolicy

  /** What the store is set up with, and what it asks of the platform. */
  datatype Setup = Setup(
    maxEntries: nat,
    isAddress: string -> bool,    // whether a text is an IP address
    latest: Instant)              // the last instant the clock can name

  datatype Entry = Entry(expiry: Instant, covers: bool)

  type Entries = map<string, Entry>

  // --- names

  /** The form a host is stored under, or None for one no policy applies to. */
  function Normalize(setup: Setup, host: string): Option<string> {
    var name := TrimEnd(Trim(Trim(host, IsSpace), IsBracket), IsDot);
    if name == "" || setup.isAddress(name) then None else Some(Lowered(name))
  }

  /** A stored name is folded, and begins with no bracket and ends with no dot. */
  lemma NormalForm(setup: Setup, host: string)
    ensures match Normalize(setup, host)
            case None => true
            case Some(name) => name != "" && Lowered(name) == name && !IsBracket(name[0]) && name[|name| - 1] != '.'
  {
    hide Trim;
    var bare := Trim(Trim(host, IsSpace), IsBracket);
    var name := TrimEnd(bare, IsDot);
    TrimEndLeaves(bare, IsDot);
    TrimStarts(Trim(host, IsSpace), IsBracket);
    LoweredTwice(name);
    if name != "" {
      assert bare[0] == name[0];
      assert Lowered(name)[0] == Lower(name[0]) && Lowered(name)[|name| - 1] == Lower(name[|name| - 1]);
    }
  }

  /** Whether normalising would still change a name. */
  predicate Settled(setup: Setup, name: string) {
    && name != "" && !IsSpace(name[0]) && !IsSpace(name[|name| - 1]) && !IsBracket(name[|name| - 1])
    && !setup.isAddress(name)
  }

  /** A normal form is normal exactly when it has no outer space and no closing bracket left, and is no address. */
  lemma NormalizesToItselfIff(setup: Setup, host: string)
    requires Normalize(setup, host).Some?
    ensures var name := Normalize(setup, host).value;
            Normalize(setup, name) == Some(name) <==> Settled(setup, name)
  {
    hide Trim, TrimEnd, IsSpace;
    var name := Normalize(setup, host).value;
    NormalForm(setup, host);
    var bare := Trim(name, IsSpace);
    TrimShortens(name, IsSpace);
    TrimShortens(bare, IsBracket);
    TrimEndLeaves(Trim(bare, IsBracket), IsDot);
    if !IsSpace(name[0]) && !IsSpace(name[|name| - 1]) {
      TrimKeeps(name, IsSpace);
      if !IsBracket(name[|name| - 1]) {
        TrimKeeps(name, IsBracket);
        TrimEndKeeps(name, IsDot);
      }
    }
  }

  /** A dot behind the last bracket keeps the bracket, and so the name is not settled. */
  lemma BracketBehindDot(setup: Setup)
    requires !setup.isAddress("a]") && !setup.isAddress("a")
    ensures Normalize(setup, "a].") == Some("a]") && Normalize(setup, "a]") == Some("a")
  {
    assert Lowered("a]") == "a]" && Lowered("a") == "a";
    TrimKeeps("a].", IsSpace);
    TrimKeeps("a].", IsBracket);
    assert "a]."[..2] == "a]" && "a]"[..1] == "a";
    TrimKeeps("a]", IsSpace);
    assert TrimStart("a]", IsBracket) == "a]";
    assert TrimEnd("a]", IsBracket) == TrimEnd("a", IsBracket) == "a";
    assert TrimEnd("a].", IsDot) == TrimEnd("a]", IsDot) == "a]";
  }

  /** A name and then its parents, each without one more leading label. */
  function Parents(name: string): (parents: seq<string>)
    ensures parents != [] && parents[0] == name
    decreases |name|
  {
    match SplitOnce(name, '.')
    case Some((_, parent)) => [name] + Parents(parent)
    case None => [name]
  }

  /** Whether a name is what stands behind a dot somewhere in another. */
  ghost predicate IsParent(parent: string, name: string) {
    exists i :: 0 <= i < |name| && name[i] == '.' && name[i + 1..] == parent
  }

  lemma ParentOfWhole(front: string, parent: string, candidate: string)
    requires '.' !in front
    ensures IsParent(candidate, front + ['.'] + parent) <==> candidate == parent || IsParent(candidate, parent)
  {
    var name, at := front + ['.'] + parent, |front|;
    assert forall k | 0 <= k < at :: name[k] == front[k];
    assert name[at] == '.' && name[at + 1..] == parent;
    if i :| 0 <= i < |parent| && parent[i] == '.' && parent[i + 1..] == candidate {
      assert name[at + 1 + i] == '.' && name[at + 1 + i + 1..] == candidate;
    }
    if i :| 0 <= i < |name| && name[i] == '.' && name[i + 1..] == candidate {
      if i > at {
        assert parent[i - at - 1] == '.' && parent[i - at - 1 + 1..] == candidate;
      }
    }
  }

  /** The walk visits the name and everything behind one of its dots, and nothing else. */
  lemma {:induction false} ParentsAreSuffixes(name: string, candidate: string)
    ensures candidate in Parents(name) <==> candidate == name || IsParent(candidate, name)
    decreases |name|
  {
    match SplitOnce(name, '.')
    case None =>
      assert !IsParent(candidate, name);
    case Some((front, parent)) =>
      ParentsAreSuffixes(parent, candidate);
      ParentOfWhole(front, parent, candidate);
  }

  // --- what the store holds

  function Live(entries: Entries, name: string, now: Instant): Option<Entry> {
    if name in entries && entries[name].expiry > now then Some(entries[name]) else None
  }

  function Alive(entries: Entries, now: Instant): Entries {
    map name | name in entries && entries[name].expiry > now :: entries[name]
  }

  predicate Applies(entry: Entry, candidate: string, name: string) {
    candidate == name || entry.covers
  }

  /** Whether an unexpired entry of the name, or one of a parent that covers it, is held. */
  ghost predicate Insists(entries: Entries, name: string, now: Instant) {
    exists candidate ::
      && candidate in Parents(name)
      && Live(entries, candidate, now).Some?
      && Applies(entries[candidate], candidate, name)
  }

  /** Looks candidates up in turn, dropping the expired ones met on the way. */
  function Walk(entries: Entries, name: string, candidates: seq<string>, now: Instant): (Entries, bool) {
    if candidates == [] then (entries, false)
    else
      var candidate, rest := candidates[0], candidates[1..];
      if candidate !in entries then Walk(entries, name, rest, now)
      else if entries[candidate].expiry <= now then Walk(entries - {candidate}, name, rest, now)
      else if Applies(entries[candidate], candidate, name) then (entries, true)
      else Walk(entries, name, rest, now)
  }

  /** Some entries are gone, and every one of them had expired. */
  ghost predicate OnlyExpiredGone(before: Entries, after: Entries, now: Instant) {
    && after.Keys <= before.Keys
    && forall name | name in before ::
         if name in after then after[name] == before[name] else before[name].expiry <= now
  }

  lemma {:induction false} WalkFinds(entries: Entries, name: string, candidates: seq<string>, now: Instant)
    ensures OnlyExpiredGone(entries, Walk(entries, name, candidates, now).0, now)
    ensures Walk(entries, name, candidates, now).1
            <==> exists c :: c in candidates && Live(entries, c, now).Some? && Applies(entries[c], c, name)
  {
    hide Applies;
    if candidates != [] {
      var candidate, rest := candidates[0], candidates[1..];
      assert candidates == [candidate] + rest;
      if candidate in entries && entries[candidate].expiry <= now {
        var less := entries - {candidate};
        WalkFinds(less, name, rest, now);
        assert forall c :: Live(less, c, now) == Live(entries, c, now);
      } else {
        WalkFinds(entries, name, rest, now);
      }
    }
  }

  /** Dropping expired entries changes no answer from then on, nor what is kept when the next policy comes. */
  lemma DroppingIsInvisible(before: Entries, after: Entries, name: string, dropped: Instant, now: Instant)
    requires OnlyExpiredGone(before, after, dropped) && dropped <= now
    ensures Insists(after, name, now) <==> Insists(before, name, now)
    ensures Alive(after, now) == Alive(before, now)
  {
    hide Applies, Parents;
    assert forall c :: Live(after, c, now) == Live(before, c, now);
    assert forall c :: Live(before, c, now).Some? ==> after[c] == before[c];
  }

  // --- steps

  datatype Event =
    | Learn(host: string, header: string, viaTls: bool, now: Instant)
    | Ask(host: string, now: Instant)
    | Prune(now: Instant)

  datatype Change = Ignored | Withdrawn(name: string) | Accepted(name: string, entry: Entry)

  /** What a response's field changes, if anything. */
  ghost function ChangeOf(setup: Setup, host: string, header: string, viaTls: bool, now: Instant): Change {
    if !viaTls || Normalize(setup, host).None? || Meaning(header).None? then Ignored
    else
      var name, policy := Normalize(setup, host).value, Meaning(header).value;
      if policy.maxAge <= 0 then Withdrawn(name)
      else if Lapse(now, policy.maxAge) > setup.latest then Ignored
      else Accepted(name, Entry(Lapse(now, policy.maxAge), policy.includeSubdomains))
  }

  ghost function ChangeBy(setup: Setup, event: Event): Change {
    match event
    case Learn(host, header, viaTls, now) => ChangeOf(setup, host, header, viaTls, now)
    case _ => Ignored
  }

  ghost predicate Soonest(entries: Entries, victim: string) {
    && victim in entries
    && forall name :: name in entries ==> entries[victim].expiry <= entries[name].expiry
  }

  /** Storing an entry, with the victim that made room for it when there had to be one. */
  ghost predicate Stored(setup: Setup, before: Entries, name: string, entry: Entry, now: Instant,
                         after: Entries, victim: Option<string>)
  {
    var kept := Alive(before, now);
    match victim
    case None => (|kept| < setup.maxEntries || name in kept || kept == map[]) && after == kept[name := entry]
    case Some(gone) =>
      && |kept| >= setup.maxEntries && name !in kept && Soonest(kept, gone)
      && after == (kept - {gone})[name := entry]
  }

  ghost predicate Changed(setup: Setup, before: Entries, change: Change, now: Instant,
                          after: Entries, victim: Option<string>)
  {
    match change
    case Ignored => after == before && victim == None
    case Withdrawn(name) => after == before - {name} && victim == None
    case Accepted(name, entry) => Stored(setup, before, name, entry, now, after, victim)
  }

  function Walked(setup: Setup, entries: Entries, host: string, now: Instant): (Entries, bool) {
    match Normalize(setup, host)
    case None => (entries, false)
    case Some(name) => Walk(entries, name, Parents(name), now)
  }

  ghost predicate Step(setup: Setup, before: Entries, event: Event, after: Entries, victim: Option<string>) {
    match event
    case Learn(_, _, _, now) => Changed(setup, before, ChangeBy(setup, event), now, after, victim)
    case Ask(host, now) => after == Walked(setup, before, host, now).0 && victim == None
    case Prune(now) => after == Alive(before, now) && victim == None
  }

  /** The shared store, changed in place by whoever holds its lock. */
  class Store {
    const setup: Setup
    var entries: Entries

    constructor (setup: Setup)
      ensures this.setup == setup && entries == map[]
    {
      this.setup := setup;
      this.entries := map[];
    }

    /** An entry that expires no later than any other. */
    method FindSoonest() returns (victim: string)
      requires entries != map[]
      ensures Soonest(entries, victim)
    {
      var left := entries.Keys;
      victim :| victim in left;
      left := left - {victim};
      while left != {}
        invariant left <= entries.Keys && victim in entries
        invariant forall name :: name in entries && name !in left ==> entries[victim].expiry <= entries[name].expiry
        decreases left
      {
        var name :| name in left;
        if entries[name].expiry < entries[victim].expiry {
          victim := name;
        }
        left := left - {name};
      }
    }

    method Learn(host: string, header: string, viaTls: bool, now: Instant) returns (ghost victim: Option<string>)
      modifies this`entries
      ensures Step(setup, old(entries), Event.Learn(host, header, viaTls, now), entries, victim)
    {
      hide Normalize, Meaning, Alive, Soonest;
      victim := None;
      if !viaTls {
        return;
      }
      var name := Normalize(setup, host);
      if name.None? {
        return;
      }
      var policy := Parse(header);
      if policy.None? {
        return;
      }
      if policy.value.maxAge <= 0 {
        entries := entries - {name.value};
        return;
      }
      var expiry := Lapse(now, policy.value.maxAge);
      if expiry > setup.latest {
        return;
      }
      Prune(now);
      if |entries| >= setup.maxEntries && name.value !in entries && entries != map[] {
        var soonest := FindSoonest();
        victim := Some(soonest);
        entries := entries - {soonest};
      }
      entries := entries[name.value := Entry(expiry, policy.value.includeSubdomains)];
    }

    /** Whether a host must be reached over TLS. */
    method Secure(host: string, now: Instant) returns (secure: bool)
      modifies this`entries
      ensures (entries, secure) == Walked(setup, old(entries), host, now)
      ensures secure <==> Normalize(setup, host).Some? && Insists(old(entries), Normalize(setup, host).value, now)
    {
      hide Normalize;
      var normal := Normalize(setup, host);
      if normal.None? {
        return false;
      }
      var name := normal.value;
      WalkFinds(entries, name, Parents(name), now);
      var candidate := name;
      while true
        invariant Walk(entries, name, Parents(candidate), now) == Walk(old(entries), name, Parents(name), now)
        decreases |candidate|
      {
        assert Parents(candidate) == [candidate] + Parents(candidate)[1..];
        if candidate in entries {
          if entries[candidate].expiry <= now {
            entries := entries - {candidate};
          } else if candidate == name || entries[candidate].covers {
            return true;
          }
        }
        match SplitOnce(candidate, '.')
        case Some((_, parent)) => candidate := parent;
        case None => return false;
      }
    }

    /** Drops every entry that has expired, one at a time. */
    method Prune(now: Instant)
      modifies this`entries
      ensures OnlyExpiredGone(old(entries), entries, now)
      ensures forall name :: name in entries ==> entries[name].expiry > now
      ensures entries == Alive(old(entries), now)
    {
      var left := entries.Keys;
      while left != {}
        invariant left <= entries.Keys && OnlyExpiredGone(old(entries), entries, now)
        invariant forall name :: name in entries && name !in left ==> entries[name].expiry > now
        decreases left
      {
        var name :| name in left;
        if entries[name].expiry <= now {
          entries := entries - {name};
        }
        left := left - {name};
      }
      assert entries.Keys == Alive(old(entries), now).Keys;
    }
  }
}
