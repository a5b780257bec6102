/** A field section and the presence index in front of it. */
module Headers {
  import opened Wrappers
  import opened Texts

  datatype Field = Field(name: string, value: string)

  // --- the presence bits

  const WELL_KNOWN := 17

  /** A well-known name by its place in the index. */
  function NameAt(index: nat): string
    requires index < WELL_KNOWN
  {
    match index
    case 0 => "te"
    case 1 => "host"
    case 2 => "date"
    case 3 => "server"
    case 4 => "cookie"
    case 5 => "upgrade"
    case 6 => "location"
    case 7 => "connection"
    case 8 => "keep-alive"
    case 9 => "set-cookie"
    case 10 => "content-type"
    case 11 => "content-length"
    case 12 => "accept-encoding"
    case 13 => "content-encoding"
    case 14 => "proxy-connection"
    case 15 => "transfer-encoding"
    case _ => "strict-transport-security"
  }

  function Bit(index: nat): bv32
    requires index < WELL_KNOWN
  {
    match index
    case 0 => 0x1
    case 1 => 0x2
    case 2 => 0x4
    case 3 => 0x8
    case 4 => 0x10
    case 5 => 0x20
    case 6 => 0x40
    case 7 => 0x80
    case 8 => 0x100
    case 9 => 0x200
    case 10 => 0x400
    case 11 => 0x800
    case 12 => 0x1000
    case 13 => 0x2000
    case 14 => 0x4000
    case 15 => 0x8000
    case _ => 0x1_0000
  }

  /** The place a name of this length and first character could have, if any. */
  function Candidate(length: nat, first: char): (index: Option<nat>)
    ensures index.Some? ==> index.value < WELL_KNOWN
  {
    if length == 2 && first == 't' then Some(0)
    else if length == 4 && first == 'h' then Some(1)
    else if length == 4 && first == 'd' then Some(2)
    else if length == 6 && first == 's' then Some(3)
    else if length == 6 && first == 'c' then Some(4)
    else if length == 7 && first == 'u' then Some(5)
    else if length == 8 && first == 'l' then Some(6)
    else if length == 10 && first == 'c' then Some(7)
    else if length == 10 && first == 'k' then Some(8)
    else if length == 10 && first == 's' then Some(9)
    else if length == 12 && first == 'c' then Some(10)
    else if length == 14 && first == 'c' then Some(11)
    else if length == 15 && first == 'a' then Some(12)
    else if length == 16 && first == 'c' then Some(13)
    else if length == 16 && first == 'p' then Some(14)
    else if length == 17 && first == 't' then Some(15)
    else if length == 25 && first == 's' then Some(16)
    else None
  }

  /** The presence bit of a well-known name, or zero. */
  function WellKnown(name: string): bv32 {
    if name == "" then 0
    else
      match Candidate(|name|, name[0])
      case None => 0
      case Some(index) => if name == NameAt(index) then Bit(index) else 0
  }

  function Either(a: bv32, b: bv32): bv32 {
    a | b
  }

  /** Whether two sets of bits share any. */
  predicate Shares(a: bv32, b: bv32) {
    a & b != 0
  }

  lemma NeitherShares(a: bv32, b: bv32, bit: bv32)
    requires !Shares(a, bit) && !Shares(b, bit)
    ensures !Shares(Either(a, b), bit)
  {
  }

  lemma OneShares(a: bv32, b: bv32, bit: bv32)
    requires !Shares(Either(a, b), bit)
    ensures !Shares(a, bit)
  {
  }

  lemma EitherShares(a: bv32, b: bv32, bit: bv32)
    ensures Shares(Either(a, b), bit) <==> Shares(a, bit) || Shares(b, bit)
  {
    hide Shares, Either;
    EitherCommutes(a, b);
    if !Shares(a, bit) && !Shares(b, bit) {
      NeitherShares(a, b, bit);
    } else if !Shares(Either(a, b), bit) {
      OneShares(a, b, bit);
      OneShares(b, a, bit);
    }
  }

  lemma SharesItself(bit: bv32)
    ensures !Shares(0, bit) && !Shares(bit, 0) && (Shares(bit, bit) <==> bit != 0)
  {
    assert bit & bit == bit;
  }

  lemma EitherOrder(a: bv32, b: bv32, c: bv32)
    ensures Either(Either(a, b), c) == Either(a, Either(b, c))
  {
  }

  lemma BitsAreDistinct(i: nat, j: nat)
    requires i < WELL_KNOWN && j < WELL_KNOWN
    ensures Bit(i) != 0 && (Shares(Bit(i), Bit(j)) <==> i == j)
  {
  }

  lemma NameStarts(index: nat)
    requires index < WELL_KNOWN
    ensures NameAt(index) != "" && Candidate(|NameAt(index)|, NameAt(index)[0]) == Some(index)
  {
  }

  /** Each well-known name is found at its own place. */
  lemma WellKnownNames(index: nat)
    requires index < WELL_KNOWN
    ensures WellKnown(NameAt(index)) == Bit(index)
  {
    hide Bit, NameAt, Candidate;
    NameStarts(index);
  }

  /** Bits of names meet just when the names are one and the same well-known name. */
  lemma NamesShareIff(a: string, b: string)
    ensures Shares(WellKnown(a), WellKnown(b)) <==> a == b && WellKnown(a) != 0
  {
    hide Shares, Bit, NameAt, Candidate;
    SharesItself(WellKnown(a));
    SharesItself(WellKnown(b));
    if WellKnown(a) != 0 && WellKnown(b) != 0 {
      var i, j := Candidate(|a|, a[0]).value, Candidate(|b|, b[0]).value;
      BitsAreDistinct(i, j);
    }
  }

  // --- the section's fields, searched one by one

  /** Whether a stored name is the one asked for, ignoring ASCII case; most are turned away early. */
  predicate Named(stored: string, name: string) {
    && |stored| == |name|
    && (stored != "" ==> Lower(stored[0]) == Lower(name[0]))
    && (stored == name || Lowered(stored) == Lowered(name))
  }

  lemma NamedIff(stored: string, name: string)
    ensures Named(stored, name) <==> Lowered(stored) == Lowered(name)
  {
    if Lowered(stored) == Lowered(name) && stored != "" {
      assert Lowered(stored)[0] == Lowered(name)[0];
    }
  }

  predicate IsLowercase(name: string) {
    forall i :: 0 <= i < |name| ==> !('A' <= name[i] <= 'Z')
  }

  lemma LowercaseIsLowered(name: string)
    ensures IsLowercase(name) <==> Lowered(name) == name
    ensures IsLowercase(Lowered(name))
  {
    if Lowered(name) == name {
      forall i | 0 <= i < |name| ensures !('A' <= name[i] <= 'Z') {
        assert Lowered(name)[i] == Lower(name[i]);
      }
    }
  }

  /** The values carried under a name in any case, in order. */
  function Values(fields: seq<Field>, name: string): seq<string> {
    if fields == [] then []
    else
      Values(fields[..|fields| - 1], name)
      + if Lowered(fields[|fields| - 1].name) == Lowered(name) then [fields[|fields| - 1].value] else []
  }

  /** The fields carried under other names, in order. */
  function Others(fields: seq<Field>, name: string): seq<Field> {
    if fields == [] then []
    else
      Others(fields[..|fields| - 1], name)
      + if Lowered(fields[|fields| - 1].name) == Lowered(name) then [] else [fields[|fields| - 1]]
  }

  function Presence(fields: seq<Field>): bv32 {
    if fields == [] then 0 else Either(Presence(fields[..|fields| - 1]), WellKnown(fields[|fields| - 1].name))
  }

  predicate AllLowercase(fields: seq<Field>) {
    forall i :: 0 <= i < |fields| ==> IsLowercase(fields[i].name)
  }

  /** Whether the bits prove a name is not carried. */
  predicate Absent(present: bv32, name: string) {
    WellKnown(name) != 0 && !Shares(present, WellKnown(name))
  }

  lemma ShortNamesAreLowercase()
    ensures IsLowercase("te") && IsLowercase("host") && IsLowercase("date")
    ensures IsLowercase("server") && IsLowercase("cookie") && IsLowercase("upgrade") && IsLowercase("location")
  {
  }

  lemma MiddleNamesAreLowercase()
    ensures IsLowercase("connection") && IsLowercase("keep-alive") && IsLowercase("set-cookie")
    ensures IsLowercase("content-type") && IsLowercase("content-length")
  {
  }

  lemma LongNamesAreLowercase()
    ensures IsLowercase("accept-encoding") && IsLowercase("content-encoding") && IsLowercase("proxy-connection")
    ensures IsLowercase("transfer-encoding")
  {
  }

  lemma LongestNameIsLowercase()
    ensures IsLowercase("strict-transport-security")
  {
  }

  lemma NameIsLowercase(index: nat)
    requires index < WELL_KNOWN
    ensures IsLowercase(NameAt(index))
  {
    hide IsLowercase;
    ShortNamesAreLowercase();
    MiddleNamesAreLowercase();
    LongNamesAreLowercase();
    LongestNameIsLowercase();
  }

  lemma WellKnownIsLowercase(name: string)
    requires WellKnown(name) != 0
    ensures IsLowercase(name)
  {
    hide NameAt, Bit, Candidate, IsLowercase;
    NameIsLowercase(Candidate(|name|, name[0]).value);
  }

  lemma {:induction false} PresenceShares(fields: seq<Field>, bit: bv32)
    ensures Shares(Presence(fields), bit) <==> exists i :: 0 <= i < |fields| && Shares(WellKnown(fields[i].name), bit)
  {
    hide Shares, WellKnown, Either;
    if fields == [] {
      SharesItself(bit);
    } else {
      var front := fields[..|fields| - 1];
      PresenceShares(front, bit);
      EitherShares(Presence(front), WellKnown(fields[|fields| - 1].name), bit);
      assert forall i | 0 <= i < |front| :: front[i] == fields[i];
    }
  }

  lemma {:induction false} ValuesIff(fields: seq<Field>, name: string)
    ensures Values(fields, name) != [] <==> exists i :: 0 <= i < |fields| && Lowered(fields[i].name) == Lowered(name)
  {
    hide Lowered;
    if fields != [] {
      var front := fields[..|fields| - 1];
      ValuesIff(front, name);
      assert forall i | 0 <= i < |front| :: front[i] == fields[i];
    }
  }

  /** The index answers for a well-known name exactly as a search of the fields does, and for no other name. */
  lemma AbsentIff(fields: seq<Field>, name: string)
    requires AllLowercase(fields)
    ensures Absent(Presence(fields), name) <==> WellKnown(name) != 0 && Values(fields, name) == []
  {
    hide Shares, WellKnown, Presence, Values, IsLowercase;
    var bit := WellKnown(name);
    if bit != 0 {
      WellKnownIsLowercase(name);
      LowercaseIsLowered(name);
      PresenceShares(fields, bit);
      ValuesIff(fields, name);
      forall i | 0 <= i < |fields|
        ensures Shares(WellKnown(fields[i].name), bit) <==> Lowered(fields[i].name) == Lowered(name)
      {
        NamesShareIff(fields[i].name, name);
        NamesShareIff(name, name);
        LowercaseIsLowered(fields[i].name);
      }
    }
  }

  // --- the section

  /**
   * A section whose bits were handed to it misses no field it holds exactly
   * when those bits have every bit its well-known fields stand for.
   */
  lemma MissesNothingIff(fields: seq<Field>, present: bv32)
    requires AllLowercase(fields)
    ensures (forall name :: Absent(present, name) ==> Values(fields, name) == [])
            <==> forall i | 0 <= i < WELL_KNOWN :: Shares(Presence(fields), Bit(i)) ==> Shares(present, Bit(i))
  {
    hide Shares, WellKnown, Presence, Values, IsLowercase, Bit;
    forall i | 0 <= i < WELL_KNOWN
      ensures Absent(Presence(fields), NameAt(i)) <==> Values(fields, NameAt(i)) == []
      ensures WellKnown(NameAt(i)) == Bit(i) != 0
    {
      AbsentIff(fields, NameAt(i));
      WellKnownNames(i);
      BitsAreDistinct(i, i);
    }
    if forall name :: Absent(present, name) ==> Values(fields, name) == [] {
      forall i | 0 <= i < WELL_KNOWN && Shares(Presence(fields), Bit(i)) ensures Shares(present, Bit(i)) {
        assert !Absent(Presence(fields), NameAt(i));
      }
    }
    if forall i | 0 <= i < WELL_KNOWN :: Shares(Presence(fields), Bit(i)) ==> Shares(present, Bit(i)) {
      forall name | Absent(present, name) ensures Values(fields, name) == [] {
        var i := BitOf(name);
        AbsentIff(fields, name);
      }
    }
  }

  lemma BitOf(name: string) returns (index: nat)
    requires WellKnown(name) != 0
    ensures index < WELL_KNOWN && WellKnown(name) == Bit(index)
  {
    hide NameAt, Bit, Candidate;
    index := Candidate(|name|, name[0]).value;
  }

  lemma PresenceAppends(fields: seq<Field>, field: Field)
    ensures Presence(fields + [field]) == Either(Presence(fields), WellKnown(field.name))
    ensures forall name :: Values(fields + [field], name)
                           == Values(fields, name) + if Lowered(field.name) == Lowered(name) then [field.value] else []
  {
    hide Either, WellKnown, Lowered;
    assert (fields + [field])[..|fields|] == fields;
  }

  lemma {:induction false} OthersAreLowercase(fields: seq<Field>, name: string)
    requires AllLowercase(fields)
    ensures AllLowercase(Others(fields, name))
  {
    hide Lowered, IsLowercase;
    if fields != [] {
      OthersAreLowercase(fields[..|fields| - 1], name);
    }
  }

  /** Every field is either found under a name or among the others. */
  lemma {:induction false} OthersCount(fields: seq<Field>, name: string)
    ensures |Others(fields, name)| + |Values(fields, name)| == |fields|
  {
    hide Lowered;
    if fields != [] {
      OthersCount(fields[..|fields| - 1], name);
    }
  }

  lemma {:induction false} NoneIsAllOthers(fields: seq<Field>, name: string)
    requires Values(fields, name) == []
    ensures Others(fields, name) == fields
  {
    hide Lowered;
    if fields != [] {
      NoneIsAllOthers(fields[..|fields| - 1], name);
      assert fields == fields[..|fields| - 1] + [fields[|fields| - 1]];
    }
  }

  lemma EitherAbsorbs(a: bv32, b: bv32)
    ensures Either(Either(a, b), b) == Either(a, b)
  {
  }

  lemma EitherCommutes(a: bv32, b: bv32)
    ensures Either(a, b) == Either(b, a)
  {
  }

  lemma EitherSwaps(a: bv32, b: bv32, c: bv32)
    ensures Either(Either(a, b), c) == Either(Either(a, c), b)
  {
    hide Either;
    EitherOrder(a, b, c);
    EitherOrder(a, c, b);
    EitherCommutes(b, c);
  }

  /** Taking a name out loses no bit but its own. */
  lemma {:induction false} OthersPresence(fields: seq<Field>, name: string)
    requires AllLowercase(fields) && IsLowercase(name)
    ensures Either(Presence(Others(fields, name)), WellKnown(name)) == Either(Presence(fields), WellKnown(name))
  {
    hide Either, WellKnown, IsLowercase;
    if fields != [] {
      var front, last := fields[..|fields| - 1], fields[|fields| - 1];
      var bit, own := WellKnown(name), WellKnown(last.name);
      OthersPresence(front, name);
      LowercaseIsLowered(name);
      LowercaseIsLowered(last.name);
      var kept := Others(front, name);
      if last.name == name {
        assert kept + [] == kept;
        EitherAbsorbs(Presence(front), bit);
      } else {
        assert (kept + [last])[..|kept|] == kept;
        EitherSwaps(Presence(kept), own, bit);
        EitherSwaps(Presence(front), own, bit);
      }
    }
  }

  /** Taking a name out takes its values out and leaves every other name's. */
  lemma {:induction false} OthersKeepOtherValues(fields: seq<Field>, name: string, other: string)
    ensures Values(Others(fields, name), other)
            == if Lowered(other) == Lowered(name) then [] else Values(fields, other)
  {
    hide Lowered;
    if fields != [] {
      var front, last := fields[..|fields| - 1], fields[|fields| - 1];
      OthersKeepOtherValues(front, name, other);
      var kept := Others(front, name);
      assert (kept + [last])[..|kept|] == kept && kept + [] == kept;
    }
  }

  lemma {:induction false} OthersFold(fields: seq<Field>, name: string, other: string)
    requires Lowered(name) == Lowered(other)
    ensures Others(fields, name) == Others(fields, other)
  {
    hide Lowered;
    if fields != [] {
      OthersFold(fields[..|fields| - 1], name, other);
    }
  }

  lemma AllLowercaseAppends(fields: seq<Field>, field: Field)
    requires AllLowercase(fields) && IsLowercase(field.name)
    ensures AllLowercase(fields + [field])
  {
  }

  class Section {
    var fields: seq<Field>
    var present: bv32

    ghost predicate Valid()
      reads this
    {
      AllLowercase(fields) && present == Presence(fields)
    }

    constructor ()
      ensures Valid() && fields == []
    {
      fields, present := [], 0;
    }

    /** Takes a list of fields as a section, folding the names that need it. */
    constructor FromFields(given: seq<Field>)
      ensures Valid() && |fields| == |given|
      ensures forall i :: 0 <= i < |given| ==> fields[i] == Field(Lowered(given[i].name), given[i].value)
    {
      var folded: seq<Field> := [];
      for i := 0 to |given|
        invariant |folded| == i && AllLowercase(folded)
        invariant forall k :: 0 <= k < i ==> folded[k] == Field(Lowered(given[k].name), given[k].value)
      {
        LowercaseIsLowered(given[i].name);
        var name := if IsLowercase(given[i].name) then given[i].name else Lowered(given[i].name);
        folded := folded + [Field(name, given[i].value)];
      }
      fields, present := folded, Presence(folded);
    }

    /** Takes fields and bits already worked out, as the caller promises they were. */
    constructor Adopt(given: seq<Field>, present: bv32)
      requires AllLowercase(given) && present == Presence(given)
      ensures Valid() && fields == given
    {
      this.fields, this.present := given, present;
    }

    method Contains(name: string) returns (found: bool)
      requires Valid()
      ensures found <==> Values(fields, name) != []
    {
      hide Absent, AllLowercase, Presence, Named;
      AbsentIff(fields, name);
      ValuesIff(fields, name);
      if Absent(present, name) {
        return false;
      }
      for i := 0 to |fields|
        invariant forall k :: 0 <= k < i ==> Lowered(fields[k].name) != Lowered(name)
      {
        NamedIff(fields[i].name, name);
        if Named(fields[i].name, name) {
          return true;
        }
      }
      return false;
    }

    method GetAll(name: string) returns (values: seq<string>)
      requires Valid()
      ensures values == Values(fields, name)
    {
      hide Absent, AllLowercase, Presence, Named;
      AbsentIff(fields, name);
      values := [];
      if Absent(present, name) {
        return;
      }
      for i := 0 to |fields|
        invariant values == Values(fields[..i], name)
      {
        assert fields[..i + 1][..i] == fields[..i];
        NamedIff(fields[i].name, name);
        if Named(fields[i].name, name) {
          values := values + [fields[i].value];
        }
      }
      assert fields[..|fields|] == fields;
    }

    method Get(name: string) returns (value: Option<string>)
      requires Valid()
      ensures value == if Values(fields, name) == [] then None else Some(Values(fields, name)[0])
    {
      hide Absent, AllLowercase, Presence, Named;
      AbsentIff(fields, name);
      if Absent(present, name) {
        return None;
      }
      for i := 0 to |fields|
        invariant Values(fields[..i], name) == []
      {
        assert fields[..i + 1][..i] == fields[..i];
        NamedIff(fields[i].name, name);
        if Named(fields[i].name, name) {
          ValuesPrefix(fields, i + 1, name);
          return Some(fields[i].value);
        }
      }
      assert fields[..|fields|] == fields;
      return None;
    }

    method Append(name: string, value: string)
      requires Valid()
      modifies this
      ensures Valid() && fields == old(fields) + [Field(Lowered(name), value)]
    {
      hide Presence, WellKnown, Either;
      var lowered := Lowered(name);
      LowercaseIsLowered(name);
      PresenceAppends(fields, Field(lowered, value));
      present := Either(present, WellKnown(lowered));
      fields := fields + [Field(lowered, value)];
    }

    method AppendLowercase(name: string, value: string)
      requires Valid() && IsLowercase(name)
      modifies this
      ensures Valid() && fields == old(fields) + [Field(name, value)]
    {
      hide Presence, WellKnown, Either;
      PresenceAppends(fields, Field(name, value));
      present := Either(present, WellKnown(name));
      fields := fields + [Field(name, value)];
    }

    /** Adds a field at the end in place of every field of its name. */
    method Insert(name: string, value: string)
      requires Valid()
      modifies this
      ensures Valid() && fields == Others(old(fields), name) + [Field(Lowered(name), value)]
    {
      hide Absent, AllLowercase, Presence, WellKnown, Either, Others, Values, IsLowercase;
      var lowered := Lowered(name);
      LoweredTwice(name);
      LowercaseIsLowered(name);
      OthersFold(fields, name, lowered);
      AbsentIff(fields, lowered);
      if Values(fields, lowered) == [] {
        NoneIsAllOthers(fields, lowered);
      }
      OthersAreLowercase(fields, lowered);
      OthersPresence(fields, lowered);
      PresenceAppends(Others(fields, lowered), Field(lowered, value));
      if !Absent(present, lowered) {
        fields := Others(fields, lowered);
      }
      present := Either(present, WellKnown(lowered));
      fields := fields + [Field(lowered, value)];
      AllLowercaseAppends(fields[..|fields| - 1], fields[|fields| - 1]);
    }

    /** Drops every field of a name, saying whether any were there. */
    method Remove(name: string) returns (removed: bool)
      requires Valid()
      modifies this
      ensures Valid() && fields == Others(old(fields), name)
      ensures removed <==> Values(old(fields), name) != []
    {
      hide Absent, AllLowercase, Presence;
      AbsentIff(fields, name);
      OthersAreLowercase(fields, name);
      OthersCount(fields, name);
      if Absent(present, name) {
        NoneIsAllOthers(fields, name);
        return false;
      }
      var length := |fields|;
      ghost var before := fields;
      fields := Others(fields, name);
      if |fields| == length {
        NoneIsAllOthers(before, name);
        return false;
      }
      present := Presence(fields);
      return true;
    }
  }

  lemma {:induction false} ValuesPrefix(fields: seq<Field>, count: nat, name: string)
    requires count <= |fields|
    ensures Values(fields[..count], name) <= Values(fields, name)
  {
    hide Lowered;
    if count < |fields| {
      var front := fields[..|fields| - 1];
      ValuesPrefix(front, count, name);
      assert front[..count] == fields[..count];
    } else {
      assert fields[..count] == fields;
    }
  }
}
