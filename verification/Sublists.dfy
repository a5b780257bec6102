/** Lists whose elements are some of another's, in its order. */
module Sublists {

  /** Whether indices pick one list out of another, in order. */
  ghost predicate Picks<T>(picks: seq<nat>, part: seq<T>, whole: seq<T>) {
    && |picks| == |part|
    && (forall i :: 0 <= i < |picks| ==> picks[i] < |whole| && part[i] == whole[picks[i]])
    && (forall i, j :: 0 <= i < j < |picks| ==> picks[i] < picks[j])
  }

  ghost predicate Sublist<T>(part: seq<T>, whole: seq<T>) {
    exists picks :: Picks(picks, part, whole)
  }

  function Composed(p: seq<nat>, q: seq<nat>): seq<nat> {
    seq(|p|, i requires 0 <= i < |p| => if p[i] < |q| then q[p[i]] else 0)
  }

  lemma PicksTrans<T>(p: seq<nat>, q: seq<nat>, a: seq<T>, b: seq<T>, c: seq<T>)
    requires Picks(p, a, b) && Picks(q, b, c)
    ensures Picks(Composed(p, q), a, c)
  {
  }

  lemma SublistTrans<T>(a: seq<T>, b: seq<T>, c: seq<T>)
    requires Sublist(a, b) && Sublist(b, c)
    ensures Sublist(a, c)
  {
    hide Picks, Composed;
    var p :| Picks(p, a, b);
    var q :| Picks(q, b, c);
    PicksTrans(p, q, a, b, c);
  }

  lemma SublistSelf<T>(a: seq<T>)
    ensures Sublist(a, a)
  {
    assert Picks(seq(|a|, i => i), a, a);
  }

  /** Appending an element to the whole, and perhaps to the part as well. */
  lemma SublistGrows<T>(part: seq<T>, front: seq<T>, last: T)
    requires Sublist(part, front)
    ensures Sublist(part, front + [last]) && Sublist(part + [last], front + [last])
  {
    var p: seq<nat> :| Picks(p, part, front);
    assert Picks(p, part, front + [last]);
    assert Picks(p + [|front|], part + [last], front + [last]);
  }

  lemma RestIsSublist<T>(entries: seq<T>, start: nat)
    requires start <= |entries|
    ensures Sublist(entries[start..], entries)
  {
    assert Picks(seq(|entries| - start, i => start + i), entries[start..], entries);
  }

  lemma {:induction false} SublistLength<T>(picks: seq<nat>, part: seq<T>, whole: seq<T>)
    requires Picks(picks, part, whole)
    ensures |part| <= |whole|
  {
    if part != [] {
      var last := |part| - 1;
      SublistLength(picks[..last], part[..last], whole[..picks[last]]);
    }
  }

  lemma SublistJoins<T>(a: seq<T>, b: seq<T>, c: seq<T>, d: seq<T>)
    requires Sublist(a, b) && Sublist(c, d)
    ensures Sublist(a + c, b + d)
  {
    var p: seq<nat> :| Picks(p, a, b);
    var q: seq<nat> :| Picks(q, c, d);
    var r := p + seq(|q|, i requires 0 <= i < |q| => |b| + q[i]);
    assert Picks(r, a + c, b + d);
  }

  lemma PrefixIsSublist<T>(part: seq<T>, whole: seq<T>)
    requires part <= whole
    ensures Sublist(part, whole)
  {
    assert Picks(seq(|part|, i => i), part, whole);
  }
}
