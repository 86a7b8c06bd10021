/**
 Vector clocks: a map from replica id to a counter, with absent ids reading
 as 0. The comparison functions are defined over the union of the two key
 sets; the `...Scan` methods follow the loops the clock class actually runs
 and are proved to compute the same answers.
 */
module VectorClocks {
  import opened Enumerations

  type Clock = map<int, nat>

  /** getValue: the stored counter, or 0 for an id the clock has never seen. */
  function GetValue(c: Clock, id: int): nat {
    if id in c then c[id] else 0
  }

  /** Every id mentioned by either clock. */
  function Ids(a: Clock, b: Clock): set<int> {
    a.Keys + b.Keys
  }

  function Max(x: nat, y: nat): nat {
    if x < y then y else x
  }

  /** increment: an absent id starts at 1, a present one goes up by one, and
      no other entry is touched. */
  function Increment(c: Clock, id: int): (r: Clock)
    ensures r.Keys == c.Keys + {id}
    ensures GetValue(r, id) == GetValue(c, id) + 1
    ensures id !in c ==> r[id] == 1
    ensures forall k :: k in c && k != id ==> r[k] == c[k]
  {
    if id !in c then c[id := 1] else c[id := c[id] + 1]
  }

  /** mergeEntry: raise one entry to the larger of the two values. */
  function MergeEntry(c: Clock, v: Clock, id: int): Clock {
    c[id := Max(GetValue(c, id), GetValue(v, id))]
  }

  /** The pointwise maximum over the union of ids. */
  function Merge(a: Clock, b: Clock): Clock {
    map k | k in Ids(a, b) :: Max(GetValue(a, k), GetValue(b, k))
  }

  /** One pass of merge: mergeEntry for each id of `ids` in turn. */
  method MergeEntries(c: Clock, v: Clock, ids: seq<int>) returns (r: Clock)
    ensures forall k :: k in r <==> k in c || k in ids
    ensures forall k :: k in r && k in ids ==> r[k] == Max(GetValue(c, k), GetValue(v, k))
    ensures forall k :: k in r && k !in ids ==> r[k] == c[k]
  {
    r := c;
    for i := 0 to |ids|
      invariant forall k :: k in r <==> k in c || k in ids[..i]
      invariant forall k :: k in r && k in ids[..i] ==> r[k] == Max(GetValue(c, k), GetValue(v, k))
      invariant forall k :: k in r && k !in ids[..i] ==> r[k] == c[k]
    {
      assert ids[..i + 1] == ids[..i] + [ids[i]];
      r := MergeEntry(r, v, ids[i]);
    }
    assert ids[..|ids|] == ids;
  }

  /** merge as the clock class runs it: mergeEntry for every id of this
      clock, then for every id of the other one, each in its map's iteration
      order. The result is the pointwise maximum whatever those orders are. */
  method MergeScan(a: Clock, v: Clock, aOrder: seq<int>, vOrder: seq<int>) returns (r: Clock)
    requires Enumerates(aOrder, a.Keys) && Enumerates(vOrder, v.Keys)
    ensures r == Merge(a, v)
  {
    var half := MergeEntries(a, v, aOrder);
    r := MergeEntries(half, v, vOrder);
    forall k | k in r.Keys
      ensures k in Ids(a, v)
    {
      if k !in a.Keys {
        var i :| 0 <= i < |vOrder| && vOrder[i] == k;
      }
    }
    forall k | k in Ids(a, v)
      ensures k in r.Keys
    {
    }
    forall k | k in r
      ensures r[k] == Max(GetValue(a, k), GetValue(v, k))
    {
    }
  }

  /** a is nowhere ahead of b. */
  predicate DominatedBy(a: Clock, b: Clock) {
    forall k :: k in Ids(a, b) ==> GetValue(a, k) <= GetValue(b, k)
  }

  /** happensBefore: b is at least a at every id and strictly more at one. */
  predicate HappensBefore(a: Clock, b: Clock) {
    DominatedBy(a, b) && exists k :: k in Ids(a, b) && GetValue(a, k) < GetValue(b, k)
  }

  /** concurrent: a is behind at some id and ahead at another. */
  predicate Concurrent(a: Clock, b: Clock) {
    && (exists k :: k in Ids(a, b) && GetValue(a, k) < GetValue(b, k))
    && (exists k :: k in Ids(a, b) && GetValue(a, k) > GetValue(b, k))
  }

  /** The two clocks read the same at every id (absent reads as 0). */
  predicate SameValues(a: Clock, b: Clock) {
    forall k :: k in Ids(a, b) ==> GetValue(a, k) == GetValue(b, k)
  }

  /** equals: identical key sets and identical counters. */
  predicate SameClock(a: Clock, b: Clock) {
    |a| == |b| && forall k :: k in b ==> k in a && a[k] == b[k]
  }

  /** copyVectorClock: a fresh clock with exactly the argument's entries. */
  function Copy(c: Clock): (r: Clock)
    ensures r == c
  {
    map k | k in c :: c[k]
  }

  /** Domination holds at every id, not only at those the clocks mention. */
  lemma DominatedEverywhere(a: Clock, b: Clock, k: int)
    requires DominatedBy(a, b)
    ensures GetValue(a, k) <= GetValue(b, k)
  {
    if k !in Ids(a, b) {
      assert GetValue(a, k) == 0;
    }
  }

  /** One of the two loops of happensBefore: visit the given ids, stop with
      `ok` false as soon as `a` is ahead of `v` at one of them, and record in
      `notEqual` whether `v` was seen strictly ahead. */
  method ScanIds(a: Clock, v: Clock, ids: seq<int>, notEqual0: bool) returns (ok: bool, notEqual: bool)
    ensures ok <==> forall k :: k in ids ==> GetValue(a, k) <= GetValue(v, k)
    ensures ok ==> (notEqual <==> notEqual0 || exists k :: k in ids && GetValue(a, k) < GetValue(v, k))
  {
    notEqual := notEqual0;
    for i := 0 to |ids|
      invariant forall k :: k in ids[..i] ==> GetValue(a, k) <= GetValue(v, k)
      invariant notEqual <==> notEqual0 || exists k :: k in ids[..i] && GetValue(a, k) < GetValue(v, k)
    {
      var k := ids[i];
      assert ids[..i + 1] == ids[..i] + [k];
      if GetValue(v, k) < GetValue(a, k) {
        return false, notEqual;
      } else if GetValue(v, k) > GetValue(a, k) {
        notEqual := true;
      }
    }
    assert ids[..|ids|] == ids;
    return true, notEqual;
  }

  /** happensBefore as the clock class runs it: give up on an empty argument,
      then scan the argument's ids and this clock's ids, failing as soon as
      this clock is ahead somewhere. */
  method HappensBeforeScan(a: Clock, v: Clock, aOrder: seq<int>, vOrder: seq<int>) returns (r: bool)
    requires Enumerates(aOrder, a.Keys) && Enumerates(vOrder, v.Keys)
    ensures r == HappensBefore(a, v)
  {
    if |v| == 0 {
      HappensBeforeNeedsEntries(a, v);
      return false;
    }
    var ok, notEqual := ScanIds(a, v, vOrder, false);
    if !ok {
      return false;
    }
    ok, notEqual := ScanIds(a, v, aOrder, notEqual);
    if !ok {
      return false;
    }
    return notEqual;
  }

  /** Nothing happens before the empty clock, so the early exit on an empty
      argument never changes the answer. */
  lemma HappensBeforeNeedsEntries(a: Clock, v: Clock)
    requires |v| == 0
    ensures !HappensBefore(a, v)
  {
    assert v == map[];
    forall k | k in Ids(a, v)
      ensures GetValue(v, k) == 0
    {
    }
  }

  /** concurrent as the clock class runs it: collect both key sets, then
      count the ids where this clock is behind and those where it is ahead. */
  method ConcurrentScan(a: Clock, v: Clock, keys: seq<int>) returns (r: bool)
    requires Enumerates(keys, Ids(a, v))
    ensures r == Concurrent(a, v)
  {
    var before: nat := 0;
    var after: nat := 0;
    for i := 0 to |keys|
      invariant before != 0 <==> exists k :: k in keys[..i] && GetValue(a, k) < GetValue(v, k)
      invariant after != 0 <==> exists k :: k in keys[..i] && GetValue(a, k) > GetValue(v, k)
    {
      var k := keys[i];
      assert keys[..i + 1] == keys[..i] + [k];
      if GetValue(a, k) < GetValue(v, k) {
        before := before + 1;
      } else if GetValue(a, k) > GetValue(v, k) {
        after := after + 1;
      }
    }
    assert keys[..|keys|] == keys;
    return before != 0 && after != 0;
  }

  lemma HappensBeforeIrreflexive(a: Clock)
    ensures !HappensBefore(a, a)
  {
  }

  lemma {:induction false} HappensBeforeTransitive(a: Clock, b: Clock, c: Clock)
    requires HappensBefore(a, b) && HappensBefore(b, c)
    ensures HappensBefore(a, c)
  {
    forall k | k in Ids(a, c)
      ensures GetValue(a, k) <= GetValue(c, k)
    {
      DominatedEverywhere(a, b, k);
      DominatedEverywhere(b, c, k);
    }
    var j :| j in Ids(a, b) && GetValue(a, j) < GetValue(b, j);
    DominatedEverywhere(b, c, j);
    assert j in Ids(a, c) by {
      if j !in a { assert GetValue(c, j) > 0; }
    }
  }

  lemma ConcurrentSymmetric(a: Clock, b: Clock)
    ensures Concurrent(a, b) <==> Concurrent(b, a)
  {
    assert Ids(a, b) == Ids(b, a);
  }

  /** For any two clocks exactly one holds: they read the same everywhere,
      one happens before the other (either way), or they are concurrent. */
  lemma Trichotomy(a: Clock, b: Clock)
    ensures SameValues(a, b) || HappensBefore(a, b) || HappensBefore(b, a) || Concurrent(a, b)
    ensures SameValues(a, b) ==> !HappensBefore(a, b) && !HappensBefore(b, a) && !Concurrent(a, b)
    ensures HappensBefore(a, b) ==> !HappensBefore(b, a) && !Concurrent(a, b)
    ensures HappensBefore(b, a) ==> !Concurrent(a, b)
  {
    assert Ids(a, b) == Ids(b, a);
  }

  /** equals is map equality: same key set, same counters. */
  lemma {:induction false} SameClockIsEquality(a: Clock, b: Clock)
    ensures SameClock(a, b) <==> a == b
  {
    if SameClock(a, b) {
      forall k | k in b.Keys
        ensures k in a.Keys
      {
      }
      assert |a.Keys - b.Keys| == |a.Keys| - |b.Keys| == 0;
      forall k | k in a.Keys
        ensures k in b.Keys
      {
        assert k !in a.Keys - b.Keys;
      }
      forall k | k in a
        ensures a[k] == b[k]
      {
      }
    }
  }

  /** equals is sensitive to keys: {1:0} and {} read the same everywhere,
      neither happens before the other and they are not concurrent, yet
      they are not equal. */
  lemma EqualsIsKeySensitive()
    ensures var a: Clock := map[1 := 0];
            var b: Clock := map[];
            && SameValues(a, b) && !SameClock(a, b)
            && !HappensBefore(a, b) && !HappensBefore(b, a) && !Concurrent(a, b)
  {
    var a: Clock := map[1 := 0];
    var b: Clock := map[];
    assert 1 in a;
  }

  lemma MergeCommutative(a: Clock, b: Clock)
    ensures Merge(a, b) == Merge(b, a)
  {
    assert Ids(a, b) == Ids(b, a);
  }

  lemma MergeIdempotent(a: Clock, b: Clock)
    ensures Merge(a, a) == a
    ensures Merge(Merge(a, b), b) == Merge(a, b)
  {
  }

  lemma MergeAssociative(a: Clock, b: Clock, c: Clock)
    ensures Merge(Merge(a, b), c) == Merge(a, Merge(b, c))
  {
  }

  /** The merge is the least clock that both arguments are dominated by. */
  lemma MergeIsLeastUpperBound(a: Clock, b: Clock, c: Clock)
    ensures DominatedBy(a, Merge(a, b)) && DominatedBy(b, Merge(a, b))
    ensures DominatedBy(a, c) && DominatedBy(b, c) ==> DominatedBy(Merge(a, b), c)
  {
    if DominatedBy(a, c) && DominatedBy(b, c) {
      forall k | k in Ids(Merge(a, b), c)
        ensures GetValue(Merge(a, b), k) <= GetValue(c, k)
      {
        DominatedEverywhere(a, c, k);
        DominatedEverywhere(b, c, k);
      }
    }
  }

  /** Merging in a remote clock and then counting one local event gives a
      clock strictly after both inputs. */
  lemma MergeThenIncrementDominates(local: Clock, remote: Clock, id: int)
    ensures HappensBefore(local, Increment(Merge(local, remote), id))
    ensures HappensBefore(remote, Increment(Merge(local, remote), id))
  {
    var r := Increment(Merge(local, remote), id);
    assert id in Ids(local, r) && id in Ids(remote, r);
    assert GetValue(local, id) < GetValue(r, id);
    assert GetValue(remote, id) < GetValue(r, id);
  }

  /** Incrementing moves a clock strictly forward. */
  lemma IncrementAdvances(c: Clock, id: int)
    ensures HappensBefore(c, Increment(c, id))
  {
    assert id in Ids(c, Increment(c, id));
  }
}
