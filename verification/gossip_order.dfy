/**
 The pieces of gossip reception that decide in what order students are
 considered and whose capacity and open flag win: the union of both
 replicas' time stamps keeping the later one, the stable sort of students
 by stamp, the "is the remote better informed about the primary" test, and
 the resolution of the scalar fields.
 */
module GossipOrder {
  import opened Enumerations
  import opened VectorClocks
  import opened Classes

  /** allStudents: every student either replica has a stamp for, with the
      later of the two stamps where both have one. */
  function LatestStamps(local: map<StudentId, Instant>, remote: map<StudentId, Instant>): (all: map<StudentId, Instant>)
    ensures forall k :: k in all <==> k in local || k in remote
    ensures forall k :: k in all ==> (k in local ==> local[k] <= all[k]) && (k in remote ==> remote[k] <= all[k])
    ensures forall k :: k in all ==> (k in local && all[k] == local[k]) || (k in remote && all[k] == remote[k])
  {
    map k | k in local.Keys + remote.Keys ::
      if k in remote && (k !in local || local[k] < remote[k]) then remote[k] else local[k]
  }

  /** The later-stamp union does not depend on which replica is local. */
  lemma LatestStampsSymmetric(a: map<StudentId, Instant>, b: map<StudentId, Instant>)
    ensures LatestStamps(a, b) == LatestStamps(b, a)
  {
    var x := LatestStamps(a, b);
    var y := LatestStamps(b, a);
    forall k | k in x.Keys
      ensures k in y.Keys
    {
    }
    forall k | k in y.Keys
      ensures k in x.Keys
    {
    }
  }

  /** `s` lists students in non-decreasing stamp order. */
  predicate SortedByStamp(s: seq<StudentId>, stamps: map<StudentId, Instant>)
    requires forall i :: 0 <= i < |s| ==> s[i] in stamps
  {
    forall i, j :: 0 <= i < j < |s| ==> stamps[s[i]] <= stamps[s[j]]
  }

  /** Insert `x` after every element whose stamp is not larger than its
      own, so equal stamps keep their order. */
  function Insert(x: StudentId, s: seq<StudentId>, stamps: map<StudentId, Instant>): (r: seq<StudentId>)
    requires x in stamps && forall i :: 0 <= i < |s| ==> s[i] in stamps
    ensures multiset(r) == multiset(s) + multiset{x}
    ensures forall i :: 0 <= i < |r| ==> r[i] in stamps
  {
    if |s| == 0 then [x]
    else if stamps[s[|s| - 1]] <= stamps[x] then
      var r := s + [x];
      assert multiset(r) == multiset(s) + multiset{x};
      r
    else
      var init := s[..|s| - 1];
      assert s == init + [s[|s| - 1]];
      var r := Insert(x, init, stamps) + [s[|s| - 1]];
      assert multiset(r) == multiset(Insert(x, init, stamps)) + multiset{s[|s| - 1]};
      r
  }

  /** Inserting into a sorted sequence keeps it sorted. */
  lemma {:induction false} InsertSorted(x: StudentId, s: seq<StudentId>, stamps: map<StudentId, Instant>)
    requires x in stamps && forall i :: 0 <= i < |s| ==> s[i] in stamps
    requires SortedByStamp(s, stamps)
    ensures SortedByStamp(Insert(x, s, stamps), stamps)
  {
    if |s| > 0 && stamps[s[|s| - 1]] > stamps[x] {
      var last := s[|s| - 1];
      var init := s[..|s| - 1];
      InsertSorted(x, init, stamps);
      var q := Insert(x, init, stamps);
      forall i | 0 <= i < |q|
        ensures stamps[q[i]] <= stamps[last]
      {
        assert q[i] in multiset(init) + multiset{x};
        if q[i] != x {
          assert q[i] in init;
        }
      }
    }
  }

  /** sortByValue: the entries ordered by stamp, ascending (the comment in
      the code says descending, the comparator sorts ascending), ties in
      the hash map's iteration order. */
  function SortByStamp(ids: seq<StudentId>, stamps: map<StudentId, Instant>): (r: seq<StudentId>)
    requires forall i :: 0 <= i < |ids| ==> ids[i] in stamps
    ensures multiset(r) == multiset(ids)
    ensures forall i :: 0 <= i < |r| ==> r[i] in stamps
    ensures SortedByStamp(r, stamps)
  {
    if |ids| == 0 then []
    else
      var init := ids[..|ids| - 1];
      assert ids == init + [ids[|ids| - 1]];
      var sorted := SortByStamp(init, stamps);
      InsertSorted(ids[|ids| - 1], sorted, stamps);
      Insert(ids[|ids| - 1], sorted, stamps)
  }

  /** Sorting an enumeration of the stamped students gives an enumeration
      of them again, now in stamp order. */
  lemma {:induction false} SortKeepsEnumeration(ids: seq<StudentId>, stamps: map<StudentId, Instant>)
    requires Enumerates(ids, stamps.Keys)
    ensures Enumerates(SortByStamp(ids, stamps), stamps.Keys)
  {
    var r := SortByStamp(ids, stamps);
    forall k | k in stamps.Keys
      ensures k in r
    {
      assert multiset(ids)[k] > 0;
    }
    forall i, j | 0 <= i < j < |r|
      ensures r[i] != r[j]
    {
      if r[i] == r[j] {
        DistinctCount(ids, r[i]);
        TwiceCounted(r, i, j);
      }
    }
  }

  /** A duplicate-free sequence holds each value at most once. */
  lemma {:induction false} DistinctCount(s: seq<StudentId>, x: StudentId)
    requires Distinct(s)
    ensures multiset(s)[x] <= 1
  {
    if |s| > 0 {
      var n := |s| - 1;
      assert s == s[..n] + [s[n]];
      DistinctPrefix(s, n);
      DistinctCount(s[..n], x);
      if x == s[n] {
        assert multiset(s[..n])[x] == 0;
      }
    }
  }

  /** A value at two positions is counted at least twice. */
  lemma {:induction false} TwiceCounted(s: seq<StudentId>, i: nat, j: nat)
    requires i < j < |s| && s[i] == s[j]
    ensures multiset(s)[s[i]] >= 2
  {
    assert s == s[..j] + [s[j]] + s[j + 1..];
    assert s[..j] == s[..i] + [s[i]] + s[i + 1..j];
    assert multiset(s[..j])[s[i]] >= 1;
  }

  /** isRemoteMoreUpToDate: the first id of the local clock, in iteration
      order, that belongs to neither replica stands for the primary; the
      remote is better informed when it has that entry and it is not behind
      the local one. With no such id the remote wins. */
  function RemoteKnowsMore(local: Clock, localOrder: seq<int>, localId: int, remote: Clock, remoteId: int): (b: bool)
    ensures (forall i :: 0 <= i < |localOrder| ==> localOrder[i] == localId || localOrder[i] == remoteId) ==> b
    ensures !b ==> exists k :: k in local && k != localId && k != remoteId && (k !in remote || local[k] > remote[k])
  {
    if |localOrder| == 0 then true
    else
      var k := localOrder[0];
      if k != localId && k != remoteId then
        if k !in local then true
        else if k !in remote then false
        else local[k] <= remote[k]
      else RemoteKnowsMore(local, localOrder[1..], localId, remote, remoteId)
  }

  /** With exactly one id besides the two replicas' own, the answer does
      not depend on the iteration order: the remote must have that entry at
      least as high as the local clock. */
  lemma {:induction false} RemoteKnowsMoreAboutThirdId(local: Clock, localOrder: seq<int>, localId: int, remote: Clock, remoteId: int, p: int)
    requires Enumerates(localOrder, local.Keys)
    requires p in local && p != localId && p != remoteId
    requires forall k :: k in local ==> k == localId || k == remoteId || k == p
    ensures RemoteKnowsMore(local, localOrder, localId, remote, remoteId) == (p in remote && local[p] <= remote[p])
  {
    ThirdIdFound(local, localOrder, localId, remote, remoteId, p);
  }

  lemma {:induction false} ThirdIdFound(local: Clock, order: seq<int>, localId: int, remote: Clock, remoteId: int, p: int)
    requires forall i :: 0 <= i < |order| ==> order[i] in local
    requires p in order && p in local
    requires forall i :: 0 <= i < |order| ==> order[i] == localId || order[i] == remoteId || order[i] == p
    requires p != localId && p != remoteId
    ensures RemoteKnowsMore(local, order, localId, remote, remoteId) == (p in remote && local[p] <= remote[p])
  {
    if order[0] != p {
      assert order == [order[0]] + order[1..];
      ThirdIdFound(local, order[1..], localId, remote, remoteId, p);
    }
  }

  /** A clock with no id besides the two replicas' own never lets the
      local replica win. */
  lemma {:induction false} RemoteKnowsMoreWithoutThirdId(local: Clock, order: seq<int>, localId: int, remote: Clock, remoteId: int)
    requires forall i :: 0 <= i < |order| ==> order[i] == localId || order[i] == remoteId
    ensures RemoteKnowsMore(local, order, localId, remote, remoteId)
  {
    if |order| > 0 {
      RemoteKnowsMoreWithoutThirdId(local, order[1..], localId, remote, remoteId);
    }
  }

  /** The capacity and open flag after concurrent gossip: when the replicas
      disagree on either, a remote primary wins, then a local primary, and
      between two secondaries the one better informed about the primary. */
  function ResolveScalars(local: ClassState, localQualifiers: seq<string>, remote: ClassState, remoteQualifier: string,
                          remoteKnowsMore: bool): (r: (bool, int))
    requires |localQualifiers| > 0
    ensures r == (local.open, local.capacity) || r == (remote.open, remote.capacity)
    ensures local.open == remote.open && local.capacity == remote.capacity ==> r == (local.open, local.capacity)
    ensures remoteQualifier == "P" ==> r == (remote.open, remote.capacity)
    ensures remoteQualifier != "P" && localQualifiers[0] == "P" ==> r == (local.open, local.capacity)
    ensures !(local.open == remote.open && local.capacity == remote.capacity) && remoteQualifier != "P" && localQualifiers[0] != "P" ==>
              r == if remoteKnowsMore then (remote.open, remote.capacity) else (local.open, local.capacity)
  {
    if local.open == remote.open && local.capacity == remote.capacity then (local.open, local.capacity)
    else if remoteQualifier == "P" then (remote.open, remote.capacity)
    else if localQualifiers[0] == "P" then (local.open, local.capacity)
    else if remoteKnowsMore then (remote.open, remote.capacity)
    else (local.open, local.capacity)
  }
}
