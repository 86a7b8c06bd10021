/**
 The receiving side of gossip. The receiver compares the sender's clock
 with its own:
 - when the clocks are concurrent, it merges the two classes;
 - when the sender is strictly ahead, it adopts the sender's class and clock;
 - otherwise it keeps its state.
 It always answers with its resulting class, and with its clock, unless it is
 inactive.
 */
module GossipReceiver {
  import opened Enumerations
  import opened VectorClocks
  import opened ServerStatuses
  import opened Classes
  import opened Responses
  import opened GossipOrder
  import opened GossipMerge
  import opened Wire

  /** What the sender ships: its class, its first qualifier, its clock and
      its id. */
  datatype GossipRequest = GossipRequest(cls: ClassState, qualifier: string, clock: Clock, serverId: int)

  /** The answer: a code, the class as the wire carries it, and a clock. */
  datatype GossipReply = GossipReply(code: ResponseCode, cls: ClassState, clock: Clock)

  /** convertToClass of the request's class state: the sender's class as
      the wire delivers it. */
  function RemoteOf(q: GossipRequest): ClassState {
    WireImage(q.cls)
  }

  /** The receiver's replica after the call, and its answer. */
  datatype Received = Received(replica: Replica, reply: GossipReply)

  /** The capacity and open flag the concurrent branch settles on. */
  function Scalars(r: Replica, q: GossipRequest, clockOrder: seq<int>): (bool, int)
    requires |r.status.qualifiers| > 0
  {
    ResolveScalars(r.cls, r.status.qualifiers, RemoteOf(q), q.qualifier,
                   RemoteKnowsMore(r.status.clock, clockOrder, r.status.serverId, q.clock, q.serverId))
  }

  /** The two classes under merge, with the settled capacity. */
  function MergingOf(r: Replica, q: GossipRequest, clockOrder: seq<int>): Merging
    requires |r.status.qualifiers| > 0
  {
    Merging(r.cls, RemoteOf(q), Scalars(r, q, clockOrder).1)
  }

  /** allStudents: every student stamped on either side, with the later stamp. */
  function AllStudents(r: Replica, q: GossipRequest): map<StudentId, Instant> {
    LatestStamps(r.cls.stamps, RemoteOf(q).stamps)
  }

  /** The merge visits the students sorted by stamp, starting from the hash
      map's own iteration order. */
  function VisitOrder(r: Replica, q: GossipRequest, entryOrder: seq<StudentId>): seq<StudentId>
    requires Enumerates(entryOrder, AllStudents(r, q).Keys)
  {
    SortByStamp(entryOrder, AllStudents(r, q))
  }

  /** The concurrent branch. A sweep aborted by a null dereference still
      answers OK (the reply is built in a finally block) and leaves the local
      class with its scalars settled and its discarded map as the sweep left
      it, clock untouched; a completed sweep installs the merged class and
      moves the clock past both. */
  function MergeConcurrent(v: Variant, r: Replica, q: GossipRequest, clockOrder: seq<int>, entryOrder: seq<StudentId>): (o: Received)
    requires |r.status.qualifiers| > 0
    requires Enumerates(entryOrder, AllStudents(r, q).Keys)
    ensures o.reply.code == Ok && o.reply.cls == WireImage(o.replica.cls) && o.reply.clock == o.replica.status.clock
    ensures (o.replica.cls.open, o.replica.cls.capacity) == Scalars(r, q, clockOrder)
    ensures o.replica.status == r.status.(clock := o.replica.status.clock)
    ensures var s := Sweeping(v, MergingOf(r, q, clockOrder), VisitOrder(r, q, entryOrder));
            && (s.crashed ==> o.replica.status == r.status && o.replica.cls.enrolled == r.cls.enrolled
                              && o.replica.cls.discarded == s.localLeft && o.replica.cls.stamps == r.cls.stamps)
            && (!s.crashed ==> o.replica.cls.enrolled == s.enrolled
                               && o.replica.status.clock == Increment(Merge(r.status.clock, q.clock), r.status.serverId))
  {
    var open := Scalars(r, q, clockOrder).0;
    var m := MergingOf(r, q, clockOrder);
    var s := Sweeping(v, m, VisitOrder(r, q, entryOrder));
    if s.crashed then
      var c := r.cls.(open := open, capacity := m.capacity, discarded := s.localLeft);
      Received(Replica(r.status, c), GossipReply(Ok, WireImage(c), r.status.clock))
    else
      var c := MergedClass(m, open, AllStudents(r, q), s);
      var st := r.status.(clock := Increment(Merge(r.status.clock, q.clock), r.status.serverId));
      Received(Replica(st, c), GossipReply(Ok, WireImage(c), st.clock))
  }

  /** gossip, on the receiving replica `r`. `clockOrder` and `entryOrder` are
      the iteration orders of the local clock and of allStudents. */
  function ReceiveGossip(v: Variant, r: Replica, q: GossipRequest, clockOrder: seq<int>, entryOrder: seq<StudentId>): (o: Received)
    requires |r.status.qualifiers| > 0
    requires Enumerates(clockOrder, r.status.clock.Keys)
    requires Enumerates(entryOrder, AllStudents(r, q).Keys)
    ensures o.reply.code == InactiveServer <==> !r.status.active
    ensures o.reply.code == Ok || o.reply.code == InactiveServer
    ensures !r.status.active ==> o.replica == r && o.reply.cls == WireImage(r.cls) && o.reply.clock == q.clock
    ensures r.status.active ==> o.reply.cls == WireImage(o.replica.cls) && o.reply.clock == o.replica.status.clock
    ensures o.replica.status == r.status.(clock := o.replica.status.clock)
    ensures r.status.active && HappensBefore(r.status.clock, q.clock) ==>
              o.replica.cls == WireImage(q.cls) && o.replica.status.clock == q.clock
    ensures r.status.active && !HappensBefore(r.status.clock, q.clock) && !Concurrent(r.status.clock, q.clock) ==>
              o.replica == r
  {
    Trichotomy(r.status.clock, q.clock);
    if !r.status.active then Received(r, GossipReply(InactiveServer, WireImage(r.cls), q.clock))
    else if Concurrent(r.status.clock, q.clock) then MergeConcurrent(v, r, q, clockOrder, entryOrder)
    else if HappensBefore(r.status.clock, q.clock) then
      var adopted := Update(r, RemoteOf(q)).replica;
      var st := SetVectorClock(adopted.status, q.clock);
      Received(Replica(st, adopted.cls), GossipReply(Ok, WireImage(adopted.cls), st.clock))
    else Received(r, GossipReply(Ok, WireImage(r.cls), r.status.clock))
  }

  /** Concurrent gossip settles capacity and open flag together, from one
      side: the remote's if it is the primary, the local's if the local is
      and the remote is not, and between two secondaries the remote's exactly
      when isRemoteMoreUpToDate holds; nothing changes when the sides
      already agree. */
  lemma {:induction false} ConcurrentScalars(v: Variant, r: Replica, q: GossipRequest, clockOrder: seq<int>, entryOrder: seq<StudentId>)
    requires |r.status.qualifiers| > 0
    requires Enumerates(clockOrder, r.status.clock.Keys)
    requires Enumerates(entryOrder, AllStudents(r, q).Keys)
    requires r.status.active && Concurrent(r.status.clock, q.clock)
    ensures var c := ReceiveGossip(v, r, q, clockOrder, entryOrder).replica.cls;
            && ((c.open, c.capacity) == (r.cls.open, r.cls.capacity) || (c.open, c.capacity) == (q.cls.open, q.cls.capacity))
            && (q.qualifier == "P" ==> (c.open, c.capacity) == (q.cls.open, q.cls.capacity))
            && (q.qualifier != "P" && r.status.qualifiers[0] == "P" ==> (c.open, c.capacity) == (r.cls.open, r.cls.capacity))
            && (r.cls.open == q.cls.open && r.cls.capacity == q.cls.capacity ==> (c.open, c.capacity) == (r.cls.open, r.cls.capacity))
            && (!(r.cls.open == q.cls.open && r.cls.capacity == q.cls.capacity) && q.qualifier != "P" && r.status.qualifiers[0] != "P" ==>
                  (c.open, c.capacity) ==
                    if RemoteKnowsMore(r.status.clock, clockOrder, r.status.serverId, q.clock, q.serverId)
                    then (q.cls.open, q.cls.capacity) else (r.cls.open, r.cls.capacity))
  {
    var o := ReceiveGossip(v, r, q, clockOrder, entryOrder);
    assert o == MergeConcurrent(v, r, q, clockOrder, entryOrder);
    assert (o.replica.cls.open, o.replica.cls.capacity) == Scalars(r, q, clockOrder);
  }

  /** A sweep aborted by a null dereference leaves the local class with its
      enrolled map and stamps as they were and its discarded map cut down to
      the unvisited entries; the clock does not move. The reply, read through
      the wire, stamps exactly the students it lists, even though the local
      class may now keep stamps of students it no longer lists. */
  lemma {:induction false} AbortedMergeReply(v: Variant, r: Replica, q: GossipRequest, clockOrder: seq<int>, entryOrder: seq<StudentId>)
    requires |r.status.qualifiers| > 0
    requires Enumerates(clockOrder, r.status.clock.Keys)
    requires Enumerates(entryOrder, AllStudents(r, q).Keys)
    requires r.status.active && Concurrent(r.status.clock, q.clock) && Tracked(r.cls)
    requires Sweeping(v, MergingOf(r, q, clockOrder), VisitOrder(r, q, entryOrder)).crashed
    ensures var o := ReceiveGossip(v, r, q, clockOrder, entryOrder);
            && o.replica.status == r.status
            && o.replica.cls.enrolled == r.cls.enrolled && o.replica.cls.stamps == r.cls.stamps
            && o.replica.cls.discarded.Keys <= r.cls.discarded.Keys
            && (forall k :: k in o.replica.cls.discarded ==> o.replica.cls.discarded[k] == r.cls.discarded[k])
            && o.reply.cls == WireImage(o.replica.cls) && Tracked(o.reply.cls)
  {
    var m := MergingOf(r, q, clockOrder);
    var ids := VisitOrder(r, q, entryOrder);
    SortKeepsEnumeration(entryOrder, AllStudents(r, q));
    SweepBookkeeping(v, m, ids);
    var o := ReceiveGossip(v, r, q, clockOrder, entryOrder);
    assert o == MergeConcurrent(v, r, q, clockOrder, entryOrder);
    assert Stamped(o.replica.cls);
  }

  /** The conditions under which the concurrent merge completes: both
      classes tracked, and every student discarded on either side stamped on
      both. */
  predicate MergeCompletes(r: Replica, q: GossipRequest, clockOrder: seq<int>)
    requires |r.status.qualifiers| > 0
  {
    Tracked(r.cls) && Tracked(RemoteOf(q)) && Comparable(MergingOf(r, q, clockOrder))
  }

  /** A completed concurrent merge moves the receiver's clock strictly past
      both its own and the sender's, and installs, for every student either
      side knows, the later of the two stamps. */
  lemma {:induction false} ConcurrentMergeAdvances(v: Variant, r: Replica, q: GossipRequest, clockOrder: seq<int>, entryOrder: seq<StudentId>)
    requires |r.status.qualifiers| > 0
    requires Enumerates(clockOrder, r.status.clock.Keys)
    requires Enumerates(entryOrder, AllStudents(r, q).Keys)
    requires r.status.active && Concurrent(r.status.clock, q.clock)
    requires MergeCompletes(r, q, clockOrder)
    ensures var o := ReceiveGossip(v, r, q, clockOrder, entryOrder);
            && HappensBefore(r.status.clock, o.replica.status.clock)
            && HappensBefore(q.clock, o.replica.status.clock)
            && o.replica.cls.stamps == LatestStamps(r.cls.stamps, RemoteOf(q).stamps)
            && Tracked(o.replica.cls)
  {
    var m := MergingOf(r, q, clockOrder);
    var ids := VisitOrder(r, q, entryOrder);
    SortKeepsEnumeration(entryOrder, AllStudents(r, q));
    SweepCompletes(v, m, ids);
    MergedStampsAreLatest(v, m, Scalars(r, q, clockOrder).0, ids);
    MergeThenIncrementDominates(r.status.clock, q.clock, r.status.serverId);
  }

  /** The corrected concurrent merge installs a well-formed class when the
      settled capacity is not negative. */
  lemma {:induction false} CorrectedGossipWellFormed(r: Replica, q: GossipRequest, clockOrder: seq<int>, entryOrder: seq<StudentId>)
    requires |r.status.qualifiers| > 0
    requires Enumerates(clockOrder, r.status.clock.Keys)
    requires Enumerates(entryOrder, AllStudents(r, q).Keys)
    requires r.status.active && Concurrent(r.status.clock, q.clock)
    requires MergeCompletes(r, q, clockOrder) && Scalars(r, q, clockOrder).1 >= 0
    ensures WellFormed(ReceiveGossip(Corrected, r, q, clockOrder, entryOrder).replica.cls)
  {
    var m := MergingOf(r, q, clockOrder);
    var ids := VisitOrder(r, q, entryOrder);
    SortKeepsEnumeration(entryOrder, AllStudents(r, q));
    SweepCompletes(Corrected, m, ids);
    CorrectedMergeWellFormed(m, Scalars(r, q, clockOrder).0, ids);
  }

  /** Who gets a seat in the corrected concurrent merge. Everyone seated
      belongs on the enrolled side of the replica with the later stamp. And
      anyone known to either side who belongs there but has no seat found the
      class full, with everyone seated stamped no later than themselves. */
  lemma {:induction false} CorrectedGossipSeating(r: Replica, q: GossipRequest, clockOrder: seq<int>, entryOrder: seq<StudentId>)
    requires |r.status.qualifiers| > 0
    requires Enumerates(clockOrder, r.status.clock.Keys)
    requires Enumerates(entryOrder, AllStudents(r, q).Keys)
    requires r.status.active && Concurrent(r.status.clock, q.clock)
    requires MergeCompletes(r, q, clockOrder)
    ensures var c := ReceiveGossip(Corrected, r, q, clockOrder, entryOrder).replica.cls;
            var m := MergingOf(r, q, clockOrder);
            var all := AllStudents(r, q);
            && (forall k :: k in c.enrolled ==> WantsSeat(m, k))
            && (forall k :: k in all && WantsSeat(m, k) && k !in c.enrolled ==>
                  |c.enrolled| >= c.capacity && forall e :: e in c.enrolled ==> e in all && all[e] <= all[k])
  {
    var m := MergingOf(r, q, clockOrder);
    var all := AllStudents(r, q);
    var ids := VisitOrder(r, q, entryOrder);
    SortKeepsEnumeration(entryOrder, all);
    SweepCompletes(Corrected, m, ids);
    CorrectedSeatsWanted(m, ids);
    CorrectedFirstComeFirstServed(m, all, ids);
    var s := Sweeping(Corrected, m, ids);
    var c := ReceiveGossip(Corrected, r, q, clockOrder, entryOrder).replica.cls;
    assert c == MergeConcurrent(Corrected, r, q, clockOrder, entryOrder).replica.cls;
    assert c.enrolled == s.enrolled && c.capacity == m.capacity;
    forall k | k in all && WantsSeat(m, k) && k !in c.enrolled
      ensures |c.enrolled| >= c.capacity
      ensures forall e :: e in c.enrolled ==> e in all && all[e] <= all[k]
    {
      var i :| 0 <= i < |ids| && ids[i] == k;
    }
  }
}
