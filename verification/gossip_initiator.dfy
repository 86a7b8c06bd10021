/**
 The sending side of gossip: whether a replica may start a round, whom it
 contacts, which reply it trusts, and what it installs from that reply. The
 naming-server lookup and the peers' answers are inputs; the order in which
 peers are contacted is folded into the order of the answers.
 */
module GossipInitiator {
  import opened Options
  import opened Enumerations
  import opened VectorClocks
  import opened ServerStatuses
  import opened Classes
  import opened Responses
  import opened GossipMerge
  import opened GossipReceiver
  import opened Naming
  import opened Wire

  /** One peer's answer: its reply, or a failed call. */
  datatype PeerAnswer = Answered(reply: GossipReply) | Unreachable

  /** The replica after the round, and the value gossip returns. */
  datatype Initiated = Initiated(replica: Replica, result: bool)

  /** verifyServerStatus: a forced update needs an active replica with
      gossip on, an administrator's request only an active replica, and the
      timer additionally something unshared; any other event is refused. */
  predicate GossipAllowed(s: ServerStatus, event: string)
    ensures GossipAllowed(s, event) ==> s.active && (event == "update" || event == "admin" || event == "timer")
  {
    if event == "update" then s.active && s.gossipActive
    else if event == "admin" then s.active
    else if event == "timer" then s.changed && s.active && s.gossipActive
    else false
  }

  /** The timer's condition implies the forced update's, which implies the
      administrator's. */
  lemma GossipGatesNest(s: ServerStatus)
    ensures GossipAllowed(s, "timer") ==> GossipAllowed(s, "update")
    ensures GossipAllowed(s, "update") ==> GossipAllowed(s, "admin")
    ensures !s.active ==> forall e :: !GossipAllowed(s, e)
  {
  }

  /** List.remove(Object): drop the first element equal to `a`, if any. */
  function RemoveFirst(s: seq<Address>, a: Address): (r: seq<Address>)
    ensures a in s ==> |r| == |s| - 1
    ensures a !in s ==> r == s
    ensures multiset(r) == multiset(s) - multiset{a}
  {
    if |s| == 0 then []
    else
      assert s == [s[0]] + s[1..];
      if s[0] == a then s[1..] else [s[0]] + RemoveFirst(s[1..], a)
  }

  /** The replica's own request: its class as convertToClassState ships
      it, its first qualifier, its clock and its id. */
  function RequestOf(r: Replica): (q: GossipRequest)
    requires |r.status.qualifiers| > 0
    ensures RemoteOf(q) == WireImage(r.cls)
    ensures q.clock == r.status.clock && q.serverId == r.status.serverId && q.qualifier == r.status.qualifiers[0]
  {
    WireImageIdempotent(r.cls);
    GossipRequest(WireImage(r.cls), r.status.qualifiers[0], r.status.clock, r.status.serverId)
  }

  predicate AllAnswered(answers: seq<PeerAnswer>) {
    forall i :: 0 <= i < |answers| ==> answers[i].Answered?
  }

  function Replies(answers: seq<PeerAnswer>): (rs: seq<GossipReply>)
    requires AllAnswered(answers)
    ensures |rs| == |answers|
    ensures forall i :: 0 <= i < |rs| ==> rs[i] == answers[i].reply
  {
    seq(|answers|, i requires 0 <= i < |answers| => answers[i].reply)
  }

  predicate AllOk(replies: seq<GossipReply>) {
    forall i :: 0 <= i < |replies| ==> replies[i].code == Ok
  }

  /** The reply's clock has caught up with the client's: it happens after
      it, or equals it (keys included). */
  predicate CaughtUp(client: Clock, reply: GossipReply) {
    HappensBefore(client, reply.clock) || SameClock(client, reply.clock)
  }

  /** The first position at or after `from` holding true, or the end. */
  function FirstTrue(flags: seq<bool>, from: nat): (i: nat)
    requires from <= |flags|
    ensures from <= i <= |flags|
    ensures i < |flags| ==> flags[i]
    ensures forall k :: from <= k < i ==> !flags[k]
    decreases |flags| - from
  {
    if from == |flags| || flags[from] then from
    else FirstTrue(flags, from + 1)
  }

  /** Which replies have caught up with the client, position by position. */
  function CaughtUpFlags(replies: seq<GossipReply>, client: Clock): (flags: seq<bool>)
    ensures |flags| == |replies|
    ensures forall i :: 0 <= i < |flags| ==> flags[i] == CaughtUp(client, replies[i])
  {
    seq(|replies|, i requires 0 <= i < |replies| => CaughtUp(client, replies[i]))
  }

  /** Where the do-while loop without a client clock stops, searching from
      `from`: the first OK reply, or the last reply. */
  function OkIndex(replies: seq<GossipReply>, from: nat): (i: nat)
    requires from < |replies|
    ensures from <= i < |replies|
    ensures replies[i].code == Ok || i == |replies| - 1
    ensures forall k :: from <= k < i ==> replies[k].code != Ok
    decreases |replies| - from
  {
    if replies[from].code == Ok || from == |replies| - 1 then from
    else OkIndex(replies, from + 1)
  }

  /** Which reply the round trusts. */
  function Chosen(replies: seq<GossipReply>, client: Option<Clock>): (r: GossipReply)
    requires |replies| > 0
    ensures r in replies
  {
    if client.Some? then
      var i := FirstTrue(CaughtUpFlags(replies, client.value), 0);
      if i < |replies| then replies[i] else replies[0]
    else replies[OkIndex(replies, 0)]
  }

  /** With a client clock, the round trusts the first reply that has caught
      up with the client, and the first reply when none has. */
  lemma ChosenWithClientClock(replies: seq<GossipReply>, client: Clock)
    requires |replies| > 0
    ensures var r := Chosen(replies, Some(client));
            && ((exists i :: 0 <= i < |replies| && CaughtUp(client, replies[i])) ==>
                  exists j :: 0 <= j < |replies| && r == replies[j] && CaughtUp(client, r) &&
                    forall k :: 0 <= k < j ==> !CaughtUp(client, replies[k]))
            && ((forall i :: 0 <= i < |replies| ==> !CaughtUp(client, replies[i])) ==> r == replies[0])
  {
    var j := FirstTrue(CaughtUpFlags(replies, client), 0);
    if j < |replies| {
      assert Chosen(replies, Some(client)) == replies[j];
    }
  }

  /** Without a client clock, the round trusts the first OK reply, and the
      last reply when none is OK. */
  lemma ChosenWithoutClientClock(replies: seq<GossipReply>)
    requires |replies| > 0
    ensures var r := Chosen(replies, None);
            && (r.code == Ok <==> exists i :: 0 <= i < |replies| && replies[i].code == Ok)
            && (r.code == Ok ==> exists j :: 0 <= j < |replies| && r == replies[j] &&
                                   forall k :: 0 <= k < j ==> replies[k].code != Ok)
            && (r.code != Ok ==> r == replies[|replies| - 1])
  {
    var j := OkIndex(replies, 0);
    assert Chosen(replies, None) == replies[j];
  }

  /** updateClass: install the class read from the reply, and its clock,
      wholesale; nothing else of the status changes. */
  function UpdateClass(r: Replica, reply: GossipReply): (u: Replica)
    ensures u.cls == WireImage(reply.cls) && u.status.clock == reply.clock
    ensures Tracked(reply.cls) ==> u.cls == reply.cls
    ensures u.status == r.status.(clock := reply.clock)
  {
    Replica(SetVectorClock(r.status, reply.clock), WireImage(reply.cls))
  }

  /** gossip(studentsClass, event, clientVectorClock) on replica `r`.
      `found` is what the naming server lists for the service and `answers`
      holds the peers' answers in the order they were contacted. */
  function InitiateGossip(r: Replica, event: string, client: Option<Clock>,
                          found: seq<Address>, answers: seq<PeerAnswer>): (o: Initiated)
    requires |r.status.qualifiers| > 0
    requires |answers| == |RemoveFirst(found, Address(r.status.host, r.status.port))|
    ensures !o.result ==> o.replica == r
    ensures o.result <==> GossipAllowed(r.status, event) && |answers| > 0 && AllAnswered(answers)
    ensures o.result ==> o.replica.status == r.status.(changed := o.replica.status.changed, clock := o.replica.status.clock)
    ensures o.result ==> (o.replica.status.changed <==> r.status.changed && !AllOk(Replies(answers)))
    ensures o.result ==> var c := Chosen(Replies(answers), client);
              if c.code == Ok then o.replica.cls == WireImage(c.cls) && o.replica.status.clock == c.clock
              else o.replica.cls == r.cls && o.replica.status.clock == r.status.clock
  {
    if !GossipAllowed(r.status, event) then Initiated(r, false)
    else if |found| == 0 then Initiated(r, false)
    else
      var peers := RemoveFirst(found, Address(r.status.host, r.status.port));
      if |peers| == 0 then Initiated(r, false)
      else if !AllAnswered(answers) then Initiated(r, false)
      else
        var replies := Replies(answers);
        var st := if AllOk(replies) then r.status.(changed := false) else r.status;
        var c := Chosen(replies, client);
        if c.code == Ok then Initiated(UpdateClass(Replica(st, r.cls), c), true)
        else Initiated(Replica(st, r.cls), true)
  }

  /** Gossip with a single active peer leaves both replicas with the same
      clock, whichever way their clocks compared. The initiator holds the
      wire image of the peer's class: the same scalars and names, and the
      stamps of the students the peer lists; when the peer's class is
      tracked, as after a completed merge, that is the peer's class itself. */
  lemma {:induction false} SinglePeerAgreement(v: Variant, r: Replica, event: string, client: Option<Clock>, self: Address, peer: Address,
                                               p: Replica, clockOrder: seq<int>, entryOrder: seq<StudentId>)
    requires |r.status.qualifiers| > 0 && |p.status.qualifiers| > 0
    requires self == Address(r.status.host, r.status.port) && peer != self
    requires GossipAllowed(r.status, event) && p.status.active
    requires Enumerates(clockOrder, p.status.clock.Keys)
    requires Enumerates(entryOrder, AllStudents(p, RequestOf(r)).Keys)
    ensures var after := ReceiveGossip(v, p, RequestOf(r), clockOrder, entryOrder);
            var o := InitiateGossip(r, event, client, [self, peer], [Answered(after.reply)]);
            && o.result
            && o.replica.cls == WireImage(after.replica.cls)
            && (Tracked(after.replica.cls) ==> o.replica.cls == after.replica.cls)
            && o.replica.status.clock == after.replica.status.clock
  {
    var after := ReceiveGossip(v, p, RequestOf(r), clockOrder, entryOrder);
    var answers := [Answered(after.reply)];
    assert RemoveFirst([self, peer], self) == [peer];
    assert Replies(answers) == [after.reply];
    WireImageIdempotent(after.replica.cls);
  }

  /** With a single active peer whose merge, if any, completes, the
      initiator's clock never moves backwards: it ends dominating where it
      started. */
  lemma {:induction false} SinglePeerClockNeverRegresses(v: Variant, r: Replica, event: string, client: Option<Clock>, self: Address,
                                                         peer: Address, p: Replica, clockOrder: seq<int>, entryOrder: seq<StudentId>)
    requires |r.status.qualifiers| > 0 && |p.status.qualifiers| > 0
    requires self == Address(r.status.host, r.status.port) && peer != self
    requires GossipAllowed(r.status, event) && p.status.active
    requires Enumerates(clockOrder, p.status.clock.Keys)
    requires Enumerates(entryOrder, AllStudents(p, RequestOf(r)).Keys)
    requires Concurrent(p.status.clock, r.status.clock) ==> MergeCompletes(p, RequestOf(r), clockOrder)
    ensures var after := ReceiveGossip(v, p, RequestOf(r), clockOrder, entryOrder);
            var o := InitiateGossip(r, event, client, [self, peer], [Answered(after.reply)]);
            DominatedBy(r.status.clock, o.replica.status.clock)
  {
    var q := RequestOf(r);
    var after := ReceiveGossip(v, p, q, clockOrder, entryOrder);
    SinglePeerAgreement(v, r, event, client, self, peer, p, clockOrder, entryOrder);
    Trichotomy(p.status.clock, q.clock);
    if Concurrent(p.status.clock, q.clock) {
      ConcurrentMergeAdvances(v, p, q, clockOrder, entryOrder);
    } else if !HappensBefore(p.status.clock, q.clock) && !HappensBefore(q.clock, p.status.clock) {
      assert SameValues(p.status.clock, q.clock);
      assert Ids(q.clock, p.status.clock) == Ids(p.status.clock, q.clock);
    }
  }

  /** A gossip round that the status gate refuses, that finds no peer but
      the replica itself, or that meets an unreachable peer changes nothing
      and reports failure. */
  lemma {:induction false} FailedRoundChangesNothing(r: Replica, event: string, client: Option<Clock>,
                                                     found: seq<Address>, answers: seq<PeerAnswer>)
    requires |r.status.qualifiers| > 0
    requires |answers| == |RemoveFirst(found, Address(r.status.host, r.status.port))|
    requires || !GossipAllowed(r.status, event)
             || found == [Address(r.status.host, r.status.port)]
             || Unreachable in answers
    ensures InitiateGossip(r, event, client, found, answers) == Initiated(r, false)
  {
    if Unreachable in answers {
      var i :| 0 <= i < |answers| && answers[i] == Unreachable;
    }
  }
}
