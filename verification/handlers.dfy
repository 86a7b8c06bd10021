/**
 The professor and student services of a class server. Each request first
 brings a stale replica up to date with a forced gossip round, then runs its
 class operation on the result, and finally composes the reply: the code,
 and the clock the client should keep. The peers' answers to the forced round
 are inputs.
 */
module Handlers {
  import opened Options
  import opened VectorClocks
  import opened ServerStatuses
  import opened Classes
  import opened Responses
  import opened Naming
  import opened GossipInitiator

  /** What the naming server lists, and what the contacted peers answer. */
  datatype Peers = Peers(found: seq<Address>, answers: seq<PeerAnswer>)

  /** A reply with a code and the clock the client should keep, or the
      invalid-argument error the client sees instead. */
  datatype Reply = Reply(code: ResponseCode, clock: Clock) | InvalidArgument(description: string)

  datatype Handled = Handled(replica: Replica, reply: Reply)

  /** The part of the class listClass ships: no time stamps. */
  datatype ClassView = ClassView(capacity: int, open: bool, enrolled: map<StudentId, string>, discarded: map<StudentId, string>)

  datatype Listing = Listing(replica: Replica, code: ResponseCode, view: Option<ClassView>, clock: Clock)

  /** The replica can run a gossip round: it has a qualifier to send, and one
      answer for every peer other than itself. */
  predicate CanGossip(r: Replica, p: Peers) {
    && |r.status.qualifiers| > 0
    && |p.answers| == |RemoveFirst(p.found, Address(r.status.host, r.status.port))|
  }

  /** updateServer: a replica whose clock happens before the client's forces
      an "update" gossip round and reports its success; any other replica is
      up to date as it is. */
  function UpdateServer(r: Replica, client: Clock, p: Peers): (u: Initiated)
    requires CanGossip(r, p)
    ensures HappensBefore(r.status.clock, client) ==> u == InitiateGossip(r, "update", Some(client), p.found, p.answers)
    ensures !HappensBefore(r.status.clock, client) ==> u == Initiated(r, true)
    ensures !u.result ==> u.replica == r
    ensures u.replica.status.qualifiers == r.status.qualifiers
    ensures u.replica.status.active == r.status.active
  {
    if HappensBefore(r.status.clock, client) then InitiateGossip(r, "update", Some(client), p.found, p.answers)
    else Initiated(r, true)
  }

  /** The finally blocks: the code starts as OK, becomes SERVER_NOT_UPDATED
      when the update failed, and is overridden by the operation's error;
      an invalid id or name is answered with an error and no reply. The
      clock is the server's only when the update succeeded. */
  function Compose(client: Clock, u: Initiated, o: Outcome): (h: Handled)
    ensures o.Done? ==> h.replica == o.replica
    ensures o.Failed? ==> h.replica == u.replica
    ensures h.reply.InvalidArgument? <==> o.Failed? && CodeFor(o.error).None?
    ensures h.reply.Reply? ==> (h.reply.clock == if u.result then h.replica.status.clock else client)
    ensures h.reply.Reply? && o.Failed? ==> Some(h.reply.code) == CodeFor(o.error)
    ensures o.Done? ==> h.reply.Reply? && (h.reply.code == Ok <==> u.result)
    ensures h.reply.Reply? && h.reply.code == ServerNotUpdated <==> o.Done? && !u.result
  {
    var r := if o.Done? then o.replica else u.replica;
    var clock := if u.result then r.status.clock else client;
    match o
    case Done(_) => Handled(r, Reply(if u.result then Ok else ServerNotUpdated, clock))
    case Failed(e) =>
      match CodeFor(e)
      case Some(c) => Handled(r, Reply(c, clock))
      case None => Handled(r, InvalidArgument(if e == InvalidStudentId then "Invalid student id." else "Invalid student name."))
  }

  /** The handler ran the class operation's outcome `o` on the replica the
      update step `u` left: the operation's replica on success, the updated
      one otherwise. Success answers OK exactly when the update succeeded
      and SERVER_NOT_UPDATED otherwise; a coded error answers its code; the
      clock is the server's when the update succeeded and the client's own
      when it failed. */
  predicate ServedOn(h: Handled, client: Clock, u: Initiated, o: Outcome) {
    && h.replica == (if o.Done? then o.replica else u.replica)
    && (o.Done? ==> h.reply == Reply(if u.result then Ok else ServerNotUpdated, if u.result then o.replica.status.clock else client))
    && (o.Failed? && CodeFor(o.error).Some? ==>
          h.reply == Reply(CodeFor(o.error).value, if u.result then u.replica.status.clock else client))
    && (o.Failed? && CodeFor(o.error).None? ==> h.reply.InvalidArgument?)
  }

  /** ProfessorServiceImpl.openEnrollments. */
  function ProfessorOpen(r: Replica, capacity: int, client: Clock, p: Peers): (h: Handled)
    requires CanGossip(r, p)
    ensures h.reply.Reply?
    ensures h.reply.code in {Ok, ServerNotUpdated, InactiveServer, ResponseCode.WritingNotSupported, EnrollmentsAlreadyOpened, FullClass}
    ensures var u := UpdateServer(r, client, p); ServedOn(h, client, u, OpenEnrollments(u.replica, capacity))
  {
    var u := UpdateServer(r, client, p);
    Compose(client, u, OpenEnrollments(u.replica, capacity))
  }

  /** ProfessorServiceImpl.closeEnrollments. */
  function ProfessorClose(r: Replica, client: Clock, p: Peers): (h: Handled)
    requires CanGossip(r, p)
    ensures h.reply.Reply?
    ensures h.reply.code in {Ok, ServerNotUpdated, InactiveServer, ResponseCode.WritingNotSupported, ResponseCode.EnrollmentsAlreadyClosed}
    ensures var u := UpdateServer(r, client, p); ServedOn(h, client, u, CloseEnrollments(u.replica))
  {
    var u := UpdateServer(r, client, p);
    Compose(client, u, CloseEnrollments(u.replica))
  }

  /** ProfessorServiceImpl.cancelEnrollment, at time `now`. */
  function ProfessorCancel(r: Replica, id: StudentId, now: Instant, client: Clock, p: Peers): (h: Handled)
    requires CanGossip(r, p)
    ensures h.reply.InvalidArgument? ==> h.reply.description == "Invalid student id." && !IsValidStudentId(id)
    ensures h.reply.Reply? ==> h.reply.code in {Ok, ServerNotUpdated, InactiveServer, NonExistingStudent}
    ensures var c := UpdateServer(r, client, p).replica.cls;
            r.status.active && (id in c.enrolled || id in c.discarded) && !IsValidStudentId(id) ==>
              h.reply == InvalidArgument("Invalid student id.")
    ensures var u := UpdateServer(r, client, p); ServedOn(h, client, u, CancelEnrollment(u.replica, id, now))
  {
    var u := UpdateServer(r, client, p);
    Compose(client, u, CancelEnrollment(u.replica, id, now))
  }

  /** StudentServiceImpl.enroll, at time `now`. */
  function StudentEnroll(r: Replica, id: StudentId, name: string, now: Instant, client: Clock, p: Peers): (h: Handled)
    requires CanGossip(r, p)
    ensures h.reply.InvalidArgument? ==>
              || (h.reply.description == "Invalid student id." && !IsValidStudentId(id))
              || (h.reply.description == "Invalid student name." && !IsValidStudentName(name))
    ensures h.reply.Reply? ==>
              h.reply.code in {Ok, ServerNotUpdated, InactiveServer, ResponseCode.EnrollmentsAlreadyClosed, ResponseCode.StudentAlreadyEnrolled, FullClass}
    ensures var c := UpdateServer(r, client, p).replica.cls;
            && r.status.active && c.open && id !in c.enrolled && |c.enrolled| != c.capacity ==>
              && (!IsValidStudentId(id) ==> h.reply == InvalidArgument("Invalid student id."))
              && (IsValidStudentId(id) && !IsValidStudentName(name) ==> h.reply == InvalidArgument("Invalid student name."))
    ensures var u := UpdateServer(r, client, p); ServedOn(h, client, u, Enroll(u.replica, id, name, now))
  {
    var u := UpdateServer(r, client, p);
    var o := Enroll(u.replica, id, name, now);
    assert o.Failed? && CodeFor(o.error).Some? ==>
             CodeFor(o.error).value in {InactiveServer, ResponseCode.EnrollmentsAlreadyClosed, ResponseCode.StudentAlreadyEnrolled, FullClass};
    Compose(client, u, o)
  }

  function ViewOf(c: ClassState): ClassView {
    ClassView(c.capacity, c.open, c.enrolled, c.discarded)
  }

  /** listClass, identical in both services: an inactive replica answers
      INACTIVE_SERVER with no class and the client's own clock, without
      gossiping; an active one updates itself and lists the class it then
      holds. */
  function ListClass(r: Replica, client: Clock, p: Peers): (l: Listing)
    requires CanGossip(r, p)
    ensures !r.status.active ==> l == Listing(r, InactiveServer, None, client)
    ensures r.status.active ==> l.view == Some(ViewOf(l.replica.cls))
    ensures r.status.active ==> var u := UpdateServer(r, client, p);
              l.replica == u.replica && l.code == (if u.result then Ok else ServerNotUpdated)
    ensures r.status.active ==> (l.code == Ok || l.code == ServerNotUpdated)
    ensures l.code == Ok ==> l.clock == l.replica.status.clock
    ensures l.code != Ok ==> l.clock == client && l.replica == r
  {
    if !r.status.active then Listing(r, InactiveServer, None, client)
    else
      var u := UpdateServer(r, client, p);
      Listing(u.replica, if u.result then Ok else ServerNotUpdated, Some(ViewOf(u.replica.cls)),
              if u.result then u.replica.status.clock else client)
  }

  /** A replica whose clock does not happen before the client's serves every
      write exactly as the class operation alone would, answering OK with its
      new clock or the operation's error with its unchanged clock. */
  lemma {:induction false} FreshReplicaSkipsGossip(r: Replica, client: Clock, p: Peers, capacity: int, id: StudentId, name: string, now: Instant)
    requires CanGossip(r, p) && !HappensBefore(r.status.clock, client)
    ensures var h := ProfessorOpen(r, capacity, client, p); var o := OpenEnrollments(r, capacity);
            h == (if o.Done? then Handled(o.replica, Reply(Ok, o.replica.status.clock)) else Handled(r, Reply(CodeFor(o.error).value, r.status.clock)))
    ensures var h := ProfessorClose(r, client, p); var o := CloseEnrollments(r);
            h == (if o.Done? then Handled(o.replica, Reply(Ok, o.replica.status.clock)) else Handled(r, Reply(CodeFor(o.error).value, r.status.clock)))
    ensures var h := StudentEnroll(r, id, name, now, client, p); var o := Enroll(r, id, name, now);
            o.Done? ==> h == Handled(o.replica, Reply(Ok, o.replica.status.clock))
    ensures var h := ProfessorCancel(r, id, now, client, p); var o := CancelEnrollment(r, id, now);
            o.Done? ==> h == Handled(o.replica, Reply(Ok, o.replica.status.clock))
  {
    assert UpdateServer(r, client, p) == Initiated(r, true);
  }

  /** An inactive replica answers every write with INACTIVE_SERVER and
      changes nothing. A forced round is refused by the status gate, so the
      client gets its own clock back when the replica was behind it, and the
      replica's clock otherwise. */
  lemma {:induction false} InactiveReplicaRefusesWrites(r: Replica, client: Clock, p: Peers, capacity: int, id: StudentId, name: string, now: Instant)
    requires CanGossip(r, p) && !r.status.active
    ensures var answer := Reply(InactiveServer, if HappensBefore(r.status.clock, client) then client else r.status.clock);
            && ProfessorOpen(r, capacity, client, p) == Handled(r, answer)
            && ProfessorClose(r, client, p) == Handled(r, answer)
            && ProfessorCancel(r, id, now, client, p) == Handled(r, answer)
            && StudentEnroll(r, id, name, now, client, p) == Handled(r, answer)
  {
    var u := UpdateServer(r, client, p);
    assert !GossipAllowed(r.status, "update");
    assert u == Initiated(r, !HappensBefore(r.status.clock, client));
  }

  /** A write answered OK hands back a clock strictly after the one the
      replica held once the update step was over. */
  lemma {:induction false} OkWriteAdvancesClock(r: Replica, capacity: int, id: StudentId, name: string, now: Instant, client: Clock, p: Peers)
    requires CanGossip(r, p)
    ensures var before := UpdateServer(r, client, p).replica.status.clock;
            && (var h := ProfessorOpen(r, capacity, client, p); h.reply.Reply? && h.reply.code == Ok ==> HappensBefore(before, h.reply.clock))
            && (var h := ProfessorClose(r, client, p); h.reply.Reply? && h.reply.code == Ok ==> HappensBefore(before, h.reply.clock))
            && (var h := StudentEnroll(r, id, name, now, client, p); h.reply.Reply? && h.reply.code == Ok ==> HappensBefore(before, h.reply.clock))
  {
    var u := UpdateServer(r, client, p);
    WritesAdvanceClock(u.replica, capacity, id, name, now);
  }
}
