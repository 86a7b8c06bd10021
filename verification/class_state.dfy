/**
 The class a replica holds: capacity, whether enrollments are open, the
 enrolled and the discarded students (id to name), and the time each
 student last changed side. The write operations check their preconditions
 in a fixed order and report the first one that fails; a successful write
 marks the replica as changed and counts one event of its own in its clock.
 The clock is read through `now`, a parameter.
 */
module Classes {
  import opened Options
  import opened JavaText
  import opened VectorClocks
  import opened ServerStatuses

  type StudentId = string
  type Instant = int

  datatype ClassState = ClassState(
    capacity: int,
    open: bool,
    enrolled: map<StudentId, string>,
    discarded: map<StudentId, string>,
    stamps: map<StudentId, Instant>)

  /** A new class: capacity 0, closed, nobody in it. */
  const EmptyClass: ClassState := ClassState(0, false, map[], map[], map[])

  /** A replica: its status and its class. */
  datatype Replica = Replica(status: ServerStatus, cls: ClassState)

  /** The messages the class throws, one constructor each. */
  datatype ClassError =
    | ServerInactive          // "Server is inactive"
    | WritingNotSupported     // "Writing not supported"
    | EnrollmentsAlreadyOpen  // "Enrollments already open"
    | ClassFull               // "Class is full"
    | EnrollmentsAlreadyClosed // "Enrollments already closed"
    | StudentNotEnrolled      // "Student not enrolled"
    | InvalidStudentId        // "Invalid student id"
    | EnrollmentsClosed       // "Enrollments are closed"
    | StudentAlreadyEnrolled  // "Student already enrolled"
    | InvalidStudentName      // "Invalid student name"

  datatype Outcome = Done(replica: Replica) | Failed(error: ClassError)

  /** Exactly the students on either side carry a time stamp. */
  predicate Tracked(c: ClassState) {
    c.stamps.Keys == c.enrolled.Keys + c.discarded.Keys
  }

  /** Every student is on exactly one side and carries a time stamp, and no
      more students are enrolled than the capacity allows. */
  predicate WellFormed(c: ClassState) {
    && c.enrolled.Keys !! c.discarded.Keys
    && Tracked(c)
    && |c.enrolled| <= c.capacity
  }

  /** getStudentName: the enrolled name if there is one, else the discarded
      name, else null. */
  function StudentName(c: ClassState, id: StudentId): (r: Option<string>)
    ensures r.Some? <==> id in c.enrolled || id in c.discarded
    ensures id in c.enrolled ==> r == Some(c.enrolled[id])
    ensures id !in c.enrolled && id in c.discarded ==> r == Some(c.discarded[id])
  {
    if id in c.enrolled then Some(c.enrolled[id])
    else if id in c.discarded then Some(c.discarded[id])
    else None
  }

  const StudentPrefix: string := "aluno"

  /** isValidStudentId: starts with "aluno", splitting on "aluno" gives
      exactly two pieces, and the second has a length() of four and is
      accepted by Integer.parseInt. */
  predicate IsValidStudentId(id: StudentId) {
    var pieces := JavaSplit(id, StudentPrefix);
    && StartsWith(id, StudentPrefix)
    && |pieces| == 2
    && Utf16Length(pieces[1]) == 4
    && ParseInt(pieces[1]).Some?
  }

  /** isValidStudentName: a length() between 3 and 30 inclusive, counted in
      UTF-16 code units. */
  predicate IsValidStudentName(name: string) {
    3 <= Utf16Length(name) <= 30
  }

  /** In characters, a valid name has between 2 and 30: a character outside
      the Basic Multilingual Plane counts twice. Without such characters the
      bounds are exactly 3 and 30. */
  lemma NameCharacterBounds(name: string)
    ensures IsValidStudentName(name) ==> 2 <= |name| <= 30
    ensures InBmp(name) ==> (IsValidStudentName(name) <==> 3 <= |name| <= 30)
  {
    Utf16LengthOfBmp(name);
  }

  /** A valid id is "aluno" followed by four characters that parse as an
      int; whatever comes after them is never checked beyond the split. */
  lemma {:induction false} ValidIdShape(id: StudentId)
    requires IsValidStudentId(id)
    ensures |id| >= 9 && id[..5] == StudentPrefix && ParseInt(id[5..9]).Some?
  {
    SplitAfterLeadingSeparator(id, StudentPrefix);
    var piece := JavaSplit(id, StudentPrefix)[1];
    ParsedLength(piece);
    assert StartsWith(id[5..], piece);
    assert id[5..][..4] == id[5..9];
  }

  /** Conversely "aluno" followed by any four characters that parse as an
      int is a valid id. */
  lemma {:induction false} PrefixedNumberIsValid(digits: string)
    requires |digits| == 4 && ParseInt(digits).Some?
    ensures IsValidStudentId(StudentPrefix + digits)
  {
    var id := StudentPrefix + digits;
    ParsedLength(digits);
    assert OccursAt(id, StudentPrefix, 0);
    assert IndexOf(id, StudentPrefix) == Some(0);
    assert id[5..] == digits;
    assert IndexOf(digits, StudentPrefix) == None;
    assert Pieces(digits, StudentPrefix) == [digits];
    assert Pieces(id, StudentPrefix) == ["", digits];
    assert digits != "";
    assert StripTrailingEmpty(["", digits]) == ["", digits];
  }

  /** An id shorter than "aluno" plus four characters is always rejected. */
  lemma {:induction false} ShortIdsRejected(id: StudentId)
    requires |id| < 9
    ensures !IsValidStudentId(id)
  {
    if IsValidStudentId(id) {
      ValidIdShape(id);
    }
  }

  /** The split drops trailing empty pieces, so an id with one more "aluno"
      after the number is accepted as well. */
  lemma {:induction false} TrailingSeparatorAccepted(digits: string)
    requires |digits| == 4 && ParseInt(digits).Some?
    ensures IsValidStudentId(StudentPrefix + digits + StudentPrefix)
  {
    var id := StudentPrefix + digits + StudentPrefix;
    var rest := digits + StudentPrefix;
    ParsedLength(digits);
    assert OccursAt(id, StudentPrefix, 0);
    assert IndexOf(id, StudentPrefix) == Some(0);
    assert id[5..] == rest && id[..0] == "";
    PiecesAfterNumber(digits);
    assert Pieces(id, StudentPrefix) == ["", digits, ""];
    assert StripTrailingEmpty(["", digits, ""]) == ["", digits];
  }

  lemma {:induction false} PiecesAfterNumber(digits: string)
    requires |digits| == 4 && ParseInt(digits).Some?
    ensures Pieces(digits + StudentPrefix, StudentPrefix) == [digits, ""]
  {
    var rest := digits + StudentPrefix;
    ParsedCharacters(digits);
    FirstCharMismatch(rest, StudentPrefix, 0);
    FirstCharMismatch(rest, StudentPrefix, 1);
    FirstCharMismatch(rest, StudentPrefix, 2);
    FirstCharMismatch(rest, StudentPrefix, 3);
    assert OccursAt(rest, StudentPrefix, 4);
    assert IndexOf(rest, StudentPrefix) == Some(4);
    assert rest[9..] == "" && rest[..4] == digits;
    assert Pieces("", StudentPrefix) == [""];
  }

  /** The class after `id` joins the enrolled side under `name` at `now`,
      leaving the discarded side if it was there. */
  function Admitted(c: ClassState, id: StudentId, name: string, now: Instant): ClassState {
    c.(enrolled := c.enrolled[id := name], discarded := c.discarded - {id}, stamps := c.stamps[id := now])
  }

  /** The class after the enrolled student `id` moves, with their name, to
      the discarded side at `now`. */
  function Dropped(c: ClassState, id: StudentId, now: Instant): ClassState
    requires id in c.enrolled
  {
    c.(enrolled := c.enrolled - {id}, discarded := c.discarded[id := c.enrolled[id]], stamps := c.stamps[id := now])
  }

  /** openEnrollments(capacity): needs an active primary with enrollments
      closed and a capacity no smaller than the number already enrolled. */
  function OpenEnrollments(r: Replica, capacity: int): (o: Outcome)
    ensures o.Done? <==> r.status.active && IsPrimary(r.status) && !r.cls.open && |r.cls.enrolled| <= capacity
    ensures !r.status.active ==> o == Failed(ServerInactive)
    ensures r.status.active && !IsPrimary(r.status) ==> o == Failed(WritingNotSupported)
    ensures r.status.active && IsPrimary(r.status) && r.cls.open ==> o == Failed(EnrollmentsAlreadyOpen)
    ensures r.status.active && IsPrimary(r.status) && !r.cls.open && capacity < |r.cls.enrolled| ==> o == Failed(ClassFull)
    ensures o.Failed? ==> o.error in {ServerInactive, WritingNotSupported, EnrollmentsAlreadyOpen, ClassFull}
    ensures o.Done? ==> o.replica == Replica(RecordWrite(r.status), r.cls.(open := true, capacity := capacity))
  {
    if !r.status.active then Failed(ServerInactive)
    else if !IsPrimary(r.status) then Failed(WritingNotSupported)
    else if r.cls.open then Failed(EnrollmentsAlreadyOpen)
    else if capacity < |r.cls.enrolled| then Failed(ClassFull)
    else Done(Replica(RecordWrite(r.status), r.cls.(open := true, capacity := capacity)))
  }

  /** closeEnrollments: needs an active primary with enrollments open. */
  function CloseEnrollments(r: Replica): (o: Outcome)
    ensures o.Done? <==> r.status.active && IsPrimary(r.status) && r.cls.open
    ensures !r.status.active ==> o == Failed(ServerInactive)
    ensures r.status.active && !IsPrimary(r.status) ==> o == Failed(WritingNotSupported)
    ensures r.status.active && IsPrimary(r.status) && !r.cls.open ==> o == Failed(EnrollmentsAlreadyClosed)
    ensures o.Failed? ==> o.error in {ServerInactive, WritingNotSupported, EnrollmentsAlreadyClosed}
    ensures o.Done? ==> o.replica == Replica(RecordWrite(r.status), r.cls.(open := false))
  {
    if !r.status.active then Failed(ServerInactive)
    else if !IsPrimary(r.status) then Failed(WritingNotSupported)
    else if !r.cls.open then Failed(EnrollmentsAlreadyClosed)
    else Done(Replica(RecordWrite(r.status), r.cls.(open := false)))
  }

  /** cancelEnrollment(id) at time `now`: allowed on any active replica,
      primary or not. A student known on neither side is an error, checked
      before the id's format; an already discarded student is left as is,
      without counting an event. */
  function CancelEnrollment(r: Replica, id: StudentId, now: Instant): (o: Outcome)
    ensures !r.status.active ==> o == Failed(ServerInactive)
    ensures r.status.active && id !in r.cls.enrolled && id !in r.cls.discarded ==> o == Failed(StudentNotEnrolled)
    ensures r.status.active && (id in r.cls.enrolled || id in r.cls.discarded) && !IsValidStudentId(id) ==> o == Failed(InvalidStudentId)
    ensures o.Done? <==> r.status.active && (id in r.cls.enrolled || id in r.cls.discarded) && IsValidStudentId(id)
    ensures o.Failed? ==> o.error in {ServerInactive, StudentNotEnrolled, InvalidStudentId}
    ensures o.Done? && id !in r.cls.enrolled ==> o.replica == r
    ensures o.Done? && id in r.cls.enrolled ==> o.replica == Replica(RecordWrite(r.status), Dropped(r.cls, id, now))
  {
    if !r.status.active then Failed(ServerInactive)
    else if id !in r.cls.enrolled && id !in r.cls.discarded then Failed(StudentNotEnrolled)
    else if !IsValidStudentId(id) then Failed(InvalidStudentId)
    else if id in r.cls.enrolled then Done(Replica(RecordWrite(r.status), Dropped(r.cls, id, now)))
    else Done(r)
  }

  /** enroll(id, name) at time `now`: needs an active replica with
      enrollments open, the student not yet enrolled, room left, and a valid
      id and name. A previously discarded student comes back. Enrolling is
      not restricted to primaries. */
  function Enroll(r: Replica, id: StudentId, name: string, now: Instant): (o: Outcome)
    ensures o.Done? <==>
              && r.status.active && r.cls.open && id !in r.cls.enrolled && |r.cls.enrolled| != r.cls.capacity
              && IsValidStudentId(id) && IsValidStudentName(name)
    ensures !r.status.active ==> o == Failed(ServerInactive)
    ensures r.status.active && !r.cls.open ==> o == Failed(EnrollmentsClosed)
    ensures r.status.active && r.cls.open && id in r.cls.enrolled ==> o == Failed(StudentAlreadyEnrolled)
    ensures r.status.active && r.cls.open && id !in r.cls.enrolled && |r.cls.enrolled| == r.cls.capacity ==> o == Failed(ClassFull)
    ensures r.status.active && r.cls.open && id !in r.cls.enrolled && |r.cls.enrolled| != r.cls.capacity && !IsValidStudentId(id) ==>
              o == Failed(InvalidStudentId)
    ensures && r.status.active && r.cls.open && id !in r.cls.enrolled && |r.cls.enrolled| != r.cls.capacity
            && IsValidStudentId(id) && !IsValidStudentName(name)
            ==> o == Failed(InvalidStudentName)
    ensures o.Failed? ==>
              o.error in {ServerInactive, EnrollmentsClosed, StudentAlreadyEnrolled, ClassFull, InvalidStudentId, InvalidStudentName}
    ensures o == Failed(InvalidStudentId) ==> !IsValidStudentId(id)
    ensures o == Failed(InvalidStudentName) ==> !IsValidStudentName(name)
    ensures o.Done? ==> o.replica == Replica(RecordWrite(r.status), Admitted(r.cls, id, name, now))
  {
    if !r.status.active then Failed(ServerInactive)
    else if !r.cls.open then Failed(EnrollmentsClosed)
    else if id in r.cls.enrolled then Failed(StudentAlreadyEnrolled)
    else if |r.cls.enrolled| == r.cls.capacity then Failed(ClassFull)
    else if !IsValidStudentId(id) then Failed(InvalidStudentId)
    else if !IsValidStudentName(name) then Failed(InvalidStudentName)
    else Done(Replica(RecordWrite(r.status), Admitted(r.cls, id, name, now)))
  }

  /** update: an active replica takes over a whole class state; its status,
      clock included, is left to the caller. */
  function Update(r: Replica, c: ClassState): (o: Outcome)
    ensures o.Done? <==> r.status.active
    ensures o.Failed? ==> o.error == ServerInactive
    ensures o.Done? ==> o.replica == Replica(r.status, c)
  {
    if !r.status.active then Failed(ServerInactive) else Done(Replica(r.status, c))
  }

  /** A student admitted is enrolled under the given name and stamped; every
      other student keeps their side, name and stamp. */
  lemma {:induction false} AdmittedEffect(c: ClassState, id: StudentId, name: string, now: Instant, k: StudentId)
    ensures var d := Admitted(c, id, name, now);
            && StudentName(d, id) == Some(name) && id !in d.discarded && d.stamps[id] == now
            && (k != id ==>
                  && StudentName(d, k) == StudentName(c, k)
                  && (k in d.enrolled <==> k in c.enrolled)
                  && (k in d.discarded <==> k in c.discarded)
                  && (k in d.stamps ==> k in c.stamps && d.stamps[k] == c.stamps[k]))
  {
  }

  /** A student dropped is discarded under the name they were enrolled with
      and stamped; every other student keeps their side, name and stamp. */
  lemma {:induction false} DroppedEffect(c: ClassState, id: StudentId, now: Instant, k: StudentId)
    requires id in c.enrolled && c.enrolled.Keys !! c.discarded.Keys
    ensures var d := Dropped(c, id, now);
            && id !in d.enrolled && StudentName(d, id) == StudentName(c, id) && d.stamps[id] == now
            && (k != id ==>
                  && StudentName(d, k) == StudentName(c, k)
                  && (k in d.enrolled <==> k in c.enrolled)
                  && (k in d.discarded <==> k in c.discarded)
                  && (k in d.stamps ==> k in c.stamps && d.stamps[k] == c.stamps[k]))
  {
  }

  /** Opening and closing enrollments keep the class well formed. */
  lemma {:induction false} OpenClosePreserveWellFormed(r: Replica, capacity: int)
    requires WellFormed(r.cls)
    ensures var o := OpenEnrollments(r, capacity); o.Done? ==> WellFormed(o.replica.cls)
    ensures var o := CloseEnrollments(r); o.Done? ==> WellFormed(o.replica.cls)
  {
  }

  /** The key-set half of well-formedness survives moving `id` to the
      enrolled side. */
  lemma AdmitKeys(e: map<StudentId, string>, x: map<StudentId, string>, s: map<StudentId, Instant>,
                  id: StudentId, name: string, now: Instant)
    requires e.Keys !! x.Keys && s.Keys == e.Keys + x.Keys
    ensures e[id := name].Keys !! (x - {id}).Keys
    ensures s[id := now].Keys == e[id := name].Keys + (x - {id}).Keys
  {
  }

  /** The key-set half of well-formedness survives moving `id` to the
      discarded side. */
  lemma DropKeys(e: map<StudentId, string>, x: map<StudentId, string>, s: map<StudentId, Instant>,
                 id: StudentId, name: string, now: Instant)
    requires e.Keys !! x.Keys && s.Keys == e.Keys + x.Keys && id in e
    ensures (e - {id}).Keys !! x[id := name].Keys
    ensures s[id := now].Keys == (e - {id}).Keys + x[id := name].Keys
  {
  }

  /** Admitting a student not yet enrolled into a class with room left keeps
      it well formed. */
  lemma {:induction false} AdmittedWellFormed(c: ClassState, id: StudentId, name: string, now: Instant)
    requires WellFormed(c) && id !in c.enrolled && |c.enrolled| < c.capacity
    ensures WellFormed(Admitted(c, id, name, now))
  {
    AdmitKeys(c.enrolled, c.discarded, c.stamps, id, name, now);
    assert |c.enrolled[id := name]| == |c.enrolled| + 1;
  }

  /** Removing a present key shrinks a map by one. */
  lemma RemoveShrinks(m: map<StudentId, string>, id: StudentId)
    requires id in m
    ensures |m - {id}| == |m| - 1
  {
    assert (m - {id}).Keys == m.Keys - {id};
    assert |m.Keys| == |m| && |(m - {id}).Keys| == |m - {id}|;
  }

  /** Dropping an enrolled student keeps the class well formed. */
  lemma {:induction false} DroppedWellFormed(c: ClassState, id: StudentId, now: Instant)
    requires WellFormed(c) && id in c.enrolled
    ensures WellFormed(Dropped(c, id, now))
    ensures |Dropped(c, id, now).enrolled| == |c.enrolled| - 1
  {
    DropKeys(c.enrolled, c.discarded, c.stamps, id, c.enrolled[id], now);
    RemoveShrinks(c.enrolled, id);
  }

  /** Enrolling keeps the class well formed: under the invariant the
      equality test for a full class leaves room for the new student. */
  lemma {:induction false} EnrollPreservesWellFormed(r: Replica, id: StudentId, name: string, now: Instant)
    requires WellFormed(r.cls)
    ensures var o := Enroll(r, id, name, now); o.Done? ==> WellFormed(o.replica.cls)
  {
    if Enroll(r, id, name, now).Done? {
      FullTestIsCapacityTest(r.cls);
      AdmittedWellFormed(r.cls, id, name, now);
    }
  }

  /** Cancelling keeps the class well formed. */
  lemma {:induction false} CancelPreservesWellFormed(r: Replica, id: StudentId, now: Instant)
    requires WellFormed(r.cls)
    ensures var o := CancelEnrollment(r, id, now); o.Done? ==> WellFormed(o.replica.cls)
  {
    if CancelEnrollment(r, id, now).Done? && id in r.cls.enrolled {
      DroppedWellFormed(r.cls, id, now);
    }
  }

  /** Under the well-formedness invariant the "class is full" test of
      enroll, which compares for equality, is the same as comparing with at
      least. */
  lemma FullTestIsCapacityTest(c: ClassState)
    requires WellFormed(c)
    ensures |c.enrolled| == c.capacity <==> |c.enrolled| >= c.capacity
  {
  }

  /** Enrolling and then cancelling the same student leaves them discarded
      under the name they enrolled with, stamped at the cancellation, with
      the enrolled side as it was without them. */
  lemma {:induction false} EnrollThenCancel(r: Replica, id: StudentId, name: string, t1: Instant, t2: Instant)
    requires Enroll(r, id, name, t1).Done?
    ensures var r1 := Enroll(r, id, name, t1).replica;
            var o := CancelEnrollment(r1, id, t2);
            && o.Done?
            && id !in o.replica.cls.enrolled
            && StudentName(o.replica.cls, id) == Some(name)
            && o.replica.cls.stamps[id] == t2
            && o.replica.cls.enrolled == r.cls.enrolled - {id}
  {
    var r1 := Enroll(r, id, name, t1).replica;
    assert id in r1.cls.enrolled;
    assert r.cls.enrolled[id := name] - {id} == r.cls.enrolled - {id};
  }

  /** Each successful write moves the clock strictly forward. */
  lemma {:induction false} WritesAdvanceClock(r: Replica, capacity: int, id: StudentId, name: string, now: Instant)
    ensures var o := OpenEnrollments(r, capacity); o.Done? ==> HappensBefore(r.status.clock, o.replica.status.clock)
    ensures var o := CloseEnrollments(r); o.Done? ==> HappensBefore(r.status.clock, o.replica.status.clock)
    ensures var o := Enroll(r, id, name, now); o.Done? ==> HappensBefore(r.status.clock, o.replica.status.clock)
    ensures var o := CancelEnrollment(r, id, now);
            o.Done? && id in r.cls.enrolled ==> HappensBefore(r.status.clock, o.replica.status.clock)
  {
    IncrementAdvances(r.status.clock, r.status.serverId);
  }

  /** Cancelling and then re-enrolling restores an enrolled student (with a
      new name allowed) when enrollments are open, and the discarded side is
      as before. */
  lemma {:induction false} CancelThenEnroll(r: Replica, id: StudentId, name: string, t1: Instant, t2: Instant)
    requires WellFormed(r.cls) && r.cls.open && id in r.cls.enrolled
    requires CancelEnrollment(r, id, t1).Done?
    requires IsValidStudentName(name)
    ensures var r1 := CancelEnrollment(r, id, t1).replica;
            var o := Enroll(r1, id, name, t2);
            && o.Done?
            && o.replica.cls.enrolled == r.cls.enrolled[id := name]
            && o.replica.cls.discarded == r.cls.discarded
  {
    var c := r.cls;
    var r1 := CancelEnrollment(r, id, t1).replica;
    assert r1.cls == Dropped(c, id, t1);
    DroppedWellFormed(c, id, t1);
    ReadmitMaps(c.enrolled, c.discarded, id, name);
  }

  /** Moving a student out to the discarded side and back in leaves the
      discarded side as it was and the enrolled side with the new name. */
  lemma ReadmitMaps(e: map<StudentId, string>, x: map<StudentId, string>, id: StudentId, name: string)
    requires id in e && id !in x
    ensures (e - {id})[id := name] == e[id := name]
    ensures x[id := e[id]] - {id} == x
  {
  }

  // --- activation switches -------------------------------------------------

  /** activate: serve again; gossip comes back on unless an administrator
      switched it off explicitly. */
  function Activate(s: ServerStatus): (r: ServerStatus)
    ensures r.active && r.deactivateGossip
    ensures r.gossipActive == (s.gossipActive || !s.deactivateGossip)
    ensures r == s.(active := true, gossipActive := r.gossipActive, deactivateGossip := true)
  {
    if !s.deactivateGossip then s.(active := true, gossipActive := true, deactivateGossip := true)
    else s.(active := true)
  }

  /** deactivate: stop serving; running gossip is paused, and the pause is
      remembered as not being an explicit switch-off. */
  function Deactivate(s: ServerStatus): (r: ServerStatus)
    ensures !r.active && !r.gossipActive
    ensures r.deactivateGossip == (s.deactivateGossip && !s.gossipActive)
    ensures r == s.(active := false, gossipActive := false, deactivateGossip := r.deactivateGossip)
  {
    if s.gossipActive then s.(active := false, gossipActive := false, deactivateGossip := false)
    else s.(active := false)
  }

  /** activateGossip: turn gossip on; a later deactivate may pause it. */
  function ActivateGossip(s: ServerStatus): (r: ServerStatus)
    ensures r.gossipActive && !r.deactivateGossip
    ensures r == s.(gossipActive := true, deactivateGossip := false)
  {
    s.(gossipActive := true, deactivateGossip := false)
  }

  /** deactivateGossip: switch gossip off explicitly; activate will not turn
      it back on. */
  function DeactivateGossip(s: ServerStatus): (r: ServerStatus)
    ensures !r.gossipActive && r.deactivateGossip
    ensures r == s.(gossipActive := false, deactivateGossip := true)
  {
    s.(gossipActive := false, deactivateGossip := true)
  }

  /** On an active server whose gossip is off, the off is an explicit
      switch-off. */
  predicate SwitchesConsistent(s: ServerStatus) {
    s.active && !s.gossipActive ==> s.deactivateGossip
  }

  /** The new status satisfies the invariant and every switch keeps it. */
  lemma {:induction false} SwitchesKeepConsistency(s: ServerStatus, host: string, port: int, qualifiers: seq<string>)
    ensures SwitchesConsistent(NewStatus(host, port, qualifiers))
    ensures SwitchesConsistent(Activate(s))
    ensures SwitchesConsistent(Deactivate(s))
    ensures SwitchesConsistent(ActivateGossip(s))
    ensures SwitchesConsistent(DeactivateGossip(s))
    ensures SwitchesConsistent(s) ==> SwitchesConsistent(RecordWrite(s))
  {
  }

  /** Taking a consistent active server down and up again restores its
      gossip switch exactly. */
  lemma {:induction false} DeactivateActivateRestoresGossip(s: ServerStatus)
    requires s.active && SwitchesConsistent(s)
    ensures Activate(Deactivate(s)).gossipActive == s.gossipActive
    ensures Activate(Deactivate(s)).active
  {
    var d := Deactivate(s);
    if s.gossipActive {
      assert !d.deactivateGossip;
    } else {
      assert d.deactivateGossip;
    }
  }

  /** The invariant is what makes that work: an active server with gossip
      off but not switched off explicitly gets gossip back. */
  lemma DeactivateActivateNeedsConsistency()
    ensures var s := ServerStatus(true, false, false, false, "", 0, [], 0, map[]);
            !SwitchesConsistent(s) && Activate(Deactivate(s)).gossipActive
  {
  }

  /** An explicit switch-off survives a deactivate and activate cycle. */
  lemma {:induction false} ExplicitSwitchOffIsSticky(s: ServerStatus)
    ensures !Activate(Deactivate(DeactivateGossip(s))).gossipActive
  {
    var d := DeactivateGossip(s);
    assert Deactivate(d).deactivateGossip;
  }
}
