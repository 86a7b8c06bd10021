/**
 The class state as it travels in gossip requests and replies: capacity,
 the open flag, and two lists of (id, name, time stamp) records. Reading a
 list puts its records into a map one after the other, so a later record
 for the same id wins.
 */
module Wire {
  import opened Enumerations
  import opened Classes

  datatype StudentRecord = StudentRecord(id: StudentId, name: string, stamp: Instant)

  datatype WireClass = WireClass(
    capacity: int,
    open: bool,
    enrolled: seq<StudentRecord>,
    discarded: seq<StudentRecord>)

  function IdsOf(rs: seq<StudentRecord>): (ids: seq<StudentId>)
    ensures |ids| == |rs|
  {
    seq(|rs|, i requires 0 <= i < |rs| => rs[i].id)
  }

  /** The names of a record list, put into a map in list order. */
  function Names(rs: seq<StudentRecord>): map<StudentId, string> {
    if |rs| == 0 then map[]
    else Names(rs[..|rs| - 1])[rs[|rs| - 1].id := rs[|rs| - 1].name]
  }

  /** The time stamps of a record list, put into a map in list order. */
  function Stamps(rs: seq<StudentRecord>): map<StudentId, Instant> {
    if |rs| == 0 then map[]
    else Stamps(rs[..|rs| - 1])[rs[|rs| - 1].id := rs[|rs| - 1].stamp]
  }

  /** convertToClass: the enrolled and the discarded list become the two
      maps; every record, enrolled ones first, contributes its stamp. */
  function FromWire(w: WireClass): (c: ClassState)
    ensures Tracked(c)
  {
    var c := ClassState(w.capacity, w.open, Names(w.enrolled), Names(w.discarded), Stamps(w.enrolled + w.discarded));
    RecordKeys(w.enrolled);
    RecordKeys(w.discarded);
    RecordKeys(w.enrolled + w.discarded);
    assert IdsOf(w.enrolled + w.discarded) == IdsOf(w.enrolled) + IdsOf(w.discarded);
    forall k | k in c.stamps.Keys
      ensures k in c.enrolled.Keys + c.discarded.Keys
    {
    }
    forall k | k in c.enrolled.Keys + c.discarded.Keys
      ensures k in c.stamps.Keys
    {
    }
    c
  }

  /** The records of the students listed in `order`. */
  function Records(names: map<StudentId, string>, stamps: map<StudentId, Instant>, order: seq<StudentId>): (rs: seq<StudentRecord>)
    requires forall i :: 0 <= i < |order| ==> order[i] in names && order[i] in stamps
    ensures IdsOf(rs) == order
  {
    seq(|order|, i requires 0 <= i < |order| => StudentRecord(order[i], names[order[i]], stamps[order[i]]))
  }

  /** Every student on either side has a time stamp. */
  predicate Stamped(c: ClassState) {
    c.enrolled.Keys + c.discarded.Keys <= c.stamps.Keys
  }

  /** convertToClassState: a record per enrolled student and per discarded
      student, in the iteration order of the two maps. */
  function ToWire(c: ClassState, enrolledOrder: seq<StudentId>, discardedOrder: seq<StudentId>): (w: WireClass)
    requires Stamped(c)
    requires Enumerates(enrolledOrder, c.enrolled.Keys) && Enumerates(discardedOrder, c.discarded.Keys)
    ensures |w.enrolled| == |enrolledOrder| && |w.discarded| == |discardedOrder|
    ensures forall i :: 0 <= i < |w.enrolled| ==> w.enrolled[i].id in c.enrolled
    ensures forall i :: 0 <= i < |w.discarded| ==> w.discarded[i].id in c.discarded
  {
    WireClass(c.capacity, c.open,
      Records(c.enrolled, c.stamps, enrolledOrder),
      Records(c.discarded, c.stamps, discardedOrder))
  }

  /** A record list's maps have exactly the listed ids as keys. */
  lemma {:induction false} RecordKeys(rs: seq<StudentRecord>)
    ensures forall k :: k in Names(rs) <==> k in IdsOf(rs)
    ensures forall k :: k in Stamps(rs) <==> k in IdsOf(rs)
  {
    if |rs| > 0 {
      var n := |rs| - 1;
      RecordKeys(rs[..n]);
      assert IdsOf(rs) == IdsOf(rs[..n]) + [rs[n].id];
    }
  }

  /** When every record agrees with a pair of maps, so do the maps read
      back from the list. */
  lemma {:induction false} RecordValues(rs: seq<StudentRecord>, names: map<StudentId, string>, stamps: map<StudentId, Instant>)
    requires forall i :: 0 <= i < |rs| ==> rs[i].id in stamps && rs[i].stamp == stamps[rs[i].id]
    ensures forall k :: k in Stamps(rs) ==> k in stamps && Stamps(rs)[k] == stamps[k]
    ensures (forall i :: 0 <= i < |rs| ==> rs[i].id in names && rs[i].name == names[rs[i].id]) ==>
              forall k :: k in Names(rs) ==> k in names && Names(rs)[k] == names[k]
  {
    if |rs| > 0 {
      var n := |rs| - 1;
      RecordValues(rs[..n], names, stamps);
    }
  }

  /** Reading back the records of a map, listed in any order that visits
      each key once, gives the map. */
  lemma {:induction false} NamesRoundTrip(names: map<StudentId, string>, stamps: map<StudentId, Instant>, order: seq<StudentId>)
    requires Enumerates(order, names.Keys)
    requires forall i :: 0 <= i < |order| ==> order[i] in stamps
    ensures Names(Records(names, stamps, order)) == names
  {
    var rs := Records(names, stamps, order);
    RecordKeys(rs);
    RecordValues(rs, names, stamps);
    SameMap(Names(rs), names);
  }

  /** The stamps read back from both lists are the stamps of the students
      listed. */
  lemma {:induction false} StampsRoundTrip(e: map<StudentId, string>, d: map<StudentId, string>, stamps: map<StudentId, Instant>,
                                           eo: seq<StudentId>, do: seq<StudentId>)
    requires stamps.Keys == e.Keys + d.Keys
    requires Enumerates(eo, e.Keys) && Enumerates(do, d.Keys)
    ensures Stamps(Records(e, stamps, eo) + Records(d, stamps, do)) == stamps
  {
    var re := Records(e, stamps, eo);
    var rd := Records(d, stamps, do);
    var rs := re + rd;
    RecordKeys(rs);
    assert IdsOf(rs) == eo + do;
    forall i | 0 <= i < |rs|
      ensures rs[i].id in stamps && rs[i].stamp == stamps[rs[i].id]
    {
      if i < |re| {
        assert rs[i] == re[i];
      } else {
        assert rs[i] == rd[i - |re|];
      }
    }
    RecordValues(rs, e, stamps);
    forall k | k in stamps
      ensures k in Stamps(rs)
    {
      assert k in eo + do;
    }
    SameMap(Stamps(rs), stamps);
  }

  /** What survives a trip over the wire: convertToClass of
      convertToClassState keeps the scalars and both name maps, and the
      stamps of the listed students only. */
  function WireImage(c: ClassState): (w: ClassState)
    ensures w.capacity == c.capacity && w.open == c.open
    ensures w.enrolled == c.enrolled && w.discarded == c.discarded
    ensures forall k :: k in w.stamps <==> k in c.stamps && (k in c.enrolled || k in c.discarded)
    ensures forall k :: k in w.stamps ==> w.stamps[k] == c.stamps[k]
    ensures Stamped(c) ==> Tracked(w)
    ensures Tracked(c) ==> w == c
  {
    var stamps := map k | k in c.stamps && (k in c.enrolled || k in c.discarded) :: c.stamps[k];
    ListedStampsOfTracked(c, stamps);
    c.(stamps := stamps)
  }

  lemma ListedStampsOfTracked(c: ClassState, stamps: map<StudentId, Instant>)
    requires stamps == map k | k in c.stamps && (k in c.enrolled || k in c.discarded) :: c.stamps[k]
    ensures Tracked(c) ==> stamps == c.stamps
  {
    if Tracked(c) {
      SameMap(stamps, c.stamps);
    }
  }

  /** Sending a class state and reading it back gives its wire image,
      whatever order the maps were iterated in: the class itself when it is
      tracked, and otherwise the class without the stamps of students it no
      longer lists. */
  lemma {:induction false} WireRoundTrip(c: ClassState, enrolledOrder: seq<StudentId>, discardedOrder: seq<StudentId>)
    requires Stamped(c)
    requires Enumerates(enrolledOrder, c.enrolled.Keys) && Enumerates(discardedOrder, c.discarded.Keys)
    ensures FromWire(ToWire(c, enrolledOrder, discardedOrder)) == WireImage(c)
  {
    var w := WireImage(c);
    assert Records(c.enrolled, c.stamps, enrolledOrder) == Records(w.enrolled, w.stamps, enrolledOrder);
    assert Records(c.discarded, c.stamps, discardedOrder) == Records(w.discarded, w.stamps, discardedOrder);
    NamesRoundTrip(w.enrolled, w.stamps, enrolledOrder);
    NamesRoundTrip(w.discarded, w.stamps, discardedOrder);
    StampsRoundTrip(w.enrolled, w.discarded, w.stamps, enrolledOrder, discardedOrder);
  }

  /** A class read from the wire crosses it again unchanged. */
  lemma {:induction false} WireImageIdempotent(c: ClassState)
    ensures WireImage(WireImage(c)) == WireImage(c)
  {
    var w := WireImage(c);
    SameMap(WireImage(w).stamps, w.stamps);
  }

  /** Two maps are equal when the first holds every key of the second and
      agrees with it on its own keys. */
  lemma SameMap<K, V>(a: map<K, V>, b: map<K, V>)
    requires forall k :: k in a ==> k in b && a[k] == b[k]
    requires forall k :: k in b ==> k in a
    ensures a == b
  {
    forall k | k in a.Keys
      ensures k in b.Keys
    {
    }
    forall k | k in b.Keys
      ensures k in a.Keys
    {
    }
  }
}
