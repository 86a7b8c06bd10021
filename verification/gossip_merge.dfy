/**
 The student-list merge performed when gossip arrives with a clock
 concurrent to the local one. Students are visited in stamp order; each is
 seated while there is room and the replica with the newer stamp says so,
 and discarded otherwise. Discarded entries not visited by the sweep are
 carried over at the end.

 The merge is written once, parameterised by a `Variant`: `AsWritten`
 follows the code line by line, and `Corrected` differs in one branch only:
 a student discarded on both replicas stays discarded, where the code seats
 them and also keeps them among the discarded. In both variants a missing
 stamp compared while settling a conflict aborts the sweep, as the null
 dereference does in the code.
 */
module GossipMerge {
  import opened Options
  import opened Enumerations
  import opened Classes
  import opened GossipOrder

  datatype Variant = AsWritten | Corrected

  /** The two classes being merged and the capacity already resolved. */
  datatype Merging = Merging(local: ClassState, remote: ClassState, capacity: int)

  /** The state of the sweep: the new enrolled and discarded maps, what is
      left of each replica's discarded map (entries are removed as they are
      visited), and whether a null dereference has aborted the sweep. */
  datatype Sweep = Sweep(
    enrolled: map<StudentId, string>,
    discarded: map<StudentId, string>,
    localLeft: map<StudentId, string>,
    remoteLeft: map<StudentId, string>,
    crashed: bool)

  function Begin(m: Merging): Sweep {
    Sweep(map[], map[], m.local.discarded, m.remote.discarded, false)
  }

  function Find<V>(m: map<StudentId, V>, k: StudentId): (r: Option<V>)
    ensures r.Some? <==> k in m
    ensures r.Some? ==> r.value == m[k]
  {
    if k in m then Some(m[k]) else None
  }

  /** getStudentName on a class whose discarded map is currently `left`. */
  function NameOf(enrolled: map<StudentId, string>, left: map<StudentId, string>, id: StudentId): Option<string> {
    if id in enrolled then Some(enrolled[id]) else Find(left, id)
  }

  /** Both stamps exist and the local one is strictly later. */
  predicate StampNewer(lt: Option<Instant>, rt: Option<Instant>) {
    lt.Some? && rt.Some? && lt.value > rt.value
  }

  /** localTimestamp.compareTo(remoteTimestamp) > 0; `None` where the code
      dereferences a null stamp. */
  function LocalNewer(lt: Option<Instant>, rt: Option<Instant>): (r: Option<bool>)
    ensures r.None? <==> lt.None? || rt.None?
    ensures r.Some? ==> (r.value <==> StampNewer(lt, rt))
  {
    if lt.None? || rt.None? then None else Some(lt.value > rt.value)
  }

  /** The name the loop looks up for the visited student: in the local
      class when the local replica has a stamp for them, else in the remote
      one, each with its discarded map as the sweep has left it. */
  function VisitedName(m: Merging, s: Sweep, id: StudentId): (r: Option<string>)
    ensures id in m.local.stamps && id in m.local.enrolled ==> r == Some(m.local.enrolled[id])
    ensures id !in m.local.stamps && id in m.remote.enrolled ==> r == Some(m.remote.enrolled[id])
    ensures r.Some? <==> if id in m.local.stamps then id in m.local.enrolled || id in s.localLeft
                         else id in m.remote.enrolled || id in s.remoteLeft
  {
    if id in m.local.stamps then NameOf(m.local.enrolled, s.localLeft, id)
    else NameOf(m.remote.enrolled, s.remoteLeft, id)
  }

  /** Where one iteration puts the visited student. */
  datatype Decision = Seat(name: string) | Bench(name: string) | Abort

  /** The branch structure of one iteration of the merge loop: look the
      name up (local class first if it has a stamp), then, while below
      capacity, let a discarded entry on the remote and then on the local
      replica be settled by the stamps, and seat everybody else; at or over
      capacity, discard. A null stamp or name aborts. */
  function Decide(v: Variant, m: Merging, s: Sweep, id: StudentId): (d: Decision)
    ensures d.Seat? ==> |s.enrolled| < m.capacity
  {
    var name := VisitedName(m, s, id);
    var newer := LocalNewer(Find(m.local.stamps, id), Find(m.remote.stamps, id));
    if |s.enrolled| < m.capacity then
      if id in s.remoteLeft then
        if newer.None? || name.None? then Abort
        else if newer.value && (v.AsWritten? || id !in s.localLeft) then Seat(name.value)
        else Bench(name.value)
      else if id in s.localLeft then
        if newer.None? || name.None? then Abort
        else if newer.value then Bench(name.value)
        else Seat(name.value)
      else if name.None? then Abort
      else Seat(name.value)
    else if name.None? then Abort
    else Bench(name.value)
  }

  /** The loop removes the visited student from the remote leftovers when,
      below capacity, it finds them there ... */
  predicate TakesRemote(m: Merging, s: Sweep, id: StudentId) {
    |s.enrolled| < m.capacity && id in s.remoteLeft
  }

  /** ... and otherwise from the local leftovers when it finds them there. */
  predicate TakesLocal(m: Merging, s: Sweep, id: StudentId) {
    |s.enrolled| < m.capacity && id !in s.remoteLeft && id in s.localLeft
  }

  function Without(mp: map<StudentId, string>, id: StudentId, cut: bool): (r: map<StudentId, string>)
    ensures r.Keys <= mp.Keys
    ensures forall k :: k in r ==> r[k] == mp[k]
    ensures forall k :: k != id && k in mp ==> k in r
    ensures cut ==> id !in r
    ensures !cut ==> r == mp
  {
    if cut then mp - {id} else mp
  }

  function With(mp: map<StudentId, string>, id: StudentId, put: bool, name: string): (r: map<StudentId, string>)
    ensures forall k :: k in r <==> k in mp || (put && k == id)
    ensures id !in mp ==> |r| == |mp| + (if put then 1 else 0)
    ensures !put ==> r == mp
  {
    if put then mp[id := name] else mp
  }

  /** One iteration of the merge loop, for the student `id`; after an
      abort nothing further happens. */
  function Place(v: Variant, m: Merging, s: Sweep, id: StudentId): (r: Sweep)
    ensures s.crashed ==> r == s
    ensures !s.crashed ==> (r.crashed <==> Decide(v, m, s, id).Abort?)
  {
    if s.crashed then s
    else
      var d := Decide(v, m, s, id);
      Sweep(
        With(s.enrolled, id, d.Seat?, if d.Abort? then "" else d.name),
        With(s.discarded, id, d.Bench?, if d.Abort? then "" else d.name),
        Without(s.localLeft, id, TakesLocal(m, s, id)),
        Without(s.remoteLeft, id, TakesRemote(m, s, id)),
        d.Abort?)
  }

  /** The whole loop over `ids`, in order. */
  function Sweeping(v: Variant, m: Merging, ids: seq<StudentId>): (s: Sweep)
    ensures s.crashed ==> |ids| > 0
  {
    if |ids| == 0 then Begin(m)
    else Place(v, m, Sweeping(v, m, ids[..|ids| - 1]), ids[|ids| - 1])
  }

  /** The discarded map after the loop: the sweep's own, then the local
      leftovers, then the remote leftovers (later puts win). */
  function Leftover(s: Sweep): map<StudentId, string> {
    (s.discarded + s.localLeft) + s.remoteLeft
  }

  /** The class installed after a completed sweep: resolved scalars, the
      new maps, and the winning stamp of every student listed. */
  function MergedClass(m: Merging, open: bool, all: map<StudentId, Instant>, s: Sweep): (c: ClassState)
    ensures c.capacity == m.capacity && c.open == open && c.enrolled == s.enrolled
    ensures c.discarded.Keys == s.discarded.Keys + s.localLeft.Keys + s.remoteLeft.Keys
  {
    var d := Leftover(s);
    ClassState(m.capacity, open, s.enrolled, d,
               m.local.stamps + map k | k in all && (k in s.enrolled || k in d) :: all[k])
  }

  /** Where the student belongs when seats are available: on whichever side
      the replica with the newer stamp has them (the remote on a tie). */
  predicate WantsSeat(m: Merging, id: StudentId) {
    if StampNewer(Find(m.local.stamps, id), Find(m.remote.stamps, id)) then id !in m.local.discarded
    else id !in m.remote.discarded
  }

  /** What one iteration does to the bookkeeping, for either variant:
      leftovers only lose the visited student, nobody else moves, the
      visited student is placed unless the sweep aborts, and the enrolled
      map grows by at most one and only while below capacity. */
  lemma {:induction false} PlaceBookkeeping(v: Variant, m: Merging, s: Sweep, id: StudentId)
    requires id !in s.enrolled
    ensures var r := Place(v, m, s, id);
            && r.localLeft.Keys <= s.localLeft.Keys && r.remoteLeft.Keys <= s.remoteLeft.Keys
            && (forall k :: k in r.localLeft ==> r.localLeft[k] == s.localLeft[k])
            && (forall k :: k in r.remoteLeft ==> r.remoteLeft[k] == s.remoteLeft[k])
            && (forall k :: k != id && k in s.localLeft ==> k in r.localLeft)
            && (forall k :: k != id && k in s.remoteLeft ==> k in r.remoteLeft)
            && (forall k :: k in r.enrolled ==> k in s.enrolled || k == id)
            && (forall k :: k in r.discarded ==> k in s.discarded || k == id)
            && (forall k :: k in s.enrolled ==> k in r.enrolled)
            && (s.crashed ==> r == s)
            && (!r.crashed ==> id in r.enrolled || id in r.discarded)
            && (|r.enrolled| == |s.enrolled| || (|s.enrolled| < m.capacity && |r.enrolled| == |s.enrolled| + 1))
  {
  }

  /** The bookkeeping of the whole loop: leftovers only shrink, unvisited
      students stay in them, every student placed was visited, every
      visited student is placed unless the sweep aborted, and the class
      never holds more than its capacity. */
  lemma {:induction false} SweepBookkeeping(v: Variant, m: Merging, ids: seq<StudentId>)
    requires Distinct(ids)
    ensures var s := Sweeping(v, m, ids);
            && (forall k :: k in s.localLeft ==> k in m.local.discarded && s.localLeft[k] == m.local.discarded[k])
            && (forall k :: k in s.remoteLeft ==> k in m.remote.discarded && s.remoteLeft[k] == m.remote.discarded[k])
            && (forall k :: k in m.local.discarded && k !in ids ==> k in s.localLeft)
            && (forall k :: k in m.remote.discarded && k !in ids ==> k in s.remoteLeft)
            && (forall k :: k in s.enrolled || k in s.discarded ==> k in ids)
            && (!s.crashed ==> forall i :: 0 <= i < |ids| ==> ids[i] in s.enrolled || ids[i] in s.discarded)
            && |s.enrolled| <= (if m.capacity < 0 then 0 else m.capacity)
  {
    if |ids| > 0 {
      var n := |ids| - 1;
      var init := ids[..n];
      var x := ids[n];
      DistinctPrefix(ids, n);
      SweepBookkeeping(v, m, init);
      var p := Sweeping(v, m, init);
      var s := Sweeping(v, m, ids);
      assert s == Place(v, m, p, x);
      PlaceBookkeeping(v, m, p, x);
      forall k | k in s.enrolled || k in s.discarded
        ensures k in ids
      {
        if k != x {
          assert k in init;
        }
      }
      if !s.crashed {
        forall i | 0 <= i < |ids|
          ensures ids[i] in s.enrolled || ids[i] in s.discarded
        {
          if i < n {
            assert ids[i] == init[i];
          }
        }
      }
      forall k | k in m.local.discarded && k !in ids
        ensures k in s.localLeft
      {
        assert k !in init;
      }
      forall k | k in m.remote.discarded && k !in ids
        ensures k in s.remoteLeft
      {
        assert k !in init;
      }
    }
  }

  /** In the corrected merge a seated student is left in neither leftover
      map, so the final enrolled and discarded maps never share a student. */
  lemma {:induction false} CorrectedSweepDisjoint(m: Merging, ids: seq<StudentId>)
    requires Distinct(ids)
    ensures var s := Sweeping(Corrected, m, ids);
            forall k :: k in s.enrolled ==> k !in s.discarded && k !in s.localLeft && k !in s.remoteLeft
  {
    if |ids| > 0 {
      var n := |ids| - 1;
      var init := ids[..n];
      var x := ids[n];
      DistinctPrefix(ids, n);
      SweepBookkeeping(Corrected, m, init);
      CorrectedSweepDisjoint(m, init);
      var p := Sweeping(Corrected, m, init);
      var s := Sweeping(Corrected, m, ids);
      assert s == Place(Corrected, m, p, x);
      assert x !in p.enrolled && x !in p.discarded;
      PlaceBookkeeping(Corrected, m, p, x);
      if !p.crashed && Decide(Corrected, m, p, x).Seat? {
        assert x !in s.localLeft && x !in s.remoteLeft;
      }
    }
  }

  /** Every student discarded on either replica has a stamp on both, so
      no conflict compares a missing stamp. */
  predicate Comparable(m: Merging) {
    && (forall k :: k in m.local.discarded ==> k in m.local.stamps && k in m.remote.stamps)
    && (forall k :: k in m.remote.discarded ==> k in m.local.stamps && k in m.remote.stamps)
  }

  /** On tracked classes whose conflicts have stamps on both sides the merge
      never aborts: every visited student has a name on the replica
      consulted, and every comparison finds both stamps. */
  lemma {:induction false} SweepCompletes(v: Variant, m: Merging, ids: seq<StudentId>)
    requires Distinct(ids)
    requires Tracked(m.local) && Tracked(m.remote) && Comparable(m)
    requires forall i :: 0 <= i < |ids| ==> ids[i] in m.local.stamps || ids[i] in m.remote.stamps
    ensures !Sweeping(v, m, ids).crashed
  {
    if |ids| > 0 {
      var n := |ids| - 1;
      var init := ids[..n];
      var x := ids[n];
      DistinctPrefix(ids, n);
      SweepBookkeeping(v, m, init);
      SweepCompletes(v, m, init);
      var p := Sweeping(v, m, init);
      assert x !in init;
      StampedHasName(m.local, x);
      StampedHasName(m.remote, x);
      NameFound(v, m, p, x);
    }
  }

  /** A tracked class lists every stamped student in one of its maps. */
  lemma StampedHasName(c: ClassState, x: StudentId)
    requires Tracked(c)
    ensures x in c.stamps ==> x in c.enrolled || x in c.discarded
  {
    if x in c.stamps {
      assert x in c.stamps.Keys;
    }
  }

  /** An iteration with a name to record and, for a conflict, both stamps
      to compare does not abort. */
  lemma {:induction false} NameFound(v: Variant, m: Merging, s: Sweep, x: StudentId)
    requires x in m.local.stamps ==> x in m.local.enrolled || x in s.localLeft
    requires x !in m.local.stamps ==> x in m.remote.enrolled || x in s.remoteLeft
    requires x in s.localLeft || x in s.remoteLeft ==> x in m.local.stamps && x in m.remote.stamps
    ensures !Decide(v, m, s, x).Abort?
  {
  }

  /** An iteration on a student not yet visited aborts exactly when the
      name lookup finds nothing, or when, below capacity, the student is
      discarded on either replica and one of the two stamps is missing;
      otherwise it records the name looked up. The same for both variants. */
  lemma {:induction false} DecisionAborts(v: Variant, m: Merging, s: Sweep, x: StudentId)
    requires x in s.localLeft <==> x in m.local.discarded
    requires x in s.remoteLeft <==> x in m.remote.discarded
    ensures var d := Decide(v, m, s, x);
            && (d.Abort? <==>
                  || VisitedName(m, s, x).None?
                  || (&& |s.enrolled| < m.capacity
                      && (x in m.local.discarded || x in m.remote.discarded)
                      && (x !in m.local.stamps || x !in m.remote.stamps)))
            && (!d.Abort? ==> d.name == VisitedName(m, s, x).value)
  {
  }

  /** One iteration of the code on a student not yet visited seats them
      exactly when there is room and either `WantsSeat` holds or they are
      discarded on both replicas with the later stamp on the local one:
      the remote-discarded branch seats them without looking at the local
      discarded map. */
  lemma {:induction false} AsWrittenDecision(m: Merging, s: Sweep, x: StudentId)
    requires x in s.localLeft <==> x in m.local.discarded
    requires x in s.remoteLeft <==> x in m.remote.discarded
    ensures var d := Decide(AsWritten, m, s, x);
            !d.Abort? ==>
              (d.Seat? <==>
                 && |s.enrolled| < m.capacity
                 && (|| WantsSeat(m, x)
                     || (&& x in m.local.discarded && x in m.remote.discarded
                         && StampNewer(Find(m.local.stamps, x), Find(m.remote.stamps, x)))))
  {
  }

  /** One corrected iteration on a student not yet visited seats them
      exactly when there is room and `WantsSeat` holds. */
  lemma {:induction false} CorrectedDecision(m: Merging, s: Sweep, x: StudentId)
    requires x in s.localLeft <==> x in m.local.discarded
    requires x in s.remoteLeft <==> x in m.remote.discarded
    ensures var d := Decide(Corrected, m, s, x);
            !d.Abort? ==> (d.Seat? <==> |s.enrolled| < m.capacity && WantsSeat(m, x))
  {
  }

  /** Everyone the code seats belongs on the enrolled side of the replica
      with the newer stamp, or is discarded on both replicas with the newer
      stamp on the local one. */
  lemma {:induction false} AsWrittenSeatsWanted(m: Merging, ids: seq<StudentId>)
    requires Distinct(ids)
    ensures forall k :: k in Sweeping(AsWritten, m, ids).enrolled ==>
              || WantsSeat(m, k)
              || (&& k in m.local.discarded && k in m.remote.discarded
                  && StampNewer(Find(m.local.stamps, k), Find(m.remote.stamps, k)))
  {
    if |ids| > 0 {
      var n := |ids| - 1;
      var init := ids[..n];
      var x := ids[n];
      DistinctPrefix(ids, n);
      SweepBookkeeping(AsWritten, m, init);
      AsWrittenSeatsWanted(m, init);
      var p := Sweeping(AsWritten, m, init);
      if !p.crashed {
        assert x in p.localLeft <==> x in m.local.discarded;
        assert x in p.remoteLeft <==> x in m.remote.discarded;
        AsWrittenDecision(m, p, x);
      }
    }
  }

  /** Everyone the corrected merge seats belongs on the enrolled side of
      the replica with the newer stamp. */
  lemma {:induction false} CorrectedSeatsWanted(m: Merging, ids: seq<StudentId>)
    requires Distinct(ids)
    ensures forall k :: k in Sweeping(Corrected, m, ids).enrolled ==> WantsSeat(m, k)
  {
    if |ids| > 0 {
      var n := |ids| - 1;
      var init := ids[..n];
      var x := ids[n];
      DistinctPrefix(ids, n);
      SweepBookkeeping(Corrected, m, init);
      CorrectedSeatsWanted(m, init);
      var p := Sweeping(Corrected, m, init);
      if !p.crashed {
        assert x in p.localLeft <==> x in m.local.discarded;
        assert x in p.remoteLeft <==> x in m.remote.discarded;
        CorrectedDecision(m, p, x);
      }
    }
  }

  /** First come, first served: when the corrected merge visits students in
      stamp order, anyone who belongs on the enrolled side but was not seated
      found the class full of students stamped no later than themselves. */
  lemma {:induction false} CorrectedFirstComeFirstServed(m: Merging, all: map<StudentId, Instant>, ids: seq<StudentId>)
    requires Distinct(ids)
    requires forall i :: 0 <= i < |ids| ==> ids[i] in all
    requires SortedByStamp(ids, all)
    ensures var s := Sweeping(Corrected, m, ids);
            !s.crashed ==>
              forall i :: 0 <= i < |ids| && WantsSeat(m, ids[i]) && ids[i] !in s.enrolled ==>
                |s.enrolled| >= m.capacity && forall k :: k in s.enrolled ==> k in all && all[k] <= all[ids[i]]
  {
    if |ids| > 0 {
      var n := |ids| - 1;
      var init := ids[..n];
      DistinctPrefix(ids, n);
      CorrectedFirstComeFirstServed(m, all, init);
      SeatedNoLater(m, all, ids);
      var p := Sweeping(Corrected, m, init);
      assert forall i :: 0 <= i < n ==> ids[i] == init[i];
      FirstComeStep(m, all, ids, p);
      assert Sweeping(Corrected, m, ids) == Place(Corrected, m, p, ids[n]);
    }
  }

  /** The inductive step of first come, first served, for the sweep `p`
      over all but the last student: when that student is stamped no
      earlier than anyone `p` seated, what holds after `p` still holds once
      the last student is placed. */
  lemma {:induction false} FirstComeStep(m: Merging, all: map<StudentId, Instant>, ids: seq<StudentId>, p: Sweep)
    requires |ids| > 0
    requires forall i :: 0 <= i < |ids| ==> ids[i] in all
    requires var x := ids[|ids| - 1];
             && x !in p.enrolled
             && (x in p.localLeft <==> x in m.local.discarded)
             && (x in p.remoteLeft <==> x in m.remote.discarded)
             && forall k :: k in p.enrolled ==> k in all && all[k] <= all[x]
    requires !p.crashed ==>
               forall i :: 0 <= i < |ids| - 1 && WantsSeat(m, ids[i]) && ids[i] !in p.enrolled ==>
                 |p.enrolled| >= m.capacity && forall k :: k in p.enrolled ==> k in all && all[k] <= all[ids[i]]
    ensures var s := Place(Corrected, m, p, ids[|ids| - 1]);
            !s.crashed ==>
              forall i :: 0 <= i < |ids| && WantsSeat(m, ids[i]) && ids[i] !in s.enrolled ==>
                |s.enrolled| >= m.capacity && forall k :: k in s.enrolled ==> k in all && all[k] <= all[ids[i]]
  {
    var n := |ids| - 1;
    var x := ids[n];
    var s := Place(Corrected, m, p, x);
    if !s.crashed {
      PlaceBookkeeping(Corrected, m, p, x);
      FirstComePlace(m, all, p, x);
      forall i | 0 <= i < |ids| && WantsSeat(m, ids[i]) && ids[i] !in s.enrolled
        ensures |s.enrolled| >= m.capacity
        ensures forall k :: k in s.enrolled ==> k in all && all[k] <= all[ids[i]]
      {
        if i < n {
          assert ids[i] !in p.enrolled;
        }
      }
    }
  }

  /** Visiting in stamp order, the last student is not yet seated, still
      finds their leftover entries untouched, and is stamped no earlier than
      anyone the sweep has seated before them. */
  lemma {:induction false} SeatedNoLater(m: Merging, all: map<StudentId, Instant>, ids: seq<StudentId>)
    requires |ids| > 0 && Distinct(ids)
    requires forall i :: 0 <= i < |ids| ==> ids[i] in all
    requires SortedByStamp(ids, all)
    ensures var n := |ids| - 1;
            var p := Sweeping(Corrected, m, ids[..n]);
            && ids[n] !in p.enrolled
            && (ids[n] in p.localLeft <==> ids[n] in m.local.discarded)
            && (ids[n] in p.remoteLeft <==> ids[n] in m.remote.discarded)
            && forall k :: k in p.enrolled ==> k in all && all[k] <= all[ids[n]]
  {
    var n := |ids| - 1;
    var init := ids[..n];
    var x := ids[n];
    DistinctPrefix(ids, n);
    SweepBookkeeping(Corrected, m, init);
    var p := Sweeping(Corrected, m, init);
    forall k | k in p.enrolled
      ensures k in all && all[k] <= all[x]
    {
      assert k in init;
      var j :| 0 <= j < n && init[j] == k;
      assert ids[j] == k;
    }
  }

  /** One corrected iteration, on a student stamped no earlier than anyone
      already seated: a full class stays as it is, and a student who
      belongs on the enrolled side is left without a seat only when the
      class was already full. */
  lemma {:induction false} FirstComePlace(m: Merging, all: map<StudentId, Instant>, p: Sweep, x: StudentId)
    requires x !in p.enrolled && x in all
    requires x in p.localLeft <==> x in m.local.discarded
    requires x in p.remoteLeft <==> x in m.remote.discarded
    requires forall k :: k in p.enrolled ==> k in all && all[k] <= all[x]
    requires !Place(Corrected, m, p, x).crashed
    ensures var s := Place(Corrected, m, p, x);
            && (|p.enrolled| >= m.capacity ==> s.enrolled == p.enrolled)
            && (WantsSeat(m, x) && x !in s.enrolled ==>
                  |s.enrolled| >= m.capacity && forall k :: k in s.enrolled ==> k in all && all[k] <= all[x])
  {
    FullClassUnchanged(Corrected, m, p, x);
    CorrectedDecision(m, p, x);
  }

  /** Once the class is full an iteration, in either variant, seats nobody
      and leaves both leftover maps alone; the visited student is discarded
      under the name looked up, or, when there is none, the sweep aborts. */
  lemma {:induction false} FullClassUnchanged(v: Variant, m: Merging, s: Sweep, x: StudentId)
    ensures var r := Place(v, m, s, x);
            |s.enrolled| >= m.capacity ==>
              && r.enrolled == s.enrolled
              && r.localLeft == s.localLeft && r.remoteLeft == s.remoteLeft
              && (!s.crashed && VisitedName(m, s, x).Some? ==>
                    !r.crashed && r.discarded == s.discarded[x := VisitedName(m, s, x).value])
              && (!s.crashed && VisitedName(m, s, x).None? ==> r.crashed && r.discarded == s.discarded)
  {
  }

  /** The fault in the code: a student discarded on both replicas, with the
      later stamp on the local one, is seated by the remote-discarded branch
      while the local leftovers still list them, so the installed class has
      them both enrolled and discarded. The corrected branch leaves them
      discarded only. Both input classes are well formed. */
  lemma {:induction false} DoublyDiscardedSeatedTwice(id: StudentId, name: string, t1: Instant, t2: Instant,
                                                      capacity: int, open: bool)
    requires t1 > t2 && capacity >= 1
    ensures var local := ClassState(capacity, open, map[], map[id := name], map[id := t1]);
            var remote := ClassState(capacity, open, map[], map[id := name], map[id := t2]);
            var m := Merging(local, remote, capacity);
            var all := LatestStamps(local.stamps, remote.stamps);
            && WellFormed(local) && WellFormed(remote) && Comparable(m)
            && (var c := MergedClass(m, open, all, Sweeping(AsWritten, m, [id]));
                id in c.enrolled && id in c.discarded && !WellFormed(c))
            && (var c := MergedClass(m, open, all, Sweeping(Corrected, m, [id]));
                id !in c.enrolled && id in c.discarded)
  {
    var local := ClassState(capacity, open, map[], map[id := name], map[id := t1]);
    var remote := ClassState(capacity, open, map[], map[id := name], map[id := t2]);
    var m := Merging(local, remote, capacity);
    assert [id][..0] == [];
    assert Decide(AsWritten, m, Begin(m), id) == Seat(name);
    assert Decide(Corrected, m, Begin(m), id) == Bench(name);
    assert local.stamps.Keys == local.enrolled.Keys + local.discarded.Keys;
    assert remote.stamps.Keys == remote.enrolled.Keys + remote.discarded.Keys;
  }

  /** The null dereference, kept in both variants: a student discarded on the
      remote replica and unknown to the local one aborts the sweep as soon
      as it is reached below capacity. */
  lemma {:induction false} UnknownStudentAborts(v: Variant, id: StudentId, name: string, t: Instant, capacity: int, open: bool)
    requires capacity >= 1
    ensures var local := ClassState(capacity, open, map[], map[], map[]);
            var remote := ClassState(capacity, open, map[], map[id := name], map[id := t]);
            && Tracked(local) && Tracked(remote)
            && Sweeping(v, Merging(local, remote, capacity), [id]).crashed
  {
    var local := ClassState(capacity, open, map[], map[], map[]);
    var remote := ClassState(capacity, open, map[], map[id := name], map[id := t]);
    var m := Merging(local, remote, capacity);
    assert [id][..0] == [];
    assert Decide(v, m, Begin(m), id) == Abort;
    assert remote.stamps.Keys == remote.enrolled.Keys + remote.discarded.Keys;
  }

  /** After a completed sweep over every stamped student, the installed
      class lists exactly those students and carries, for each, the later
      of the two replicas' stamps; so it is tracked again. */
  lemma {:induction false} MergedStampsAreLatest(v: Variant, m: Merging, open: bool, ids: seq<StudentId>)
    requires Tracked(m.local) && Tracked(m.remote)
    requires Enumerates(ids, LatestStamps(m.local.stamps, m.remote.stamps).Keys)
    requires !Sweeping(v, m, ids).crashed
    ensures var all := LatestStamps(m.local.stamps, m.remote.stamps);
            var c := MergedClass(m, open, all, Sweeping(v, m, ids));
            c.stamps == all && Tracked(c)
  {
    var all := LatestStamps(m.local.stamps, m.remote.stamps);
    var s := Sweeping(v, m, ids);
    var d := Leftover(s);
    SweepBookkeeping(v, m, ids);
    forall k | k in all
      ensures k in s.enrolled || k in d
    {
      var i :| 0 <= i < |ids| && ids[i] == k;
    }
    forall k | k in s.enrolled || k in d
      ensures k in all
    {
      StampedHasName(m.local, k);
      StampedHasName(m.remote, k);
      if k in s.localLeft {
        assert k in m.local.stamps.Keys;
      } else if k in s.remoteLeft {
        assert k in m.remote.stamps.Keys;
      }
    }
    SettledStamps(m.local.stamps, all, s.enrolled, d);
  }

  /** The stamp map the merge installs, as plain map algebra. */
  lemma SettledStamps(ls: map<StudentId, Instant>, all: map<StudentId, Instant>,
                      e: map<StudentId, string>, d: map<StudentId, string>)
    requires forall k :: k in ls ==> k in all
    requires forall k :: k in all <==> k in e || k in d
    ensures var st := ls + map k | k in all && (k in e || k in d) :: all[k];
            st == all && st.Keys == e.Keys + d.Keys
  {
    var st := ls + map k | k in all && (k in e || k in d) :: all[k];
    forall k | k in st.Keys
      ensures k in all.Keys && st[k] == all[k]
    {
    }
    forall k | k in all.Keys
      ensures k in st.Keys
    {
    }
    forall k | k in e.Keys + d.Keys
      ensures k in st.Keys
    {
    }
  }

  /** The corrected merge of two tracked classes, when it completes,
      installs a well-formed class: nobody both enrolled and discarded, every
      listed student stamped, and no more enrolled than a non-negative
      capacity. */
  lemma {:induction false} CorrectedMergeWellFormed(m: Merging, open: bool, ids: seq<StudentId>)
    requires Tracked(m.local) && Tracked(m.remote) && m.capacity >= 0
    requires Enumerates(ids, LatestStamps(m.local.stamps, m.remote.stamps).Keys)
    requires !Sweeping(Corrected, m, ids).crashed
    ensures WellFormed(MergedClass(m, open, LatestStamps(m.local.stamps, m.remote.stamps), Sweeping(Corrected, m, ids)))
  {
    var all := LatestStamps(m.local.stamps, m.remote.stamps);
    var s := Sweeping(Corrected, m, ids);
    var c := MergedClass(m, open, all, s);
    MergedStampsAreLatest(Corrected, m, open, ids);
    SweepBookkeeping(Corrected, m, ids);
    CorrectedSweepDisjoint(m, ids);
    forall k | k in c.enrolled.Keys
      ensures k !in c.discarded.Keys
    {
    }
    assert c.enrolled.Keys !! c.discarded.Keys;
  }
}
