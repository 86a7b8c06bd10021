# Replicated class enrollment, modelled in Dafny

This project models the replicated state engine of a class-enrollment
service. Several class servers (one primary "P", any number of secondaries
"S1", "S2", …) each hold a copy of one class: a capacity, an open flag, and
two maps of students (enrolled and discarded), each student stamped with the
instant of their last change. Replicas track causality with vector clocks,
reconcile by gossip, and register with a naming server that hands out ids and
numbers the secondaries.

The model is functional: every handler of the Java code, which runs as one
step under the replica's lock, becomes a pure function from immutable values
to immutable values. Its modules follow the source:

| module | file | models |
|---|---|---|
| `Enumerations` | enumerations.dfy | hash-map iteration orders, taken as parameters |
| `Options`, `JavaText` | text.dfy | `Integer.parseInt`, `String.split`, `startsWith`, `String.length()` in UTF-16 code units, `String.valueOf`, the `^S\d*$` regex, `Collectors.joining(" ")` |
| `VectorClocks` | vector_clock.dfy | `VectorClock.java` |
| `ServerStatuses` | server_status.dfy | `ServerStatus.java`, and the registration step of `ClassServer.java` |
| `Classes` | class_state.dfy | `Class.java`: the state, validators, write operations, and activation switches |
| `Wire` | wire.dfy | `convertToClassState` / `convertToClass` |
| `GossipOrder` | gossip_order.dfy | `sortByValue`, `isRemoteMoreUpToDate`, the stamp union, and the scalar resolution |
| `GossipMerge` | gossip_merge.dfy | the student sweep of the concurrent gossip branch |
| `Responses` | responses.dfy | result codes and the exception-message switches |
| `GossipReceiver` | gossip_receive.dfy | `ClassServerServiceImpl.gossip` |
| `Naming` | naming.dfy | `NamingServerServiceImpl` and `ServiceEntry` |
| `GossipInitiator` | gossip_initiator.dfy | `ClassServerFrontend.gossip`, `verifyServerStatus`, `updateClass` |
| `Handlers` | handlers.dfy | `ProfessorServiceImpl`, `StudentServiceImpl` |
| `AdminCli`, `StudentCli`, `ClassServerCli`, `ProfessorCli` | cli.dfy | the command-line argument checks |

These things become inputs:
- The iteration order of a hash map is a sequence that visits every key once (`Enumerates`).
- `Instant.now()` becomes a `now` parameter.
- The random server id is a parameter. It must satisfy the condition that ends the draw loop.
- The naming-server lookup is an input list of addresses, and so are the peers' gossip answers, in the order the peers were contacted.

Where the code and the design description of the system disagree, the model follows the code:
- `enroll` has no primary check, so a secondary takes enrolments.
- A failed freshness update is reported as `SERVER_NOT_UPDATED` whenever the forced gossip returns false. This holds whether or not the clock caught up.
- The gossip initiator installs the chosen reply only when its code is OK, so the overwrite is not unconditional.
- Once every answer is in, the round returns true, even when nothing was installed.
- In the concurrent merge, the remote-discarded test comes first and ties favour the remote. A student discarded on both sides can end up enrolled as well; see Findings.
- A student discarded on one side and unknown to the other makes the merge dereference a null stamp. The model keeps this as an abort, not as a tie-break. The design text says the merge never fails.
- `sortByValue` sorts ascending, although its comment says descending.

## Model

| member | source | states |
|---|---|---|
| JavaText.ParseInt | ClassServer/src/main/java/pt/ulisboa/tecnico/classes/classserver/Class.java:88-92 | whatever `Integer.parseInt` accepts is a non-empty string whose value fits in a 32-bit int |
| JavaText.ParsedCharacters | ClassServer/src/main/java/pt/ulisboa/tecnico/classes/classserver/Class.java:88-92 | an accepted string holds only digits, except for one optional leading sign |
| JavaText.ParseShortDigits | Professor/src/main/java/pt/ulisboa/tecnico/classes/professor/Professor.java:67-72 | every string of one to nine decimal digits parses, and to its decimal value |
| JavaText.StripTrailingEmpty | ClassServer/src/main/java/pt/ulisboa/tecnico/classes/classserver/Class.java:83 | split with limit 0 keeps a prefix of the pieces, ends in a non-empty piece, and drops only empty ones |
| JavaText.SplitAfterLeadingSeparator | ClassServer/src/main/java/pt/ulisboa/tecnico/classes/classserver/Class.java:83-85 | splitting a string that starts with the separator yields an empty first piece; the second piece is a prefix of what follows the separator |
| JavaText.NatToStringRoundTrip | NamingServer/src/main/java/pt/ulisboa/tecnico/classes/namingserver/NamingServerServiceImpl.java:67 | reading back the decimal rendering of a secondary number gives the number |
| JavaText.NumberedSecondaryMatches | NamingServer/src/main/java/pt/ulisboa/tecnico/classes/namingserver/NamingServerServiceImpl.java:67 | every qualifier "S<n>" that register produces matches the secondary pattern `^S\d*$` |
| JavaText.JoinLength | Student/src/main/java/pt/ulisboa/tecnico/classes/student/Student.java:105-109 | joining with single spaces gives the parts' total length plus one per gap |
| JavaText.Utf16Length | ClassServer/src/main/java/pt/ulisboa/tecnico/classes/classserver/Class.java:104 | `String.length()` counts UTF-16 code units: at least the number of characters and at most twice it |
| JavaText.Utf16LengthOfBmp | ClassServer/src/main/java/pt/ulisboa/tecnico/classes/classserver/Class.java:104 | `length()` equals the character count exactly when no character lies outside the Basic Multilingual Plane |
| JavaText.Utf16LengthConcat | Student/src/main/java/pt/ulisboa/tecnico/classes/student/Student.java:105-109 | the code units of a concatenation are those of its halves |
| JavaText.ParsedLength | ClassServer/src/main/java/pt/ulisboa/tecnico/classes/classserver/Class.java:85-92 | a string `parseInt` accepts has a `length()` equal to its character count, so the four-unit test on the id's number counts characters |
| JavaText.JoinUtf16Length | Student/src/main/java/pt/ulisboa/tecnico/classes/student/Student.java:105-109 | joined with single spaces, the parts' code units add up, plus one per gap |
| VectorClocks.Increment | Utilities/src/main/java/pt/ulisboa/tecnico/classes/VectorClock.java:49-56 | an absent id starts at 1; a present one goes up by exactly one; every other entry and no new key is touched |
| VectorClocks.IncrementAdvances | Utilities/src/main/java/pt/ulisboa/tecnico/classes/VectorClock.java:49-56 | the clock before an increment happens before the clock after it |
| VectorClocks.DominatedEverywhere | Utilities/src/main/java/pt/ulisboa/tecnico/classes/VectorClock.java:27 | because absent ids read as 0, domination on the mentioned ids is domination at every id |
| VectorClocks.MergeEntries | Utilities/src/main/java/pt/ulisboa/tecnico/classes/VectorClock.java:76-79 | after mergeEntry over a list of ids, exactly those ids are raised to the larger value; the other entries are as before |
| VectorClocks.MergeScan | Utilities/src/main/java/pt/ulisboa/tecnico/classes/VectorClock.java:62-69 | merge's two forEach loops compute the pointwise maximum over the union of ids, in whatever order the two maps are iterated |
| VectorClocks.MergeCommutative | Utilities/src/main/java/pt/ulisboa/tecnico/classes/VectorClock.java:62-79 | merging a into b and b into a give the same clock |
| VectorClocks.MergeIdempotent | Utilities/src/main/java/pt/ulisboa/tecnico/classes/VectorClock.java:62-79 | merging a clock into itself, or merging the same clock twice, changes nothing further |
| VectorClocks.MergeAssociative | Utilities/src/main/java/pt/ulisboa/tecnico/classes/VectorClock.java:62-79 | the order in which three clocks are merged does not matter |
| VectorClocks.MergeIsLeastUpperBound | Utilities/src/main/java/pt/ulisboa/tecnico/classes/VectorClock.java:62-79 | the merge dominates both arguments, and any clock that dominates both dominates the merge |
| VectorClocks.Copy | Utilities/src/main/java/pt/ulisboa/tecnico/classes/VectorClock.java:33-39 | the copy holds exactly the argument's entries |
| VectorClocks.ScanIds | Utilities/src/main/java/pt/ulisboa/tecnico/classes/VectorClock.java:95-109 | one loop of happensBefore reports success exactly when this clock is nowhere ahead on the scanned ids, and then whether it is behind on one of them |
| VectorClocks.HappensBeforeScan | Utilities/src/main/java/pt/ulisboa/tecnico/classes/VectorClock.java:86-112 | the early exit plus the two loops return true exactly when the argument is at least this clock everywhere and ahead somewhere |
| VectorClocks.HappensBeforeNeedsEntries | Utilities/src/main/java/pt/ulisboa/tecnico/classes/VectorClock.java:89-91 | nothing happens before an empty clock, so the early false never changes the answer |
| VectorClocks.ConcurrentScan | Utilities/src/main/java/pt/ulisboa/tecnico/classes/VectorClock.java:119-138 | counting ids where this clock is behind and ids where it is ahead yields true exactly when both counts are non-zero |
| VectorClocks.HappensBeforeIrreflexive | Utilities/src/main/java/pt/ulisboa/tecnico/classes/VectorClock.java:86-112 | no clock happens before itself |
| VectorClocks.HappensBeforeTransitive | Utilities/src/main/java/pt/ulisboa/tecnico/classes/VectorClock.java:86-112 | happens-before is transitive |
| VectorClocks.ConcurrentSymmetric | Utilities/src/main/java/pt/ulisboa/tecnico/classes/VectorClock.java:119-138 | concurrency does not depend on the argument order |
| VectorClocks.Trichotomy | Utilities/src/main/java/pt/ulisboa/tecnico/classes/VectorClock.java:86-138 | exactly one holds: the clocks read alike everywhere, one happens before the other (either way), or they are concurrent |
| VectorClocks.SameClockIsEquality | Utilities/src/main/java/pt/ulisboa/tecnico/classes/VectorClock.java:141-152 | equals holds exactly when the two maps are equal, key set included |
| VectorClocks.EqualsIsKeySensitive | Utilities/src/main/java/pt/ulisboa/tecnico/classes/VectorClock.java:141-152 | {1:0} and {} read alike everywhere and are in no causal relation, yet they are not equal |
| VectorClocks.MergeThenIncrementDominates | ClassServer/src/main/java/pt/ulisboa/tecnico/classes/classserver/ClassServerServiceImpl.java:171-173 | merging the remote clock and then counting a local event gives a clock strictly after both |
| ServerStatuses.Registered | ClassServer/src/main/java/pt/ulisboa/tecnico/classes/classserver/ClassServer.java:56-58 | after registration the status carries the issued id and the clock has an entry for it; the clock reads as before unless it already counted events for that id |
| ServerStatuses.StartedServerHasSeenNothing | ClassServer/src/main/java/pt/ulisboa/tecnico/classes/classserver/ServerStatus.java:9-27 | a server just constructed and registered is active, clean, and gossiping, and its clock is {id: 0}, which reads 0 everywhere |
| ServerStatuses.RecordWrite | ClassServer/src/main/java/pt/ulisboa/tecnico/classes/classserver/Class.java:138-139 | a successful write sets changed and counts exactly one more own event; no other counter and no other field moves |
| ServerStatuses.SetVectorClock | ClassServer/src/main/java/pt/ulisboa/tecnico/classes/classserver/ServerStatus.java:61-63 | the status holds a clock equal to the argument, and nothing else changes |
| Classes.StudentName | ClassServer/src/main/java/pt/ulisboa/tecnico/classes/classserver/Class.java:68-74 | a name is found exactly for a student on either side, the enrolled side taking precedence |
| Classes.IsValidStudentId | ClassServer/src/main/java/pt/ulisboa/tecnico/classes/classserver/Class.java:81-95 | the id test of the code, with `length()` in UTF-16 code units; its consequences are stated by ValidIdShape, PrefixedNumberIsValid, ShortIdsRejected and TrailingSeparatorAccepted |
| Classes.IsValidStudentName | ClassServer/src/main/java/pt/ulisboa/tecnico/classes/classserver/Class.java:102-105 | 3 to 30 UTF-16 code units; in characters, see NameCharacterBounds |
| Classes.ValidIdShape | ClassServer/src/main/java/pt/ulisboa/tecnico/classes/classserver/Class.java:81-95 | a valid id is "aluno" followed by four characters that parse as an int |
| Classes.PrefixedNumberIsValid | ClassServer/src/main/java/pt/ulisboa/tecnico/classes/classserver/Class.java:81-95 | conversely, "aluno" followed by any four parseable characters (a sign included, as in "aluno-123") is valid |
| Classes.ShortIdsRejected | ClassServer/src/main/java/pt/ulisboa/tecnico/classes/classserver/Class.java:85 | ids shorter than nine characters, such as "aluno12", are rejected |
| Classes.TrailingSeparatorAccepted | ClassServer/src/main/java/pt/ulisboa/tecnico/classes/classserver/Class.java:83-85 | because split drops trailing empty pieces, "aluno" + four digits + "aluno" is accepted too |
| Classes.PiecesAfterNumber | ClassServer/src/main/java/pt/ulisboa/tecnico/classes/classserver/Class.java:83 | four parseable characters followed by "aluno" split into those characters and an empty piece |
| Classes.OpenEnrollments | ClassServer/src/main/java/pt/ulisboa/tecnico/classes/classserver/Class.java:120-140 | the call succeeds exactly on an active primary with enrollments closed and room for everyone enrolled. Every error is pinned to the code's order: inactive, not primary, already open, then CLASS_FULL when the capacity is below the number enrolled. On success only open, capacity, changed and the own clock entry move |
| Classes.CloseEnrollments | ClassServer/src/main/java/pt/ulisboa/tecnico/classes/classserver/Class.java:145-161 | the call succeeds exactly on an active primary with enrollments open. Every error is pinned: inactive, not primary, then already closed on an active primary. Success flips only the open flag, leaving capacity and students as they were |
| Classes.CancelEnrollment | ClassServer/src/main/java/pt/ulisboa/tecnico/classes/classserver/Class.java:167-187 | an inactive replica, then an unknown student, then a known student with an invalid id each get their own error. An enrolled student moves to discarded, stamped, with the clock advanced; an already discarded student changes nothing, clock included |
| Classes.Enroll | ClassServer/src/main/java/pt/ulisboa/tecnico/classes/classserver/Class.java:194-221 | the call succeeds exactly on an active, open class where the student is not enrolled, the class is not full, and id and name are valid. There is no primary check. Every error is pinned to the code's order: inactive, closed, already enrolled, full, invalid id, invalid name. Success admits and stamps the student |
| Classes.NameCharacterBounds | ClassServer/src/main/java/pt/ulisboa/tecnico/classes/classserver/Class.java:102-105 | a valid name has 2 to 30 characters, because a character outside the Basic Multilingual Plane counts twice; without such characters, valid means exactly 3 to 30 characters |
| Classes.Update | ClassServer/src/main/java/pt/ulisboa/tecnico/classes/classserver/Class.java:272-289 | an active replica takes over the given class wholesale; an inactive one refuses with "Server is inactive" |
| Classes.AdmittedEffect | ClassServer/src/main/java/pt/ulisboa/tecnico/classes/classserver/Class.java:215-217 | an admitted student is enrolled under the given name, no longer discarded, and stamped now; every other student keeps side, name and stamp |
| Classes.Admitted | ClassServer/src/main/java/pt/ulisboa/tecnico/classes/classserver/Class.java:215-217 | the class after enroll's three updates; what it does to every student is stated by AdmittedEffect, AdmitKeys and AdmittedWellFormed |
| Classes.Dropped | ClassServer/src/main/java/pt/ulisboa/tecnico/classes/classserver/Class.java:179-183 | the class after cancelEnrollment's updates; what it does to every student is stated by DroppedEffect, DropKeys and DroppedWellFormed |
| Classes.DroppedEffect | ClassServer/src/main/java/pt/ulisboa/tecnico/classes/classserver/Class.java:179-183 | a dropped student is discarded under their enrolled name and stamped now; every other student keeps side, name and stamp |
| Classes.OpenClosePreserveWellFormed | ClassServer/src/main/java/pt/ulisboa/tecnico/classes/classserver/Class.java:131-136 | opening (whose capacity test keeps the enrolled count within the capacity) and closing keep the class well formed |
| Classes.AdmitKeys | ClassServer/src/main/java/pt/ulisboa/tecnico/classes/classserver/Class.java:215-217 | moving a student to the enrolled side keeps the two sides disjoint and every listed student stamped |
| Classes.DropKeys | ClassServer/src/main/java/pt/ulisboa/tecnico/classes/classserver/Class.java:180-183 | moving a student to the discarded side keeps the two sides disjoint and every listed student stamped |
| Classes.AdmittedWellFormed | ClassServer/src/main/java/pt/ulisboa/tecnico/classes/classserver/Class.java:205-217 | admitting a new student into a well-formed class with room left keeps it well formed |
| Classes.RemoveShrinks | ClassServer/src/main/java/pt/ulisboa/tecnico/classes/classserver/Class.java:181 | removing an enrolled student shrinks the enrolled map by exactly one |
| Classes.DroppedWellFormed | ClassServer/src/main/java/pt/ulisboa/tecnico/classes/classserver/Class.java:179-186 | dropping an enrolled student keeps the class well formed and frees one seat |
| Classes.EnrollPreservesWellFormed | ClassServer/src/main/java/pt/ulisboa/tecnico/classes/classserver/Class.java:205-217 | a successful enroll keeps the class well formed: sides disjoint, everyone stamped, no more enrolled than the capacity |
| Classes.CancelPreservesWellFormed | ClassServer/src/main/java/pt/ulisboa/tecnico/classes/classserver/Class.java:179-186 | a successful cancel keeps the class well formed |
| Classes.FullTestIsCapacityTest | ClassServer/src/main/java/pt/ulisboa/tecnico/classes/classserver/Class.java:205 | on a well-formed class, enroll's equality test for a full class is the at-least test |
| Classes.EnrollThenCancel | ClassServer/src/main/java/pt/ulisboa/tecnico/classes/classserver/Class.java:167-221 | enrolling and then cancelling the same student leaves them discarded under their name, stamped at the cancel, with the enrolled side as before without them |
| Classes.CancelThenEnroll | ClassServer/src/main/java/pt/ulisboa/tecnico/classes/classserver/Class.java:167-221 | cancelling and re-enrolling a student restores them as enrolled, possibly under a new name, and leaves the discarded side as it was |
| Classes.ReadmitMaps | ClassServer/src/main/java/pt/ulisboa/tecnico/classes/classserver/Class.java:180-182 | taking a student out of the enrolled map and putting them back, or into the discarded map and out again, restores both maps |
| Classes.WritesAdvanceClock | ClassServer/src/main/java/pt/ulisboa/tecnico/classes/classserver/Class.java:120-221 | every successful write, and a cancel that drops a student, moves the clock strictly forward |
| Classes.Activate | ClassServer/src/main/java/pt/ulisboa/tecnico/classes/classserver/Class.java:228-235 | activate serves again. Gossip comes back on exactly when it was on or not switched off explicitly, and activate itself records an explicit switch-off |
| Classes.Deactivate | ClassServer/src/main/java/pt/ulisboa/tecnico/classes/classserver/Class.java:240-247 | deactivate always leaves the replica inactive with gossip off. The switch-off is recorded as explicit only if it already was and gossip was off |
| Classes.ActivateGossip | ClassServer/src/main/java/pt/ulisboa/tecnico/classes/classserver/Class.java:252-255 | gossip is on and not switched off; active is untouched |
| Classes.DeactivateGossip | ClassServer/src/main/java/pt/ulisboa/tecnico/classes/classserver/Class.java:260-263 | gossip is off and switched off explicitly; active is untouched |
| Classes.SwitchesKeepConsistency | ClassServer/src/main/java/pt/ulisboa/tecnico/classes/classserver/Class.java:228-263 | "active with gossip off means switched off explicitly" holds initially and after every switch and every write |
| Classes.DeactivateActivateRestoresGossip | ClassServer/src/main/java/pt/ulisboa/tecnico/classes/classserver/Class.java:228-247 | deactivating and reactivating a consistent active replica restores its gossip switch exactly |
| Classes.DeactivateActivateNeedsConsistency | ClassServer/src/main/java/pt/ulisboa/tecnico/classes/classserver/Class.java:228-235 | without that invariant, a deactivate/activate cycle can turn gossip on where it was off |
| Classes.ExplicitSwitchOffIsSticky | ClassServer/src/main/java/pt/ulisboa/tecnico/classes/classserver/Class.java:228-263 | after deactivateGossip, a deactivate/activate cycle leaves gossip off |
| Wire.FromWire | ClassServer/src/main/java/pt/ulisboa/tecnico/classes/classserver/ClassServerFrontend.java:304-329 | a class read from the wire stamps exactly the students it lists |
| Wire.ToWire | ClassServer/src/main/java/pt/ulisboa/tecnico/classes/classserver/ClassServerFrontend.java:270-297 | one record per enrolled and per discarded student, each from the side it is listed in |
| Wire.Records | ClassServer/src/main/java/pt/ulisboa/tecnico/classes/classserver/ClassServerFrontend.java:277-294 | the records list exactly the students of the iteration order, in that order |
| Wire.RecordKeys | ClassServer/src/main/java/pt/ulisboa/tecnico/classes/classserver/ClassServerFrontend.java:311-322 | the maps read from a record list have exactly the listed ids as keys |
| Wire.RecordValues | ClassServer/src/main/java/pt/ulisboa/tecnico/classes/classserver/ClassServerFrontend.java:311-322 | when every record agrees with a pair of maps, the maps read back agree with them |
| Wire.NamesRoundTrip | ClassServer/src/main/java/pt/ulisboa/tecnico/classes/classserver/ClassServerFrontend.java:270-329 | sending a name map in any iteration order and reading it back gives the map |
| Wire.StampsRoundTrip | ClassServer/src/main/java/pt/ulisboa/tecnico/classes/classserver/ClassServerFrontend.java:270-329 | the stamps read back from both lists are the stamps of the listed students |
| Wire.WireRoundTrip | ClassServer/src/main/java/pt/ulisboa/tecnico/classes/classserver/ClassServerFrontend.java:270-329 | convertToClass after convertToClassState gives the wire image of the class, whatever the iteration orders: scalars and names intact, and the stamps of the listed students only. A tracked class comes back exactly |
| Wire.WireImage | ClassServer/src/main/java/pt/ulisboa/tecnico/classes/classserver/ClassServerFrontend.java:270-329 | what survives the wire: capacity, open flag and both name maps, and exactly the stamps of students listed on either side. A tracked class survives unchanged, and a class listing only stamped students comes back tracked |
| Wire.WireImageIdempotent | ClassServer/src/main/java/pt/ulisboa/tecnico/classes/classserver/ClassServerFrontend.java:270-329 | a class read from the wire crosses it again unchanged |
| GossipOrder.LatestStamps | ClassServer/src/main/java/pt/ulisboa/tecnico/classes/classserver/ClassServerServiceImpl.java:82-87 | allStudents lists exactly the students stamped on either side, each with a stamp from one side that is no earlier than either |
| GossipOrder.LatestStampsSymmetric | ClassServer/src/main/java/pt/ulisboa/tecnico/classes/classserver/ClassServerServiceImpl.java:82-87 | the union of stamps does not depend on which replica is local |
| GossipOrder.Insert | ClassServer/src/main/java/pt/ulisboa/tecnico/classes/classserver/ClassServerServiceImpl.java:239 | one insertion step adds exactly the given student |
| GossipOrder.InsertSorted | ClassServer/src/main/java/pt/ulisboa/tecnico/classes/classserver/ClassServerServiceImpl.java:239 | inserting into a stamp-sorted list keeps it sorted |
| GossipOrder.SortByStamp | ClassServer/src/main/java/pt/ulisboa/tecnico/classes/classserver/ClassServerServiceImpl.java:232-247 | sortByValue returns a permutation of the students, in ascending stamp order |
| GossipOrder.SortKeepsEnumeration | ClassServer/src/main/java/pt/ulisboa/tecnico/classes/classserver/ClassServerServiceImpl.java:90 | the sorted list still visits every student once |
| GossipOrder.RemoteKnowsMoreAboutThirdId | ClassServer/src/main/java/pt/ulisboa/tecnico/classes/classserver/ClassServerServiceImpl.java:257-278 | with one id besides the two replicas', isRemoteMoreUpToDate holds exactly when the remote has that entry and it is not behind, ties to the remote |
| GossipOrder.ThirdIdFound | ClassServer/src/main/java/pt/ulisboa/tecnico/classes/classserver/ClassServerServiceImpl.java:265-275 | the loop stops at the third id and answers from it, however many own ids come first |
| GossipOrder.RemoteKnowsMoreWithoutThirdId | ClassServer/src/main/java/pt/ulisboa/tecnico/classes/classserver/ClassServerServiceImpl.java:277 | a clock with only the two replicas' ids lets the remote win |
| GossipOrder.RemoteKnowsMore | ClassServer/src/main/java/pt/ulisboa/tecnico/classes/classserver/ClassServerServiceImpl.java:257-278 | isRemoteMoreUpToDate over the local clock's iteration order: with no third id the remote wins, and the local side wins only when some third id is missing from the remote or higher locally; see RemoteKnowsMoreAboutThirdId and ThirdIdFound |
| GossipOrder.ResolveScalars | ClassServer/src/main/java/pt/ulisboa/tecnico/classes/classserver/ClassServerServiceImpl.java:57-76 | capacity and open flag are taken together from one side. Agreeing sides change nothing; a remote primary wins; otherwise a local primary wins; between two secondaries that disagree, the remote wins exactly when isRemoteMoreUpToDate holds |
| GossipMerge.Find | ClassServer/src/main/java/pt/ulisboa/tecnico/classes/classserver/Class.java:59-61 | a map lookup returns a value exactly for a present key, and that key's value |
| GossipMerge.LocalNewer | ClassServer/src/main/java/pt/ulisboa/tecnico/classes/classserver/ClassServerServiceImpl.java:123 | the comparison has an answer only when both stamps exist, and it is true exactly when the local one is later |
| GossipMerge.Decide | ClassServer/src/main/java/pt/ulisboa/tecnico/classes/classserver/ClassServerServiceImpl.java:97-148 | a student is only ever seated below capacity |
| GossipMerge.VisitedName | ClassServer/src/main/java/pt/ulisboa/tecnico/classes/classserver/ClassServerServiceImpl.java:102-110 | the name comes from the local class when it stamps the student, else from the remote class, each with its discarded map as the sweep has left it; it is missing exactly when that class lists the student nowhere |
| GossipMerge.DecisionAborts | ClassServer/src/main/java/pt/ulisboa/tecnico/classes/classserver/ClassServerServiceImpl.java:97-148 | an iteration on an unvisited student aborts exactly when no name is found or when, below capacity, a student discarded on either side lacks one of the two stamps. Otherwise it records the name looked up |
| GossipMerge.AsWrittenDecision | ClassServer/src/main/java/pt/ulisboa/tecnico/classes/classserver/ClassServerServiceImpl.java:112-147 | the code seats an unvisited student exactly when there is room and either the side with the later stamp (the remote on a tie) has them enrolled, or both sides discarded them and the local stamp is later |
| GossipMerge.AsWrittenSeatsWanted | ClassServer/src/main/java/pt/ulisboa/tecnico/classes/classserver/ClassServerServiceImpl.java:97-148 | everyone the code seats is enrolled on the side with the later stamp, or discarded on both sides with the later stamp on the local one |
| GossipMerge.Without | ClassServer/src/main/java/pt/ulisboa/tecnico/classes/classserver/ClassServerServiceImpl.java:121 | taking a student out of a leftover map removes only that student |
| GossipMerge.With | ClassServer/src/main/java/pt/ulisboa/tecnico/classes/classserver/ClassServerServiceImpl.java:124 | putting a new student into a map adds exactly one key |
| GossipMerge.Place | ClassServer/src/main/java/pt/ulisboa/tecnico/classes/classserver/ClassServerServiceImpl.java:99-148 | one iteration of the loop: nothing happens after an abort, and the sweep aborts exactly when the decision does; the rest is stated by PlaceBookkeeping, FullClassUnchanged and the decision lemmas |
| GossipMerge.Sweeping | ClassServer/src/main/java/pt/ulisboa/tecnico/classes/classserver/ClassServerServiceImpl.java:97-148 | the loop over the sorted students; an empty loop never aborts. Its invariants are SweepBookkeeping, SweepCompletes and CorrectedSweepDisjoint |
| GossipMerge.MergedClass | ClassServer/src/main/java/pt/ulisboa/tecnico/classes/classserver/ClassServerServiceImpl.java:150-168 | the class installed after the loop: the resolved capacity and open flag, the new enrolled map, and a discarded map holding the sweep's own entries and both leftovers; its stamps are stated by MergedStampsAreLatest |
| GossipMerge.PlaceBookkeeping | ClassServer/src/main/java/pt/ulisboa/tecnico/classes/classserver/ClassServerServiceImpl.java:97-148 | one iteration takes only the visited student out of the leftovers and places only that student. It places them unless it aborts, and seats at most one, only below capacity |
| GossipMerge.SweepBookkeeping | ClassServer/src/main/java/pt/ulisboa/tecnico/classes/classserver/ClassServerServiceImpl.java:96-148 | over the loop, leftovers only shrink and keep every unvisited student, and only visited students are placed. Each of them is placed unless the sweep aborts, and the enrolled map never exceeds the resolved capacity |
| GossipMerge.CorrectedSweepDisjoint | ClassServer/src/main/java/pt/ulisboa/tecnico/classes/classserver/ClassServerServiceImpl.java:119-157 | in the corrected merge a seated student is in neither the new discarded map nor any leftover map |
| GossipMerge.SweepCompletes | ClassServer/src/main/java/pt/ulisboa/tecnico/classes/classserver/ClassServerServiceImpl.java:103-134 | on tracked classes whose conflicts have stamps on both sides, no name or stamp lookup dereferences null |
| GossipMerge.StampedHasName | ClassServer/src/main/java/pt/ulisboa/tecnico/classes/classserver/ClassServerServiceImpl.java:103-108 | a tracked class has a name for every stamped student |
| GossipMerge.NameFound | ClassServer/src/main/java/pt/ulisboa/tecnico/classes/classserver/ClassServerServiceImpl.java:103-134 | an iteration with a name to record and, in a conflict, both stamps does not abort |
| GossipMerge.CorrectedDecision | ClassServer/src/main/java/pt/ulisboa/tecnico/classes/classserver/ClassServerServiceImpl.java:112-147 | a corrected iteration seats an unvisited student exactly when there is room and the side with the later stamp (the remote on a tie) has them enrolled |
| GossipMerge.CorrectedSeatsWanted | ClassServer/src/main/java/pt/ulisboa/tecnico/classes/classserver/ClassServerServiceImpl.java:112-147 | everyone the corrected merge seats is enrolled on the side with the later stamp |
| GossipMerge.CorrectedFirstComeFirstServed | ClassServer/src/main/java/pt/ulisboa/tecnico/classes/classserver/ClassServerServiceImpl.java:90-147 | visiting in stamp order, a student who belongs enrolled but gets no seat found the class full of students stamped no later than themselves |
| GossipMerge.SeatedNoLater | ClassServer/src/main/java/pt/ulisboa/tecnico/classes/classserver/ClassServerServiceImpl.java:90-147 | visiting in stamp order, the next student is not yet seated, their leftover entries are untouched, and everyone seated so far is stamped no later |
| GossipMerge.FirstComeStep | ClassServer/src/main/java/pt/ulisboa/tecnico/classes/classserver/ClassServerServiceImpl.java:97-147 | the inductive step of first come, first served, over one more iteration |
| GossipMerge.FirstComePlace | ClassServer/src/main/java/pt/ulisboa/tecnico/classes/classserver/ClassServerServiceImpl.java:112-147 | one corrected iteration keeps a full class as it is, and leaves a student who belongs on the enrolled side without a seat only when the class was already full |
| GossipMerge.FullClassUnchanged | ClassServer/src/main/java/pt/ulisboa/tecnico/classes/classserver/ClassServerServiceImpl.java:102-147 | once the class is full, an iteration, as written or corrected, seats nobody and leaves both leftover maps alone. It discards the student under the name looked up, or aborts when there is none |
| GossipMerge.DoublyDiscardedSeatedTwice | ClassServer/src/main/java/pt/ulisboa/tecnico/classes/classserver/ClassServerServiceImpl.java:119-157 | two well-formed classes both discarding a student, the local stamp later, merge as written into a class that lists the student both enrolled and discarded. The corrected merge only discards them |
| GossipMerge.UnknownStudentAborts | ClassServer/src/main/java/pt/ulisboa/tecnico/classes/classserver/ClassServerServiceImpl.java:115-123 | a student discarded remotely and unknown locally reaches a null stamp below capacity, in either variant |
| GossipMerge.MergedStampsAreLatest | ClassServer/src/main/java/pt/ulisboa/tecnico/classes/classserver/ClassServerServiceImpl.java:150-168 | after a completed sweep the installed class lists exactly the students of allStudents, each with the later of the two stamps |
| GossipMerge.SettledStamps | ClassServer/src/main/java/pt/ulisboa/tecnico/classes/classserver/ClassServerServiceImpl.java:159-168 | re-stamping every listed student over the old stamps yields exactly the union stamps |
| GossipMerge.CorrectedMergeWellFormed | ClassServer/src/main/java/pt/ulisboa/tecnico/classes/classserver/ClassServerServiceImpl.java:82-168 | the corrected merge of two tracked classes, when it completes with a non-negative capacity, installs a well-formed class |
| Responses.CodeFor | ClassServer/src/main/java/pt/ulisboa/tecnico/classes/classserver/StudentServiceImpl.java:105-126 | every class error has a result code other than OK and SERVER_NOT_UPDATED, except an invalid id or name, which becomes an invalid-argument error; both "closed" messages map to ENROLLMENTS_ALREADY_CLOSED |
| GossipReceiver.ReceiveGossip | ClassServer/src/main/java/pt/ulisboa/tecnico/classes/classserver/ClassServerServiceImpl.java:35-225 | the sender's class is read through the wire. An inactive receiver answers INACTIVE_SERVER, changes nothing, and echoes the sender's clock. A stale one adopts the wire image of the sender's class and the sender's clock; one equal or ahead keeps its state. Only the clock of the status ever changes. An active receiver replies with the wire image of its resulting class and its clock |
| GossipReceiver.MergeConcurrent | ClassServer/src/main/java/pt/ulisboa/tecnico/classes/classserver/ClassServerServiceImpl.java:50-211 | the concurrent branch answers OK with the wire image of its class and its clock, takes the resolved scalars, and touches only the clock of the status. An aborted sweep keeps the enrolled map, the stamps and the clock and installs the leftover local discarded map; a completed one installs the new enrolled map and the merged, incremented clock. See also ConcurrentScalars, ConcurrentMergeAdvances, AbortedMergeReply |
| GossipReceiver.ConcurrentScalars | ClassServer/src/main/java/pt/ulisboa/tecnico/classes/classserver/ClassServerServiceImpl.java:57-76 | concurrent gossip takes capacity and open flag together from one side: the remote primary's, else the local primary's; agreeing sides change nothing; between two secondaries that disagree, the remote's exactly when isRemoteMoreUpToDate holds |
| GossipReceiver.ConcurrentMergeAdvances | ClassServer/src/main/java/pt/ulisboa/tecnico/classes/classserver/ClassServerServiceImpl.java:82-173 | a completed concurrent merge moves the clock strictly past both clocks. It installs the later stamp of every student either side knows, and the class stays tracked |
| GossipReceiver.CorrectedGossipWellFormed | ClassServer/src/main/java/pt/ulisboa/tecnico/classes/classserver/ClassServerServiceImpl.java:50-173 | with the corrected branch, concurrent gossip installs a well-formed class |
| GossipReceiver.CorrectedGossipSeating | ClassServer/src/main/java/pt/ulisboa/tecnico/classes/classserver/ClassServerServiceImpl.java:82-157 | with the corrected branch, only students enrolled on the side with the later stamp are seated. Such a student left without a seat found the class full of earlier-stamped students |
| GossipReceiver.AbortedMergeReply | ClassServer/src/main/java/pt/ulisboa/tecnico/classes/classserver/ClassServerServiceImpl.java:97-211 | an aborted sweep keeps the enrolled map, the stamps and the status, and cuts the discarded map down to entries not visited. The reply is the wire image of that class and stamps exactly the students it lists |
| Naming.NewService | NamingServer/src/main/java/pt/ulisboa/tecnico/classes/namingserver/ServiceEntry.java:13-17 | a new service lists no server and numbers its first secondary 1 |
| Naming.IncrementSecondaryCount | NamingServer/src/main/java/pt/ulisboa/tecnico/classes/namingserver/ServiceEntry.java:29-31 | the secondary counter goes up by exactly one; name and servers are untouched |
| Naming.RemoveAt | NamingServer/src/main/java/pt/ulisboa/tecnico/classes/namingserver/ServiceEntry.java:42 | removeIf keeps exactly the servers not at the given host and port |
| Naming.RemoveAtDistributes | NamingServer/src/main/java/pt/ulisboa/tecnico/classes/namingserver/ServiceEntry.java:42 | removal works piecewise, so the servers that stay keep their order |
| Naming.RemoveAbsent | NamingServer/src/main/java/pt/ulisboa/tecnico/classes/namingserver/ServiceEntry.java:42 | removing an address nobody has changes nothing |
| Naming.DeleteServerEntry | NamingServer/src/main/java/pt/ulisboa/tecnico/classes/namingserver/ServiceEntry.java:41-43 | only the server list changes, so secondary numbers are never reused |
| Naming.IndexOfFrom | NamingServer/src/main/java/pt/ulisboa/tecnico/classes/namingserver/NamingServerServiceImpl.java:69 | indexOf finds the first occurrence |
| Naming.Register | NamingServer/src/main/java/pt/ulisboa/tecnico/classes/namingserver/NamingServerServiceImpl.java:36-82 | the issued id, from [0, 1000) and never issued before, is remembered. The service's entry is created if needed and gets the new server appended, and no other service changes. The first "S" becomes "S<count>" and the count goes up; other qualifiers stay |
| Naming.Delete | NamingServer/src/main/java/pt/ulisboa/tecnico/classes/namingserver/NamingServerServiceImpl.java:90-108 | issued ids and service names stay, other services are untouched, and an unknown service is a no-op |
| Naming.Lookup | NamingServer/src/main/java/pt/ulisboa/tecnico/classes/namingserver/NamingServerServiceImpl.java:116-162 | an unknown service yields no address |
| Naming.LookupMembership | NamingServer/src/main/java/pt/ulisboa/tecnico/classes/namingserver/NamingServerServiceImpl.java:132-153 | an address is listed exactly when a server there has a requested qualifier, or "S" was requested and it has a secondary qualifier |
| Naming.LookupAppend | NamingServer/src/main/java/pt/ulisboa/tecnico/classes/namingserver/NamingServerServiceImpl.java:132-153 | a server appended at the end contributes its addresses at the end |
| Naming.DeletedServerNotLookedUp | NamingServer/src/main/java/pt/ulisboa/tecnico/classes/namingserver/NamingServerServiceImpl.java:99-101 | after a delete, a lookup no longer lists the deleted address, and lists every other address exactly as before |
| Naming.KeptAddressesLookedUp | NamingServer/src/main/java/pt/ulisboa/tecnico/classes/namingserver/ServiceEntry.java:41-43 | deleting one address does not change whether another is listed |
| Naming.RegisteredSecondaryIsFound | NamingServer/src/main/java/pt/ulisboa/tecnico/classes/namingserver/NamingServerServiceImpl.java:64-75 | a server just registered as a secondary is the last address a lookup for "S" lists |
| Naming.LookupMayRepeat | NamingServer/src/main/java/pt/ulisboa/tecnico/classes/namingserver/NamingServerServiceImpl.java:132-153 | a lookup for "S" and "S<n>" lists a secondary numbered n twice |
| GossipInitiator.GossipGatesNest | ClassServer/src/main/java/pt/ulisboa/tecnico/classes/classserver/ClassServerFrontend.java:215-244 | the timer's gate implies the forced update's, which implies the administrator's; an inactive replica passes none |
| GossipInitiator.GossipAllowed | ClassServer/src/main/java/pt/ulisboa/tecnico/classes/classserver/ClassServerFrontend.java:215-244 | verifyServerStatus: only an active replica passes, and only for the events "update", "admin" and "timer"; see GossipGatesNest |
| GossipInitiator.RemoveFirst | ClassServer/src/main/java/pt/ulisboa/tecnico/classes/classserver/ClassServerFrontend.java:123 | removing the replica's own address drops one copy of it if listed, and nothing else |
| GossipInitiator.RequestOf | ClassServer/src/main/java/pt/ulisboa/tecnico/classes/classserver/ClassServerFrontend.java:131-140 | the request carries the class as the wire delivers it, the first qualifier, the clock and the server id |
| GossipInitiator.Replies | ClassServer/src/main/java/pt/ulisboa/tecnico/classes/classserver/ClassServerFrontend.java:142-156 | the collected replies are the answers, one per contacted peer, in order |
| GossipInitiator.FirstTrue | ClassServer/src/main/java/pt/ulisboa/tecnico/classes/classserver/ClassServerFrontend.java:168-176 | the search stops at the first position that qualifies, or at the end |
| GossipInitiator.CaughtUpFlags | ClassServer/src/main/java/pt/ulisboa/tecnico/classes/classserver/ClassServerFrontend.java:169-172 | each reply is flagged exactly when its clock happens after or equals the client's |
| GossipInitiator.OkIndex | ClassServer/src/main/java/pt/ulisboa/tecnico/classes/classserver/ClassServerFrontend.java:179-182 | the do-while loop stops at the first OK reply, or at the last reply |
| GossipInitiator.Chosen | ClassServer/src/main/java/pt/ulisboa/tecnico/classes/classserver/ClassServerFrontend.java:162-183 | the trusted reply is one of the replies |
| GossipInitiator.ChosenWithClientClock | ClassServer/src/main/java/pt/ulisboa/tecnico/classes/classserver/ClassServerFrontend.java:163-176 | with a client clock, the round trusts the first reply that has caught up with it, and the first reply when none has |
| GossipInitiator.ChosenWithoutClientClock | ClassServer/src/main/java/pt/ulisboa/tecnico/classes/classserver/ClassServerFrontend.java:179-183 | without a client clock, the round trusts the first OK reply, and the last reply when none is OK |
| GossipInitiator.UpdateClass | ClassServer/src/main/java/pt/ulisboa/tecnico/classes/classserver/ClassServerFrontend.java:252-263 | the class read from the reply and the reply's clock are installed wholesale; a tracked reply class is installed as sent; no other status field changes |
| GossipInitiator.InitiateGossip | ClassServer/src/main/java/pt/ulisboa/tecnico/classes/classserver/ClassServerFrontend.java:113-200 | the round succeeds exactly when the gate passes, some peer other than the replica exists, and every peer answered; a failed round changes nothing. changed stays set exactly when it was set and some reply was not OK. The trusted reply's class, as read from the wire, is installed exactly when the reply is OK |
| GossipInitiator.SinglePeerAgreement | ClassServer/src/main/java/pt/ulisboa/tecnico/classes/classserver/ClassServerFrontend.java:186-199 | after a round with a single active peer, both replicas hold the same clock. The initiator holds the peer's class as read from the wire, which is the peer's class itself whenever it is tracked |
| GossipInitiator.SinglePeerClockNeverRegresses | ClassServer/src/main/java/pt/ulisboa/tecnico/classes/classserver/ClassServerFrontend.java:186-199 | with a single active peer whose merge, if any, completes, the initiator's clock ends no lower anywhere than it started |
| GossipInitiator.FailedRoundChangesNothing | ClassServer/src/main/java/pt/ulisboa/tecnico/classes/classserver/ClassServerFrontend.java:115-153 | a refused gate, a lookup listing only the replica itself, or an unreachable peer leaves the replica unchanged and returns false |
| Handlers.UpdateServer | ClassServer/src/main/java/pt/ulisboa/tecnico/classes/classserver/ProfessorServiceImpl.java:261-269 | a replica whose clock happens before the client's runs the forced "update" gossip round with the client's clock and the listed peers, and reports that round's result; a replica not behind the client reports success without gossiping; a failed update changes nothing; the replica's qualifiers and activity never change |
| Handlers.Compose | ClassServer/src/main/java/pt/ulisboa/tecnico/classes/classserver/ProfessorServiceImpl.java:39-83 | an operation error overrides SERVER_NOT_UPDATED with its own code. A successful operation answers OK exactly when the update succeeded. Invalid ids and names get no reply, and the reply carries the server's clock exactly when the update succeeded |
| Handlers.ProfessorOpen | ClassServer/src/main/java/pt/ulisboa/tecnico/classes/classserver/ProfessorServiceImpl.java:35-85 | openEnrollments always replies, with a code from its switch, OK, or SERVER_NOT_UPDATED. The operation runs on the replica the update step left, whether or not it gossiped: its result on success, the updated replica otherwise. Success answers OK exactly when the update succeeded and SERVER_NOT_UPDATED otherwise; a coded error answers its code; the clock is the server's exactly when the update succeeded |
| Handlers.ProfessorClose | ClassServer/src/main/java/pt/ulisboa/tecnico/classes/classserver/ProfessorServiceImpl.java:93-141 | closeEnrollments always replies, with a code from its switch, OK, or SERVER_NOT_UPDATED. The operation runs on the replica the update step left, whether or not it gossiped: its result on success, the updated replica otherwise. Success answers OK exactly when the update succeeded and SERVER_NOT_UPDATED otherwise; a coded error answers its code; the clock is the server's exactly when the update succeeded |
| Handlers.ProfessorCancel | ClassServer/src/main/java/pt/ulisboa/tecnico/classes/classserver/ProfessorServiceImpl.java:195-254 | cancelEnrollment answers an invalid id with "Invalid student id." and no reply; on an active replica a student known after the update with an invalid id always gets that answer. Otherwise the code is OK, SERVER_NOT_UPDATED, INACTIVE_SERVER or NON_EXISTING_STUDENT. The operation runs on the replica the update step left, whether or not it gossiped: its result on success, the updated replica otherwise. Success answers OK exactly when the update succeeded and SERVER_NOT_UPDATED otherwise; a coded error answers its code; the clock is the server's exactly when the update succeeded |
| Handlers.StudentEnroll | ClassServer/src/main/java/pt/ulisboa/tecnico/classes/classserver/StudentServiceImpl.java:80-146 | enroll answers an invalid id or name with the matching invalid-argument description. On an active, open, not full class that does not yet enroll the student after the update, an invalid id, and then an invalid name, always gets that answer. Otherwise it replies with a code from its switch, OK, or SERVER_NOT_UPDATED. The operation runs on the replica the update step left, whether or not it gossiped: its result on success, the updated replica otherwise. Success answers OK exactly when the update succeeded and SERVER_NOT_UPDATED otherwise; a coded error answers its code; the clock is the server's exactly when the update succeeded |
| Handlers.ListClass | ClassServer/src/main/java/pt/ulisboa/tecnico/classes/classserver/ProfessorServiceImpl.java:149-187 | an inactive replica answers INACTIVE_SERVER without gossip, class or new clock. An active one lists the replica the update step left, answering OK exactly when the update succeeded and SERVER_NOT_UPDATED otherwise, and the reply carries its clock exactly when the code is OK |
| Handlers.FreshReplicaSkipsGossip | ClassServer/src/main/java/pt/ulisboa/tecnico/classes/classserver/StudentServiceImpl.java:153-161 | a replica not behind the client serves each write as the class operation alone would, answering with its own clock |
| Handlers.InactiveReplicaRefusesWrites | ClassServer/src/main/java/pt/ulisboa/tecnico/classes/classserver/ProfessorServiceImpl.java:48-77 | an inactive replica answers every write INACTIVE_SERVER and changes nothing. The reply echoes the client's clock when the replica was behind it, and carries the replica's own clock otherwise |
| Handlers.OkWriteAdvancesClock | ClassServer/src/main/java/pt/ulisboa/tecnico/classes/classserver/ProfessorServiceImpl.java:73-77 | a write answered OK hands back a clock strictly after the one the replica held once updated |
| AdminCli.GetQualifier | Admin/src/main/java/pt/ulisboa/tecnico/classes/admin/Admin.java:61-79 | no argument means "P"; one argument must be "P" or match `^S\d*$`; anything else, and more than one argument, gives "" |
| AdminCli.Forwarded | Admin/src/main/java/pt/ulisboa/tecnico/classes/admin/Admin.java:86-93 | a command is forwarded exactly when the qualifier is non-empty, and with that qualifier |
| AdminCli.NumberedSecondaryAddressable | Admin/src/main/java/pt/ulisboa/tecnico/classes/admin/Admin.java:68-72 | every qualifier the naming server issues, and "P", "S" and the bare command, reach the server |
| AdminCli.OtherArgumentsNotForwarded | Admin/src/main/java/pt/ulisboa/tecnico/classes/admin/Admin.java:65-76 | a wrong argument or a third token means nothing is sent |
| StudentCli.ParseStudentName | Student/src/main/java/pt/ulisboa/tecnico/classes/student/Student.java:99-111 | the name is the words after the id joined by spaces; with "-debug" anywhere, the last word is dropped |
| StudentCli.ValidArguments | Student/src/main/java/pt/ulisboa/tecnico/classes/student/Student.java:60-92 | accepted arguments have an id the class server will also accept |
| StudentCli.ValidStudentGetsAnswer | Student/src/main/java/pt/ulisboa/tecnico/classes/student/Student.java:127-133 | an enrolment from a student started with valid arguments is never turned away as an invalid argument |
| StudentCli.DebugFlagAloneIsNoName | Student/src/main/java/pt/ulisboa/tecnico/classes/student/Student.java:101-106 | an id followed only by "-debug" has an empty name and is rejected |
| StudentCli.NameLength | Student/src/main/java/pt/ulisboa/tecnico/classes/student/Student.java:84-89 | the checked length is the words' total length plus one per gap, counted both in characters and in the UTF-16 code units `length()` counts |
| ClassServerCli.ValidArguments | ClassServer/src/main/java/pt/ulisboa/tecnico/classes/classserver/ClassServer.java:105-128 | accepted arguments have at least four words, a parseable port and a qualifier "P" or "S" |
| ClassServerCli.ParseQualifiers | ClassServer/src/main/java/pt/ulisboa/tecnico/classes/classserver/ClassServer.java:135-137 | the result holds exactly the arguments equal to "P" or "S" |
| ClassServerCli.ParseQualifiersDistributes | ClassServer/src/main/java/pt/ulisboa/tecnico/classes/classserver/ClassServer.java:135-137 | the filter works piecewise, so the qualifiers keep their command-line order |
| ClassServerCli.ValidArgumentsGiveQualifier | ClassServer/src/main/java/pt/ulisboa/tecnico/classes/classserver/ClassServer.java:121-137 | valid arguments give the server a first qualifier; it is the fourth argument unless an earlier one is itself "P" or "S" |
| ProfessorCli.OpenEnrollmentsCall | Professor/src/main/java/pt/ulisboa/tecnico/classes/professor/Professor.java:57-80 | a call is made only with exactly one argument, parsed, not negative, and then with that value; zero is accepted |
| ProfessorCli.DecimalCapacitySent | Professor/src/main/java/pt/ulisboa/tecnico/classes/professor/Professor.java:67-79 | any capacity of up to nine decimal digits is sent as its value |
| ProfessorCli.CancelEnrollmentCall | Professor/src/main/java/pt/ulisboa/tecnico/classes/professor/Professor.java:105-114 | a call is made exactly with one argument, which is sent unchanged |

## Left out

- Network and serialisation plumbing is not modelled: gRPC stubs, channels and builders, the client front ends, `ServerLookup`, `NamingServerFrontend`, `Convert`. Gossip peers' answers and naming lookups are inputs; `Instant` is an `int`.
- Concurrency is not modelled: the `synchronized` blocks, `ConcurrentHashMap`, and the unsynchronised `listClass`. Each handler is one atomic step.
- The periodic timer of `ClassServer.java` is left out; only its gate (`GossipAllowed` with "timer") is modelled.
- Randomness is not modelled. The server id is a parameter that satisfies the loop's exit condition, and the order in which peers are contacted is folded into the order of the answers. The draw loop never ends once all 1000 ids are issued; that is not modelled either.
- `AdminServiceImpl`, `NamingServices`, the `main` methods, shutdown hooks and debug logging are not modelled. The administrator commands' effects are the switches in `Classes` and `InitiateGossip` with event "admin".
- Java `int` overflow is not modelled. Clock counters and the secondary count are unbounded; the code would wrap after 2^31 increments.
- `parseInt` is modelled for ASCII digits only; Java also accepts other Unicode decimal digits.
- GossipOrder.SortByStamp: proves the permutation and the ascending order, not the stability of `List.sort`. Ties keep the hash map's order in the code; the model proves nothing about which tied student comes first.
- GossipOrder.RemoteKnowsMore: when the local clock has more than one id besides the two replicas', the answer depends on the hash set's iteration order, which is a parameter. The lemmas characterise only the cases with none or exactly one such id.
- StudentCli.ValidArguments: its contract states only what acceptance implies about the count and the id. The name test is its definition, and its consequence is stated by `ValidStudentGetsAnswer`.
- ClassServerCli.ValidArguments: its contract states what acceptance implies. The consequence for the server is stated by `ValidArgumentsGiveQualifier`.
- GossipInitiator.SinglePeerClockNeverRegresses: covers one peer whose merge, if any, completes. An aborted merge answers OK with the receiver's unmerged clock, and the initiator then installs it, which can move its clock backwards.
- The receiver does not set `changed` after a merge; the code does not either.
- The listings leave out the stamps (`ClassView`), as the professor and student services do.
- GossipMerge.MergedClass: re-stamping the merged students puts `allStudents.get(id)` into a ConcurrentHashMap, which throws a NullPointerException for a listed student that neither class stamps. MergedClass skips such a student and keeps its old stamp, if any, instead of modelling the exception. Replicas whose classes stamp every listed student never reach this case, and MergedStampsAreLatest is stated for tracked classes only. The model does not prove that every reachable replica is one of them.
- Wire.WireImage: `convertToClassState` throws a NullPointerException for a class listing a student without a stamp. WireImage is defined for every class and drops only the stamps of unlisted students; `ToWire` itself requires every listed student to be stamped. The model does not characterise which replicas can reach such a class.

## Findings

| source | as written | input that shows it | evidently intended | confidence | as-written member | corrected member |
|---|---|---|---|---|---|---|
| ClassServer/src/main/java/pt/ulisboa/tecnico/classes/classserver/ClassServerServiceImpl.java:119-157 | below capacity, a student in the remote discarded map is seated when the local stamp is later, without checking whether the local replica discarded them too. They stay in the local discarded map, and line 156 copies them into the new discarded map | both replicas discard student x under the same name; the local stamp is 2 and the remote stamp 1; capacity 1 | a student discarded on both replicas stays discarded only, so the merged class never lists a student on both sides | not executed | GossipMerge.DoublyDiscardedSeatedTwice | GossipMerge.CorrectedMergeWellFormed |
