/**
 The per-replica bookkeeping of a class server: whether it serves requests,
 whether it has unshared writes, the two gossip switches, its fixed address
 and qualifiers, its id and its vector clock.
 */
module ServerStatuses {
  import opened VectorClocks

  datatype ServerStatus = ServerStatus(
    active: bool,
    changed: bool,
    gossipActive: bool,
    deactivateGossip: bool,
    host: string,
    port: int,
    qualifiers: seq<string>,
    serverId: int,
    clock: Clock)

  /** A freshly constructed status: active, nothing to share, gossip on, an
      unset (zero) id and an empty clock. */
  function NewStatus(host: string, port: int, qualifiers: seq<string>): ServerStatus {
    ServerStatus(true, false, true, true, host, port, qualifiers, 0, map[])
  }

  /** The start-up step after registering with the naming server: record the
      id handed out and give the clock an entry for it at 0. */
  function Registered(s: ServerStatus, id: int): (r: ServerStatus)
    ensures r.serverId == id && id in r.clock
    ensures SameValues(r.clock, s.clock) <==> GetValue(s.clock, id) == 0
  {
    var r := s.(serverId := id, clock := s.clock[id := 0]);
    assert forall k :: k != id ==> GetValue(r.clock, k) == GetValue(s.clock, k);
    assert id in Ids(r.clock, s.clock);
    r
  }

  /** A server may take writes only when "P" is among its qualifiers. */
  predicate IsPrimary(s: ServerStatus) {
    "P" in s.qualifiers
  }

  /** The common tail of every successful write: mark the replica as
      having something to gossip and count one event of its own. */
  function RecordWrite(s: ServerStatus): (r: ServerStatus)
    ensures r.changed
    ensures GetValue(r.clock, s.serverId) == GetValue(s.clock, s.serverId) + 1
    ensures forall k :: k != s.serverId ==> GetValue(r.clock, k) == GetValue(s.clock, k)
    ensures r == s.(changed := r.changed, clock := r.clock)
  {
    s.(changed := true, clock := Increment(s.clock, s.serverId))
  }

  /** setVectorClock: adopt a copy of another clock. */
  function SetVectorClock(s: ServerStatus, c: Clock): (r: ServerStatus)
    ensures r.clock == c
    ensures r == s.(clock := c)
  {
    s.(clock := Copy(c))
  }

  /** A server just started and registered under `id` holds the clock {id: 0}:
      it has seen nothing, not even its own events. */
  lemma {:induction false} StartedServerHasSeenNothing(host: string, port: int, qualifiers: seq<string>, id: int)
    ensures var s := Registered(NewStatus(host, port, qualifiers), id);
            && s.active && !s.changed && s.gossipActive
            && s.clock == map[id := 0]
            && forall k :: GetValue(s.clock, k) == 0
  {
    var s := Registered(NewStatus(host, port, qualifiers), id);
    assert s.clock == map[][id := 0];
  }
}
