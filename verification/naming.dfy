/**
 The naming server's registry. For each service name it keeps the list of
 registered servers, in registration order, and a counter that numbers the
 secondaries. It also remembers every server id it ever issued. Ids are
 drawn at random; here the draw is a parameter, constrained to be one the
 registry would accept.
 */
module Naming {
  import opened JavaText

  /** ServerLookup's address: a host and a port. */
  datatype Address = Address(host: string, port: int)

  datatype ServerEntry = ServerEntry(host: string, port: int, id: int, qualifiers: seq<string>)

  datatype ServiceEntry = ServiceEntry(serviceName: string, servers: seq<ServerEntry>, secondaryCount: nat)

  datatype Registry = Registry(services: map<string, ServiceEntry>, serverIds: seq<int>)

  /** Ids are drawn from [0, MAX_SERVER_ID). */
  const MAX_SERVER_ID: int := 1000

  function AddressOf(e: ServerEntry): Address {
    Address(e.host, e.port)
  }

  /** A new service entry lists no server and numbers its first secondary 1. */
  function NewService(name: string): (e: ServiceEntry)
    ensures e.serviceName == name && e.servers == [] && e.secondaryCount == 1
  {
    ServiceEntry(name, [], 1)
  }

  function IncrementSecondaryCount(e: ServiceEntry): (r: ServiceEntry)
    ensures r.secondaryCount == e.secondaryCount + 1
    ensures r.serviceName == e.serviceName && r.servers == e.servers
  {
    e.(secondaryCount := e.secondaryCount + 1)
  }

  predicate At(e: ServerEntry, host: string, port: int) {
    e.host == host && e.port == port
  }

  /** removeIf on host and port. */
  function RemoveAt(servers: seq<ServerEntry>, host: string, port: int): (r: seq<ServerEntry>)
    ensures forall x :: x in r <==> x in servers && !At(x, host, port)
    ensures |r| <= |servers|
  {
    if |servers| == 0 then []
    else
      var rest := RemoveAt(servers[1..], host, port);
      assert forall x :: x in servers <==> x == servers[0] || x in servers[1..];
      if At(servers[0], host, port) then rest else [servers[0]] + rest
  }

  /** Removal works piece by piece, so the servers that stay keep their
      relative order. */
  lemma {:induction false} RemoveAtDistributes(a: seq<ServerEntry>, b: seq<ServerEntry>, host: string, port: int)
    ensures RemoveAt(a + b, host, port) == RemoveAt(a, host, port) + RemoveAt(b, host, port)
  {
    if |a| > 0 {
      assert (a + b)[0] == a[0] && (a + b)[1..] == a[1..] + b;
      RemoveAtDistributes(a[1..], b, host, port);
    } else {
      assert a + b == b;
    }
  }

  /** Removing a server that is not listed changes nothing. */
  lemma {:induction false} RemoveAbsent(servers: seq<ServerEntry>, host: string, port: int)
    requires forall i :: 0 <= i < |servers| ==> !At(servers[i], host, port)
    ensures RemoveAt(servers, host, port) == servers
  {
    if |servers| > 0 {
      RemoveAbsent(servers[1..], host, port);
    }
  }

  /** deleteServerEntry: only the server list changes. */
  function DeleteServerEntry(e: ServiceEntry, host: string, port: int): (r: ServiceEntry)
    ensures r.serviceName == e.serviceName && r.secondaryCount == e.secondaryCount
    ensures forall x :: x in r.servers <==> x in e.servers && !At(x, host, port)
  {
    e.(servers := RemoveAt(e.servers, host, port))
  }

  /** The first position of `q` in `qs`, at or after `from`. */
  function IndexOfFrom(qs: seq<string>, q: string, from: nat): (i: nat)
    requires from <= |qs| && q in qs[from..]
    ensures from <= i < |qs| && qs[i] == q
    ensures forall k :: from <= k < i ==> qs[k] != q
    decreases |qs| - from
  {
    if qs[from] == q then from
    else
      assert qs[from..] == [qs[from]] + qs[from + 1..];
      IndexOfFrom(qs, q, from + 1)
  }

  /** The entry register works on: the existing one, or a new one. */
  function ServiceOf(reg: Registry, name: string): ServiceEntry {
    if name in reg.services then reg.services[name] else NewService(name)
  }

  /** The qualifiers a server is listed with: the first "S" becomes "S"
      followed by the service's secondary number. */
  function Numbered(qualifiers: seq<string>, count: nat): seq<string> {
    if "S" in qualifiers then
      assert qualifiers[0..] == qualifiers;
      qualifiers[IndexOfFrom(qualifiers, "S", 0) := "S" + NatToString(count)]
    else qualifiers
  }

  /** register, with `id` the random draw that left the loop. */
  function Register(reg: Registry, name: string, host: string, port: int, qualifiers: seq<string>, id: int): (r: Registry)
    requires 0 <= id < MAX_SERVER_ID && id !in reg.serverIds
    ensures r.serverIds == reg.serverIds + [id]
    ensures r.services.Keys == reg.services.Keys + {name}
    ensures forall n :: n in reg.services && n != name ==> r.services[n] == reg.services[n]
    ensures var before := ServiceOf(reg, name);
            var after := r.services[name];
            && after.serviceName == before.serviceName
            && |after.servers| == |before.servers| + 1
            && after.servers[..|before.servers|] == before.servers
            && var added := after.servers[|before.servers|];
               && added.host == host && added.port == port && added.id == id
               && |added.qualifiers| == |qualifiers|
               && ("S" !in qualifiers ==> added.qualifiers == qualifiers && after.secondaryCount == before.secondaryCount)
               && ("S" in qualifiers ==>
                     && after.secondaryCount == before.secondaryCount + 1
                     && exists i :: 0 <= i < |qualifiers| && qualifiers[i] == "S" &&
                          (forall k :: 0 <= k < i ==> qualifiers[k] != "S") &&
                          added.qualifiers == qualifiers[i := "S" + NatToString(before.secondaryCount)])
  {
    var e := ServiceOf(reg, name);
    var qs := Numbered(qualifiers, e.secondaryCount);
    var e2 := if "S" in qualifiers then IncrementSecondaryCount(e) else e;
    var after := e2.(servers := e2.servers + [ServerEntry(host, port, id, qs)]);
    assert after.servers[..|e.servers|] == e.servers;
    Registry(reg.services[name := after], reg.serverIds + [id])
  }

  /** delete: an unknown service is left alone; issued ids stay issued. */
  function Delete(reg: Registry, name: string, host: string, port: int): (r: Registry)
    ensures r.serverIds == reg.serverIds
    ensures r.services.Keys == reg.services.Keys
    ensures forall n :: n in reg.services && n != name ==> r.services[n] == reg.services[n]
    ensures name !in reg.services ==> r == reg
  {
    if name in reg.services then
      reg.(services := reg.services[name := DeleteServerEntry(reg.services[name], host, port)])
    else reg
  }

  predicate AnyMatch(e: ServerEntry, qualifiers: seq<string>) {
    exists q :: q in e.qualifiers && q in qualifiers
  }

  predicate AnySecondary(e: ServerEntry) {
    exists q :: q in e.qualifiers && IsSecondaryQualifier(q)
  }

  /** The addresses one server contributes to a lookup: once if one of its
      qualifiers was asked for, and once more if "S" was asked for and it
      has a secondary qualifier. */
  function Hits(e: ServerEntry, qualifiers: seq<string>): seq<Address> {
    (if AnyMatch(e, qualifiers) then [AddressOf(e)] else []) +
    (if "S" in qualifiers && AnySecondary(e) then [AddressOf(e)] else [])
  }

  /** Wanted: the server is listed by a lookup for `qualifiers`. */
  predicate Wanted(e: ServerEntry, qualifiers: seq<string>) {
    AnyMatch(e, qualifiers) || ("S" in qualifiers && AnySecondary(e))
  }

  function LookupIn(servers: seq<ServerEntry>, qualifiers: seq<string>): seq<Address> {
    if |servers| == 0 then [] else Hits(servers[0], qualifiers) + LookupIn(servers[1..], qualifiers)
  }

  /** lookup: the addresses of the service's servers, in registration
      order; nothing for an unknown service. */
  function Lookup(reg: Registry, name: string, qualifiers: seq<string>): (r: seq<Address>)
    ensures name !in reg.services ==> r == []
  {
    if name in reg.services then LookupIn(reg.services[name].servers, qualifiers) else []
  }

  /** An address is looked up exactly when some server at that address is
      wanted. */
  lemma {:induction false} LookupMembership(servers: seq<ServerEntry>, qualifiers: seq<string>, a: Address)
    ensures a in LookupIn(servers, qualifiers) <==>
              exists i :: 0 <= i < |servers| && AddressOf(servers[i]) == a && Wanted(servers[i], qualifiers)
  {
    if |servers| > 0 {
      LookupMembership(servers[1..], qualifiers, a);
      if a in LookupIn(servers[1..], qualifiers) {
        var i :| 0 <= i < |servers[1..]| && AddressOf(servers[1..][i]) == a && Wanted(servers[1..][i], qualifiers);
        assert servers[i + 1] == servers[1..][i];
      }
      if exists i :: 0 <= i < |servers| && AddressOf(servers[i]) == a && Wanted(servers[i], qualifiers) {
        var i :| 0 <= i < |servers| && AddressOf(servers[i]) == a && Wanted(servers[i], qualifiers);
        if i > 0 {
          assert servers[1..][i - 1] == servers[i];
        }
      }
    }
  }

  /** Looking up a list extended at the end extends the answer at the end. */
  lemma {:induction false} LookupAppend(servers: seq<ServerEntry>, e: ServerEntry, qualifiers: seq<string>)
    ensures LookupIn(servers + [e], qualifiers) == LookupIn(servers, qualifiers) + Hits(e, qualifiers)
  {
    if |servers| > 0 {
      assert (servers + [e])[1..] == servers[1..] + [e];
      LookupAppend(servers[1..], e, qualifiers);
    }
  }

  /** After a delete, a lookup of that service no longer lists the deleted
      address; every other address it listed is still listed. */
  lemma {:induction false} DeletedServerNotLookedUp(reg: Registry, name: string, host: string, port: int, qualifiers: seq<string>, a: Address)
    ensures var after := Lookup(Delete(reg, name, host, port), name, qualifiers);
            && (name in reg.services ==> Address(host, port) !in after)
            && (a != Address(host, port) ==> (a in after <==> a in Lookup(reg, name, qualifiers)))
  {
    if name in reg.services {
      var servers := reg.services[name].servers;
      var kept := RemoveAt(servers, host, port);
      forall i | 0 <= i < |kept|
        ensures !At(kept[i], host, port)
      {
        assert kept[i] in kept;
      }
      LookupMembership(kept, qualifiers, Address(host, port));
      if a != Address(host, port) {
        KeptAddressesLookedUp(servers, qualifiers, host, port, a);
      }
    }
  }

  /** Deleting one address does not change whether another is looked up. */
  lemma {:induction false} KeptAddressesLookedUp(servers: seq<ServerEntry>, qualifiers: seq<string>, host: string, port: int, a: Address)
    requires a != Address(host, port)
    ensures a in LookupIn(RemoveAt(servers, host, port), qualifiers) <==> a in LookupIn(servers, qualifiers)
  {
    var kept := RemoveAt(servers, host, port);
    LookupMembership(kept, qualifiers, a);
    LookupMembership(servers, qualifiers, a);
    if a in LookupIn(servers, qualifiers) {
      var i :| 0 <= i < |servers| && AddressOf(servers[i]) == a && Wanted(servers[i], qualifiers);
      assert servers[i] in kept;
      var j :| 0 <= j < |kept| && kept[j] == servers[i];
    }
    if a in LookupIn(kept, qualifiers) {
      var i :| 0 <= i < |kept| && AddressOf(kept[i]) == a && Wanted(kept[i], qualifiers);
      assert kept[i] in servers;
      var j :| 0 <= j < |servers| && servers[j] == kept[i];
    }
  }

  /** A registered secondary, renamed "S<n>", is found by a lookup for the
      secondaries: its address is the last one listed. */
  lemma {:induction false} RegisteredSecondaryIsFound(reg: Registry, name: string, host: string, port: int, qualifiers: seq<string>, id: int)
    requires 0 <= id < MAX_SERVER_ID && id !in reg.serverIds
    requires "S" in qualifiers
    ensures var after := Lookup(Register(reg, name, host, port, qualifiers, id), name, ["S"]);
            |after| > 0 && after[|after| - 1] == Address(host, port)
  {
    var r := Register(reg, name, host, port, qualifiers, id);
    var before := ServiceOf(reg, name);
    var servers := r.services[name].servers;
    var added := servers[|before.servers|];
    assert servers == before.servers + [added];
    LookupAppend(before.servers, added, ["S"]);
    var i :| 0 <= i < |qualifiers| && qualifiers[i] == "S" && added.qualifiers == qualifiers[i := "S" + NatToString(before.secondaryCount)];
    NumberedSecondaryMatches(before.secondaryCount);
    assert added.qualifiers[i] == "S" + NatToString(before.secondaryCount);
    assert AnySecondary(added);
  }

  /** A server listed both with a qualifier that was asked for and with a
      numbered secondary qualifier is listed twice when "S" is asked for
      too. */
  lemma {:induction false} LookupMayRepeat(host: string, port: int, id: int, n: nat)
    ensures var q := "S" + NatToString(n);
            LookupIn([ServerEntry(host, port, id, [q])], ["S", q]) == [Address(host, port), Address(host, port)]
  {
    var q := "S" + NatToString(n);
    var e := ServerEntry(host, port, id, [q]);
    NumberedSecondaryMatches(n);
    assert q in e.qualifiers && q in ["S", q];
    assert AnyMatch(e, ["S", q]) && AnySecondary(e);
    assert LookupIn([e], ["S", q]) == Hits(e, ["S", q]) + LookupIn([], ["S", q]);
  }
}
