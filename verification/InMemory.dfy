/** The in-memory provider: zones of records, changed in place, batch by batch
    (pkg/mem/inmemory.go). */
module InMemory {
  import opened Wrappers
  import opened Endpoints
  import opened Store
  import opened Routing

  /** What `Records` returns when nothing is missing and every copy is faithful. */
  ghost predicate Readable(zones: Zones, domains: Domains) {
    Placed(zones, domains) && forall z, k :: z in domains && k in zones[z] ==> Copy(zones[z][k]) == Some(zones[z][k])
  }

  datatype Place = Place(zone: string, key: Key)

  /** Where the records of some of the zones are, each place once, in some order. */
  ghost predicate Enumerates(zones: Zones, ids: set<string>, at: seq<Place>) {
    && (forall i, j :: 0 <= i < j < |at| ==> at[i] != at[j])
    && (forall p :: p in at <==> p.zone in ids && p.zone in zones && p.key in zones[p.zone])
  }

  /** Copies of all records of some of the zones, for whatever zones. */
  ghost predicate ReadFrom(zones: Zones, ids: set<string>, at: seq<Place>, copies: seq<Endpoint>) {
    && Enumerates(zones, ids, at) && |copies| == |at|
    && forall i :: 0 <= i < |at| ==> at[i] in at && Copy(zones[at[i].zone][at[i].key]) == Some(copies[i])
  }

  /** Some zone is missing, or some record has a name that cannot be built. */
  predicate ReadFails(zones: Zones, domains: Domains, err: Error) {
    || (err == ZoneNotFound && exists z :: z in domains && z !in zones)
    || (err == Panic && exists z :: z in domains && z in zones && !AllFit(zones[z]))
  }

  predicate AllFit(zone: Zone) {
    forall k :: k in zone ==> LabelsFit(zone[k].dnsName)
  }

  method CopyEndpoints(endpoints: seq<Endpoint>) returns (r: Result<seq<Endpoint>, Error>)
    ensures r.Ok? <==> forall e :: e in endpoints ==> LabelsFit(e.dnsName)
    ensures r.Ok?
      ==> |r.value| == |endpoints| && forall i :: 0 <= i < |endpoints| ==> Some(r.value[i]) == Copy(endpoints[i])
    ensures r.Err? ==> r.error == Panic
  {
    var records: seq<Endpoint> := [];
    for i := 0 to |endpoints|
      invariant |records| == i
      invariant forall j :: 0 <= j < i ==> LabelsFit(endpoints[j].dnsName) && Some(records[j]) == Copy(endpoints[j])
    {
      var ep := endpoints[i];
      var built := NewEndpointWithTTL(ep.dnsName, ep.recordType, ep.ttl, ep.targets);
      if built.None? {
        assert !LabelsFit(ep.dnsName) && ep in endpoints;
        return Err(Panic);
      }
      records := records
        + [built.value.(setIdentifier := ep.setIdentifier, labels := ep.labels,
                        providerSpecific := ep.providerSpecific)];
    }
    return Ok(records);
  }

  class InMemoryProvider {
    var zones: Zones
    const zoneDomains: Domains

    /** One empty zone per configured domain, or one that takes every name. */
    constructor (domains: Domains)
      ensures zoneDomains == if domains == map[] then map["default" := ""] else domains
      ensures zones.Keys == zoneDomains.Keys && forall z :: z in zones ==> zones[z] == map[]
      ensures Placed(zones, zoneDomains)
    {
      var ds := if |domains| == 0 then map["default" := ""] else domains;
      zoneDomains := ds;
      zones := map z | z in ds :: map[];
    }

    method CreateZone(zone: string) returns (err: Option<Error>)
      modifies this
      ensures err == if zone in old(zones) then Some(ZoneAlreadyExists) else None
      ensures zones == if zone in old(zones) then old(zones) else old(zones)[zone := map[]]
    {
      if zone in zones {
        return Some(ZoneAlreadyExists);
      }
      zones := zones[zone := map[]];
      return None;
    }

    method ValidateChangeBatch(zone: string, ch: Changes) returns (err: Option<Error>)
      ensures err == if zone in zones then BatchError(zones[zone], ch) else Some(ZoneNotFound)
    {
      if zone !in zones {
        return Some(ZoneNotFound);
      }
      var curZone := zones[zone];
      var mesh: set<Key> := {};
      for i := 0 to |ch.create|
        invariant mesh == KeysOf(ch.create[..i])
        invariant CreateError(curZone, ch.create, {}) == CreateError(curZone, ch.create[i..], mesh)
      {
        assert ch.create[..i + 1] == ch.create[..i] + [ch.create[i]];
        var key := KeyOf(ch.create[i]);
        if key in curZone {
          return Some(RecordAlreadyExists);
        }
        if key in mesh {
          return Some(DuplicateRecordFound);
        }
        mesh := mesh + {key};
      }
      assert ch.create[..|ch.create|] == ch.create;
      for i := 0 to |ch.updateNew|
        invariant mesh == KeysOf(ch.create) + KeysOf(ch.updateNew[..i])
        invariant UpdateNewError(curZone, ch.updateNew, KeysOf(ch.create))
          == UpdateNewError(curZone, ch.updateNew[i..], mesh)
      {
        assert ch.updateNew[..i + 1] == ch.updateNew[..i] + [ch.updateNew[i]];
        var key := KeyOf(ch.updateNew[i]);
        if key !in curZone {
          return Some(RecordNotFound);
        }
        if key in mesh {
          return Some(DuplicateRecordFound);
        }
        mesh := mesh + {key};
      }
      assert ch.updateNew[..|ch.updateNew|] == ch.updateNew;
      for i := 0 to |ch.updateOld|
        invariant UpdateOldError(curZone, ch.updateOld) == UpdateOldError(curZone, ch.updateOld[i..])
      {
        var ep := ch.updateOld[i];
        if KeyOf(ep) !in curZone {
          return Some(RecordNotFound);
        }
        if |curZone[KeyOf(ep)].targets| == 0 || |ep.targets| == 0 {
          return Some(Panic);
        }
        if curZone[KeyOf(ep)].targets[0] != ep.targets[0] {
          return Some(RecordNotFound);
        }
      }
      ghost var updated := KeysOf(ch.create) + KeysOf(ch.updateNew);
      for i := 0 to |ch.delete|
        invariant DeleteError(curZone, ch.delete, updated) == DeleteError(curZone, ch.delete[i..], mesh)
      {
        var ep := ch.delete[i];
        if KeyOf(ep) !in curZone {
          return Some(RecordNotFound);
        }
        if |curZone[KeyOf(ep)].targets| == 0 || |ep.targets| == 0 {
          return Some(Panic);
        }
        if curZone[KeyOf(ep)].targets[0] != ep.targets[0] {
          return Some(RecordNotFound);
        }
        if KeyOf(ep) in mesh {
          return Some(DuplicateRecordFound);
        }
        mesh := mesh + {KeyOf(ep)};
      }
      return None;
    }

    /** One zone, all or nothing: a batch is applied exactly when it is one the
        provider promises to accept. */
    method ApplyChangesZone(zoneID: string, ch: Changes) returns (err: Option<Error>)
      modifies this
      ensures err == if zoneID in old(zones) then BatchError(old(zones)[zoneID], ch) else Some(ZoneNotFound)
      ensures err.None? <==> zoneID in old(zones) && BatchOk(old(zones)[zoneID], ch)
      ensures zones == if err.None? then old(zones)[zoneID := Apply(old(zones)[zoneID], ch)] else old(zones)
    {
      err := ValidateChangeBatch(zoneID, ch);
      if zoneID in zones {
        ValidationIsExact(zones[zoneID], ch);
      }
      if err.Some? {
        return;
      }
      PutAll(zoneID, ch.create);
      PutAll(zoneID, ch.updateNew);
      DeleteAll(zoneID, ch.delete);
    }

    method PutAll(zoneID: string, s: seq<Endpoint>)
      requires zoneID in zones
      modifies this
      ensures zones == old(zones)[zoneID := Put(old(zones)[zoneID], s)]
    {
      for i := 0 to |s|
        invariant zones == old(zones)[zoneID := Put(old(zones)[zoneID], s[..i])]
      {
        assert s[..i + 1][..i] == s[..i];
        zones := zones[zoneID := zones[zoneID][KeyOf(s[i]) := s[i]]];
      }
      assert s[..|s|] == s;
    }

    method DeleteAll(zoneID: string, s: seq<Endpoint>)
      requires zoneID in zones
      modifies this
      ensures zones == old(zones)[zoneID := old(zones)[zoneID] - KeysOf(s)]
    {
      for i := 0 to |s|
        invariant zoneID in zones && zones == old(zones)[zoneID := zones[zoneID]]
        invariant zones[zoneID] == old(zones)[zoneID] - KeysOf(s[..i])
      {
        assert s[..i + 1] == s[..i] + [s[i]];
        assert KeysOf(s[..i + 1]) == KeysOf(s[..i]) + {KeyOf(s[i])};
        zones := zones[zoneID := zones[zoneID] - {KeyOf(s[i])}];
      }
      assert s[..|s|] == s;
    }

    /** The records of a zone; `at` says which is which. */
    method RecordsZone(zone: string) returns (r: Result<seq<Endpoint>, Error>, ghost at: seq<Place>)
      ensures r.Err? <==> zone !in zones
      ensures r.Err? ==> r.error == ZoneNotFound
      ensures r.Ok? ==> Enumerates(zones, {zone}, at) && |r.value| == |at|
      ensures r.Ok? ==> forall i :: 0 <= i < |at| ==> at[i] in at && r.value[i] == zones[zone][at[i].key]
      ensures r.Ok? && Keyed(zones[zone]) ==> Lists(zones[zone], r.value)
    {
      at := [];
      if zone !in zones {
        return Err(ZoneNotFound), at;
      }
      var records: seq<Endpoint> := [];
      var todo := zones[zone].Keys;
      while todo != {}
        invariant todo <= zones[zone].Keys
        invariant forall i, j :: 0 <= i < j < |at| ==> at[i] != at[j]
        invariant forall p :: p in at <==> p.zone == zone && p.key in zones[zone] && p.key !in todo
        invariant |records| == |at|
        invariant forall i :: 0 <= i < |at| ==> at[i] in at && records[i] == zones[zone][at[i].key]
      {
        var key :| key in todo;
        records := records + [zones[zone][key]];
        at := at + [Place(zone, key)];
        todo := todo - {key};
      }
      r := Ok(records);
      if Keyed(zones[zone]) {
        PlacesList(zones, zone, at, records);
      }
    }

    /** All records of all configured zones, as copies. */
    method Records() returns (r: Result<seq<Endpoint>, Error>)
      ensures r.Ok? ==> exists at :: ReadFrom(zones, zoneDomains.Keys, at, r.value)
      ensures r.Ok? <==> forall z :: z in zoneDomains ==> z in zones && AllFit(zones[z])
      ensures r.Err? ==> ReadFails(zones, zoneDomains, r.error)
      ensures Readable(zones, zoneDomains) ==> r.Ok? && Lists(Flat(zones, zoneDomains), r.value)
    {
      ghost var at;
      r, at := CopyZones();
      if Readable(zones, zoneDomains) {
        ReadIsListed(zones, zoneDomains, at, r.value);
      }
    }

    /** Zone by zone, until one is missing or has a name that cannot be built. */
    method CopyZones() returns (r: Result<seq<Endpoint>, Error>, ghost at: seq<Place>)
      ensures r.Ok? ==> ReadFrom(zones, zoneDomains.Keys, at, r.value)
      ensures r.Ok? <==> forall z :: z in zoneDomains ==> z in zones && AllFit(zones[z])
      ensures r.Err? ==> ReadFails(zones, zoneDomains, r.error)
    {
      var endpoints: seq<Endpoint> := [];
      at := [];
      var todo := zoneDomains.Keys;
      while todo != {}
        invariant todo <= zoneDomains.Keys
        invariant forall z :: z in zoneDomains && z !in todo ==> z in zones && AllFit(zones[z])
        invariant ReadFrom(zones, zoneDomains.Keys - todo, at, endpoints)
      {
        var zoneID :| zoneID in todo;
        var records, own := RecordsZone(zoneID);
        if records.Err? {
          return Err(records.error), at;
        }
        var copies := CopyEndpoints(records.value);
        CopiesFitIff(zones[zoneID], zones, zoneID, own, records.value);
        if copies.Err? {
          return Err(copies.error), at;
        }
        ReadMore(zones, zoneDomains.Keys - todo, at, endpoints, zoneID, own, copies.value);
        assert zoneDomains.Keys - (todo - {zoneID}) == zoneDomains.Keys - todo + {zoneID};
        endpoints, at := endpoints + copies.value, at + own;
        todo := todo - {zoneID};
      }
      assert zoneDomains.Keys - todo == zoneDomains.Keys;
      r := Ok(endpoints);
    }

    /** One list of a batch, distributed over the zones, in order. */
    method SplitList(s: seq<Endpoint>) returns (parts: map<string, seq<Endpoint>>, ghost route: seq<string>)
      ensures Routes(zoneDomains, s, route)
      ensures parts.Keys == zoneDomains.Keys && forall z :: z in parts ==> parts[z] == Sent(s, route, z)
    {
      parts := map z | z in zoneDomains :: [];
      route := [];
      for i := 0 to |s|
        invariant Routes(zoneDomains, s[..i], route)
        invariant parts.Keys == zoneDomains.Keys && forall z :: z in parts ==> parts[z] == Sent(s[..i], route, z)
      {
        var zoneID := EndpointZoneID(s[i].dnsName, zoneDomains);
        RouteOneMore(zoneDomains, s, i, route, zoneID);
        if zoneID != "" {
          parts := parts[zoneID := parts[zoneID] + [s[i]]];
        }
        route := route + [zoneID];
      }
      assert s[..|s|] == s;
    }

    method SplitChanges(ch: Changes) returns (perZone: map<string, Changes>, ghost r: BatchRoute)
      ensures SentBy(zoneDomains, ch, r, perZone)
    {
      var create, c := SplitList(ch.create);
      var updateNew, n := SplitList(ch.updateNew);
      var updateOld, o := SplitList(ch.updateOld);
      var delete, d := SplitList(ch.delete);
      perZone := map z | z in zoneDomains :: Changes(create[z], updateOld[z], updateNew[z], delete[z]);
      r := BatchRoute(c, o, n, d);
    }

    /** The whole batch: routed endpoint by endpoint, then applied zone by zone
        until one refuses. */
    method ApplyChanges(ch: Changes) returns (err: Option<Error>)
      modifies this
      ensures exists parts :: IsSplit(zoneDomains, ch, parts) && OutcomeOf(old(zones), parts, zones, err)
      ensures DistinctDomains(zoneDomains) ==> Outcome(old(zones), zoneDomains, ch, zones, err)
    {
      var perZone, r := SplitChanges(ch);
      assert IsSplit(zoneDomains, ch, perZone);
      err := ApplyZones(perZone);
      if DistinctDomains(zoneDomains) {
        PartsAreSplit(zoneDomains, ch, perZone);
      }
    }

    method ApplyZones(perZone: map<string, Changes>) returns (err: Option<Error>)
      modifies this
      ensures OutcomeOf(old(zones), perZone, zones, err)
    {
      var todo := perZone.Keys;
      while todo != {}
        invariant todo <= perZone.Keys
        invariant zones.Keys == old(zones).Keys
        invariant forall z :: z in zones && (z !in perZone || z in todo) ==> zones[z] == old(zones)[z]
        invariant forall z :: z in perZone && z !in todo ==> z in zones && Accepted(old(zones)[z], perZone[z], zones[z])
      {
        var zoneID :| zoneID in todo;
        err := ApplyChangesZone(zoneID, perZone[zoneID]);
        if err.Some? {
          return;
        }
        todo := todo - {zoneID};
      }
      return None;
    }
  }

  lemma PartsAreSplit(domains: Domains, ch: Changes, parts: map<string, Changes>)
    requires DistinctDomains(domains) && IsSplit(domains, ch, parts)
    ensures parts == Parts(domains, ch)
  {
    var r :| SentBy(domains, ch, r, parts);
    forall z | z in parts ensures parts[z] == Split(domains, ch, z) {
      SplitIsUnique(domains, ch, parts, z);
    }
  }

  /** Sending the next endpoint to its zone. */
  lemma RouteOneMore(domains: Domains, s: seq<Endpoint>, i: nat, route: seq<string>, zoneID: string)
    requires i < |s| && IsZoneFor(domains, s[i].dnsName, zoneID) && Routes(domains, s[..i], route)
    ensures Routes(domains, s[..i + 1], route + [zoneID])
    ensures forall z ::
      Sent(s[..i + 1], route + [zoneID], z) == Sent(s[..i], route, z) + if z != "" && z == zoneID then [s[i]] else []
  {
    assert s[..i + 1][..i] == s[..i] && (route + [zoneID])[..i] == route;
  }

  lemma PlacesList(zones: Zones, zone: string, at: seq<Place>, records: seq<Endpoint>)
    requires zone in zones && Keyed(zones[zone]) && Enumerates(zones, {zone}, at) && |records| == |at|
    requires forall i :: 0 <= i < |at| ==> at[i] in at && records[i] == zones[zone][at[i].key]
    ensures Lists(zones[zone], records)
  {
    forall i | 0 <= i < |at| ensures at[i] == Place(zone, KeyOf(records[i])) && KeyOf(records[i]) in zones[zone] {
      assert at[i] in at;
    }
    forall k | k in zones[zone] ensures k in KeysOf(records) {
      var i :| 0 <= i < |at| && at[i] == Place(zone, k);
      assert records[i] in records;
    }
  }

  lemma CopiesFitIff(zone: Zone, zones: Zones, z: string, at: seq<Place>, records: seq<Endpoint>)
    requires z in zones && zone == zones[z] && Enumerates(zones, {z}, at) && |records| == |at|
    requires forall i :: 0 <= i < |at| ==> at[i] in at && records[i] == zone[at[i].key]
    ensures (forall e :: e in records ==> LabelsFit(e.dnsName)) <==> AllFit(zone)
  {
    if forall e :: e in records ==> LabelsFit(e.dnsName) {
      forall k | k in zone ensures LabelsFit(zone[k].dnsName) {
        assert Place(z, k) in at;
        var i :| 0 <= i < |at| && at[i] == Place(z, k);
        assert records[i] in records;
      }
    }
  }

  /** One more zone. */
  lemma ReadMore(zones: Zones, ids: set<string>, at: seq<Place>, copies: seq<Endpoint>, z: string, own: seq<Place>,
                 more: seq<Endpoint>)
    requires ReadFrom(zones, ids, at, copies) && z !in ids && ReadFrom(zones, {z}, own, more)
    ensures ReadFrom(zones, ids + {z}, at + own, copies + more)
  {
    forall i, j | 0 <= i < |at| && 0 <= j < |own| ensures at[i] != own[j] {
      assert at[i] in at && own[j] in own;
    }
  }

  /** Where copies are faithful and records placed, this is a listing of the flat view. */
  lemma ReadIsListed(zones: Zones, domains: Domains, at: seq<Place>, recs: seq<Endpoint>)
    requires Readable(zones, domains) && ReadFrom(zones, domains.Keys, at, recs)
    ensures Lists(Flat(zones, domains), recs)
  {
    forall i | 0 <= i < |at| ensures at[i] == RoutedPlace(domains, KeyOf(recs[i])) {
      PlaceIsRouted(zones, domains, at, recs, i);
    }
    forall e | e in recs ensures Get(Flat(zones, domains), KeyOf(e)) == Some(e) {
      var i :| 0 <= i < |recs| && recs[i] == e;
      PlaceIsRouted(zones, domains, at, recs, i);
    }
    forall k | k in Flat(zones, domains) ensures k in KeysOf(recs) { FlatIsRead(zones, domains, at, recs, k); }
  }

  ghost function RoutedPlace(domains: Domains, k: Key): Place {
    Place(ZoneFor(domains, k.dnsName), k)
  }

  lemma FlatIsRead(zones: Zones, domains: Domains, at: seq<Place>, recs: seq<Endpoint>, k: Key)
    requires Readable(zones, domains) && ReadFrom(zones, domains.Keys, at, recs) && k in Flat(zones, domains)
    ensures k in KeysOf(recs)
  {
    FlatAt(zones, domains, k);
    assert RoutedPlace(domains, k) in at;
    var i :| 0 <= i < |at| && at[i] == RoutedPlace(domains, k);
    PlaceIsRouted(zones, domains, at, recs, i);
    assert recs[i] in recs;
  }

  lemma PlaceIsRouted(zones: Zones, domains: Domains, at: seq<Place>, recs: seq<Endpoint>, i: nat)
    requires Readable(zones, domains) && ReadFrom(zones, domains.Keys, at, recs) && i < |at|
    ensures at[i] == RoutedPlace(domains, KeyOf(recs[i]))
    ensures Get(Flat(zones, domains), KeyOf(recs[i])) == Some(recs[i])
  {
    var p := at[i];
    assert p in at;
    assert zones[p.zone][p.key] == recs[i];
    FlatAt(zones, domains, p.key);
  }
}
