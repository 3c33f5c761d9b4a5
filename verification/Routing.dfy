/** Which zone a name belongs to, and several zones seen as one store
    (pkg/mem/inmemory.go `EndpointZoneID`, provider/zonefinder.go). */
module Routing {
  import opened Wrappers
  import opened Sorting
  import opened Endpoints
  import opened Store
  import Strings

  /** Zone identifiers with their domains. */
  type Domains = map<string, string>

  type Zones = map<string, Zone>

  predicate DistinctDomains(domains: Domains) {
    forall y, z :: y in domains && z in domains && y != z ==> domains[y] != domains[z]
  }

  predicate Matches(domains: Domains, name: string, z: string) {
    z in domains && Strings.HasSuffix(name, domains[z])
  }

  /** A zone with a longest matching domain; no zone, written as the empty
      identifier, only when none matches. */
  ghost predicate IsZoneFor(domains: Domains, name: string, z: string) {
    if exists y :: Matches(domains, name, y)
    then Matches(domains, name, z) && forall y :: Matches(domains, name, y) ==> |domains[y]| <= |domains[z]|
    else z == ""
  }

  /** With pairwise distinct domains the zone does not depend on map order. */
  lemma ZoneIsUnique(domains: Domains, name: string, y: string, z: string)
    requires DistinctDomains(domains) && IsZoneFor(domains, name, y) && IsZoneFor(domains, name, z)
    ensures y == z
  {
    if Matches(domains, name, y) {
      assert |domains[y]| == |domains[z]|;
      assert domains[y] == name[|name| - |domains[y]|..] == domains[z];
    }
  }

  /** A zone takes a name if its domain is an ending of it and no other zone has a
      longer one; the empty identifier means that no domain is. */
  lemma ZoneForMeans(domains: Domains, name: string, z: string)
    ensures IsZoneFor(domains, name, z) <==>
      || (z in domains && (exists rest :: name == rest + domains[z])
          && forall y :: y in domains && (exists rest :: name == rest + domains[y]) ==> |domains[y]| <= |domains[z]|)
      || (z == "" && forall y :: y in domains ==> !exists rest :: name == rest + domains[y])
  {
    forall y | y in domains ensures Matches(domains, name, y) <==> exists rest :: name == rest + domains[y] {
      SuffixMeans(name, domains[y]);
    }
  }

  lemma SuffixMeans(s: string, suffix: string)
    ensures Strings.HasSuffix(s, suffix) <==> exists rest :: s == rest + suffix
  {
    if Strings.HasSuffix(s, suffix) { assert s == s[..|s| - |suffix|] + suffix; }
  }

  method EndpointZoneID(name: string, domains: Domains) returns (zoneID: string)
    ensures IsZoneFor(domains, name, zoneID)
  {
    var matchZoneName := "";
    zoneID := "";
    var todo := domains.Keys;
    while todo != {}
      invariant todo <= domains.Keys
      invariant if exists y :: y !in todo && Matches(domains, name, y)
        then zoneID !in todo && Matches(domains, name, zoneID) && domains[zoneID] == matchZoneName
          && forall y :: y !in todo && Matches(domains, name, y) ==> |domains[y]| <= |matchZoneName|
        else zoneID == "" && matchZoneName == ""
    {
      var z :| z in todo;
      if Strings.HasSuffix(name, domains[z]) && |domains[z]| >= |matchZoneName| {
        assert Matches(domains, name, z);
        matchZoneName := domains[z];
        zoneID := z;
      }
      todo := todo - {z};
    }
  }

  // ---- the zone finder

  /** The host itself, or a name under the zone, cut at a label. */
  predicate Suits(domains: Domains, host: string, z: string) {
    z in domains && (host == domains[z] || Strings.HasSuffix(host, "." + domains[z]))
  }

  ghost predicate IsSuitableZone(domains: Domains, host: string, id: string, name: string) {
    if exists y :: Suits(domains, host, y)
    then Suits(domains, host, id) && domains[id] == name
      && forall y :: Suits(domains, host, y) ==> |domains[y]| <= |name|
    else id == "" && name == ""
  }

  lemma SuitableZoneIsUnique(domains: Domains, host: string, y: string, n: string, z: string, m: string)
    requires DistinctDomains(domains) && IsSuitableZone(domains, host, y, n) && IsSuitableZone(domains, host, z, m)
    ensures y == z && n == m
  {
    if Suits(domains, host, y) {
      assert |n| == |m|;
      SuitsIsSuffix(domains, host, y);
      SuitsIsSuffix(domains, host, z);
      assert n == host[|host| - |n|..] == m;
    }
  }

  lemma SuitsIsSuffix(domains: Domains, host: string, z: string)
    requires Suits(domains, host, z)
    ensures Strings.HasSuffix(host, domains[z])
  {
    if host != domains[z] {
      assert host[|host| - |domains[z]| - 1..] == "." + domains[z];
      assert host[|host| - |domains[z]|..] == host[|host| - |domains[z]| - 1..][1..];
    }
  }

  /** A zone suits a host that is its name or lies under it; the longest name wins. */
  lemma SuitableZoneMeans(domains: Domains, host: string, id: string, name: string)
    ensures IsSuitableZone(domains, host, id, name) <==>
      || (id in domains && domains[id] == name && (host == name || exists rest :: host == rest + ("." + name))
          && forall y :: y in domains && (host == domains[y] || exists rest :: host == rest + ("." + domains[y]))
               ==> |domains[y]| <= |name|)
      || (id == "" == name
          && forall y :: y in domains ==> host != domains[y] && !exists rest :: host == rest + ("." + domains[y]))
  {
    forall y | y in domains
      ensures Suits(domains, host, y) <==> host == domains[y] || exists rest :: host == rest + ("." + domains[y])
    {
      SuffixMeans(host, "." + domains[y]);
    }
  }

  method FindZone(domains: Domains, host: string) returns (id: string, name: string)
    ensures IsSuitableZone(domains, host, id, name)
  {
    id, name := "", "";
    var todo := domains.Keys;
    while todo != {}
      invariant todo <= domains.Keys
      invariant if exists y :: y !in todo && Suits(domains, host, y)
        then id !in todo && Suits(domains, host, id) && domains[id] == name
          && forall y :: y !in todo && Suits(domains, host, y) ==> |domains[y]| <= |name|
        else id == "" && name == ""
    {
      var z :| z in todo;
      if host == domains[z] || Strings.HasSuffix(host, "." + domains[z]) {
        assert Suits(domains, host, z);
        if name == "" || |domains[z]| > |name| {
          id, name := z, domains[z];
        }
      }
      todo := todo - {z};
    }
  }

  // ---- splitting a batch

  lemma ZoneExists(domains: Domains, name: string)
    ensures exists z :: IsZoneFor(domains, name, z)
  {
    if exists y :: Matches(domains, name, y) {
      var z := Longest(domains, name, domains.Keys);
      assert IsZoneFor(domains, name, z);
    } else {
      assert IsZoneFor(domains, name, "");
    }
  }

  lemma Longest(domains: Domains, name: string, ids: set<string>) returns (z: string)
    requires ids <= domains.Keys && exists y :: y in ids && Matches(domains, name, y)
    ensures z in ids && Matches(domains, name, z)
    ensures forall y :: y in ids && Matches(domains, name, y) ==> |domains[y]| <= |domains[z]|
  {
    z :| z in ids && Matches(domains, name, z);
    if exists y :: y in ids - {z} && Matches(domains, name, y) {
      var y := Longest(domains, name, ids - {z});
      if |domains[y]| > |domains[z]| { z := y; }
    }
  }

  ghost function ZoneFor(domains: Domains, name: string): (z: string)
    ensures IsZoneFor(domains, name, z)
  {
    ZoneExists(domains, name);
    var z :| IsZoneFor(domains, name, z);
    z
  }

  /** Where each endpoint of a list goes, each on its own: with two zones of one
      domain two endpoints of one name may part. */
  ghost predicate Routes(domains: Domains, s: seq<Endpoint>, route: seq<string>) {
    |route| == |s| && forall i :: 0 <= i < |s| ==> IsZoneFor(domains, s[i].dnsName, route[i])
  }

  /** The empty identifier means "no zone": what is routed there is skipped. */
  function Sent(s: seq<Endpoint>, route: seq<string>, z: string): seq<Endpoint>
    requires |route| == |s|
  {
    if s == [] then []
    else
      var n := |s| - 1;
      Sent(s[..n], route[..n], z) + if z != "" && route[n] == z then [s[n]] else []
  }

  datatype BatchRoute = BatchRoute(create: seq<string>, updateOld: seq<string>, updateNew: seq<string>,
                                   delete: seq<string>)

  ghost predicate RoutesBatch(domains: Domains, ch: Changes, r: BatchRoute) {
    && Routes(domains, ch.create, r.create) && Routes(domains, ch.updateOld, r.updateOld)
    && Routes(domains, ch.updateNew, r.updateNew) && Routes(domains, ch.delete, r.delete)
  }

  function SentPart(ch: Changes, r: BatchRoute, z: string): Changes
    requires |r.create| == |ch.create| && |r.updateOld| == |ch.updateOld|
    requires |r.updateNew| == |ch.updateNew| && |r.delete| == |ch.delete|
  {
    Changes(Sent(ch.create, r.create, z), Sent(ch.updateOld, r.updateOld, z),
            Sent(ch.updateNew, r.updateNew, z), Sent(ch.delete, r.delete, z))
  }

  /** The parts that a route sends to the zones. */
  ghost predicate SentBy(domains: Domains, ch: Changes, r: BatchRoute, parts: map<string, Changes>) {
    RoutesBatch(domains, ch, r) && parts.Keys == domains.Keys
      && forall z :: z in parts ==> parts[z] == SentPart(ch, r, z)
  }

  /** A distribution of a batch over the zones, whatever the domains. */
  ghost predicate IsSplit(domains: Domains, ch: Changes, parts: map<string, Changes>) {
    exists r :: SentBy(domains, ch, r, parts)
  }

  ghost function GoesTo(domains: Domains, z: string): Endpoint -> bool {
    (e: Endpoint) => z != "" && ZoneFor(domains, e.dnsName) == z
  }

  /** The part of a batch that is routed to a zone. */
  ghost function Split(domains: Domains, ch: Changes, z: string): Changes {
    Changes(Filter(GoesTo(domains, z), ch.create), Filter(GoesTo(domains, z), ch.updateOld),
            Filter(GoesTo(domains, z), ch.updateNew), Filter(GoesTo(domains, z), ch.delete))
  }

  lemma {:induction false} SentIsFilter(domains: Domains, s: seq<Endpoint>, route: seq<string>, z: string)
    requires DistinctDomains(domains) && Routes(domains, s, route)
    ensures Sent(s, route, z) == Filter(GoesTo(domains, z), s)
  {
    if s != [] {
      var n := |s| - 1;
      SentIsFilter(domains, s[..n], route[..n], z);
      ZoneIsUnique(domains, s[n].dnsName, route[n], ZoneFor(domains, s[n].dnsName));
    }
  }

  /** With pairwise distinct domains there is one distribution. */
  lemma SplitIsUnique(domains: Domains, ch: Changes, parts: map<string, Changes>, z: string)
    requires DistinctDomains(domains) && IsSplit(domains, ch, parts) && z in parts
    ensures parts[z] == Split(domains, ch, z)
  {
    var r :| SentBy(domains, ch, r, parts);
    SentIsFilter(domains, ch.create, r.create, z);
    SentIsFilter(domains, ch.updateOld, r.updateOld, z);
    SentIsFilter(domains, ch.updateNew, r.updateNew, z);
    SentIsFilter(domains, ch.delete, r.delete, z);
  }

  /** Whatever the domains, an endpoint only goes to a zone that may take it. */
  lemma {:induction false} SentMatches(domains: Domains, s: seq<Endpoint>, route: seq<string>, z: string, e: Endpoint)
    requires Routes(domains, s, route) && e in Sent(s, route, z)
    ensures e in s && z != "" && IsZoneFor(domains, e.dnsName, z)
  {
    var n := |s| - 1;
    if e in Sent(s[..n], route[..n], z) {
      SentMatches(domains, s[..n], route[..n], z, e);
    }
  }

  /** Conservation: an endpoint occurs in the part of its own zone as often as in
      the batch, and in no other part. */
  lemma SplitConserves(domains: Domains, s: seq<Endpoint>, z: string, e: Endpoint)
    ensures multiset(Filter(GoesTo(domains, z), s))[e]
         == if z != "" && ZoneFor(domains, e.dnsName) == z then multiset(s)[e] else 0
  {
    FilterCount(GoesTo(domains, z), s, e);
  }

  // ---- the invariant, and the flat view

  /** Records sit under their own keys, in the zone their name is routed to. */
  ghost predicate PlacedZone(zone: Zone, domains: Domains, z: string) {
    forall k :: k in zone ==> KeyOf(zone[k]) == k && z != "" && ZoneFor(domains, k.dnsName) == z
  }

  /** Every zone of the configuration exists, with its own records. */
  ghost predicate Placed(zones: Zones, domains: Domains) {
    domains.Keys <= zones.Keys && forall z :: z in domains ==> PlacedZone(zones[z], domains, z)
  }

  /** No record is in two zones. */
  lemma KeysAcrossZones(zones: Zones, domains: Domains, y: string, z: string, k: Key)
    requires Placed(zones, domains) && y in domains && z in domains
    requires y != z && k in zones[y]
    ensures k !in zones[z]
  {
  }

  ghost function AllKeys(zones: Zones, domains: Domains): set<Key>
    requires domains.Keys <= zones.Keys
  {
    set z, k | z in domains && k in zones[z] :: k
  }

  ghost function Flat(zones: Zones, domains: Domains): Zone
    requires Placed(zones, domains)
  {
    map k | k in AllKeys(zones, domains) :: zones[ZoneFor(domains, k.dnsName)][k]
  }

  lemma FlatAt(zones: Zones, domains: Domains, k: Key)
    requires Placed(zones, domains)
    ensures var z := ZoneFor(domains, k.dnsName);
      Get(Flat(zones, domains), k) == if z in domains then Get(zones[z], k) else None
  {
  }

  // ---- what a batch does to several zones

  predicate Accepted(before: Zone, ch: Changes, after: Zone) {
    BatchOk(before, ch) && after == Apply(before, ch)
  }

  /** A zone whose part of the batch is refused is left as it was. */
  predicate Refused(before: Zones, part: Changes, after: Zones, z: string, err: Error) {
    if z !in before then err == ZoneNotFound
    else z in after && after[z] == before[z] && BatchError(before[z], part) == Some(err)
  }

  /** The outcome of applying parts zone by zone until one is refused: a failing zone
      stays as it was while others may have changed. */
  ghost predicate OutcomeOf(before: Zones, parts: map<string, Changes>, after: Zones, err: Option<Error>) {
    && after.Keys == before.Keys
    && (forall z :: z in before && z !in parts ==> after[z] == before[z])
    && (forall z :: z in before && z in parts ==> after[z] == before[z] || Accepted(before[z], parts[z], after[z]))
    && (err.None? ==> forall z :: z in parts ==> z in before && Accepted(before[z], parts[z], after[z]))
    && (err.Some? ==> exists z :: z in parts && Refused(before, parts[z], after, z, err.value))
  }

  ghost function Parts(domains: Domains, ch: Changes): (parts: map<string, Changes>)
    ensures parts.Keys == domains.Keys && forall z :: z in parts ==> parts[z] == Split(domains, ch, z)
  {
    map z | z in domains :: Split(domains, ch, z)
  }

  /** The outcome of `ApplyChanges` where domains are pairwise distinct. */
  ghost predicate Outcome(before: Zones, domains: Domains, ch: Changes, after: Zones, err: Option<Error>) {
    OutcomeOf(before, Parts(domains, ch), after, err)
  }

  // ---- all or nothing

  predicate PartAcceptable(before: Zones, parts: map<string, Changes>, z: string)
    requires z in parts
  {
    z in before && BatchOk(before[z], parts[z])
  }

  predicate PartIdle(before: Zones, parts: map<string, Changes>, z: string)
    requires z in parts
  {
    z in before && Apply(before[z], parts[z]) == before[z]
  }

  ghost predicate AllOrNothing(before: Zones, parts: map<string, Changes>) {
    forall after, err :: OutcomeOf(before, parts, after, err) ==>
      after == before || forall z :: z in parts ==> z in before && Accepted(before[z], parts[z], after[z])
  }

  /** One part is applied and then another refused. */
  lemma PartialOutcome(before: Zones, parts: map<string, Changes>, y: string, z: string)
    requires y in parts && z in parts && PartAcceptable(before, parts, y) && !PartIdle(before, parts, y)
    requires !PartAcceptable(before, parts, z)
    ensures !AllOrNothing(before, parts)
  {
    var after := before[y := Apply(before[y], parts[y])];
    if z in before { ValidationIsExact(before[z], parts[z]); }
    var err := if z in before then BatchError(before[z], parts[z]) else Some(ZoneNotFound);
    assert Refused(before, parts[z], after, z, err.value);
    assert OutcomeOf(before, parts, after, err);
    assert after[y] != before[y];
    assert !(z in before && Accepted(before[z], parts[z], after[z]));
  }

  lemma AcceptedOrIdle(before: Zones, parts: map<string, Changes>, after: Zones, err: Option<Error>)
    requires OutcomeOf(before, parts, after, err)
    requires (forall z :: z in parts ==> PartAcceptable(before, parts, z))
          || (forall z :: z in parts && PartAcceptable(before, parts, z) ==> PartIdle(before, parts, z))
    ensures after == before || forall z :: z in parts ==> z in before && Accepted(before[z], parts[z], after[z])
  {
    if forall z :: z in parts ==> PartAcceptable(before, parts, z) {
      if err.Some? {
        var z :| z in parts && Refused(before, parts[z], after, z, err.value);
        ValidationIsExact(before[z], parts[z]);
        assert false;
      }
    } else {
      forall z | z in before ensures after[z] == before[z] {
        if z in parts && after[z] != before[z] { assert PartAcceptable(before, parts, z); }
      }
    }
  }

  /** A batch over several zones is all or nothing, whatever the order of zones,
      exactly when every part is acceptable or no acceptable part changes its zone. */
  lemma AllOrNothingIff(before: Zones, parts: map<string, Changes>)
    ensures AllOrNothing(before, parts) <==>
      || (forall z :: z in parts ==> PartAcceptable(before, parts, z))
      || (forall z :: z in parts && PartAcceptable(before, parts, z) ==> PartIdle(before, parts, z))
  {
    if AllOrNothing(before, parts) {
      forall y, z | y in parts && z in parts && PartAcceptable(before, parts, y) && !PartAcceptable(before, parts, z)
        ensures PartIdle(before, parts, y)
      {
        if !PartIdle(before, parts, y) { PartialOutcome(before, parts, y, z); }
      }
    } else {
      var after, err :| OutcomeOf(before, parts, after, err)
        && !(after == before || forall z :: z in parts ==> z in before && Accepted(before[z], parts[z], after[z]));
      if (forall z :: z in parts ==> PartAcceptable(before, parts, z))
        || (forall z :: z in parts && PartAcceptable(before, parts, z) ==> PartIdle(before, parts, z))
      {
        AcceptedOrIdle(before, parts, after, err);
        assert false;
      }
    }
  }

  lemma SplitRoutes(domains: Domains, s: seq<Endpoint>, z: string)
    ensures forall e :: e in Filter(GoesTo(domains, z), s) ==> e in s && z != "" && ZoneFor(domains, e.dnsName) == z
  {
  }

  lemma {:induction false} PutKeys(zone: Zone, s: seq<Endpoint>, k: Key)
    requires k in Put(zone, s)
    ensures k in zone || k in KeysOf(s)
    ensures k !in KeysOf(s) ==> Put(zone, s)[k] == zone[k]
  {
    if s != [] {
      var front, last := s[..|s| - 1], s[|s| - 1];
      assert s == front + [last];
      assert KeysOf(s) == KeysOf(front) + {KeyOf(last)};
      if k != KeyOf(last) { PutKeys(zone, front, k); }
    }
  }

  /** Placement survives every batch, accepted or not. */
  lemma PlacedIsKept(before: Zones, domains: Domains, ch: Changes, after: Zones, err: Option<Error>)
    requires Placed(before, domains) && Outcome(before, domains, ch, after, err)
    ensures Placed(after, domains)
  {
    forall z | z in domains ensures PlacedZone(after[z], domains, z) {
      assert after[z] == before[z] || after[z] == Apply(before[z], Split(domains, ch, z));
      PlacedInZone(before[z], domains, ch, z);
    }
  }

  lemma PlacedInZone(zone: Zone, domains: Domains, ch: Changes, z: string)
    requires PlacedZone(zone, domains, z)
    ensures PlacedZone(Apply(zone, Split(domains, ch, z)), domains, z)
  {
    var part := Split(domains, ch, z);
    SplitRoutes(domains, ch.create, z);
    SplitRoutes(domains, ch.updateNew, z);
    ApplyKeyed(zone, part);
    forall k | k in Apply(zone, part) ensures z != "" && ZoneFor(domains, k.dnsName) == z {
      PutKeys(Put(zone, part.create), part.updateNew, k);
      if k in Put(zone, part.create) { PutKeys(zone, part.create, k); }
    }
  }

  /** The zones after each of a number of batches. */
  ghost predicate Batches(run: seq<Zones>, domains: Domains, batches: seq<Changes>, errs: seq<Option<Error>>) {
    && |run| == |batches| + 1 && |errs| == |batches|
    && forall i :: 0 <= i < |batches| ==> Outcome(run[i], domains, batches[i], run[i + 1], errs[i])
  }

  /** Over every run of batches, accepted or refused, records stay in the zones
      their names are routed to, and so no record is ever in two zones. */
  lemma {:induction false} PlacedAlongRun(run: seq<Zones>, domains: Domains, batches: seq<Changes>,
                                          errs: seq<Option<Error>>, n: nat)
    requires Batches(run, domains, batches, errs) && Placed(run[0], domains) && n < |run|
    ensures Placed(run[n], domains)
    ensures forall y, z, k :: y in domains && z in domains && k in run[n][y] && k in run[n][z] ==> y == z
  {
    if n > 0 {
      PlacedAlongRun(run, domains, batches, errs, n - 1);
      PlacedIsKept(run[n - 1], domains, batches[n - 1], run[n], errs[n - 1]);
    }
  }
}
