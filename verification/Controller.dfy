/** The controller's turn over a provider with several zones
    (controller/controller.go, `RunOnce`). */
module Controller {
  import opened Wrappers
  import opened Sorting
  import opened Endpoints
  import opened DomainFilters
  import opened Policies
  import opened Targets
  import opened Cells
  import opened Conflict
  import opened Store
  import opened Routing
  import opened InMemory
  import opened Reconcile
  import opened Convergence
  import Plan

  // ---- several zones as one

  /** A zone agrees with the flat view on the names that are routed to it. */
  lemma ZoneIsFlat(zones: Zones, domains: Domains, z: string, k: Key)
    requires Placed(zones, domains) && z in domains && ZoneFor(domains, k.dnsName) == z
    ensures Get(zones[z], k) == Get(Flat(zones, domains), k)
  {
    FlatAt(zones, domains, k);
  }

  predicate HasZone(domains: Domains, z: string) {
    z != "" && z in domains
  }

  ghost function Routed(domains: Domains): Endpoint -> bool {
    (e: Endpoint) => HasZone(domains, ZoneFor(domains, e.dnsName))
  }

  /** The part of a batch whose names have a zone; the rest is skipped. */
  ghost function RoutedPart(domains: Domains, ch: Changes): Changes {
    Changes(Filter(Routed(domains), ch.create), Filter(Routed(domains), ch.updateOld),
            Filter(Routed(domains), ch.updateNew), Filter(Routed(domains), ch.delete))
  }

  /** Filtering by something that depends on the key only. */
  lemma {:induction false} KeyFiltered(keep: Endpoint -> bool, s: seq<Endpoint>, k: Key, kept: bool)
    requires forall e :: KeyOf(e) == k ==> keep(e) == kept
    ensures Filter(HasKey(k), Filter(keep, s)) == if kept then Filter(HasKey(k), s) else []
  {
    if s != [] {
      KeyFiltered(keep, s[..|s| - 1], k, kept);
      FilterConcat(HasKey(k), Filter(keep, s[..|s| - 1]), if keep(s[|s| - 1]) then [s[|s| - 1]] else []);
      assert [s[|s| - 1]][..0] == [];
    }
  }

  /** The part for a zone says of its own keys what the batch says, and nothing of others. */
  lemma PartAbout(domains: Domains, ch: Changes, z: string, k: Key)
    ensures About(Split(domains, ch, z), k)
         == if z != "" && ZoneFor(domains, k.dnsName) == z then About(ch, k) else NO_CHANGES
  {
    var own := z != "" && ZoneFor(domains, k.dnsName) == z;
    KeyFiltered(GoesTo(domains, z), ch.create, k, own);
    KeyFiltered(GoesTo(domains, z), ch.updateOld, k, own);
    KeyFiltered(GoesTo(domains, z), ch.updateNew, k, own);
    KeyFiltered(GoesTo(domains, z), ch.delete, k, own);
  }

  /** So does the routed part, for the keys that have a zone. */
  lemma RoutedPartAbout(domains: Domains, ch: Changes, k: Key)
    ensures About(RoutedPart(domains, ch), k)
         == if HasZone(domains, ZoneFor(domains, k.dnsName)) then About(ch, k) else NO_CHANGES
  {
    var own := HasZone(domains, ZoneFor(domains, k.dnsName));
    KeyFiltered(Routed(domains), ch.create, k, own);
    KeyFiltered(Routed(domains), ch.updateOld, k, own);
    KeyFiltered(Routed(domains), ch.updateNew, k, own);
    KeyFiltered(Routed(domains), ch.delete, k, own);
  }

  /** Whether what is said about a key is acceptable depends on its record only. */
  lemma AboutDependsOnRecord(zone: Zone, other: Zone, ch: Changes, k: Key)
    requires Get(zone, k) == Get(other, k)
    ensures BatchOk(zone, About(ch, k)) <==> BatchOk(other, About(ch, k))
  {
    var own := About(ch, k);
    forall e | e in own.create || e in own.updateOld || e in own.updateNew || e in own.delete ensures KeyOf(e) == k {
      AboutMember(ch.create, k, e);
      AboutMember(ch.updateOld, k, e);
      AboutMember(ch.updateNew, k, e);
      AboutMember(ch.delete, k, e);
    }
  }

  lemma NothingIsAcceptable(zone: Zone)
    ensures BatchOk(zone, NO_CHANGES)
  {
  }

  /** The zones accept their parts exactly when the flat view accepts what is routed. */
  lemma PartsAcceptedIff(zones: Zones, domains: Domains, ch: Changes)
    requires Placed(zones, domains)
    ensures (forall z :: z in domains ==> BatchOk(zones[z], Split(domains, ch, z)))
       <==> BatchOk(Flat(zones, domains), RoutedPart(domains, ch))
  {
    var flat, part := Flat(zones, domains), RoutedPart(domains, ch);
    AcceptedByKey(flat, part);
    if BatchOk(flat, part) {
      forall z | z in domains ensures BatchOk(zones[z], Split(domains, ch, z)) {
        forall k ensures BatchOk(zones[z], About(Split(domains, ch, z), k)) {
          KeyAcceptedIff(zones, domains, ch, z, k);
          assert BatchOk(flat, About(part, k));
        }
        AcceptedByKey(zones[z], Split(domains, ch, z));
      }
    }
    if forall z :: z in domains ==> BatchOk(zones[z], Split(domains, ch, z)) {
      forall k ensures BatchOk(flat, About(part, k)) {
        var z := ZoneFor(domains, k.dnsName);
        if HasZone(domains, z) {
          AcceptedByKey(zones[z], Split(domains, ch, z));
          KeyAcceptedIff(zones, domains, ch, z, k);
        } else {
          RoutedPartAbout(domains, ch, k);
          NothingIsAcceptable(flat);
        }
      }
    }
  }

  /** Of its own keys a zone accepts what the flat view accepts; of others its part
      says nothing. */
  lemma KeyAcceptedIff(zones: Zones, domains: Domains, ch: Changes, z: string, k: Key)
    requires Placed(zones, domains) && z in domains
    ensures BatchOk(zones[z], About(Split(domains, ch, z), k)) <==>
      (z == ZoneFor(domains, k.dnsName) ==> BatchOk(Flat(zones, domains), About(RoutedPart(domains, ch), k)))
  {
    PartAbout(domains, ch, z, k);
    RoutedPartAbout(domains, ch, k);
    NothingIsAcceptable(zones[z]);
    NothingIsAcceptable(Flat(zones, domains));
    if z == ZoneFor(domains, k.dnsName) {
      ZoneIsFlat(zones, domains, z, k);
      AboutDependsOnRecord(zones[z], Flat(zones, domains), ch, k);
    }
  }

  lemma AppliedAlike(zone: Zone, flat: Zone, domains: Domains, ch: Changes, z: string, k: Key)
    requires HasZone(domains, z) && ZoneFor(domains, k.dnsName) == z && Get(zone, k) == Get(flat, k)
    ensures Get(Apply(zone, Split(domains, ch, z)), k) == Get(Apply(flat, RoutedPart(domains, ch)), k)
  {
    PartAbout(domains, ch, z, k);
    RoutedPartAbout(domains, ch, k);
    ApplyAbout(zone, Split(domains, ch, z), k);
    ApplyAbout(flat, RoutedPart(domains, ch), k);
  }

  /** A name that has a zone, before and after. */
  lemma RoutedKeyAfter(before: Zones, domains: Domains, ch: Changes, after: Zones, err: Option<Error>, k: Key)
    requires Placed(before, domains) && Placed(after, domains)
    requires Outcome(before, domains, ch, after, err) && HasZone(domains, ZoneFor(domains, k.dnsName))
    ensures var was, now, next := Get(Flat(before, domains), k), Get(Flat(after, domains), k),
                                   Get(Apply(Flat(before, domains), RoutedPart(domains, ch)), k);
      (now == was || now == next) && (err.None? ==> now == next)
  {
    var z, flat := ZoneFor(domains, k.dnsName), Flat(before, domains);
    var part := Split(domains, ch, z);
    assert Parts(domains, ch)[z] == part;
    ZoneIsFlat(before, domains, z, k);
    ZoneIsFlat(after, domains, z, k);
    AppliedAlike(before[z], flat, domains, ch, z, k);
    if after[z] != before[z] || err.None? {
      assert Accepted(before[z], part, after[z]);
    }
  }

  lemma KeyAfter(before: Zones, domains: Domains, ch: Changes, after: Zones, err: Option<Error>, k: Key)
    requires Placed(before, domains) && Placed(after, domains)
    requires Outcome(before, domains, ch, after, err)
    ensures var was, now, next := Get(Flat(before, domains), k), Get(Flat(after, domains), k),
                                   Get(Apply(Flat(before, domains), RoutedPart(domains, ch)), k);
      (now == was || now == next) && (err.None? ==> now == next)
  {
    if HasZone(domains, ZoneFor(domains, k.dnsName)) {
      RoutedKeyAfter(before, domains, ch, after, err, k);
    } else {
      FlatAt(before, domains, k);
      FlatAt(after, domains, k);
      RoutedPartAbout(domains, ch, k);
      ApplyAbout(Flat(before, domains), RoutedPart(domains, ch), k);
    }
  }

  /** There is no error exactly when every part is accepted. */
  lemma NoErrorIff(before: Zones, domains: Domains, ch: Changes, after: Zones, err: Option<Error>)
    requires Placed(before, domains) && Outcome(before, domains, ch, after, err)
    ensures err.None? <==> forall z :: z in domains ==> BatchOk(before[z], Split(domains, ch, z))
  {
    var parts := Parts(domains, ch);
    if err.Some? {
      var z :| z in parts && Refused(before, parts[z], after, z, err.value);
      ValidationIsExact(before[z], parts[z]);
    } else {
      forall z | z in domains ensures BatchOk(before[z], Split(domains, ch, z)) {
        assert Accepted(before[z], parts[z], after[z]);
      }
    }
  }

  /** Several zones behave as one, for every batch.  Routing it, and applying the parts zone by
      zone, takes each record at most to where applying the routed part to the flat
      view would; there is no error exactly when the flat view accepts that part,
      and then it is what happens. */
  lemma ZonesActAsOne(before: Zones, domains: Domains, ch: Changes, after: Zones, err: Option<Error>)
    requires Placed(before, domains) && Outcome(before, domains, ch, after, err)
    ensures Placed(after, domains)
    ensures err.None? <==> BatchOk(Flat(before, domains), RoutedPart(domains, ch))
    ensures forall k ::
      || Get(Flat(after, domains), k) == Get(Flat(before, domains), k)
      || Get(Flat(after, domains), k) == Get(Apply(Flat(before, domains), RoutedPart(domains, ch)), k)
    ensures err.None? ==> Flat(after, domains) == Apply(Flat(before, domains), RoutedPart(domains, ch))
  {
    PlacedIsKept(before, domains, ch, after, err);
    NoErrorIff(before, domains, ch, after, err);
    PartsAcceptedIff(before, domains, ch);
    forall k { KeyAfter(before, domains, ch, after, err, k); }
    if err.None? {
      SameGets(Flat(after, domains), Apply(Flat(before, domains), RoutedPart(domains, ch)));
    }
  }

  lemma SameGets(x: Zone, y: Zone)
    requires forall k :: Get(x, k) == Get(y, k)
    ensures x == y
  {
    forall k ensures k in x <==> k in y { assert Get(x, k) == Get(y, k); }
    forall k | k in x ensures x[k] == y[k] { assert Get(x, k) == Get(y, k); }
  }

  // ---- the turn

  /** Zones and desired list of a turn: records placed and well-formed, and the
      desired list well-formed.  Desired names need not have a zone. */
  ghost predicate Healthy(net: Netip, names: iset<string>, zones: Zones, domains: Domains, desired: seq<Endpoint>) {
    && DistinctDomains(domains) && Placed(zones, domains)
    && WfNames(names) && WfZone(net, names, Flat(zones, domains)) && WfList(net, names, desired)
  }

  lemma HealthyIsReadable(net: Netip, names: iset<string>, zones: Zones, domains: Domains)
    requires Placed(zones, domains) && WfNames(names) && WfZone(net, names, Flat(zones, domains))
    ensures Readable(zones, domains)
  {
    forall z, k | z in domains && k in zones[z] ensures Copy(zones[z][k]) == Some(zones[z][k]) {
      FlatAt(zones, domains, k);
      CopyIsFaithful(net, names, zones[z][k]);
    }
  }

  ghost predicate KeyHasZone(domains: Domains, k: Key) {
    HasZone(domains, ZoneFor(domains, k.dnsName))
  }

  /** What a plan says about a key without a zone is to create, which the flat view
      would accept too. */
  lemma UnroutedAcceptable(cfg: Settings, names: iset<string>, zones: Zones, domains: Domains, desired: seq<Endpoint>,
                           ch: Changes, k: Key)
    requires Placed(zones, domains) && Turn(cfg, names, Flat(zones, domains), desired, ch)
    requires !KeyHasZone(domains, k)
    ensures BatchOk(Flat(zones, domains), About(ch, k))
  {
    var flat := Flat(zones, domains);
    PlansArePlaceable(cfg, names, flat, desired, ch);
    ListsAbout(ch, k);
    DistinctFilter(HasKey(k), ch.create + ch.updateNew + ch.delete);
    if About(ch, k).updateOld != [] {
      var e := About(ch, k).updateOld[0];
      AboutMember(ch.updateOld, k, e);
      OldIsStored(cfg, names, flat, desired, ch, e);
      FlatAt(zones, domains, k);
      assert false;
    }
  }

  /** Skipping what has no zone does not change whether a plan is accepted. */
  lemma RoutedPartAcceptedIff(cfg: Settings, names: iset<string>, zones: Zones, domains: Domains,
                              desired: seq<Endpoint>, ch: Changes)
    requires Placed(zones, domains) && Turn(cfg, names, Flat(zones, domains), desired, ch)
    ensures BatchOk(Flat(zones, domains), RoutedPart(domains, ch)) <==> Acceptable(cfg, Flat(zones, domains), desired)
  {
    var flat, part := Flat(zones, domains), RoutedPart(domains, ch);
    PlansAreAcceptedIff(cfg, names, flat, desired, ch);
    forall k ensures BatchOk(flat, About(part, k)) <==> BatchOk(flat, About(ch, k)) {
      SkippingIsAcceptable(cfg, names, zones, domains, desired, ch, k);
    }
    AcceptedAlike(flat, part, ch);
  }

  lemma AcceptedAlike(zone: Zone, a: Changes, b: Changes)
    requires forall k :: BatchOk(zone, About(a, k)) <==> BatchOk(zone, About(b, k))
    ensures BatchOk(zone, a) <==> BatchOk(zone, b)
  {
    AcceptedByKey(zone, a);
    AcceptedByKey(zone, b);
  }

  lemma SkippingIsAcceptable(cfg: Settings, names: iset<string>, zones: Zones, domains: Domains,
                             desired: seq<Endpoint>, ch: Changes, k: Key)
    requires Placed(zones, domains) && Turn(cfg, names, Flat(zones, domains), desired, ch)
    ensures BatchOk(Flat(zones, domains), About(RoutedPart(domains, ch), k))
       <==> BatchOk(Flat(zones, domains), About(ch, k))
  {
    RoutedPartAbout(domains, ch, k);
    NothingIsAcceptable(Flat(zones, domains));
    if !KeyHasZone(domains, k) { UnroutedAcceptable(cfg, names, zones, domains, desired, ch, k); }
  }

  /** Key by key the routed part does what the plan does, where there is a zone. */
  lemma RoutedApplied(zones: Zones, domains: Domains, ch: Changes, k: Key)
    requires Placed(zones, domains)
    ensures Get(Apply(Flat(zones, domains), RoutedPart(domains, ch)), k)
         == if KeyHasZone(domains, k) then Get(Apply(Flat(zones, domains), ch), k) else None
    ensures !KeyHasZone(domains, k) ==> Get(Flat(zones, domains), k) == None
  {
    var flat, part := Flat(zones, domains), RoutedPart(domains, ch);
    RoutedPartAbout(domains, ch, k);
    FlatAt(zones, domains, k);
    if KeyHasZone(domains, k) {
      AppliedByAbout(flat, ch, part, k);
    } else {
      ApplyAbout(flat, part, k);
    }
  }

  lemma AppliedByAbout(zone: Zone, ch: Changes, part: Changes, k: Key)
    requires About(ch, k) == About(part, k)
    ensures Get(Apply(zone, ch), k) == Get(Apply(zone, part), k)
  {
    ApplyAbout(zone, ch, k);
    ApplyAbout(zone, part, k);
  }

  lemma StaysWf(net: Netip, names: iset<string>, zone: Zone, next: Zone, after: Zone)
    requires WfZone(net, names, zone) && WfZone(net, names, next)
    requires forall k :: Get(after, k) == Get(zone, k) || Get(after, k) == Get(next, k)
    ensures WfZone(net, names, after)
  {
    forall k | k in after ensures KeyOf(after[k]) == k && WfEndpoint(net, names, after[k]) {
      assert Get(after, k) == Some(after[k]);
      assert Get(zone, k) == Some(after[k]) || Get(next, k) == Some(after[k]);
    }
  }

  /** What a turn over several zones comes to: whether it succeeds can be told from
      zones and desired list; in any case each key with a zone moves at most to where
      applying the plan would take it, and after a success all have; the others
      have no records. */
  ghost predicate TurnedOver(cfg: Settings, domains: Domains, before: Zone, desired: seq<Endpoint>, ch: Changes,
                             after: Zone, err: Option<Error>) {
    && (err.None? <==> Acceptable(cfg, before, desired))
    && forall k :: KeyTurned(domains, before, ch, after, err, k)
  }

  ghost predicate KeyTurned(domains: Domains, before: Zone, ch: Changes, after: Zone, err: Option<Error>, k: Key) {
    if KeyHasZone(domains, k) then
      && (Get(after, k) == Get(before, k) || Get(after, k) == Get(Apply(before, ch), k))
      && (err.None? ==> Get(after, k) == Get(Apply(before, ch), k))
    else Get(before, k) == None == Get(after, k)
  }

  lemma AppliedOverZones(cfg: Settings, names: iset<string>, before: Zones, domains: Domains, desired: seq<Endpoint>,
                         ch: Changes, after: Zones, err: Option<Error>)
    requires Placed(before, domains) && Turn(cfg, names, Flat(before, domains), desired, ch)
    requires Outcome(before, domains, ch, after, err)
    ensures Placed(after, domains)
    ensures TurnedOver(cfg, domains, Flat(before, domains), desired, ch, Flat(after, domains), err)
  {
    var flat := Flat(before, domains);
    RoutedPartAcceptedIff(cfg, names, before, domains, desired, ch);
    ZonesActAsOne(before, domains, ch, after, err);
    forall k ensures KeyTurned(domains, flat, ch, Flat(after, domains), err, k) {
      RoutedApplied(before, domains, ch, k);
      FlatAt(after, domains, k);
    }
  }

  lemma NothingToApply(cfg: Settings, names: iset<string>, zones: Zones, domains: Domains, desired: seq<Endpoint>,
                       ch: Changes)
    requires Placed(zones, domains) && Turn(cfg, names, Flat(zones, domains), desired, ch) && !HasChanges(ch)
    ensures TurnedOver(cfg, domains, Flat(zones, domains), desired, ch, Flat(zones, domains), None)
  {
    var zone := Flat(zones, domains);
    HasChangesIsExact(cfg, names, zone, desired, ch);
    PlansAreAcceptedIff(cfg, names, zone, desired, ch);
    NothingIsAcceptable(zone);
    forall k ensures KeyTurned(domains, zone, ch, zone, None, k) { FlatAt(zones, domains, k); }
  }

  lemma TurnedStaysWf(cfg: Settings, names: iset<string>, domains: Domains, before: Zone, desired: seq<Endpoint>,
                      ch: Changes, after: Zone, err: Option<Error>)
    requires Turn(cfg, names, before, desired, ch) && TurnedOver(cfg, domains, before, desired, ch, after, err)
    ensures WfZone(cfg.net, names, after)
  {
    TurnKeepsWf(cfg, names, before, desired, ch);
    forall k ensures Get(after, k) == Get(before, k) || Get(after, k) == Get(Apply(before, ch), k) {
      assert KeyTurned(domains, before, ch, after, err, k);
    }
    StaysWf(cfg.net, names, before, Apply(before, ch), after);
  }

  /** A turn over several zones, applied or not, whatever names are desired: it does to
      the keys with a zone what a turn does to the flat view, and leaves everything fit
      for the next turn. */
  lemma TurnOverZones(cfg: Settings, names: iset<string>, before: Zones, domains: Domains, desired: seq<Endpoint>,
                      ch: Changes, after: Zones, err: Option<Error>)
    requires Healthy(cfg.net, names, before, domains, desired)
    requires Turn(cfg, names, Flat(before, domains), desired, ch)
    requires if HasChanges(ch) then Outcome(before, domains, ch, after, err) else after == before && err.None?
    ensures Healthy(cfg.net, names, after, domains, desired)
    ensures TurnedOver(cfg, domains, Flat(before, domains), desired, ch, Flat(after, domains), err)
  {
    if HasChanges(ch) {
      AppliedOverZones(cfg, names, before, domains, desired, ch, after, err);
    } else {
      NothingToApply(cfg, names, before, domains, desired, ch);
    }
    TurnedStaysWf(cfg, names, domains, Flat(before, domains), desired, ch, Flat(after, domains), err);
  }

  /** What an iteration did to the zones: it planned for what it read, and applied the
      plan if there was anything to apply. */
  ghost predicate Iterated(cfg: Settings, before: Zones, domains: Domains, records: seq<Endpoint>,
                           desired: seq<Endpoint>, ch: Changes, after: Zones, err: Option<Error>) {
    && IsPlan(cfg, Relevant(cfg, records), Relevant(cfg, desired), ch)
    && if HasChanges(ch) then exists parts :: IsSplit(domains, ch, parts) && OutcomeOf(before, parts, after, err)
       else after == before && err.None?
  }

  /** The same where domains are pairwise distinct. */
  ghost predicate Turned(cfg: Settings, before: Zones, domains: Domains, records: seq<Endpoint>,
                         desired: seq<Endpoint>, ch: Changes, after: Zones, err: Option<Error>) {
    && IsPlan(cfg, Relevant(cfg, records), Relevant(cfg, desired), ch)
    && if HasChanges(ch) then Outcome(before, domains, ch, after, err) else after == before && err.None?
  }

  ghost predicate AllReadable(zones: Zones, domains: Domains) {
    forall z :: z in domains ==> z in zones && AllFit(zones[z])
  }

  /** A record with a zone stays or becomes its `Next`, and without an error it does
      become that.  No other record is there, before or after. */
  ghost predicate KeyMoves(cfg: Settings, names: iset<string>, domains: Domains, before: Zone, after: Zone,
                           desired: seq<Endpoint>, err: Option<Error>, k: Key) {
    if k.dnsName in names && KeyHasZone(domains, k) then
      && (Get(after, k) == Get(before, k) || Get(after, k) == Next(cfg, before, desired, k))
      && (err.None? ==> Get(after, k) == Next(cfg, before, desired, k))
    else k !in before && k !in after
  }

  /** Whether the iteration succeeds can be told from zones and desired list; records
      move to their `Next`, and everything is fit for the next iteration. */
  ghost predicate Moved(cfg: Settings, names: iset<string>, before: Zones, domains: Domains, desired: seq<Endpoint>,
                        after: Zones, err: Option<Error>)
    requires Placed(before, domains)
  {
    && Healthy(cfg.net, names, after, domains, desired)
    && (err.None? <==> Acceptable(cfg, Flat(before, domains), desired))
    && forall k :: KeyMoves(cfg, names, domains, Flat(before, domains), Flat(after, domains), desired, err, k)
  }

  lemma HealthyRun(cfg: Settings, names: iset<string>, before: Zones, domains: Domains, records: seq<Endpoint>,
                   desired: seq<Endpoint>, ch: Changes, after: Zones, err: Option<Error>)
    requires Healthy(cfg.net, names, before, domains, desired) && Lists(Flat(before, domains), records)
    requires IsPlan(cfg, Relevant(cfg, records), Relevant(cfg, desired), ch)
    requires if HasChanges(ch) then Outcome(before, domains, ch, after, err) else after == before && err.None?
    ensures Moved(cfg, names, before, domains, desired, after, err)
  {
    var flat := Flat(before, domains);
    assert PlannedFrom(cfg, flat, records, desired, ch);
    TurnOverZones(cfg, names, before, domains, desired, ch, after, err);
    forall k ensures KeyMoves(cfg, names, domains, flat, Flat(after, domains), desired, err, k) {
      assert KeyTurned(domains, flat, ch, Flat(after, domains), err, k);
      if k.dnsName in names {
        TurnIsNext(cfg, names, flat, desired, ch, k);
      } else {
        UnknownName(cfg.net, names, flat, k);
        UnknownName(cfg.net, names, Flat(after, domains), k);
      }
    }
  }

  lemma UnknownName(net: Netip, names: iset<string>, zone: Zone, k: Key)
    requires WfZone(net, names, zone) && k.dnsName !in names
    ensures k !in zone
  {
    assert k in zone ==> WfEndpoint(net, names, zone[k]);
  }

  class Controller {
    const provider: InMemoryProvider
    const net: Netip
    const policy: Policy
    const domainFilter: DomainFilter
    const managed: Option<seq<string>>
    const excluded: seq<string>
    const owner: string

    constructor (provider: InMemoryProvider, net: Netip, policy: Policy, domainFilter: DomainFilter,
                 managed: Option<seq<string>>, excluded: seq<string>, owner: string)
      ensures this.provider == provider
      ensures Cfg() == Settings(net, [policy], [Some(domainFilter), Some(New([], []))], managed, excluded, owner)
    {
      this.provider := provider;
      this.net := net;
      this.policy := policy;
      this.domainFilter := domainFilter;
      this.managed := managed;
      this.excluded := excluded;
      this.owner := owner;
    }

    /** The plan's settings; the provider's own domain filter is empty. */
    function Cfg(): Settings {
      Settings(net, [policy], [Some(domainFilter), Some(New([], []))], managed, excluded, owner)
    }

    /** One iteration: read, plan, and apply if there is anything to apply.  The
        desired records come from the source, which may fail. */
    method RunOnce(source: Result<seq<Endpoint>, Error>, ghost names: iset<string>) returns (err: Option<Error>)
      modifies provider
      // reading fails, or the source does
      ensures !AllReadable(old(provider.zones), provider.zoneDomains) ==>
        && err.Some? && ReadFails(old(provider.zones), provider.zoneDomains, err.value)
        && provider.zones == old(provider.zones)
      ensures source.Err? ==> err.Some? && provider.zones == old(provider.zones)
      ensures AllReadable(old(provider.zones), provider.zoneDomains) && source.Err? ==> err == Some(source.error)
      // otherwise a plan is made for copies of everything stored, and applied
      ensures AllReadable(old(provider.zones), provider.zoneDomains) && source.Ok? ==>
        exists at, records, ch ::
          && ReadFrom(old(provider.zones), provider.zoneDomains.Keys, at, records)
          && Iterated(Cfg(), old(provider.zones), provider.zoneDomains, records, source.value, ch, provider.zones, err)
      ensures source.Ok? && DistinctDomains(provider.zoneDomains) && Readable(old(provider.zones), provider.zoneDomains)
        ==> exists records, ch ::
          && Lists(Flat(old(provider.zones), provider.zoneDomains), records)
          && Turned(Cfg(), old(provider.zones), provider.zoneDomains, records, source.value, ch, provider.zones, err)
      // records stay where they belong
      ensures DistinctDomains(provider.zoneDomains) && Placed(old(provider.zones), provider.zoneDomains) ==>
        Placed(provider.zones, provider.zoneDomains)
      // and move to their `Next`
      ensures source.Ok? && Healthy(net, names, old(provider.zones), provider.zoneDomains, source.value) ==>
        Moved(Cfg(), names, old(provider.zones), provider.zoneDomains, source.value, provider.zones, err)
    {
      ghost var before, domains := provider.zones, provider.zoneDomains;
      if source.Ok? && Healthy(net, names, before, domains, source.value) {
        HealthyIsReadable(net, names, before, domains);
      }
      var records := provider.Records();
      if records.Err? {
        return Some(records.error);
      }
      if source.Err? {
        return Some(source.error);
      }
      ghost var at :| ReadFrom(before, domains.Keys, at, records.value);
      ghost var ch;
      err, ch := Iterate(records.value, source.value);
      if Healthy(net, names, before, domains, source.value) {
        HealthyRun(Cfg(), names, before, domains, records.value, source.value, ch, provider.zones, err);
      }
    }

    /** Plans for what was read and desired, and applies the plan. */
    method Iterate(records: seq<Endpoint>, desired: seq<Endpoint>) returns (err: Option<Error>, ghost ch: Changes)
      modifies provider
      ensures Iterated(Cfg(), old(provider.zones), provider.zoneDomains, records, desired, ch, provider.zones, err)
      ensures DistinctDomains(provider.zoneDomains) ==>
        Turned(Cfg(), old(provider.zones), provider.zoneDomains, records, desired, ch, provider.zones, err)
      ensures DistinctDomains(provider.zoneDomains) && Placed(old(provider.zones), provider.zoneDomains) ==>
        Placed(provider.zones, provider.zoneDomains)
    {
      ghost var before, domains := provider.zones, provider.zoneDomains;
      var changes := Plan.Calculate(Cfg(), records, desired);
      ch := changes;
      err := None;
      if HasChanges(changes) {
        err := provider.ApplyChanges(changes);
        if DistinctDomains(domains) && Placed(before, domains) {
          PlacedIsKept(before, domains, changes, provider.zones, err);
        }
      }
    }
  }

  // ---- names without a zone

  /** A key in scope that is absent and wanted, at a name the controller may add to. */
  ghost predicate NewlyWanted(cfg: Settings, zone: Zone, desired: seq<Endpoint>, k: Key) {
    KeyInScope(cfg, k) && k !in zone && Wanted(cfg, desired, k) != [] && OwnsName(cfg, zone, PlanKeyOfKey(k))
  }

  lemma NewlyWantedIsCreated(cfg: Settings, names: iset<string>, zone: Zone, desired: seq<Endpoint>, ch: Changes,
                             k: Key)
    returns (e: Endpoint)
    requires Turn(cfg, names, zone, desired, ch) && k.dnsName in names && NewlyWanted(cfg, zone, desired, k)
    ensures e in ch.create && KeyOf(e) == k
  {
    TurnPlansKey(cfg, names, zone, desired, ch, k);
    PlanNames(cfg, names, zone, desired, ch);
    MentionOf(ch.create, names, k);
    e := At(ch.create, CellOfKey(k))[0];
    assert e in At(ch.create, CellOfKey(k));
  }

  lemma CreatedIsNewlyWanted(cfg: Settings, names: iset<string>, zone: Zone, desired: seq<Endpoint>, ch: Changes,
                             e: Endpoint)
    returns (d: Endpoint)
    requires Turn(cfg, names, zone, desired, ch) && e in ch.create
    ensures d in desired && KeyOf(d) == KeyOf(e) && NewlyWanted(cfg, zone, desired, KeyOf(e))
  {
    CreateIsFresh(cfg, names, zone, desired, ch, e);
    CreatedIsWanted(cfg, names, zone, desired, ch, e);
    MentionedMoves(cfg, names, zone, desired, ch, e);
    WantedWf(cfg, names, desired, KeyOf(e));
    d := Wanted(cfg, desired, KeyOf(e))[0];
    assert d in Wanted(cfg, desired, KeyOf(e));
  }

  /** Whether everything created is routed can be told from zone and desired list. */
  lemma CreatesRoutedIff(cfg: Settings, names: iset<string>, zone: Zone, domains: Domains, desired: seq<Endpoint>,
                         ch: Changes)
    requires Turn(cfg, names, zone, desired, ch)
    ensures (forall e :: e in ch.create ==> Routed(domains)(e)) <==>
      (forall d ::
        d in desired && NewlyWanted(cfg, zone, desired, KeyOf(d)) ==> HasZone(domains, ZoneFor(domains, d.dnsName)))
  {
    if forall e :: e in ch.create ==> Routed(domains)(e) {
      forall d | d in desired && NewlyWanted(cfg, zone, desired, KeyOf(d))
        ensures HasZone(domains, ZoneFor(domains, d.dnsName))
      {
        assert WfEndpoint(cfg.net, names, d);
        var e := NewlyWantedIsCreated(cfg, names, zone, desired, ch, KeyOf(d));
        assert Routed(domains)(e);
      }
    } else {
      var e :| e in ch.create && !Routed(domains)(e);
      var d := CreatedIsNewlyWanted(cfg, names, zone, desired, ch, e);
    }
  }

  /** A name no zone takes is planned for, skipped by the provider, and planned
      for again: the loop settles exactly when every record that is absent and wanted
      has a zone. */
  lemma SettlesIffRouted(cfg: Settings, names: iset<string>, before: Zones, domains: Domains, desired: seq<Endpoint>,
                         ch: Changes, after: Zones, again: Changes)
    requires DistinctDomains(domains) && Placed(before, domains) && Placed(after, domains)
    requires Turn(cfg, names, Flat(before, domains), desired, ch)
    requires Outcome(before, domains, ch, after, None)
    requires Turn(cfg, names, Flat(after, domains), desired, again)
    ensures again == NO_CHANGES
      <==> forall d :: d in desired && NewlyWanted(cfg, Flat(before, domains), desired, KeyOf(d)) ==>
             HasZone(domains, ZoneFor(domains, d.dnsName))
  {
    var flat := Flat(before, domains);
    PlansArePlaceable(cfg, names, flat, desired, ch);
    ZonesActAsOne(before, domains, ch, after, None);
    CreatesRoutedIff(cfg, names, flat, domains, desired, ch);
    if forall e :: e in ch.create ==> Routed(domains)(e) {
      StoredIsRouted(cfg, names, before, domains, desired, ch);
      LoopConverges(cfg, names, flat, desired, ch, again);
    } else {
      var e :| e in ch.create && !Routed(domains)(e);
      UnroutedComesBack(cfg, names, before, domains, desired, ch, after, again, e);
    }
  }

  /** Updates and deletes concern stored records, which have a zone. */
  lemma StoredIsRouted(cfg: Settings, names: iset<string>, before: Zones, domains: Domains, desired: seq<Endpoint>,
                       ch: Changes)
    requires Placed(before, domains) && Turn(cfg, names, Flat(before, domains), desired, ch)
    requires forall e :: e in ch.create ==> Routed(domains)(e)
    ensures RoutedPart(domains, ch) == ch
  {
    var flat := Flat(before, domains);
    forall e | e in ch.updateNew ensures Routed(domains)(e) {
      UpdateNewIsStored(cfg, names, flat, desired, ch, e);
      FlatAt(before, domains, KeyOf(e));
    }
    forall e | e in ch.updateOld ensures Routed(domains)(e) {
      OldIsStored(cfg, names, flat, desired, ch, e);
      FlatAt(before, domains, KeyOf(e));
    }
    forall e | e in ch.delete ensures Routed(domains)(e) {
      DeletedIsStored(cfg, names, flat, desired, ch, e);
      FlatAt(before, domains, KeyOf(e));
    }
    FilterAll(Routed(domains), ch.create);
    FilterAll(Routed(domains), ch.updateNew);
    FilterAll(Routed(domains), ch.updateOld);
    FilterAll(Routed(domains), ch.delete);
  }

  lemma UnroutedComesBack(cfg: Settings, names: iset<string>, before: Zones, domains: Domains, desired: seq<Endpoint>,
                          ch: Changes, after: Zones, again: Changes, e: Endpoint)
    requires Placed(before, domains) && Placed(after, domains)
    requires Turn(cfg, names, Flat(before, domains), desired, ch) && e in ch.create && !Routed(domains)(e)
    requires Turn(cfg, names, Flat(after, domains), desired, again)
    ensures again.create != []
  {
    var k, now := KeyOf(e), Flat(after, domains);
    CreatedIsWanted(cfg, names, Flat(before, domains), desired, ch, e);
    NameStaysFree(cfg, names, after, domains, k);
    TurnPlansKey(cfg, names, now, desired, again, k);
    assert Next(cfg, now, desired, k) == Created(cfg.net, Wanted(cfg, desired, k));
    assert At(again.create, CellOfKey(k)) != [];
  }

  lemma CreatedIsWanted(cfg: Settings, names: iset<string>, zone: Zone, desired: seq<Endpoint>, ch: Changes,
                        e: Endpoint)
    requires Turn(cfg, names, zone, desired, ch) && e in ch.create
    ensures e.dnsName in names && KeyInScope(cfg, KeyOf(e)) && Wanted(cfg, desired, KeyOf(e)) != []
  {
    CreateIsFresh(cfg, names, zone, desired, ch, e);
    TurnPlansKey(cfg, names, zone, desired, ch, KeyOf(e));
    AtMember(ch.create, e);
  }

  /** A name that no zone takes has no records at all. */
  lemma NameStaysFree(cfg: Settings, names: iset<string>, zones: Zones, domains: Domains, k: Key)
    requires Placed(zones, domains) && WfNames(names) && WfZone(cfg.net, names, Flat(zones, domains))
      && k.dnsName in names
    requires !HasZone(domains, ZoneFor(domains, k.dnsName))
    ensures k !in Flat(zones, domains) && OwnsName(cfg, Flat(zones, domains), PlanKeyOfKey(k))
  {
    var now := Flat(zones, domains);
    FlatAt(zones, domains, k);
    forall o | o in now ensures PlanKeyOfKey(o) != PlanKeyOfKey(k) {
      FlatAt(zones, domains, o);
      assert WfEndpoint(cfg.net, names, now[o]);
      assert o.dnsName != k.dnsName;
    }
  }
}
