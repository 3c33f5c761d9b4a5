/** Where the loop ends up: one turn reaches the desired state, as far as policy
    and ownership allow, and the next turn has nothing to do. */
module Convergence {
  import opened Wrappers
  import opened Sorting
  import opened Endpoints
  import opened Policies
  import opened Targets
  import opened Conflict
  import opened Cells
  import opened Store
  import opened Reconcile
  import Strings

  // ---- well-formedness is kept

  lemma LeastIsCandidate(cfg: Settings, names: iset<string>, desired: seq<Endpoint>, k: Key)
    requires WfNames(names) && WfList(cfg.net, names, desired) && k.dnsName in names
    ensures forall e :: e in Wanted(cfg, desired, k) ==> WfEndpoint(cfg.net, names, e)
  {
    WantedWf(cfg, names, desired, k);
  }

  lemma ChosenIsCandidate(net: Netip, resource: string, candidates: seq<Endpoint>)
    requires candidates != []
    ensures Chosen(net, resource, candidates).value in candidates
  {
    var own := Filter(SameResource(resource), candidates);
    if own != [] {
      FilterMember(SameResource(resource), candidates, Least(net, own).value);
    }
  }

  lemma ComparedIsWf(net: Netip, names: iset<string>, e: Endpoint)
    requires WfEndpoint(net, names, e)
    ensures WfEndpoint(net, names, SortTargets(net, e))
  {
    SortWithin(LessFn(net), e.targets, CanonicalTexts(net));
    SortWithin(LessFn(net), e.targets, iset t: string | !Strings.HasSuffix(t, "."));
  }

  lemma NextTakenIsWf(cfg: Settings, names: iset<string>, r: Endpoint, wanted: seq<Endpoint>)
    requires WfEndpoint(cfg.net, names, r) && forall e :: e in wanted ==> WfEndpoint(cfg.net, names, e)
    ensures NextTaken(cfg, r, wanted).Some? ==> WfEndpoint(cfg.net, names, NextTaken(cfg, r, wanted).value)
  {
    if wanted != [] {
      var u := Chosen(cfg.net, Label(r, RESOURCE_LABEL), wanted).value;
      ChosenIsCandidate(cfg.net, Label(r, RESOURCE_LABEL), wanted);
      ComparedIsWf(cfg.net, names, u);
      SortedIsStable(cfg.net, u.targets);
      assert Replacement(cfg.net, r, wanted).targets in {u.targets, Sorted(cfg.net, u.targets)};
    }
  }

  lemma NextIsWf(cfg: Settings, names: iset<string>, zone: Zone, desired: seq<Endpoint>, k: Key)
    requires WfNames(names) && WfZone(cfg.net, names, zone) && WfList(cfg.net, names, desired) && k.dnsName in names
    ensures Next(cfg, zone, desired, k).Some? ==> WfEndpoint(cfg.net, names, Next(cfg, zone, desired, k).value)
  {
    var wanted := Wanted(cfg, desired, k);
    LeastIsCandidate(cfg, names, desired, k);
    if k in zone {
      NextTakenIsWf(cfg, names, zone[k], wanted);
    } else if wanted != [] {
      ComparedIsWf(cfg.net, names, Least(cfg.net, wanted).value);
      NextFreeIsCreated(cfg, zone, desired, k);
    }
  }

  lemma NextFreeIsCreated(cfg: Settings, zone: Zone, desired: seq<Endpoint>, k: Key)
    requires k !in zone
    ensures Next(cfg, zone, desired, k).Some?
      ==> Next(cfg, zone, desired, k) == Created(cfg.net, Wanted(cfg, desired, k))
  {
  }

  lemma TurnKeepsWf(cfg: Settings, names: iset<string>, zone: Zone, desired: seq<Endpoint>, ch: Changes)
    requires Turn(cfg, names, zone, desired, ch)
    ensures WfZone(cfg.net, names, Apply(zone, ch))
  {
    ApplyKeyed(zone, ch);
    var after := Apply(zone, ch);
    forall k | k in after ensures WfEndpoint(cfg.net, names, after[k]) {
      TurnIsNext(cfg, names, zone, desired, ch, k);
      NextIsWf(cfg, names, zone, desired, k);
    }
  }

  // ---- nothing to do

  /** Candidates that compare alike are outdated by the same records, and the other
      way round. */
  lemma ReorderedOutdated(net: Netip, u: Endpoint, u': Endpoint, r: Endpoint, r': Endpoint)
    requires Reordered(net, u, u') && Reordered(net, r, r')
    ensures Outdated(net, u', r') == Outdated(net, u, r)
  {
    ReorderedCompares(net, u, u', r, r');
  }

  lemma LeftSorted(net: Netip, u: Endpoint, r: Endpoint)
    ensures Reordered(net, u, NewSide(net, u, r)) && Reordered(net, r, OldSide(net, u, r))
  {
  }

  /** A record is not outdated against the candidate it was made from. */
  lemma FreshCopyIsCurrent(net: Netip, u: Endpoint, v: Endpoint, r: Endpoint)
    requires DistinctNames(u.providerSpecific) && Reordered(net, u, v)
    ensures !Outdated(net, u, v) && !Outdated(net, u, InheritOwner(r, v))
  {
    SameReflexive(net, u.targets);
    SettlesIffDistinct(u);
    ReorderedOutdated(net, u, u, u, v);
    assert Outdated(net, u, InheritOwner(r, v)) == Outdated(net, u, v);
  }

  /** Sorted once or twice: what a replacement has left of its candidate. */
  lemma ReplacementReordered(net: Netip, r: Endpoint, wanted: seq<Endpoint>)
    requires wanted != []
    ensures var u := Chosen(net, Label(r, RESOURCE_LABEL), wanted).value;
      && Reordered(net, u, Picked(net, r, wanted).value)
      && Reordered(net, u, NewSide(net, Picked(net, r, wanted).value, r))
  {
    var u := Chosen(net, Label(r, RESOURCE_LABEL), wanted).value;
    ComparedTwice(net, wanted, u);
    SortedIsStable(net, u.targets);
  }

  /** Whether a record is replaced does not depend on how the choice has left the
      candidate. */
  lemma ReplacesByChosen(cfg: Settings, r: Endpoint, wanted: seq<Endpoint>)
    requires wanted != []
    ensures Outdated(cfg.net, Picked(cfg.net, r, wanted).value, r)
         == Outdated(cfg.net, Chosen(cfg.net, Label(r, RESOURCE_LABEL), wanted).value, r)
  {
    var u := Chosen(cfg.net, Label(r, RESOURCE_LABEL), wanted).value;
    ReplacementReordered(cfg.net, r, wanted);
    ReorderedOutdated(cfg.net, u, Picked(cfg.net, r, wanted).value, r, r);
  }

  /** An outdated record is really different from its replacement, even in the form
      in which the plan holds it. */
  lemma ReplacementDiffers(net: Netip, u: Endpoint, v: Endpoint, r: Endpoint, r': Endpoint)
    requires DistinctNames(u.providerSpecific) && Outdated(net, u, r)
    requires Reordered(net, u, v) && Reordered(net, r, r')
    ensures InheritOwner(r, v) != r'
  {
    FreshCopyIsCurrent(net, u, v, r);
    ReorderedOutdated(net, u, u, r, r');
  }

  ghost predicate Quiet(cfg: Settings, zone: Zone, desired: seq<Endpoint>, names: iset<string>) {
    forall k: Key :: k.dnsName in names ==> Next(cfg, zone, desired, k) == Get(zone, k)
  }

  /** A record replaced in a plan changes, and the two sides of the update differ. */
  lemma ReplacedMoves(cfg: Settings, names: iset<string>, zone: Zone, desired: seq<Endpoint>, k: Key)
    requires WfNames(names) && WfList(cfg.net, names, desired) && k.dnsName in names
    requires k in zone && KeyInScope(cfg, k) && Replaces(cfg, zone[k], Wanted(cfg, desired, k))
    ensures Next(cfg, zone, desired, k) != Some(zone[k])
    ensures var wanted := Wanted(cfg, desired, k);
      Replacement(cfg.net, zone[k], wanted) != OldSide(cfg.net, Picked(cfg.net, zone[k], wanted).value, zone[k])
  {
    var wanted, r := Wanted(cfg, desired, k), zone[k];
    var u := Chosen(cfg.net, Label(r, RESOURCE_LABEL), wanted).value;
    LeastIsCandidate(cfg, names, desired, k);
    ChosenIsCandidate(cfg.net, Label(r, RESOURCE_LABEL), wanted);
    ReplacesByChosen(cfg, r, wanted);
    ReplacementReordered(cfg.net, r, wanted);
    var p := Picked(cfg.net, r, wanted).value;
    LeftSorted(cfg.net, p, r);
    ReplacementDiffers(cfg.net, u, NewSide(cfg.net, p, r), r, OldSide(cfg.net, p, r));
    ReplacementDiffers(cfg.net, u, NewSide(cfg.net, p, r), r, r);
  }

  /** Whatever a plan mentions it changes. */
  lemma MentionedMoves(cfg: Settings, names: iset<string>, zone: Zone, desired: seq<Endpoint>, ch: Changes, e: Endpoint)
    requires Turn(cfg, names, zone, desired, ch)
    requires e in ch.create || e in ch.delete || e in ch.updateOld || e in ch.updateNew
    ensures e.dnsName in names && Next(cfg, zone, desired, KeyOf(e)) != Get(zone, KeyOf(e))
  {
    if e in ch.create {
      CreateName(cfg, names, zone, desired, ch, e);
    } else if e in ch.delete {
      DeleteName(cfg, names, zone, desired, ch, e);
    } else {
      UpdateName(cfg, names, zone, desired, ch, e);
    }
    var k := KeyOf(e);
    TurnPlansKey(cfg, names, zone, desired, ch, k);
    AtMember(ch.create, e);
    AtMember(ch.delete, e);
    AtMember(ch.updateOld, e);
    AtMember(ch.updateNew, e);
    if k in zone && KeyInScope(cfg, k) && Replaces(cfg, zone[k], Wanted(cfg, desired, k)) {
      ReplacedMoves(cfg, names, zone, desired, k);
    }
  }

  lemma QuietMeansNoChanges(cfg: Settings, names: iset<string>, zone: Zone, desired: seq<Endpoint>, ch: Changes)
    requires Turn(cfg, names, zone, desired, ch) && Quiet(cfg, zone, desired, names)
    ensures ch == NO_CHANGES
  {
    assert |ch.create| > 0 ==> ch.create[0] in ch.create;
    assert |ch.delete| > 0 ==> ch.delete[0] in ch.delete;
    assert |ch.updateOld| > 0 ==> ch.updateOld[0] in ch.updateOld;
    assert |ch.updateNew| > 0 ==> ch.updateNew[0] in ch.updateNew;
    forall e | e in ch.create || e in ch.delete || e in ch.updateOld || e in ch.updateNew
      ensures Next(cfg, zone, desired, KeyOf(e)) != Get(zone, KeyOf(e)) && e.dnsName in names
    {
      MentionedMoves(cfg, names, zone, desired, ch, e);
    }
  }

  /** `HasChanges` is exact: it is false just when all four lists are empty, and
      just when applying the plan would leave the zone as it is. */
  lemma HasChangesIsExact(cfg: Settings, names: iset<string>, zone: Zone, desired: seq<Endpoint>, ch: Changes)
    requires Turn(cfg, names, zone, desired, ch)
    ensures !HasChanges(ch) <==> ch == NO_CHANGES
    ensures !HasChanges(ch) <==> Apply(zone, ch) == zone
  {
    if Apply(zone, ch) == zone {
      forall k: Key | k.dnsName in names ensures Next(cfg, zone, desired, k) == Get(zone, k) {
        TurnIsNext(cfg, names, zone, desired, ch, k);
      }
      QuietMeansNoChanges(cfg, names, zone, desired, ch);
    }
    if !HasChanges(ch) {
      UpdatesAreReal(cfg, names, zone, desired, ch);
    }
  }

  /** The two sides of an update are never equal. */
  lemma UpdatesAreReal(cfg: Settings, names: iset<string>, zone: Zone, desired: seq<Endpoint>, ch: Changes)
    requires Turn(cfg, names, zone, desired, ch) && ch.updateNew == ch.updateOld
    ensures ch.updateNew == []
  {
    if ch.updateNew != [] {
      SidesDiffer(cfg, names, zone, desired, ch, ch.updateOld[0]);
    }
  }

  lemma SidesDiffer(cfg: Settings, names: iset<string>, zone: Zone, desired: seq<Endpoint>, ch: Changes, e: Endpoint)
    requires Turn(cfg, names, zone, desired, ch) && e in ch.updateOld
    ensures e !in ch.updateNew
  {
    OldIsStored(cfg, names, zone, desired, ch, e);
    ReplacedMoves(cfg, names, zone, desired, KeyOf(e));
    TurnPlansKey(cfg, names, zone, desired, ch, KeyOf(e));
    AtMember(ch.updateNew, e);
  }

  // ---- convergence

  /** What blocks a creation is not removed by the turn that was blocked. */
  lemma BlockStays(cfg: Settings, names: iset<string>, zone: Zone, desired: seq<Endpoint>, ch: Changes, pk: PlanKey)
    requires Turn(cfg, names, zone, desired, ch) && !OwnsName(cfg, zone, pk)
    ensures !OwnsName(cfg, Apply(zone, ch), pk)
  {
    var k :| k in zone && PlanKeyOfKey(k) == pk && KeyInScope(cfg, k) && !Claims(cfg, zone[k]);
    TurnIsNext(cfg, names, zone, desired, ch, k);
    assert Get(Apply(zone, ch), k) == Some(zone[k]);
  }

  /** A record that has a chosen candidate's content and resource is at rest. */
  lemma ContentIsAtRest(cfg: Settings, r: Endpoint, u: Endpoint, wanted: seq<Endpoint>)
    requires Within(wanted, CanonicalEndpoints(cfg.net)) && wanted != []
    requires Chosen(cfg.net, Label(r, RESOURCE_LABEL), wanted) == Some(u) && !Outdated(cfg.net, u, r)
    ensures NextTaken(cfg, r, wanted) == Some(r)
  {
    ReplacesByChosen(cfg, r, wanted);
  }

  lemma SettledTaken(cfg: Settings, wanted: seq<Endpoint>, r: Endpoint)
    requires Within(wanted, CanonicalEndpoints(cfg.net))
    requires forall e :: e in wanted ==> DistinctNames(e.providerSpecific)
    requires Replaces(cfg, r, wanted)
    ensures NextTaken(cfg, Replacement(cfg.net, r, wanted), wanted) == Some(Replacement(cfg.net, r, wanted))
  {
    var u, after := Chosen(cfg.net, Label(r, RESOURCE_LABEL), wanted).value, Replacement(cfg.net, r, wanted);
    ChosenIsCandidate(cfg.net, Label(r, RESOURCE_LABEL), wanted);
    ChoiceIsStable(cfg.net, Label(r, RESOURCE_LABEL), wanted, u);
    ReplacementReordered(cfg.net, r, wanted);
    FreshCopyIsCurrent(cfg.net, u, NewSide(cfg.net, Picked(cfg.net, r, wanted).value, r), r);
    assert Label(after, RESOURCE_LABEL) == Label(u, RESOURCE_LABEL);
    ContentIsAtRest(cfg, after, u, wanted);
  }

  lemma SettledCreated(cfg: Settings, wanted: seq<Endpoint>)
    requires Within(wanted, CanonicalEndpoints(cfg.net)) && wanted != []
    requires forall e :: e in wanted ==> DistinctNames(e.providerSpecific)
    ensures NextTaken(cfg, Created(cfg.net, wanted).value, wanted) == Created(cfg.net, wanted)
  {
    var u, after := Least(cfg.net, wanted).value, Created(cfg.net, wanted).value;
    ChoiceIsStable(cfg.net, "", wanted, u);
    ComparedTwice(cfg.net, wanted, u);
    FreshCopyIsCurrent(cfg.net, u, after, u);
    assert Label(after, RESOURCE_LABEL) == Label(u, RESOURCE_LABEL);
    ContentIsAtRest(cfg, after, u, wanted);
  }

  /** After a turn every record is at rest. */
  lemma TurnSettles(cfg: Settings, names: iset<string>, zone: Zone, desired: seq<Endpoint>, ch: Changes, k: Key)
    requires Turn(cfg, names, zone, desired, ch) && k.dnsName in names
    ensures Next(cfg, Apply(zone, ch), desired, k) == Get(Apply(zone, ch), k)
  {
    var after, wanted := Apply(zone, ch), Wanted(cfg, desired, k);
    TurnIsNext(cfg, names, zone, desired, ch, k);
    WantedWf(cfg, names, desired, k);
    LeastIsCandidate(cfg, names, desired, k);
    if KeyInScope(cfg, k) {
      if k in zone {
        if Replaces(cfg, zone[k], wanted) { SettledTaken(cfg, wanted, zone[k]); }
      } else if !OwnsName(cfg, zone, PlanKeyOfKey(k)) {
        BlockStays(cfg, names, zone, desired, ch, PlanKeyOfKey(k));
      } else if wanted != [] {
        SettledCreated(cfg, wanted);
      }
    }
  }

  /** Convergence, for every well-formed zone and desired list, every owner and
      every policy: which plans are accepted can be told from zone and list, and once
      a plan is applied a second one, made from the new zone and the same desired
      list, is empty. */
  lemma LoopConverges(cfg: Settings, names: iset<string>, zone: Zone, desired: seq<Endpoint>, ch: Changes,
                      again: Changes)
    requires Turn(cfg, names, zone, desired, ch)
    requires Turn(cfg, names, Apply(zone, ch), desired, again)
    ensures BatchError(zone, ch) == None <==> Acceptable(cfg, zone, desired)
    ensures again == NO_CHANGES && !HasChanges(again)
  {
    PlansAreAcceptedIff(cfg, names, zone, desired, ch);
    forall k: Key | k.dnsName in names ensures Next(cfg, Apply(zone, ch), desired, k) == Get(Apply(zone, ch), k) {
      TurnSettles(cfg, names, zone, desired, ch, k);
    }
    QuietMeansNoChanges(cfg, names, Apply(zone, ch), desired, again);
  }

  ghost predicate SortedList(net: Netip, s: seq<Endpoint>) {
    forall e :: e in s ==> Sorted(net, e.targets) == e.targets
  }

  lemma NextTakenIsSorted(cfg: Settings, r: Endpoint, wanted: seq<Endpoint>)
    requires SortedList(cfg.net, wanted) && Sorted(cfg.net, r.targets) == r.targets
    ensures var next := NextTaken(cfg, r, wanted);
      next.Some? ==> Sorted(cfg.net, next.value.targets) == next.value.targets
  {
    if wanted != [] {
      var u := Chosen(cfg.net, Label(r, RESOURCE_LABEL), wanted).value;
      ChosenIsCandidate(cfg.net, Label(r, RESOURCE_LABEL), wanted);
      assert Replacement(cfg.net, r, wanted).targets == u.targets;
    }
  }

  lemma NextIsSorted(cfg: Settings, names: iset<string>, zone: Zone, desired: seq<Endpoint>, k: Key)
    requires WfNames(names) && WfList(cfg.net, names, desired) && k.dnsName in names
    requires SortedZone(cfg.net, zone) && SortedList(cfg.net, desired)
    ensures var next := Next(cfg, zone, desired, k);
      next.Some? ==> Sorted(cfg.net, next.value.targets) == next.value.targets
  {
    var wanted := Wanted(cfg, desired, k);
    WantedWf(cfg, names, desired, k);
    if k in zone {
      NextTakenIsSorted(cfg, zone[k], wanted);
    } else {
      NextFreeIsCreated(cfg, zone, desired, k);
    }
  }

  /** With sorted lists on both sides every plan is accepted, in this turn and in
      all that follow. */
  lemma SortedIsKept(cfg: Settings, names: iset<string>, zone: Zone, desired: seq<Endpoint>, ch: Changes)
    requires Turn(cfg, names, zone, desired, ch) && SortedZone(cfg.net, zone) && SortedList(cfg.net, desired)
    ensures BatchError(zone, ch) == None && SortedZone(cfg.net, Apply(zone, ch))
  {
    SortedIsAcceptable(cfg, names, zone, desired);
    PlansAreAcceptedIff(cfg, names, zone, desired, ch);
    var after := Apply(zone, ch);
    forall k | k in after ensures Sorted(cfg.net, after[k].targets) == after[k].targets {
      TurnIsNext(cfg, names, zone, desired, ch, k);
      NextIsSorted(cfg, names, zone, desired, k);
    }
  }

  /** What policies rule out: without deletions no record disappears, and with
      creations alone no record changes. */
  lemma PoliciesLimitTurns(cfg: Settings, names: iset<string>, zone: Zone, desired: seq<Endpoint>, ch: Changes, k: Key)
    requires Turn(cfg, names, zone, desired, ch) && k in zone && !AllowsDelete(cfg.policies)
    ensures k in Apply(zone, ch)
    ensures !AllowsUpdate(cfg.policies) ==> Apply(zone, ch)[k] == zone[k]
  {
    TurnIsNext(cfg, names, zone, desired, ch, k);
    LimitsAt(cfg, zone, desired, k);
  }

  lemma LimitsAt(cfg: Settings, zone: Zone, desired: seq<Endpoint>, k: Key)
    requires k in zone && !AllowsDelete(cfg.policies)
    ensures Next(cfg, zone, desired, k).Some?
    ensures !AllowsUpdate(cfg.policies) ==> Next(cfg, zone, desired, k) == Some(zone[k])
  {
  }

  // ---- the desired state

  /** The candidate that a key is given to. */
  function Selected(cfg: Settings, zone: Zone, desired: seq<Endpoint>, k: Key): Option<Endpoint> {
    var wanted := Wanted(cfg, desired, k);
    if k in zone then Chosen(cfg.net, Label(zone[k], RESOURCE_LABEL), wanted) else Least(cfg.net, wanted)
  }

  /** A stored record realises a candidate. */
  predicate Realises(net: Netip, stored: Endpoint, u: Endpoint) {
    && Same(net, u.targets, stored.targets)
    && (TtlConfigured(u.ttl) ==> stored.ttl == u.ttl)
    && AsSet(stored.providerSpecific) == AsSet(u.providerSpecific)
  }

  lemma CurrentRealises(net: Netip, u: Endpoint, r: Endpoint)
    requires DistinctNames(u.providerSpecific) && DistinctNames(r.providerSpecific)
    ensures !Outdated(net, u, r) <==> Realises(net, r, u)
  {
    ProviderSpecificIsSetComparison(u, r);
  }

  lemma NextRealises(cfg: Settings, names: iset<string>, zone: Zone, desired: seq<Endpoint>, k: Key)
    requires WfNames(names) && WfZone(cfg.net, names, zone) && WfList(cfg.net, names, desired) && k.dnsName in names
    requires KeyInScope(cfg, k) && Wanted(cfg, desired, k) != [] && OwnsName(cfg, zone, PlanKeyOfKey(k))
    requires AllowsUpdate(cfg.policies)
    ensures var next := Next(cfg, zone, desired, k);
      next.Some? && Realises(cfg.net, next.value, Selected(cfg, zone, desired, k).value)
  {
    var wanted, u := Wanted(cfg, desired, k), Selected(cfg, zone, desired, k).value;
    LeastIsCandidate(cfg, names, desired, k);
    if k in zone {
      var r := zone[k];
      ChosenIsCandidate(cfg.net, Label(r, RESOURCE_LABEL), wanted);
      ReplacesByChosen(cfg, r, wanted);
      ReplacementReordered(cfg.net, r, wanted);
      FreshCopyIsCurrent(cfg.net, u, NewSide(cfg.net, Picked(cfg.net, r, wanted).value, r), r);
      CurrentRealises(cfg.net, u, r);
      CurrentRealises(cfg.net, u, Replacement(cfg.net, r, wanted));
    } else {
      var after := Created(cfg.net, wanted).value;
      ComparedTwice(cfg.net, wanted, u);
      FreshCopyIsCurrent(cfg.net, u, after, u);
      CurrentRealises(cfg.net, u, after);
    }
  }

  /** Under the sync policy, where the controller owns the name (or no owner is
      configured), a turn whose plan is accepted leaves a record exactly when something
      is wanted, and it realises the selected candidate.  Records out of scope stay as
      they are, and all of them if the plan is refused. */
  lemma DesiredStateIsMet(cfg: Settings, names: iset<string>, zone: Zone, desired: seq<Endpoint>, ch: Changes, k: Key)
    requires Turn(cfg, names, zone, desired, ch) && k.dnsName in names
    requires AllowsDelete(cfg.policies) && AllowsUpdate(cfg.policies)
    ensures !KeyInScope(cfg, k) || !Acceptable(cfg, zone, desired) ==> Get(After(zone, ch), k) == Get(zone, k)
    ensures Acceptable(cfg, zone, desired) && KeyInScope(cfg, k) && OwnsName(cfg, zone, PlanKeyOfKey(k)) ==>
      && (k in After(zone, ch) <==> Wanted(cfg, desired, k) != [])
      && (k in After(zone, ch) ==> Realises(cfg.net, After(zone, ch)[k], Selected(cfg, zone, desired, k).value))
  {
    PlansAreAcceptedIff(cfg, names, zone, desired, ch);
    TurnIsNext(cfg, names, zone, desired, ch, k);
    if KeyInScope(cfg, k) && OwnsName(cfg, zone, PlanKeyOfKey(k)) && Wanted(cfg, desired, k) != [] {
      NextRealises(cfg, names, zone, desired, k);
    }
  }

  /** With lower-case targets the realised list is a permutation of the wanted one. */
  lemma RealisedTargets(net: Netip, stored: Endpoint, u: Endpoint)
    requires Realises(net, stored, u)
    requires CanonicalList(net, stored.targets) && CanonicalList(net, u.targets)
    requires LowerCaseList(stored.targets) && LowerCaseList(u.targets)
    ensures multiset(stored.targets) == multiset(u.targets)
  {
    SameIsPermutation(net, u.targets, stored.targets);
  }
}
