/** One turn of the loop, record by record.  Reading the zone, planning and
    applying the plan, with all its grouping and map iteration, does to each
    record what `Next` says, independently of all the others. */
module Reconcile {
  import opened Wrappers
  import opened Sorting
  import opened Endpoints
  import opened Policies
  import opened Targets
  import opened Conflict
  import opened Cells
  import opened Store
  import Strings

  // ---- well-formed data

  /** No two different spellings of one normalised name. */
  ghost predicate OneSpelling(names: iset<string>) {
    forall m, n {:trigger NormalizeDNSName(m), NormalizeDNSName(n)} ::
      m in names && n in names && NormalizeDNSName(m) == NormalizeDNSName(n) ==> m == n
  }

  /** Names as they may occur together: in addition no trailing dot, and labels that fit. */
  ghost predicate WfNames(names: iset<string>) {
    OneSpelling(names) && forall n :: n in names ==> LabelsFit(n) && !Strings.HasSuffix(n, ".")
  }

  ghost predicate ZoneNamed(zone: Zone, names: iset<string>) {
    Keyed(zone) && forall k :: k in zone ==> k.dnsName in names
  }

  /** Target lists that copying leaves alone, in whatever order. */
  ghost predicate WfTargets(net: Netip, t: seq<string>) {
    && t != []
    && CanonicalList(net, t)
    && forall i :: 0 <= i < |t| ==> !Strings.HasSuffix(t[i], ".")
  }

  ghost predicate WfEndpoint(net: Netip, names: iset<string>, e: Endpoint) {
    e.dnsName in names && WfTargets(net, e.targets) && DistinctNames(e.providerSpecific)
  }

  ghost predicate WfList(net: Netip, names: iset<string>, s: seq<Endpoint>) {
    forall e :: e in s ==> WfEndpoint(net, names, e)
  }

  ghost predicate WfZone(net: Netip, names: iset<string>, zone: Zone) {
    Keyed(zone) && forall k :: k in zone ==> WfEndpoint(net, names, zone[k])
  }

  // ---- the meaning of a turn

  function CellOfKey(k: Key): Cell {
    Cell(PlanKeyOfKey(k), k.recordType)
  }

  function PlanKeyOfKey(k: Key): PlanKey {
    PlanKey(NormalizeDNSName(k.dnsName), k.setIdentifier)
  }

  predicate KeyInScope(cfg: Settings, k: Key) {
    InScope(cfg, k.dnsName, k.recordType)
  }

  predicate Claims(cfg: Settings, e: Endpoint) {
    cfg.owner == "" || IsOwnedBy(e, cfg.owner)
  }

  /** The candidates for a key: CNAMEs give way to other types. */
  function Wanted(cfg: Settings, desired: seq<Endpoint>, k: Key): seq<Endpoint> {
    CandidatesAt(Relevant(cfg, desired), CellOfKey(k))
  }

  predicate OwnsName(cfg: Settings, zone: Zone, pk: PlanKey) {
    forall k :: k in zone && PlanKeyOfKey(k) == pk && KeyInScope(cfg, k) ==> Claims(cfg, zone[k])
  }

  /** What becomes of the record under `k`. */
  function Next(cfg: Settings, zone: Zone, desired: seq<Endpoint>, k: Key): Option<Endpoint> {
    var wanted := Wanted(cfg, desired, k);
    if !KeyInScope(cfg, k) then Get(zone, k)
    else if k !in zone then
      if OwnsName(cfg, zone, PlanKeyOfKey(k)) then Created(cfg.net, wanted) else None
    else NextTaken(cfg, zone[k], wanted)
  }

  function NextTaken(cfg: Settings, current: Endpoint, wanted: seq<Endpoint>): Option<Endpoint> {
    if wanted == [] then
      if AllowsDelete(cfg.policies) && Claims(cfg, current) then None else Some(current)
    else if Replaces(cfg, current, wanted) then Some(Replacement(cfg.net, current, wanted))
    else Some(current)
  }

  /** The candidate for a stored record, as choosing it has left it. */
  function Picked(net: Netip, current: Endpoint, wanted: seq<Endpoint>): (u: Option<Endpoint>)
    ensures u.Some? <==> wanted != []
  {
    ComparedOption(net, wanted, Chosen(net, Label(current, RESOURCE_LABEL), wanted))
  }

  /** The stored record gives way to a newer one. */
  predicate Replaces(cfg: Settings, current: Endpoint, wanted: seq<Endpoint>) {
    wanted != [] && AllowsUpdate(cfg.policies) && Claims(cfg, current)
      && Outdated(cfg.net, Picked(cfg.net, current, wanted).value, current)
  }

  function Replacement(net: Netip, current: Endpoint, wanted: seq<Endpoint>): Endpoint
    requires wanted != []
  {
    InheritOwner(current, NewSide(net, Picked(net, current, wanted).value, current))
  }

  // ---- reading a well-formed zone

  lemma CopyIsFaithful(net: Netip, names: iset<string>, e: Endpoint)
    requires WfNames(names) && WfEndpoint(net, names, e)
    ensures Copy(e) == Some(e)
  {
    assert CleanTargets(e.targets) == e.targets;
  }

  lemma SameCellSameKey(names: iset<string>, e: Endpoint, k: Key)
    requires OneSpelling(names) && e.dnsName in names && k.dnsName in names
    ensures CellOf(e) == CellOfKey(k) <==> KeyOf(e) == k
  {
  }

  /** A cell of the records read holds the stored record, if it is in scope. */
  function Stored(cfg: Settings, zone: Zone, k: Key): seq<Endpoint> {
    if k in zone && KeyInScope(cfg, k) then [zone[k]] else []
  }

  /** What is read for a cell is the record under the key, and only once. */
  lemma ReadOnlyStored(cfg: Settings, names: iset<string>, zone: Zone, recs: seq<Endpoint>, k: Key, e: Endpoint)
    requires OneSpelling(names) && ZoneNamed(zone, names) && Lists(zone, recs) && k.dnsName in names
    requires e in At(Relevant(cfg, recs), CellOfKey(k))
    ensures KeyOf(e) == k && KeyInScope(cfg, k) && k in zone && e == zone[k]
  {
    FilterMember(InCell(CellOfKey(k)), Relevant(cfg, recs), e);
    FilterMember(ScopeFn(cfg), recs, e);
    SameCellSameKey(names, e, k);
  }

  lemma ReadAt(cfg: Settings, names: iset<string>, zone: Zone, recs: seq<Endpoint>, k: Key)
    requires OneSpelling(names) && ZoneNamed(zone, names) && Lists(zone, recs) && k.dnsName in names
    ensures At(Relevant(cfg, recs), CellOfKey(k)) == Stored(cfg, zone, k)
  {
    var at := At(Relevant(cfg, recs), CellOfKey(k));
    ReadOnce(cfg, names, zone, recs, k);
    if at != [] {
      ReadOnlyStored(cfg, names, zone, recs, k, at[0]);
      assert at == [at[0]];
    } else if k in zone && KeyInScope(cfg, k) {
      ReadIncludes(cfg, zone, recs, k);
    }
  }

  lemma ReadOnce(cfg: Settings, names: iset<string>, zone: Zone, recs: seq<Endpoint>, k: Key)
    requires OneSpelling(names) && ZoneNamed(zone, names) && Lists(zone, recs) && k.dnsName in names
    ensures |At(Relevant(cfg, recs), CellOfKey(k))| <= 1
  {
    var at := At(Relevant(cfg, recs), CellOfKey(k));
    forall e | e in at ensures KeyOf(e) == k {
      ReadOnlyStored(cfg, names, zone, recs, k, e);
    }
    DistinctFilter(ScopeFn(cfg), recs);
    DistinctFilter(InCell(CellOfKey(k)), Relevant(cfg, recs));
    OneKeyOneRecord(at, k);
  }

  lemma ReadIncludes(cfg: Settings, zone: Zone, recs: seq<Endpoint>, k: Key)
    requires Keyed(zone) && Lists(zone, recs) && k in zone && KeyInScope(cfg, k)
    ensures zone[k] in At(Relevant(cfg, recs), CellOfKey(k))
  {
    ListsMember(zone, recs, k);
    FilterMember(ScopeFn(cfg), recs, zone[k]);
    FilterMember(InCell(CellOfKey(k)), Relevant(cfg, recs), zone[k]);
  }

  lemma OneKeyOneRecord(s: seq<Endpoint>, k: Key)
    requires DistinctKeys(s) && forall e :: e in s ==> KeyOf(e) == k
    ensures |s| <= 1
  {
    DistinctCount(s);
    if s != [] {
      assert KeyOf(s[0]) in KeysOf(s);
      assert KeysOf(s) == {k};
    }
  }

  lemma ReadOwns(cfg: Settings, zone: Zone, recs: seq<Endpoint>, pk: PlanKey)
    requires Keyed(zone) && Lists(zone, recs)
    ensures OwnsRow(cfg, Relevant(cfg, recs), pk) == OwnsName(cfg, zone, pk)
  {
    var rel := Relevant(cfg, recs);
    if cfg.owner != "" {
      forall e | e in RowAt(rel, pk)
        ensures KeyOf(e) in zone && zone[KeyOf(e)] == e && PlanKeyOfKey(KeyOf(e)) == pk && KeyInScope(cfg, KeyOf(e))
      {
        FilterMember(ScopeFn(cfg), recs, e);
      }
      forall k | k in zone && PlanKeyOfKey(k) == pk && KeyInScope(cfg, k) ensures zone[k] in RowAt(rel, pk) {
        ListsMember(zone, recs, k);
        FilterMember(ScopeFn(cfg), recs, zone[k]);
        FilterMember(InRow(pk), rel, zone[k]);
      }
    }
  }

  // ---- the plan, key by key

  lemma WantedWf(cfg: Settings, names: iset<string>, desired: seq<Endpoint>, k: Key)
    requires WfNames(names) && WfList(cfg.net, names, desired) && k.dnsName in names
    ensures forall e :: e in Wanted(cfg, desired, k) ==> e in desired && KeyOf(e) == k && KeyInScope(cfg, k)
    ensures Within(Wanted(cfg, desired, k), CanonicalEndpoints(cfg.net))
    ensures Wanted(cfg, desired, k) != [] ==> KeyInScope(cfg, k)
  {
    var w, rel := Wanted(cfg, desired, k), Relevant(cfg, desired);
    forall e | e in w ensures e in desired && KeyOf(e) == k && KeyInScope(cfg, k) {
      assert e in At(rel, CellOfKey(k));
      FilterMember(InCell(CellOfKey(k)), rel, e);
      FilterMember(ScopeFn(cfg), desired, e);
      SameCellSameKey(names, e, k);
    }
    forall i | 0 <= i < |w| ensures w[i] in CanonicalEndpoints(cfg.net) {
      assert w[i] in w;
    }
    assert w != [] ==> w[0] in w;
  }

  /** A plan made from the records of a zone, read in some order. */
  ghost predicate PlannedFrom(cfg: Settings, zone: Zone, recs: seq<Endpoint>, desired: seq<Endpoint>, ch: Changes) {
    Lists(zone, recs) && IsPlan(cfg, Relevant(cfg, recs), Relevant(cfg, desired), ch)
  }

  ghost predicate Planned(cfg: Settings, zone: Zone, desired: seq<Endpoint>, ch: Changes) {
    exists recs :: PlannedFrom(cfg, zone, recs, desired, ch)
  }

  /** What the plan holds for a key, in terms of zone and desired list. */
  ghost predicate PlanFor(cfg: Settings, zone: Zone, desired: seq<Endpoint>, ch: Changes, k: Key) {
    var c, wanted := CellOfKey(k), Wanted(cfg, desired, k);
    var stays := Next(cfg, zone, desired, k) == Get(zone, k);
    if !KeyInScope(cfg, k) then
      At(ch.create, c) == [] && At(ch.delete, c) == [] && At(ch.updateOld, c) == [] && At(ch.updateNew, c) == []
    else if k !in zone then
      && At(ch.create, c) == One(Next(cfg, zone, desired, k))
      && At(ch.delete, c) == [] && At(ch.updateOld, c) == [] && At(ch.updateNew, c) == []
    else
      && At(ch.create, c) == []
      && At(ch.delete, c) == (if Next(cfg, zone, desired, k).None? then [zone[k]] else [])
      && At(ch.updateOld, c)
        == (if Replaces(cfg, zone[k], wanted)
          then [OldSide(cfg.net, Picked(cfg.net, zone[k], wanted).value, zone[k])] else [])
      && At(ch.updateNew, c) == (if Replaces(cfg, zone[k], wanted) then One(Next(cfg, zone, desired, k)) else [])
  }

  lemma OwnedOne(cfg: Settings, e: Endpoint)
    ensures Filter(OwnedFn(cfg.owner), [e]) == if IsOwnedBy(e, cfg.owner) then [e] else []
    ensures Distinct([e]) == [e]
  {
    assert [e][..0] == [];
  }

  lemma PlanHolds(cfg: Settings, names: iset<string>, zone: Zone, recs: seq<Endpoint>, desired: seq<Endpoint>,
                  ch: Changes, k: Key)
    requires WfNames(names) && WfZone(cfg.net, names, zone) && WfList(cfg.net, names, desired)
    requires PlannedFrom(cfg, zone, recs, desired, ch)
    requires k.dnsName in names
    ensures PlanFor(cfg, zone, desired, ch, k)
  {
    var c, cur, des := CellOfKey(k), Relevant(cfg, recs), Relevant(cfg, desired);
    assert PlansCell(cfg, cur, des, ch, c);
    assert ZoneNamed(zone, names);
    ReadAt(cfg, names, zone, recs, k);
    WantedWf(cfg, names, desired, k);
    if k in zone && KeyInScope(cfg, k) {
      if RowAt(des, c.key) == [] { AtOfRow(des, c.key, c); }
      PlanHoldsTaken(cfg, zone[k], cur, des, ch, c);
    } else {
      ReadOwns(cfg, zone, recs, c.key);
      PlanHoldsFree(cfg, cur, des, ch, c);
      PlanForFree(cfg, zone, desired, ch, k);
    }
  }

  lemma PlanForFree(cfg: Settings, zone: Zone, desired: seq<Endpoint>, ch: Changes, k: Key)
    requires !(k in zone && KeyInScope(cfg, k)) && (Wanted(cfg, desired, k) != [] ==> KeyInScope(cfg, k))
    requires At(ch.create, CellOfKey(k))
          == if OwnsName(cfg, zone, PlanKeyOfKey(k)) then One(Created(cfg.net, Wanted(cfg, desired, k))) else []
    requires At(ch.delete, CellOfKey(k)) == [] && At(ch.updateOld, CellOfKey(k)) == []
      && At(ch.updateNew, CellOfKey(k)) == []
    ensures PlanFor(cfg, zone, desired, ch, k)
  {
  }

  /** What the plan holds where nothing is stored, or nothing in scope. */
  lemma PlanHoldsFree(cfg: Settings, cur: seq<Endpoint>, des: seq<Endpoint>, ch: Changes, c: Cell)
    requires PlansCell(cfg, cur, des, ch, c) && At(cur, c) == []
    ensures At(ch.create, c) == if OwnsRow(cfg, cur, c.key) then One(Created(cfg.net, CandidatesAt(des, c))) else []
    ensures At(ch.delete, c) == [] && At(ch.updateOld, c) == [] && At(ch.updateNew, c) == []
  {
    assert RawDelete(cur, des, c) == [];
  }

  /** The same for a record that is there. */
  lemma PlanHoldsTaken(cfg: Settings, r: Endpoint, cur: seq<Endpoint>, des: seq<Endpoint>, ch: Changes, c: Cell)
    requires PlansCell(cfg, cur, des, ch, c) && At(cur, c) == [r]
    requires Within(CandidatesAt(des, c), CanonicalEndpoints(cfg.net))
    requires RowAt(des, c.key) == [] ==> At(des, c) == []
    ensures At(ch.create, c) == []
    ensures At(ch.delete, c) == if NextTaken(cfg, r, CandidatesAt(des, c)).None? then [r] else []
    ensures At(ch.updateOld, c) == if Replaces(cfg, r, CandidatesAt(des, c))
      then [OldSide(cfg.net, Picked(cfg.net, r, CandidatesAt(des, c)).value, r)] else []
    ensures At(ch.updateNew, c)
      == if Replaces(cfg, r, CandidatesAt(des, c)) then One(NextTaken(cfg, r, CandidatesAt(des, c))) else []
  {
    assert CurrentAt(cur, c) == Some(r);
    DeleteOfTaken(cfg, r, cur, des, c);
    UpdateOfTaken(cfg, r, cur, des, c);
  }

  lemma DeleteOfTaken(cfg: Settings, r: Endpoint, cur: seq<Endpoint>, des: seq<Endpoint>, c: Cell)
    requires At(cur, c) == [r] && (RowAt(des, c.key) == [] ==> At(des, c) == [])
    ensures PlannedDelete(cfg, cur, des, c)
         == if CandidatesAt(des, c) == [] && AllowsDelete(cfg.policies) && Claims(cfg, r) then [r] else []
  {
    OwnedOne(cfg, r);
    assert RawDelete(cur, des, c) == if CandidatesAt(des, c) == [] then [r] else [];
  }

  lemma UpdateOfTaken(cfg: Settings, r: Endpoint, cur: seq<Endpoint>, des: seq<Endpoint>, c: Cell)
    requires CurrentAt(cur, c) == Some(r) && Within(CandidatesAt(des, c), CanonicalEndpoints(cfg.net))
    ensures var wanted := CandidatesAt(des, c);
      && PlannedUpdateOld(cfg, cur, des, c)
        == (if Replaces(cfg, r, wanted) then [OldSide(cfg.net, Picked(cfg.net, r, wanted).value, r)] else [])
      && PlannedUpdateNew(cfg, cur, des, c)
        == (if Replaces(cfg, r, wanted) then [Replacement(cfg.net, r, wanted)] else [])
  {
    var wanted := CandidatesAt(des, c);
    if wanted != [] {
      UpdateIsChosen(cfg.net, r, wanted);
      assert Updated(cfg.net, r, wanted) == Picked(cfg.net, r, wanted);
      var u := Picked(cfg.net, r, wanted).value;
      RawUpdateOfTaken(cfg, r, cur, des, c, u);
      OwnedUpdate(cfg, r, u);
    }
  }

  /** The owner filter treats both sides of an update alike. */
  lemma OwnedUpdate(cfg: Settings, r: Endpoint, u: Endpoint)
    ensures Owned(cfg, []) == []
    ensures var stored, update := OldSide(cfg.net, u, r), InheritOwner(r, NewSide(cfg.net, u, r));
      && Owned(cfg, [stored]) == (if Claims(cfg, r) then [stored] else [])
      && Owned(cfg, [update]) == (if Claims(cfg, r) then [update] else [])
  {
    var stored, update := OldSide(cfg.net, u, r), InheritOwner(r, NewSide(cfg.net, u, r));
    assert Label(update, OWNER_LABEL) == Label(r, OWNER_LABEL) == Label(stored, OWNER_LABEL);
    ClaimedOne(cfg, r);
    ClaimedOne(cfg, stored);
    ClaimedOne(cfg, update);
  }

  lemma RawUpdateOfTaken(cfg: Settings, r: Endpoint, cur: seq<Endpoint>, des: seq<Endpoint>, c: Cell, u: Endpoint)
    requires CurrentAt(cur, c) == Some(r) && CandidatesAt(des, c) != []
    requires Updated(cfg.net, r, CandidatesAt(des, c)) == Some(u)
    ensures RawUpdateOld(cfg, cur, des, c) == if Outdated(cfg.net, u, r) then [OldSide(cfg.net, u, r)] else []
    ensures RawUpdateNew(cfg, cur, des, c)
         == if Outdated(cfg.net, u, r) then [InheritOwner(r, NewSide(cfg.net, u, r))] else []
  {
  }

  lemma ClaimedOne(cfg: Settings, e: Endpoint)
    ensures Owned(cfg, [e]) == if Claims(cfg, e) then [e] else []
    ensures Owned(cfg, []) == []
    ensures Claims(cfg, e) <==> cfg.owner == "" || Label(e, OWNER_LABEL) == cfg.owner
  {
    OwnedOne(cfg, e);
  }

  // ---- the turn

  /** A plan made from a well-formed zone, read in any order, and a well-formed
      desired list. */
  ghost predicate Turn(cfg: Settings, names: iset<string>, zone: Zone, desired: seq<Endpoint>, ch: Changes) {
    && WfNames(names) && WfZone(cfg.net, names, zone) && WfList(cfg.net, names, desired)
    && Planned(cfg, zone, desired, ch)
  }

  lemma TurnPlansKey(cfg: Settings, names: iset<string>, zone: Zone, desired: seq<Endpoint>, ch: Changes, k: Key)
    requires Turn(cfg, names, zone, desired, ch) && k.dnsName in names
    ensures PlanFor(cfg, zone, desired, ch, k)
  {
    var recs :| PlannedFrom(cfg, zone, recs, desired, ch);
    PlanHolds(cfg, names, zone, recs, desired, ch, k);
  }

  function Mentioned(ch: Changes): seq<Endpoint> {
    ch.create + ch.updateNew + ch.delete
  }

  lemma FromDesired(cfg: Settings, desired: seq<Endpoint>, c: Cell, e: Endpoint)
    requires e in CandidatesAt(Relevant(cfg, desired), c)
    ensures e in desired
  {
    FilterMember(InCell(c), Relevant(cfg, desired), e);
    FilterMember(ScopeFn(cfg), desired, e);
  }

  lemma FromRecords(cfg: Settings, recs: seq<Endpoint>, c: Cell, e: Endpoint)
    requires e in At(Relevant(cfg, recs), c)
    ensures e in recs
  {
    FilterMember(InCell(c), Relevant(cfg, recs), e);
    FilterMember(ScopeFn(cfg), recs, e);
  }

  lemma {:induction false} DistinctMember(s: seq<Endpoint>, e: Endpoint)
    requires e in Distinct(s)
    ensures e in s
  {
    if s != [] && e in Distinct(s[..|s| - 1]) {
      DistinctMember(s[..|s| - 1], e);
    }
  }

  lemma CreateName(cfg: Settings, names: iset<string>, zone: Zone, desired: seq<Endpoint>, ch: Changes, e: Endpoint)
    requires Turn(cfg, names, zone, desired, ch) && e in ch.create
    ensures e.dnsName in names
  {
    var recs :| PlannedFrom(cfg, zone, recs, desired, ch);
    var c := CellOf(e);
    AtMember(ch.create, e);
    assert PlansCell(cfg, Relevant(cfg, recs), Relevant(cfg, desired), ch, c);
    FromDesired(cfg, desired, c, Least(cfg.net, CandidatesAt(Relevant(cfg, desired), c)).value);
  }

  lemma PlannedDeleteIsRaw(cfg: Settings, cur: seq<Endpoint>, des: seq<Endpoint>, c: Cell, e: Endpoint)
    requires e in PlannedDelete(cfg, cur, des, c)
    ensures e in At(cur, c)
  {
    if cfg.owner != "" {
      DistinctMember(Filter(OwnedFn(cfg.owner), RawDelete(cur, des, c)), e);
      FilterMember(OwnedFn(cfg.owner), RawDelete(cur, des, c), e);
    }
    assert e in RawDelete(cur, des, c);
  }

  lemma DeleteName(cfg: Settings, names: iset<string>, zone: Zone, desired: seq<Endpoint>, ch: Changes, e: Endpoint)
    requires Turn(cfg, names, zone, desired, ch) && e in ch.delete
    ensures e.dnsName in names
  {
    var recs :| PlannedFrom(cfg, zone, recs, desired, ch);
    AtMember(ch.delete, e);
    assert PlansCell(cfg, Relevant(cfg, recs), Relevant(cfg, desired), ch, CellOf(e));
    PlannedDeleteIsRaw(cfg, Relevant(cfg, recs), Relevant(cfg, desired), CellOf(e), e);
    FromRecords(cfg, recs, CellOf(e), e);
  }

  /** A planned update is the update decided for its cell. */
  lemma PlannedUpdateIsRaw(cfg: Settings, cur: seq<Endpoint>, des: seq<Endpoint>, c: Cell, e: Endpoint)
    requires e in PlannedUpdateNew(cfg, cur, des, c) || e in PlannedUpdateOld(cfg, cur, des, c)
    ensures RawUpdate(cfg, cur, des, c).Some?
    ensures e in PlannedUpdateNew(cfg, cur, des, c) ==> e == RawUpdate(cfg, cur, des, c).value.1
    ensures e in PlannedUpdateOld(cfg, cur, des, c) ==> e == RawUpdate(cfg, cur, des, c).value.0
  {
    FilterMember(OwnedFn(cfg.owner), RawUpdateNew(cfg, cur, des, c), e);
    FilterMember(OwnedFn(cfg.owner), RawUpdateOld(cfg, cur, des, c), e);
  }

  lemma UpdateSides(net: Netip, current: Option<Endpoint>, candidates: seq<Endpoint>)
    requires UpdateOf(net, current, candidates).Some?
    ensures current.Some? && candidates != []
    ensures KeyOf(UpdateOf(net, current, candidates).value.0) == KeyOf(current.value)
    ensures UpdateOf(net, current, candidates).value.1.dnsName == Update(net, current.value, candidates).value.dnsName
  {
  }

  lemma UpdateNewName(cfg: Settings, cur: seq<Endpoint>, desired: seq<Endpoint>, ch: Changes, e: Endpoint)
    returns (u: Endpoint)
    requires PlansCell(cfg, cur, Relevant(cfg, desired), ch, CellOf(e)) && e in ch.updateNew
    ensures u in desired && u.dnsName == e.dnsName
  {
    var c, des := CellOf(e), Relevant(cfg, desired);
    AtMember(ch.updateNew, e);
    PlannedUpdateIsRaw(cfg, cur, des, c, e);
    UpdateSides(cfg.net, CurrentAt(cur, c), CandidatesAt(des, c));
    u := Update(cfg.net, CurrentAt(cur, c).value, CandidatesAt(des, c)).value;
    FromDesired(cfg, desired, c, u);
  }

  lemma UpdateOldName(cfg: Settings, recs: seq<Endpoint>, des: seq<Endpoint>, ch: Changes, e: Endpoint)
    returns (r: Endpoint)
    requires PlansCell(cfg, Relevant(cfg, recs), des, ch, CellOf(e)) && e in ch.updateOld
    ensures r in recs && KeyOf(r) == KeyOf(e)
  {
    var c, cur := CellOf(e), Relevant(cfg, recs);
    AtMember(ch.updateOld, e);
    PlannedUpdateIsRaw(cfg, cur, des, c, e);
    UpdateSides(cfg.net, CurrentAt(cur, c), CandidatesAt(des, c));
    r := CurrentAt(cur, c).value;
    FromRecords(cfg, recs, c, r);
  }

  lemma UpdateName(cfg: Settings, names: iset<string>, zone: Zone, desired: seq<Endpoint>, ch: Changes, e: Endpoint)
    requires Turn(cfg, names, zone, desired, ch) && (e in ch.updateNew || e in ch.updateOld)
    ensures e.dnsName in names
  {
    var recs :| PlannedFrom(cfg, zone, recs, desired, ch);
    assert PlansCell(cfg, Relevant(cfg, recs), Relevant(cfg, desired), ch, CellOf(e));
    if e in ch.updateNew {
      var u := UpdateNewName(cfg, Relevant(cfg, recs), desired, ch, e);
    } else {
      var r := UpdateOldName(cfg, recs, Relevant(cfg, desired), ch, e);
    }
  }

  /** Nothing is mentioned twice. */
  lemma MentionedOnce(cfg: Settings, names: iset<string>, zone: Zone, desired: seq<Endpoint>, ch: Changes, c: Cell)
    requires Turn(cfg, names, zone, desired, ch)
    ensures |At(Mentioned(ch), c)| <= 1
  {
    var at := At(Mentioned(ch), c);
    AtConcat(ch.create, ch.updateNew);
    AtConcat(ch.create + ch.updateNew, ch.delete);
    assert at == At(ch.create, c) + At(ch.updateNew, c) + At(ch.delete, c);
    if at != [] {
      var e := at[0];
      assert e in Mentioned(ch) && CellOf(e) == c;
      if e in ch.create {
        CreateName(cfg, names, zone, desired, ch, e);
      } else if e in ch.updateNew {
        UpdateName(cfg, names, zone, desired, ch, e);
      } else {
        DeleteName(cfg, names, zone, desired, ch, e);
      }
      TurnPlansKey(cfg, names, zone, desired, ch, KeyOf(e));
    }
  }

  lemma SingleCellsDistinctKeys(s: seq<Endpoint>)
    requires forall c :: |At(s, c)| <= 1
    ensures DistinctKeys(s)
  {
    forall i, j | 0 <= i < j < |s| ensures KeyOf(s[i]) != KeyOf(s[j]) {
      TwoInCell(s, i, j);
      assert |At(s, CellOf(s[i]))| <= 1;
    }
  }

  lemma TwoInCell(s: seq<Endpoint>, i: nat, j: nat)
    requires i < j < |s|
    ensures CellOf(s[i]) == CellOf(s[j]) ==> |At(s, CellOf(s[i]))| >= 2
  {
    var c := CellOf(s[i]);
    assert s == s[..j] + s[j..];
    FilterConcat(InCell(c), s[..j], s[j..]);
    assert s[i] == s[..j][i] && s[j] == s[j..][0];
    FilterMember(InCell(c), s[..j], s[i]);
    FilterMember(InCell(c), s[j..], s[j]);
  }

  lemma CreateIsFresh(cfg: Settings, names: iset<string>, zone: Zone, desired: seq<Endpoint>, ch: Changes, e: Endpoint)
    requires Turn(cfg, names, zone, desired, ch) && e in ch.create
    ensures e.dnsName in names && KeyOf(e) !in zone
  {
    CreateName(cfg, names, zone, desired, ch, e);
    TurnPlansKey(cfg, names, zone, desired, ch, KeyOf(e));
    AtMember(ch.create, e);
  }

  lemma UpdateNewIsStored(cfg: Settings, names: iset<string>, zone: Zone, desired: seq<Endpoint>, ch: Changes,
                          e: Endpoint)
    requires Turn(cfg, names, zone, desired, ch) && e in ch.updateNew
    ensures e.dnsName in names && KeyOf(e) in zone
  {
    UpdateName(cfg, names, zone, desired, ch, e);
    TurnPlansKey(cfg, names, zone, desired, ch, KeyOf(e));
    AtMember(ch.updateNew, e);
  }

  /** Deletes are the stored records themselves. */
  lemma DeletedIsStored(cfg: Settings, names: iset<string>, zone: Zone, desired: seq<Endpoint>, ch: Changes,
                        e: Endpoint)
    requires Turn(cfg, names, zone, desired, ch) && e in ch.delete
    ensures e.dnsName in names && KeyOf(e) in zone && zone[KeyOf(e)] == e && HeadMatches(zone, e)
  {
    DeleteName(cfg, names, zone, desired, ch, e);
    AtMember(ch.delete, e);
    TurnPlansKey(cfg, names, zone, desired, ch, KeyOf(e));
    assert KeyOf(e) in zone ==> WfEndpoint(cfg.net, names, zone[KeyOf(e)]);
  }

  /** Old sides are stored records that are replaced, sorted if they were compared. */
  lemma OldIsStored(cfg: Settings, names: iset<string>, zone: Zone, desired: seq<Endpoint>, ch: Changes, e: Endpoint)
    requires Turn(cfg, names, zone, desired, ch) && e in ch.updateOld
    ensures var k, wanted := KeyOf(e), Wanted(cfg, desired, KeyOf(e));
      && k.dnsName in names && k in zone && KeyInScope(cfg, k) && Replaces(cfg, zone[k], wanted)
      && e == OldSide(cfg.net, Picked(cfg.net, zone[k], wanted).value, zone[k])
  {
    UpdateName(cfg, names, zone, desired, ch, e);
    AtMember(ch.updateOld, e);
    TurnPlansKey(cfg, names, zone, desired, ch, KeyOf(e));
  }

  /** And every replaced record has its old side in the plan. */
  lemma ReplacedIsOld(cfg: Settings, names: iset<string>, zone: Zone, desired: seq<Endpoint>, ch: Changes, k: Key)
    requires Turn(cfg, names, zone, desired, ch) && k in zone && KeyInScope(cfg, k)
    requires Replaces(cfg, zone[k], Wanted(cfg, desired, k))
    ensures OldSide(cfg.net, Picked(cfg.net, zone[k], Wanted(cfg, desired, k)).value, zone[k]) in ch.updateOld
  {
    assert WfEndpoint(cfg.net, names, zone[k]);
    TurnPlansKey(cfg, names, zone, desired, ch, k);
    var stored := OldSide(cfg.net, Picked(cfg.net, zone[k], Wanted(cfg, desired, k)).value, zone[k]);
    assert At(ch.updateOld, CellOfKey(k)) == [stored];
    FilterMember(InCell(CellOfKey(k)), ch.updateOld, stored);
  }

  /** The provider finds the first target it expects: the comparison with `update`
      did not come to sorting, or sorting leaves the first target in front. */
  predicate HeadKept(net: Netip, update: Endpoint, stored: Endpoint) {
    || ShouldUpdateTTL(update, stored)
    || |update.targets| != |stored.targets|
    || (stored.targets != [] && Sorted(net, stored.targets)[0] == stored.targets[0])
  }

  lemma OldSideMatchesIff(net: Netip, zone: Zone, update: Endpoint, k: Key)
    requires k in zone && KeyOf(zone[k]) == k && zone[k].targets != []
    ensures HeadMatches(zone, OldSide(net, update, zone[k])) <==> HeadKept(net, update, zone[k])
  {
  }

  /** Every record that is to be replaced has a TTL to update, or a list of another
      length, or its least target in front. */
  ghost predicate Acceptable(cfg: Settings, zone: Zone, desired: seq<Endpoint>) {
    forall k :: k in zone && KeyInScope(cfg, k) && Replaces(cfg, zone[k], Wanted(cfg, desired, k)) ==>
      HeadKept(cfg.net, Picked(cfg.net, zone[k], Wanted(cfg, desired, k)).value, zone[k])
  }

  lemma PlansArePlaceable(cfg: Settings, names: iset<string>, zone: Zone, desired: seq<Endpoint>, ch: Changes)
    requires Turn(cfg, names, zone, desired, ch)
    ensures Placeable(zone, ch)
  {
    assert DistinctKeys(Mentioned(ch)) by {
      forall c ensures |At(Mentioned(ch), c)| <= 1 {
        MentionedOnce(cfg, names, zone, desired, ch, c);
      }
      SingleCellsDistinctKeys(Mentioned(ch));
    }
    forall e | e in ch.create ensures KeyOf(e) !in zone { CreateIsFresh(cfg, names, zone, desired, ch, e); }
    forall e | e in ch.updateNew ensures KeyOf(e) in zone { UpdateNewIsStored(cfg, names, zone, desired, ch, e); }
    forall e | e in ch.delete ensures HeadMatches(zone, e) { DeletedIsStored(cfg, names, zone, desired, ch, e); }
  }

  lemma OldSidesMatchIff(cfg: Settings, names: iset<string>, zone: Zone, desired: seq<Endpoint>, ch: Changes)
    requires Turn(cfg, names, zone, desired, ch)
    ensures (forall e :: e in ch.updateOld ==> HeadMatches(zone, e)) <==> Acceptable(cfg, zone, desired)
  {
    forall k | k in zone && KeyInScope(cfg, k) && Replaces(cfg, zone[k], Wanted(cfg, desired, k))
      ensures (forall e :: e in ch.updateOld ==> HeadMatches(zone, e)) ==>
        HeadKept(cfg.net, Picked(cfg.net, zone[k], Wanted(cfg, desired, k)).value, zone[k])
    {
      ReplacedIsOld(cfg, names, zone, desired, ch, k);
      assert WfEndpoint(cfg.net, names, zone[k]);
      OldSideMatchesIff(cfg.net, zone, Picked(cfg.net, zone[k], Wanted(cfg, desired, k)).value, k);
    }
    forall e | e in ch.updateOld ensures Acceptable(cfg, zone, desired) ==> HeadMatches(zone, e) {
      OldIsStored(cfg, names, zone, desired, ch, e);
      var k := KeyOf(e);
      assert WfEndpoint(cfg.net, names, zone[k]);
      OldSideMatchesIff(cfg.net, zone, Picked(cfg.net, zone[k], Wanted(cfg, desired, k)).value, k);
    }
  }

  /** Which plans made from the provider's own records it accepts, told from the
      zone and the desired list. */
  lemma PlansAreAcceptedIff(cfg: Settings, names: iset<string>, zone: Zone, desired: seq<Endpoint>, ch: Changes)
    requires Turn(cfg, names, zone, desired, ch)
    ensures BatchError(zone, ch) == None <==> Acceptable(cfg, zone, desired)
    ensures BatchOk(zone, ch) <==> Acceptable(cfg, zone, desired)
    ensures |Apply(zone, ch)| == |zone| + |ch.create| - |ch.delete|
  {
    PlansArePlaceable(cfg, names, zone, desired, ch);
    OldSidesMatchIff(cfg, names, zone, desired, ch);
    ValidationIsExact(zone, ch);
    ApplySize(zone, ch);
  }

  /** The only endpoint of a desired list is the candidate for its key. */
  lemma OnlyWanted(cfg: Settings, d: Endpoint, r: Endpoint)
    requires KeyOf(d) == KeyOf(r) && InScope(cfg, d.dnsName, d.recordType)
    ensures Wanted(cfg, [d], KeyOf(r)) == [d] && Picked(cfg.net, r, [d]) == Some(d)
  {
    assert [d][..0] == [];
    assert CellOf(d) == CellOfKey(KeyOf(r));
    var c := CellOfKey(KeyOf(r));
    assert Relevant(cfg, [d]) == [d] && At([d], c) == [d] && RowAt([d], c.key) == [d];
    assert Rivals([d], |d.targets|) == Rivals([], |d.targets|) + 1;
    var own := SameResource(Label(r, RESOURCE_LABEL));
    assert Filter(own, [d]) == if own(d) then [d] else [];
    assert Least(cfg.net, [d]) == Some(d);
  }

  lemma PairSorts(net: Netip, x: string, y: string)
    requires Less(net, x, y)
    ensures Sorted(net, [y, x]) == [x, y]
  {
    var less := LessFn(net);
    SingleStaysPut(net, y);
    assert [y, x][..1] == [y] && [y][..0] == [];
    assert Insert(less, [y], x) == [x, y];
  }

  lemma SecondsDiffer(net: Netip, t: seq<string>, o: seq<string>, x: string)
    requires |t| == 2 == |o| && Sorted(net, t)[0] == x == Sorted(net, o)[0]
    requires !Strings.EqualFold(Sorted(net, t)[1], Sorted(net, o)[1])
    requires !PrintAlike(net, Sorted(net, t)[1], Sorted(net, o)[1])
    ensures !Same(net, t, o)
  {
    var a, b := Sorted(net, t), Sorted(net, o);
    assert a[1..][0] == a[1] && b[1..][0] == b[1];
    assert !SameSorted(net, a[1..], b[1..]);
    assert Strings.EqualFold(a[0], b[0]);
    assert SameSorted(net, a, b) == SameSorted(net, a[1..], b[1..]);
  }

  /** There are plans that are refused: the first target of two has changed, and
      the other is stored behind it though it is less. */
  lemma RefusedPlan(cfg: Settings, r: Endpoint, d: Endpoint, x: string, y: string, z: string)
    requires KeyOf(d) == KeyOf(r) && InScope(cfg, r.dnsName, r.recordType)
    requires cfg.owner == "" && AllowsUpdate(cfg.policies) && !TtlConfigured(d.ttl)
    requires r.targets == [y, x] && d.targets == [z, x]
    requires Less(cfg.net, x, y) && Less(cfg.net, x, z)
    requires !Strings.EqualFold(z, y) && !PrintAlike(cfg.net, z, y)
    ensures !Acceptable(cfg, map[KeyOf(r) := r], [d])
  {
    OnlyWanted(cfg, d, r);
    PairSorts(cfg.net, x, y);
    PairSorts(cfg.net, x, z);
    SecondsDiffer(cfg.net, d.targets, r.targets, x);
    LessIsAsymmetric(cfg.net);
    assert !LessFn(cfg.net)(y, x);
    assert !HeadKept(cfg.net, d, r) && Outdated(cfg.net, d, r);
    var zone := map[KeyOf(r) := r];
    assert Replaces(cfg, zone[KeyOf(r)], Wanted(cfg, [d], KeyOf(r)));
  }

  ghost predicate SortedZone(net: Netip, zone: Zone) {
    forall k :: k in zone ==> Sorted(net, zone[k].targets) == zone[k].targets
  }

  /** In particular all of them, if the zone keeps its targets sorted. */
  lemma SortedIsAcceptable(cfg: Settings, names: iset<string>, zone: Zone, desired: seq<Endpoint>)
    requires WfZone(cfg.net, names, zone) && SortedZone(cfg.net, zone)
    ensures Acceptable(cfg, zone, desired)
  {
    forall k | k in zone ensures zone[k].targets != [] {
      assert WfEndpoint(cfg.net, names, zone[k]);
    }
  }

  /** A key is mentioned in a list exactly when the plan's entry for it is there. */
  lemma MentionOf(s: seq<Endpoint>, names: iset<string>, k: Key)
    requires OneSpelling(names) && k.dnsName in names
    requires forall e :: e in s ==> e.dnsName in names
    ensures k in KeysOf(s) <==> At(s, CellOfKey(k)) != []
    ensures forall e :: e in At(s, CellOfKey(k)) ==> e in s && KeyOf(e) == k
  {
    forall e | e in At(s, CellOfKey(k)) ensures e in s && KeyOf(e) == k {
      FilterMember(InCell(CellOfKey(k)), s, e);
      SameCellSameKey(names, e, k);
    }
    if k in KeysOf(s) {
      var e :| e in s && KeyOf(e) == k;
      SameCellSameKey(names, e, k);
      AtMember(s, e);
    }
    if At(s, CellOfKey(k)) != [] {
      assert At(s, CellOfKey(k))[0] in At(s, CellOfKey(k));
    }
  }

  /** The turn theorem: applying the plan takes every record to its `Next`. */
  lemma TurnIsNext(cfg: Settings, names: iset<string>, zone: Zone, desired: seq<Endpoint>, ch: Changes, k: Key)
    requires Turn(cfg, names, zone, desired, ch)
    ensures k.dnsName in names ==> Get(Apply(zone, ch), k) == Next(cfg, zone, desired, k)
    ensures k.dnsName !in names ==> k !in zone && k !in Apply(zone, ch)
  {
    PlansArePlaceable(cfg, names, zone, desired, ch);
    PlanNames(cfg, names, zone, desired, ch);
    if k.dnsName in names {
      TurnPlansKey(cfg, names, zone, desired, ch, k);
      TurnAtName(cfg, names, zone, desired, ch, k);
    } else {
      UnnamedStaysOut(zone, names, ch, k);
    }
  }

  lemma UnnamedStaysOut(zone: Zone, names: iset<string>, ch: Changes, k: Key)
    requires Placeable(zone, ch) && k !in zone && k.dnsName !in names
    requires forall e :: e in ch.create ==> e.dnsName in names
    ensures k !in Apply(zone, ch)
  {
    ApplyAt(zone, ch);
  }

  lemma TurnAtName(cfg: Settings, names: iset<string>, zone: Zone, desired: seq<Endpoint>, ch: Changes, k: Key)
    requires OneSpelling(names) && k.dnsName in names
    requires Placeable(zone, ch) && PlanFor(cfg, zone, desired, ch, k)
    requires forall e :: e in ch.create || e in ch.updateNew || e in ch.delete ==> e.dnsName in names
    ensures Get(Apply(zone, ch), k) == Next(cfg, zone, desired, k)
  {
    MentionOf(ch.create, names, k);
    MentionOf(ch.updateNew, names, k);
    MentionOf(ch.delete, names, k);
    TurnAtKey(cfg, zone, desired, ch, k);
  }

  lemma PlanNames(cfg: Settings, names: iset<string>, zone: Zone, desired: seq<Endpoint>, ch: Changes)
    requires Turn(cfg, names, zone, desired, ch)
    ensures forall e :: e in ch.create || e in ch.updateNew || e in ch.delete ==> e.dnsName in names
  {
    forall e | e in ch.create ensures e.dnsName in names { CreateName(cfg, names, zone, desired, ch, e); }
    forall e | e in ch.updateNew ensures e.dnsName in names { UpdateName(cfg, names, zone, desired, ch, e); }
    forall e | e in ch.delete ensures e.dnsName in names { DeleteName(cfg, names, zone, desired, ch, e); }
  }

  lemma TurnAtKey(cfg: Settings, zone: Zone, desired: seq<Endpoint>, ch: Changes, k: Key)
    requires Placeable(zone, ch) && PlanFor(cfg, zone, desired, ch, k)
    requires forall e :: e in At(ch.create, CellOfKey(k)) ==> e in ch.create && KeyOf(e) == k
    requires forall e :: e in At(ch.updateNew, CellOfKey(k)) ==> e in ch.updateNew && KeyOf(e) == k
    requires forall e :: e in At(ch.delete, CellOfKey(k)) ==> e in ch.delete && KeyOf(e) == k
    requires k in KeysOf(ch.create) <==> At(ch.create, CellOfKey(k)) != []
    requires k in KeysOf(ch.updateNew) <==> At(ch.updateNew, CellOfKey(k)) != []
    requires k in KeysOf(ch.delete) <==> At(ch.delete, CellOfKey(k)) != []
    ensures Get(Apply(zone, ch), k) == Next(cfg, zone, desired, k)
  {
    ApplyAt(zone, ch);
    var c := CellOfKey(k);
    if At(ch.create, c) != [] {
      assert At(ch.create, c)[0] in At(ch.create, c);
    } else if At(ch.updateNew, c) != [] {
      assert At(ch.updateNew, c)[0] in At(ch.updateNew, c);
    } else if At(ch.delete, c) != [] {
      assert At(ch.delete, c)[0] in At(ch.delete, c);
    }
  }
}
