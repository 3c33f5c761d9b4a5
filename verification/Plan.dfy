/** The planner as it runs: the table of rows, and `Calculate` over it
    (plan/plan.go). */
module Plan {
  import opened Wrappers
  import opened Sorting
  import opened Endpoints
  import opened Policies
  import opened DomainFilters
  import opened Targets
  import opened Conflict
  import opened Cells
  import opened PlanMeaning

  const EMPTY_ROW := Row([], [], map[])
  const EMPTY_GROUP := DomainEndpoints(None, [])

  function RowOf(rows: map<PlanKey, Row>, k: PlanKey): Row {
    if k in rows then rows[k] else EMPTY_ROW
  }

  function GroupOf(row: Row, t: string): DomainEndpoints {
    if t in row.records then row.records[t] else EMPTY_GROUP
  }

  function Grouped(cur: seq<Endpoint>, des: seq<Endpoint>, c: Cell): DomainEndpoints {
    DomainEndpoints(CurrentAt(cur, c), At(des, c))
  }

  ghost predicate IsGroup(row: Row, k: PlanKey, cur: seq<Endpoint>, des: seq<Endpoint>, t: string) {
    && GroupOf(row, t) == Grouped(cur, des, Cell(k, t))
    && (t in row.records <==> Grouped(cur, des, Cell(k, t)) != EMPTY_GROUP)
  }

  /** Plain grouping: the row of `k` holds the records of `k`, in input order,
      and once more by record type. */
  ghost predicate IsRow(row: Row, k: PlanKey, cur: seq<Endpoint>, des: seq<Endpoint>) {
    && row.current == RowAt(cur, k)
    && row.candidates == RowAt(des, k)
    && forall t :: IsGroup(row, k, cur, des, t)
  }

  ghost predicate HasRow(rows: map<PlanKey, Row>, cur: seq<Endpoint>, des: seq<Endpoint>, k: PlanKey) {
    && IsRow(RowOf(rows, k), k, cur, des)
    && (k in rows <==> RowAt(cur, k) != [] || RowAt(des, k) != [])
  }

  ghost predicate Groups(rows: map<PlanKey, Row>, cur: seq<Endpoint>, des: seq<Endpoint>) {
    forall k :: HasRow(rows, cur, des, k)
  }

  /** The row with an entry, possibly empty, for a record type. */
  function WithType(row: Row, t: string): Row {
    if t in row.records then row else row.(records := row.records[t := EMPTY_GROUP])
  }

  function WithCurrent(row: Row, e: Endpoint): Row {
    Row(row.current + [e], row.candidates,
        row.records[e.recordType := GroupOf(row, e.recordType).(current := Some(e))])
  }

  function WithCandidate(row: Row, e: Endpoint): Row {
    var g := GroupOf(row, e.recordType);
    Row(row.current, row.candidates + [e],
        row.records[e.recordType := g.(candidates := g.candidates + [e])])
  }

  lemma RowAppend(s: seq<Endpoint>, e: Endpoint, k: PlanKey)
    ensures RowAt(s + [e], k) == RowAt(s, k) + if PlanKeyOf(e) == k then [e] else []
  {
    assert (s + [e])[..|s|] == s;
  }

  lemma GroupAdded(row: Row, k: PlanKey, cur: seq<Endpoint>, des: seq<Endpoint>, e: Endpoint, t: string)
    requires IsGroup(row, k, cur, des, t)
    ensures IsGroup(if k == PlanKeyOf(e) then WithCurrent(row, e) else row, k, cur + [e], des, t)
    ensures IsGroup(if k == PlanKeyOf(e) then WithCandidate(row, e) else row, k, cur, des + [e], t)
  {
    AtAppend(cur, e, Cell(k, t));
    AtAppend(des, e, Cell(k, t));
  }

  lemma RowAdded(rows: map<PlanKey, Row>, cur: seq<Endpoint>, des: seq<Endpoint>, e: Endpoint, k: PlanKey)
    requires HasRow(rows, cur, des, k)
    ensures HasRow(rows[PlanKeyOf(e) := WithCurrent(RowOf(rows, PlanKeyOf(e)), e)], cur + [e], des, k)
    ensures HasRow(rows[PlanKeyOf(e) := WithCandidate(RowOf(rows, PlanKeyOf(e)), e)], cur, des + [e], k)
  {
    RowAppend(cur, e, k);
    RowAppend(des, e, k);
    var row, cur', des' := RowOf(rows, k), cur + [e], des + [e];
    var withCurrent := if k == PlanKeyOf(e) then WithCurrent(row, e) else row;
    var withCandidate := if k == PlanKeyOf(e) then WithCandidate(row, e) else row;
    forall t ensures IsGroup(withCurrent, k, cur', des, t) && IsGroup(withCandidate, k, cur, des', t) {
      assert IsGroup(row, k, cur, des, t);
      GroupAdded(row, k, cur, des, e, t);
    }
  }

  lemma GroupsAdded(rows: map<PlanKey, Row>, cur: seq<Endpoint>, des: seq<Endpoint>, e: Endpoint)
    requires Groups(rows, cur, des)
    ensures Groups(rows[PlanKeyOf(e) := WithCurrent(RowOf(rows, PlanKeyOf(e)), e)], cur + [e], des)
    ensures Groups(rows[PlanKeyOf(e) := WithCandidate(RowOf(rows, PlanKeyOf(e)), e)], cur, des + [e])
  {
    var key, cur', des' := PlanKeyOf(e), cur + [e], des + [e];
    var withCurrent := rows[key := WithCurrent(RowOf(rows, key), e)];
    var withCandidate := rows[key := WithCandidate(RowOf(rows, key), e)];
    forall k ensures HasRow(withCurrent, cur', des, k) && HasRow(withCandidate, cur, des', k) {
      assert HasRow(rows, cur, des, k);
      RowAdded(rows, cur, des, e, k);
    }
  }

  class PlanTable {
    var rows: map<PlanKey, Row>
    ghost var cur: seq<Endpoint>
    ghost var des: seq<Endpoint>

    ghost predicate Valid() reads this {
      Groups(rows, cur, des)
    }

    constructor ()
      ensures Valid() && cur == [] && des == []
    {
      rows, cur, des := map[], [], [];
    }

    /** Makes sure the row and its entry for the record type exist. */
    method NewPlanKey(e: Endpoint) returns (key: PlanKey)
      modifies this`rows
      ensures key == PlanKeyOf(e)
      ensures rows == old(rows)[key := WithType(RowOf(old(rows), key), e.recordType)]
    {
      key := PlanKey(NormalizeDNSName(e.dnsName), e.setIdentifier);
      if key !in rows {
        rows := rows[key := EMPTY_ROW];
      }
      if e.recordType !in rows[key].records {
        rows := rows[key := rows[key].(records := rows[key].records[e.recordType := EMPTY_GROUP])];
      }
    }

    method AddCurrent(e: Endpoint)
      requires Valid()
      modifies this
      ensures Valid() && cur == old(cur) + [e] && des == old(des)
      ensures rows == old(rows)[PlanKeyOf(e) := WithCurrent(RowOf(old(rows), PlanKeyOf(e)), e)]
    {
      ghost var before := RowOf(rows, PlanKeyOf(e));
      GroupsAdded(rows, cur, des, e);
      var key := NewPlanKey(e);
      rows := rows[key := rows[key].(current := rows[key].current + [e])];
      var group := rows[key].records[e.recordType];
      rows := rows[key := rows[key].(records := rows[key].records[e.recordType := group.(current := Some(e))])];
      cur := cur + [e];
      assert rows[key].records == WithCurrent(before, e).records;
      assert rows == old(rows)[key := WithCurrent(before, e)];
    }

    method AddCandidate(e: Endpoint)
      requires Valid()
      modifies this
      ensures Valid() && cur == old(cur) && des == old(des) + [e]
      ensures rows == old(rows)[PlanKeyOf(e) := WithCandidate(RowOf(old(rows), PlanKeyOf(e)), e)]
    {
      ghost var before := RowOf(rows, PlanKeyOf(e));
      GroupsAdded(rows, cur, des, e);
      var key := NewPlanKey(e);
      rows := rows[key := rows[key].(candidates := rows[key].candidates + [e])];
      var group := rows[key].records[e.recordType];
      rows := rows[key := rows[key].(records :=
        rows[key].records[e.recordType := group.(candidates := group.candidates + [e])])];
      des := des + [e];
      assert rows[key].records == WithCandidate(before, e).records;
      assert rows == old(rows)[key := WithCandidate(before, e)];
    }
  }

  // ---- filters and comparisons, as loops

  method IsManaged(recordType: string, managed: Option<seq<string>>, excluded: seq<string>) returns (b: bool)
    ensures b == IsManagedRecord(recordType, managed, excluded)
  {
    for i := 0 to |excluded|
      invariant recordType !in excluded[..i]
    {
      if recordType == excluded[i] {
        return false;
      }
    }
    assert excluded[..|excluded|] == excluded;
    if managed.None? {
      return true;
    }
    for i := 0 to |managed.value|
      invariant recordType !in managed.value[..i]
    {
      if recordType == managed.value[i] {
        return true;
      }
    }
    assert managed.value[..|managed.value|] == managed.value;
    return false;
  }

  method FilterRecordsForPlan(cfg: Settings, records: seq<Endpoint>) returns (filtered: seq<Endpoint>)
    ensures filtered == Relevant(cfg, records)
    ensures forall e :: e in filtered <==>
      && e in records
      && (forall i :: 0 <= i < |cfg.filters| && cfg.filters[i].Some? ==> Match(cfg.filters[i].value, e.dnsName))
      && e.recordType !in cfg.excluded && (cfg.managed.Some? ==> e.recordType in cfg.managed.value)
  {
    forall e ensures e in Relevant(cfg, records) <==> LookedAfter(cfg, records, e) { RelevantIff(cfg, records, e); }
    filtered := [];
    for i := 0 to |records|
      invariant filtered == Relevant(cfg, records[..i])
    {
      assert records[..i + 1][..i] == records[..i];
      var matches := MatchAllFilters(cfg.filters, records[i].dnsName);
      if !matches {
        continue;
      }
      var managed := IsManaged(records[i].recordType, cfg.managed, cfg.excluded);
      if managed {
        filtered := filtered + [records[i]];
      }
    }
    assert records[..|records|] == records;
  }

  /** The two loops over provider-specific properties; the second one removes
      what it has matched. */
  method ProviderSpecificChanged(desired: Endpoint, current: Endpoint) returns (b: bool)
    ensures b == ShouldUpdateProviderSpecific(desired, current)
  {
    var ds, cs := desired.providerSpecific, current.providerSpecific;
    var properties: map<string, string> := map[];
    for i := 0 to |ds|
      invariant properties == PropertyMap(ds[..i])
    {
      assert ds[..i + 1][..i] == ds[..i];
      properties := properties[ds[i].name := ds[i].value];
    }
    assert ds[..|ds|] == ds;
    for i := 0 to |cs|
      invariant ShouldUpdateProviderSpecific(desired, current) == PropertiesDiffer(properties, cs[i..])
    {
      if cs[i].name in properties {
        if cs[i].value != properties[cs[i].name] {
          return true;
        }
        properties := properties - {cs[i].name};
      } else {
        return true;
      }
    }
    return |properties| > 0;
  }

  /** Whether the stored record has to be updated, and the two records as the
      comparisons leave them: target lists are compared in place, the TTL first. */
  method NeedsUpdating(net: Netip, desired: Endpoint, current: Endpoint)
    returns (b: bool, update: Endpoint, stored: Endpoint)
    ensures b == Outdated(net, desired, current)
    ensures update == NewSide(net, desired, current) && stored == OldSide(net, desired, current)
  {
    update, stored := desired, current;
    if TtlConfigured(desired.ttl) && desired.ttl != current.ttl {
      return true, update, stored;
    }
    var t := new string[|desired.targets|](i requires 0 <= i < |desired.targets| => desired.targets[i]);
    var o := new string[|current.targets|](i requires 0 <= i < |current.targets| => current.targets[i]);
    assert t[..] == desired.targets && o[..] == current.targets;
    var same := SameInPlace(net, t, o);
    update, stored := desired.(targets := t[..]), current.(targets := o[..]);
    if !same {
      return true, update, stored;
    }
    b := ProviderSpecificChanged(desired, current);
  }

  // ---- one row

  ghost predicate EmptyCell(ch: Changes, c: Cell) {
    At(ch.create, c) == [] && At(ch.delete, c) == [] && At(ch.updateOld, c) == [] && At(ch.updateNew, c) == []
  }

  /** The four lists before policies and the owner filter. */
  ghost predicate RawCell(cfg: Settings, cur: seq<Endpoint>, des: seq<Endpoint>, ch: Changes, c: Cell) {
    && At(ch.create, c) == RawCreate(cfg, cur, des, c)
    && At(ch.delete, c) == RawDelete(cur, des, c)
    && At(ch.updateOld, c) == RawUpdateOld(cfg, cur, des, c)
    && At(ch.updateNew, c) == RawUpdateNew(cfg, cur, des, c)
  }

  /** All decisions of one row and nothing else. */
  ghost predicate RowPlanned(cfg: Settings, cur: seq<Endpoint>, des: seq<Endpoint>, key: PlanKey, ch: Changes) {
    && Paired(ch)
    && OwnersAgree(ch)
    && forall c: Cell :: RowCell(cfg, cur, des, key, ch, c)
  }

  ghost predicate RowCell(cfg: Settings, cur: seq<Endpoint>, des: seq<Endpoint>, key: PlanKey, ch: Changes, c: Cell) {
    if c.key == key then RawCell(cfg, cur, des, ch, c) else EmptyCell(ch, c)
  }

  /** An update has the owner of the record it replaces. */
  predicate OwnersAgree(ch: Changes) {
    |ch.updateOld| == |ch.updateNew|
      && forall i ::
        0 <= i < |ch.updateOld| ==> Label(ch.updateOld[i], OWNER_LABEL) == Label(ch.updateNew[i], OWNER_LABEL)
  }

  lemma CellMembers(s: seq<Endpoint>, c: Cell)
    ensures forall e :: e in At(s, c) ==> CellOf(e) == c
  {
  }

  lemma ResolvedGroup(row: Row, k: PlanKey, cur: seq<Endpoint>, des: seq<Endpoint>, t: string)
    requires IsRow(row, k, cur, des)
    ensures Resolved(row).Keys == row.records.Keys
    ensures t in Resolved(row) ==>
      Resolved(row)[t] == DomainEndpoints(CurrentAt(cur, Cell(k, t)), CandidatesAt(des, Cell(k, t)))
    ensures t !in Resolved(row) ==> At(cur, Cell(k, t)) == [] && CandidatesAt(des, Cell(k, t)) == []
  {
    assert IsGroup(row, k, cur, des, t);
  }

  lemma EmptyRowCell(s: seq<Endpoint>, c: Cell)
    requires RowAt(s, c.key) == []
    ensures At(s, c) == []
  {
    AtOfRow(s, c.key, c);
  }

  /** What a free name needs in a cell, once the record types in `done` are planned. */
  function FreeCreate(cfg: Settings, des: seq<Endpoint>, key: PlanKey, done: set<string>, c: Cell): seq<Endpoint> {
    if c.key == key && c.recordType in done then One(Created(cfg.net, CandidatesAt(des, c))) else []
  }

  lemma FreeStep(cfg: Settings, des: seq<Endpoint>, key: PlanKey, done: set<string>, t: string, create: seq<Endpoint>,
                 c: Cell)
    requires t !in done && At(create, c) == FreeCreate(cfg, des, key, done, c)
    ensures At(create + One(Created(cfg.net, CandidatesAt(des, Cell(key, t)))), c)
      == FreeCreate(cfg, des, key, done + {t}, c)
  {
    CellMembers(des, Cell(key, t));
    var created := Created(cfg.net, CandidatesAt(des, Cell(key, t)));
    if created.Some? {
      AtAppend(create, created.value, c);
    } else {
      assert create + One(created) == create;
    }
  }

  lemma AllFreeStep(cfg: Settings, des: seq<Endpoint>, key: PlanKey, done: set<string>, t: string,
                    create: seq<Endpoint>)
    requires t !in done && forall c :: At(create, c) == FreeCreate(cfg, des, key, done, c)
    ensures forall c ::
      At(create + One(Created(cfg.net, CandidatesAt(des, Cell(key, t)))), c) == FreeCreate(cfg, des, key, done + {t}, c)
  {
    forall c { FreeStep(cfg, des, key, done, t, create, c); }
  }

  lemma FreeRowCell(cfg: Settings, key: PlanKey, row: Row, cur: seq<Endpoint>, des: seq<Endpoint>,
                    create: seq<Endpoint>, c: Cell)
    requires IsRow(row, key, cur, des) && row.current == []
    requires At(create, c) == FreeCreate(cfg, des, key, Resolved(row).Keys, c)
    ensures RowCell(cfg, cur, des, key, Changes(create, [], [], []), c)
  {
    if c.key == key {
      EmptyRowCell(cur, c);
      ResolvedGroup(row, key, cur, des, c.recordType);
      if RowAt(des, key) == [] { EmptyRowCell(des, c); }
    }
  }

  lemma FreeRow(cfg: Settings, key: PlanKey, row: Row, cur: seq<Endpoint>, des: seq<Endpoint>, create: seq<Endpoint>)
    requires IsRow(row, key, cur, des) && row.current == []
    requires forall c :: At(create, c) == FreeCreate(cfg, des, key, Resolved(row).Keys, c)
    ensures RowPlanned(cfg, cur, des, key, Changes(create, [], [], []))
  {
    forall c ensures RowCell(cfg, cur, des, key, Changes(create, [], [], []), c) {
      FreeRowCell(cfg, key, row, cur, des, create, c);
    }
  }

  /** The choice among the candidates of a group, made where they are. */
  method CreateFrom(net: Netip, candidates: seq<Endpoint>) returns (e: Endpoint)
    requires candidates != []
    ensures Some(e) == Created(net, candidates)
  {
    var a := new Endpoint[|candidates|](i requires 0 <= i < |candidates| => candidates[i]);
    assert a[..] == candidates;
    var min := ResolveCreate(net, a);
    CreatedIsMinimum(net, candidates);
    e := min.value;
  }

  /** A name that is not taken: create what is wanted, type by type. */
  method PlanFreeName(cfg: Settings, key: PlanKey, row: Row, ghost cur: seq<Endpoint>, ghost des: seq<Endpoint>)
    returns (add: Changes)
    requires IsRow(row, key, cur, des) && row.current == []
    ensures RowPlanned(cfg, cur, des, key, add)
  {
    var recordsByType := ResolveRecordTypes(row);
    var create: seq<Endpoint> := [];
    var todo := recordsByType.Keys;
    while todo != {}
      invariant todo <= recordsByType.Keys
      invariant forall c :: At(create, c) == FreeCreate(cfg, des, key, recordsByType.Keys - todo, c)
    {
      var t :| t in todo;
      var records := recordsByType[t];
      ghost var done, before := recordsByType.Keys - todo, create;
      ResolvedGroup(row, key, cur, des, t);
      if |records.candidates| > 0 {
        var one := CreateFrom(cfg.net, records.candidates);
        create := create + [one];
      }
      assert create == before + One(Created(cfg.net, CandidatesAt(des, Cell(key, t))));
      AllFreeStep(cfg, des, key, done, t, before);
      assert recordsByType.Keys - (todo - {t}) == done + {t};
      todo := todo - {t};
    }
    assert recordsByType.Keys - todo == Resolved(row).Keys;
    add := Changes(create, [], [], []);
    FreeRow(cfg, key, row, cur, des, create);
  }

  /** A name that is no longer wanted: delete all its records. */
  method PlanReleasedName(cfg: Settings, key: PlanKey, row: Row, ghost cur: seq<Endpoint>, ghost des: seq<Endpoint>)
    returns (add: Changes)
    requires IsRow(row, key, cur, des) && row.candidates == []
    ensures RowPlanned(cfg, cur, des, key, add)
  {
    add := Changes([], [], [], row.current);
    forall c: Cell ensures RowCell(cfg, cur, des, key, add, c) {
      AtOfRow(cur, key, c);
      if c.key == key { EmptyRowCell(des, c); }
    }
  }

  /** One record type of a taken name: create what is new, delete what is no longer
      wanted, update what is out of date. */
  function DecisionFor(cfg: Settings, records: DomainEndpoints): Changes {
    var update := UpdateOf(cfg.net, records.current, records.candidates);
    Changes(if records.current.None? then One(Created(cfg.net, records.candidates)) else [],
            if update.Some? then [update.value.0] else [],
            if update.Some? then [update.value.1] else [],
            if records.candidates == [] then One(records.current) else [])
  }

  method PlanType(cfg: Settings, records: DomainEndpoints) returns (one: Changes)
    ensures one == DecisionFor(cfg, records)
  {
    one := NO_CHANGES;
    if records.current.Some? && |records.candidates| == 0 {
      one := one.(delete := [records.current.value]);
    }
    if records.current.None? && |records.candidates| > 0 {
      var created := CreateFrom(cfg.net, records.candidates);
      one := one.(create := [created]);
    }
    if records.current.Some? && |records.candidates| > 0 {
      var current := records.current.value;
      var candidates := new Endpoint[|records.candidates|](
        i requires 0 <= i < |records.candidates| => records.candidates[i]);
      assert candidates[..] == records.candidates;
      var u := ResolveUpdate(cfg.net, current, candidates);
      var outdated, desired, stored := NeedsUpdating(cfg.net, u.value, current);
      if outdated {
        one := one.(updateNew := [InheritOwner(current, desired)], updateOld := [stored]);
      }
    }
  }

  /** Ownership of every record the name has now. */
  method OwnersMatch(cfg: Settings, current: seq<Endpoint>) returns (b: bool)
    ensures b <==> cfg.owner == "" || forall e :: e in current ==> IsOwnedBy(e, cfg.owner)
  {
    b := true;
    for i := 0 to |current|
      invariant b <==> cfg.owner == "" || forall j :: 0 <= j < i ==> IsOwnedBy(current[j], cfg.owner)
    {
      if cfg.owner != "" && !IsOwnedBy(current[i], cfg.owner) {
        b := false;
      }
    }
  }

  function Joined(a: Changes, b: Changes): Changes {
    Changes(a.create + b.create, a.updateOld + b.updateOld, a.updateNew + b.updateNew, a.delete + b.delete)
  }

  function TypeDecision(cfg: Settings, cur: seq<Endpoint>, des: seq<Endpoint>, c: Cell): Changes {
    DecisionFor(cfg, DomainEndpoints(CurrentAt(cur, c), CandidatesAt(des, c)))
  }

  ghost predicate Holds(ch: Changes, c: Cell, one: Changes) {
    At(ch.create, c) == one.create && At(ch.delete, c) == one.delete
      && At(ch.updateOld, c) == one.updateOld && At(ch.updateNew, c) == one.updateNew
  }

  /** The record types in `done` have been planned, and nothing else. */
  ghost predicate TypesPlanned(cfg: Settings, cur: seq<Endpoint>, des: seq<Endpoint>, key: PlanKey, done: set<string>,
                               ch: Changes, c: Cell) {
    Holds(ch, c, if c.key == key && c.recordType in done then TypeDecision(cfg, cur, des, c) else NO_CHANGES)
  }

  lemma JoinedCell(ch: Changes, add: Changes, c: Cell)
    ensures At(Joined(ch, add).create, c) == At(ch.create, c) + At(add.create, c)
    ensures At(Joined(ch, add).delete, c) == At(ch.delete, c) + At(add.delete, c)
    ensures At(Joined(ch, add).updateOld, c) == At(ch.updateOld, c) + At(add.updateOld, c)
    ensures At(Joined(ch, add).updateNew, c) == At(ch.updateNew, c) + At(add.updateNew, c)
  {
    FilterConcat(InCell(c), ch.create, add.create);
    FilterConcat(InCell(c), ch.delete, add.delete);
    FilterConcat(InCell(c), ch.updateOld, add.updateOld);
    FilterConcat(InCell(c), ch.updateNew, add.updateNew);
  }

  ghost predicate InCellAll(s: seq<Endpoint>, own: Cell) {
    forall e :: e in s ==> CellOf(e) == own
  }

  lemma AtSingle(s: seq<Endpoint>, own: Cell, c: Cell)
    requires |s| <= 1 && InCellAll(s, own)
    ensures At(s, c) == if c == own then s else []
  {
    if s != [] {
      AtOne(s[0]);
      assert s == [s[0]];
    }
  }

  lemma CreateStays(cfg: Settings, records: DomainEndpoints, own: Cell)
    requires InCellAll(records.candidates, own)
    ensures InCellAll(DecisionFor(cfg, records).create, own)
  {
    var least := Least(cfg.net, records.candidates);
    assert least.Some? ==> CellOf(least.value) == own;
  }

  lemma UpdateStays(cfg: Settings, records: DomainEndpoints, own: Cell)
    requires InCellAll(records.candidates, own) && InCellAll(One(records.current), own)
    ensures InCellAll(DecisionFor(cfg, records).updateOld, own) && InCellAll(DecisionFor(cfg, records).updateNew, own)
  {
    if UpdateOf(cfg.net, records.current, records.candidates).Some? {
      assert records.current.value in One(records.current);
      UpdatePairs(cfg.net, records.current, records.candidates, own);
    }
  }

  /** What is decided for a cell lies in the cell. */
  lemma DecisionStays(cfg: Settings, records: DomainEndpoints, own: Cell)
    requires InCellAll(records.candidates, own) && InCellAll(One(records.current), own)
    ensures var one := DecisionFor(cfg, records);
      InCellAll(one.create, own) && InCellAll(one.delete, own) && InCellAll(one.updateOld, own)
        && InCellAll(one.updateNew, own)
  {
    CreateStays(cfg, records, own);
    UpdateStays(cfg, records, own);
  }

  lemma DecisionCell(cfg: Settings, cur: seq<Endpoint>, des: seq<Endpoint>, own: Cell, c: Cell)
    ensures Holds(TypeDecision(cfg, cur, des, own), c,
                  if c == own then TypeDecision(cfg, cur, des, own) else NO_CHANGES)
  {
    var one := TypeDecision(cfg, cur, des, own);
    CellMembers(cur, own);
    CellMembers(des, own);
    DecisionStays(cfg, DomainEndpoints(CurrentAt(cur, own), CandidatesAt(des, own)), own);
    AtSingle(one.create, own, c);
    AtSingle(one.delete, own, c);
    AtSingle(one.updateOld, own, c);
    AtSingle(one.updateNew, own, c);
  }

  lemma TypesStep(cfg: Settings, cur: seq<Endpoint>, des: seq<Endpoint>, key: PlanKey, done: set<string>, t: string,
                  before: Changes, c: Cell)
    requires t !in done && TypesPlanned(cfg, cur, des, key, done, before, c)
    ensures TypesPlanned(cfg, cur, des, key, done + {t}, Joined(before, TypeDecision(cfg, cur, des, Cell(key, t))), c)
  {
    DecisionCell(cfg, cur, des, Cell(key, t), c);
    JoinedCell(before, TypeDecision(cfg, cur, des, Cell(key, t)), c);
    assert c == Cell(key, t) <==> c.key == key && c.recordType == t;
  }

  lemma AllTypesStep(cfg: Settings, cur: seq<Endpoint>, des: seq<Endpoint>, key: PlanKey, done: set<string>, t: string,
                     before: Changes)
    requires t !in done && forall c :: TypesPlanned(cfg, cur, des, key, done, before, c)
    ensures forall c ::
      TypesPlanned(cfg, cur, des, key, done + {t}, Joined(before, TypeDecision(cfg, cur, des, Cell(key, t))), c)
  {
    forall c
      ensures TypesPlanned(cfg, cur, des, key, done + {t}, Joined(before, TypeDecision(cfg, cur, des, Cell(key, t))), c)
    {
      TypesStep(cfg, cur, des, key, done, t, before, c);
    }
  }

  /** An update stays in its cell and keeps the owner. */
  lemma UpdatePairs(net: Netip, current: Option<Endpoint>, candidates: seq<Endpoint>, own: Cell)
    requires UpdateOf(net, current, candidates).Some?
    requires CellOf(current.value) == own && forall e :: e in candidates ==> CellOf(e) == own
    ensures var update := UpdateOf(net, current, candidates).value;
      CellOf(update.0) == own == CellOf(update.1) && Label(update.0, OWNER_LABEL) == Label(update.1, OWNER_LABEL)
  {
    var u := Update(net, current.value, candidates).value;
    assert CellOf(u) == own;
  }

  lemma DecisionPairs(cfg: Settings, cur: seq<Endpoint>, des: seq<Endpoint>, own: Cell)
    ensures Paired(TypeDecision(cfg, cur, des, own)) && OwnersAgree(TypeDecision(cfg, cur, des, own))
  {
    CellMembers(cur, own);
    CellMembers(des, own);
    if UpdateOf(cfg.net, CurrentAt(cur, own), CandidatesAt(des, own)).Some? {
      UpdatePairs(cfg.net, CurrentAt(cur, own), CandidatesAt(des, own), own);
    }
  }

  /** The pairing of old and new sides survives joining. */
  lemma JoinedPairs(a: Changes, b: Changes)
    requires Paired(a) && OwnersAgree(a) && Paired(b) && OwnersAgree(b)
    ensures Paired(Joined(a, b)) && OwnersAgree(Joined(a, b))
  {
  }

  lemma TakenRowCell(cfg: Settings, key: PlanKey, row: Row, cur: seq<Endpoint>, des: seq<Endpoint>,
                     all: Changes, owned: bool, c: Cell)
    requires IsRow(row, key, cur, des) && row.candidates != []
    requires TypesPlanned(cfg, cur, des, key, Resolved(row).Keys, all, c)
    requires owned == OwnsRow(cfg, cur, key)
    ensures RowCell(cfg, cur, des, key, if owned then all else all.(create := []), c)
  {
    ResolvedGroup(row, key, cur, des, c.recordType);
  }

  lemma DecisionOf(cfg: Settings, key: PlanKey, row: Row, cur: seq<Endpoint>, des: seq<Endpoint>, t: string)
    requires IsRow(row, key, cur, des) && t in Resolved(row)
    ensures DecisionFor(cfg, Resolved(row)[t]) == TypeDecision(cfg, cur, des, Cell(key, t))
  {
    ResolvedGroup(row, key, cur, des, t);
  }

  ghost predicate TypesDone(cfg: Settings, cur: seq<Endpoint>, des: seq<Endpoint>, key: PlanKey, done: set<string>,
                            ch: Changes) {
    Paired(ch) && OwnersAgree(ch) && forall c :: TypesPlanned(cfg, cur, des, key, done, ch, c)
  }

  lemma TypeAdded(cfg: Settings, key: PlanKey, row: Row, cur: seq<Endpoint>, des: seq<Endpoint>, done: set<string>,
                  t: string, ch: Changes)
    requires IsRow(row, key, cur, des) && t in Resolved(row)
    requires t !in done && TypesDone(cfg, cur, des, key, done, ch)
    ensures TypesDone(cfg, cur, des, key, done + {t}, Joined(ch, DecisionFor(cfg, Resolved(row)[t])))
  {
    DecisionOf(cfg, key, row, cur, des, t);
    DecisionPairs(cfg, cur, des, Cell(key, t));
    JoinedPairs(ch, TypeDecision(cfg, cur, des, Cell(key, t)));
    AllTypesStep(cfg, cur, des, key, done, t, ch);
  }

  /** Each record type of a taken name on its own. */
  method PlanTypes(cfg: Settings, key: PlanKey, row: Row, ghost cur: seq<Endpoint>, ghost des: seq<Endpoint>)
    returns (add: Changes)
    requires IsRow(row, key, cur, des)
    ensures TypesDone(cfg, cur, des, key, Resolved(row).Keys, add)
  {
    var recordsByType := ResolveRecordTypes(row);
    add := NO_CHANGES;
    var todo := recordsByType.Keys;
    while todo != {}
      invariant todo <= recordsByType.Keys
      invariant TypesDone(cfg, cur, des, key, recordsByType.Keys - todo, add)
    {
      var t :| t in todo;
      var one := PlanType(cfg, recordsByType[t]);
      TypeAdded(cfg, key, row, cur, des, recordsByType.Keys - todo, t, add);
      assert recordsByType.Keys - (todo - {t}) == recordsByType.Keys - todo + {t};
      add := Joined(add, one);
      todo := todo - {t};
    }
    assert recordsByType.Keys - todo == Resolved(row).Keys;
  }

  /** A taken and wanted name: what is new is created only with a claim on
      everything the name has. */
  method PlanTakenName(cfg: Settings, key: PlanKey, row: Row, ghost cur: seq<Endpoint>, ghost des: seq<Endpoint>)
    returns (add: Changes)
    requires IsRow(row, key, cur, des) && row.candidates != []
    ensures RowPlanned(cfg, cur, des, key, add)
  {
    add := PlanTypes(cfg, key, row, cur, des);
    ghost var all := add;
    var owned := OwnersMatch(cfg, row.current);
    if |add.create| > 0 && !owned {
      add := add.(create := []);
    }
    assert add == if owned then all else all.(create := []);
    forall c ensures RowCell(cfg, cur, des, key, add, c) {
      TakenRowCell(cfg, key, row, cur, des, all, owned, c);
    }
  }

  method PlanRow(cfg: Settings, key: PlanKey, row: Row, ghost cur: seq<Endpoint>, ghost des: seq<Endpoint>)
    returns (add: Changes)
    requires IsRow(row, key, cur, des)
    ensures RowPlanned(cfg, cur, des, key, add)
  {
    if |row.current| == 0 {
      add := PlanFreeName(cfg, key, row, cur, des);
    } else if |row.candidates| == 0 {
      add := PlanReleasedName(cfg, key, row, cur, des);
    } else {
      add := PlanTakenName(cfg, key, row, cur, des);
    }
  }

  // ---- all rows

  /** The rows in `done` have been planned, and nothing else. */
  ghost predicate RowsPlanned(cfg: Settings, cur: seq<Endpoint>, des: seq<Endpoint>, done: set<PlanKey>, ch: Changes,
                              c: Cell) {
    if c.key in done then RawCell(cfg, cur, des, ch, c) else EmptyCell(ch, c)
  }

  lemma RowsStep(cfg: Settings, cur: seq<Endpoint>, des: seq<Endpoint>, done: set<PlanKey>, key: PlanKey,
                 ch: Changes, add: Changes, c: Cell)
    requires key !in done && RowsPlanned(cfg, cur, des, done, ch, c) && RowCell(cfg, cur, des, key, add, c)
    ensures RowsPlanned(cfg, cur, des, done + {key}, Joined(ch, add), c)
  {
    JoinedCell(ch, add, c);
  }

  lemma NoRowNoPlan(cfg: Settings, cur: seq<Endpoint>, des: seq<Endpoint>, ch: Changes, c: Cell)
    requires RowAt(cur, c.key) == [] && RowAt(des, c.key) == [] && EmptyCell(ch, c)
    ensures RawCell(cfg, cur, des, ch, c)
  {
    EmptyRowCell(cur, c);
    EmptyRowCell(des, c);
  }

  lemma {:induction false} FilterPaired(owner: string, s: seq<Endpoint>, t: seq<Endpoint>)
    requires owner != "" && |s| == |t|
    requires forall i ::
      0 <= i < |s| ==> CellOf(s[i]) == CellOf(t[i]) && Label(s[i], OWNER_LABEL) == Label(t[i], OWNER_LABEL)
    ensures var f, g := Filter(OwnedFn(owner), s), Filter(OwnedFn(owner), t);
      |f| == |g| && forall i :: 0 <= i < |f| ==> CellOf(f[i]) == CellOf(g[i])
  {
    if s != [] {
      var n := |s| - 1;
      assert CellOf(s[n]) == CellOf(t[n]) && IsOwnedBy(s[n], owner) == IsOwnedBy(t[n], owner);
      FilterPaired(owner, s[..n], t[..n]);
    }
  }

  /** Policies and the owner filter, applied to everything at once. */
  ghost predicate Filtered(cfg: Settings, raw: Changes, ch: Changes) {
    && ch.create == raw.create
    && ch.delete == (if !AllowsDelete(cfg.policies) then []
                     else if cfg.owner == "" then raw.delete else Distinct(Filter(OwnedFn(cfg.owner), raw.delete)))
    && ch.updateOld == (if AllowsUpdate(cfg.policies) then Owned(cfg, raw.updateOld) else [])
    && ch.updateNew == (if AllowsUpdate(cfg.policies) then Owned(cfg, raw.updateNew) else [])
  }

  lemma FilteredCell(cfg: Settings, cur: seq<Endpoint>, des: seq<Endpoint>, raw: Changes, ch: Changes, c: Cell)
    requires Filtered(cfg, raw, ch) && RawCell(cfg, cur, des, raw, c)
    ensures PlansCell(cfg, cur, des, ch, c)
  {
    if cfg.owner != "" {
      AtDistinct(Filter(OwnedFn(cfg.owner), raw.delete), c);
      FilterCommutes(InCell(c), OwnedFn(cfg.owner), raw.delete);
      FilterCommutes(InCell(c), OwnedFn(cfg.owner), raw.updateOld);
      FilterCommutes(InCell(c), OwnedFn(cfg.owner), raw.updateNew);
    }
  }

  lemma FilteredIsPlan(cfg: Settings, cur: seq<Endpoint>, des: seq<Endpoint>, raw: Changes, ch: Changes)
    requires Filtered(cfg, raw, ch) && Paired(raw) && OwnersAgree(raw)
    requires forall c :: RawCell(cfg, cur, des, raw, c)
    ensures IsPlan(cfg, cur, des, ch)
  {
    forall c ensures PlansCell(cfg, cur, des, ch, c) {
      FilteredCell(cfg, cur, des, raw, ch, c);
    }
    if cfg.owner != "" && AllowsUpdate(cfg.policies) {
      FilterPaired(cfg.owner, raw.updateOld, raw.updateNew);
    }
  }

  /** Rows in whatever order the map gives them. */
  method PlanRows(cfg: Settings, t: PlanTable) returns (raw: Changes)
    requires t.Valid()
    ensures Paired(raw) && OwnersAgree(raw)
    ensures forall c :: RawCell(cfg, t.cur, t.des, raw, c)
  {
    raw := NO_CHANGES;
    var todo := t.rows.Keys;
    while todo != {}
      invariant todo <= t.rows.Keys
      invariant Paired(raw) && OwnersAgree(raw)
      invariant forall c :: RowsPlanned(cfg, t.cur, t.des, t.rows.Keys - todo, raw, c)
    {
      var key :| key in todo;
      ghost var done, before := t.rows.Keys - todo, raw;
      assert HasRow(t.rows, t.cur, t.des, key);
      var add := PlanRow(cfg, key, t.rows[key], t.cur, t.des);
      raw := Joined(raw, add);
      assert t.rows.Keys - (todo - {key}) == done + {key};
      todo := todo - {key};
      forall c ensures RowsPlanned(cfg, t.cur, t.des, t.rows.Keys - todo, raw, c) {
        assert RowCell(cfg, t.cur, t.des, key, add, c);
        RowsStep(cfg, t.cur, t.des, done, key, before, add, c);
      }
    }
    assert t.rows.Keys - todo == t.rows.Keys;
    forall c ensures RawCell(cfg, t.cur, t.des, raw, c) {
      assert RowsPlanned(cfg, t.cur, t.des, t.rows.Keys, raw, c);
      assert HasRow(t.rows, t.cur, t.des, c.key);
      if c.key !in t.rows {
        NoRowNoPlan(cfg, t.cur, t.des, raw, c);
      }
    }
  }

  /** The table of all current and desired records in scope. */
  method FillTable(cfg: Settings, current: seq<Endpoint>, desired: seq<Endpoint>) returns (t: PlanTable)
    ensures fresh(t) && t.Valid() && t.cur == Relevant(cfg, current) && t.des == Relevant(cfg, desired)
  {
    t := new PlanTable();
    var cs := FilterRecordsForPlan(cfg, current);
    for i := 0 to |cs|
      invariant fresh(t) && t.Valid() && t.cur == cs[..i] && t.des == []
    {
      t.AddCurrent(cs[i]);
      assert cs[..i + 1] == cs[..i] + [cs[i]];
    }
    assert cs[..|cs|] == cs;
    var ds := FilterRecordsForPlan(cfg, desired);
    for i := 0 to |ds|
      invariant fresh(t) && t.Valid() && t.cur == cs && t.des == ds[..i]
    {
      t.AddCandidate(ds[i]);
      assert ds[..i + 1] == ds[..i] + [ds[i]];
    }
    assert ds[..|ds|] == ds;
  }

  method ApplyFilters(cfg: Settings, raw: Changes) returns (ch: Changes)
    ensures Filtered(cfg, raw, ch)
  {
    ch := ApplyAll(cfg.policies, raw);
    if cfg.owner != "" {
      var delete := FilterEndpointsByOwnerID(cfg.owner, ch.delete);
      delete := RemoveDuplicates(delete);
      var updateOld := FilterEndpointsByOwnerID(cfg.owner, ch.updateOld);
      var updateNew := FilterEndpointsByOwnerID(cfg.owner, ch.updateNew);
      ch := Changes(ch.create, updateOld, updateNew, delete);
    }
  }

  /** `Plan.Calculate`. */
  method Calculate(cfg: Settings, current: seq<Endpoint>, desired: seq<Endpoint>) returns (ch: Changes)
    ensures IsPlan(cfg, Relevant(cfg, current), Relevant(cfg, desired), ch)
    ensures forall e :: e in ch.create || e in ch.delete || e in ch.updateOld || e in ch.updateNew ==>
      LookedAfter(cfg, [e], e)
  {
    var t := FillTable(cfg, current, desired);
    var raw := PlanRows(cfg, t);
    ch := ApplyFilters(cfg, raw);
    FilteredIsPlan(cfg, t.cur, t.des, raw, ch);
    forall e | e in ch.create || e in ch.delete || e in ch.updateOld || e in ch.updateNew
      ensures LookedAfter(cfg, [e], e)
    {
      PlanStaysInScope(cfg, current, desired, ch, e);
    }
  }
}
