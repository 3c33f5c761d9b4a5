/** What a plan is, apart from how it is computed: one decision for every cell,
    a cell being a normalised name, a set identifier and a record type. */
module Cells {
  import opened Wrappers
  import opened Sorting
  import opened Endpoints
  import opened Policies
  import opened DomainFilters
  import opened Targets
  import opened Conflict
  import Strings

  datatype PlanKey = PlanKey(dnsName: string, setIdentifier: string)

  datatype Cell = Cell(key: PlanKey, recordType: string)

  /** Trimmed, in lower case, with a trailing dot. */
  function NormalizeDNSName(dnsName: string): string {
    var s := Strings.TrimSpace(Strings.ToLower(dnsName));
    if Strings.HasSuffix(s, ".") then s else s + "."
  }

  function PlanKeyOf(e: Endpoint): PlanKey {
    PlanKey(NormalizeDNSName(e.dnsName), e.setIdentifier)
  }

  function CellOf(e: Endpoint): Cell {
    Cell(PlanKeyOf(e), e.recordType)
  }

  function InRow(k: PlanKey): Endpoint -> bool {
    e => PlanKeyOf(e) == k
  }

  function InCell(c: Cell): Endpoint -> bool {
    e => CellOf(e) == c
  }

  /** The part of a list that falls in one cell, in order. */
  function At(s: seq<Endpoint>, c: Cell): seq<Endpoint> {
    Filter(InCell(c), s)
  }

  function RowAt(s: seq<Endpoint>, k: PlanKey): seq<Endpoint> {
    Filter(InRow(k), s)
  }

  /** The planner's settings: `Plan` without the two record lists. */
  datatype Settings = Settings(
    net: Netip,
    policies: seq<Policy>,
    filters: seq<Option<DomainFilter>>,
    managed: Option<seq<string>>,
    excluded: seq<string>,
    owner: string)

  predicate IsManagedRecord(recordType: string, managed: Option<seq<string>>, excluded: seq<string>) {
    recordType !in excluded && (managed.None? || recordType in managed.value)
  }

  predicate InScope(cfg: Settings, dnsName: string, recordType: string) {
    MatchAll(cfg.filters, dnsName) && IsManagedRecord(recordType, cfg.managed, cfg.excluded)
  }

  function ScopeFn(cfg: Settings): Endpoint -> bool {
    (e: Endpoint) => InScope(cfg, e.dnsName, e.recordType)
  }

  function Relevant(cfg: Settings, s: seq<Endpoint>): seq<Endpoint> {
    Filter(ScopeFn(cfg), s)
  }

  function LastOf(s: seq<Endpoint>): Option<Endpoint> {
    if s == [] then None else Some(s[|s| - 1])
  }

  /** A later current record of the cell replaces an earlier one. */
  function CurrentAt(cur: seq<Endpoint>, c: Cell): Option<Endpoint> {
    LastOf(At(cur, c))
  }

  function CandidatesAt(des: seq<Endpoint>, c: Cell): seq<Endpoint> {
    if c.recordType == TYPE_CNAME && Conflicting(RowAt(des, c.key)) then [] else At(des, c)
  }

  /** Creating beside existing records needs ownership of all of them. */
  predicate OwnsRow(cfg: Settings, cur: seq<Endpoint>, k: PlanKey) {
    cfg.owner == "" || forall e :: e in RowAt(cur, k) ==> IsOwnedBy(e, cfg.owner)
  }

  // ---- is the stored record out of date

  predicate ShouldUpdateTTL(desired: Endpoint, current: Endpoint) {
    TtlConfigured(desired.ttl) && desired.ttl != current.ttl
  }

  predicate TargetChanged(net: Netip, desired: Endpoint, current: Endpoint) {
    !Same(net, desired.targets, current.targets)
  }

  /** The last property of a name counts. */
  function PropertyMap(ps: seq<Property>): map<string, string> {
    if ps == [] then map[] else PropertyMap(ps[..|ps| - 1])[ps[|ps| - 1].name := ps[|ps| - 1].value]
  }

  /** What the second loop finds, starting from the desired properties `d`. */
  predicate PropertiesDiffer(d: map<string, string>, cs: seq<Property>) {
    if cs == [] then d != map[]
    else cs[0].name !in d || d[cs[0].name] != cs[0].value || PropertiesDiffer(d - {cs[0].name}, cs[1..])
  }

  predicate ShouldUpdateProviderSpecific(desired: Endpoint, current: Endpoint) {
    PropertiesDiffer(PropertyMap(desired.providerSpecific), current.providerSpecific)
  }

  predicate Outdated(net: Netip, desired: Endpoint, current: Endpoint) {
    ShouldUpdateTTL(desired, current) || TargetChanged(net, desired, current)
      || ShouldUpdateProviderSpecific(desired, current)
  }

  /** An update keeps the owner of the record it replaces. */
  function InheritOwner(current: Endpoint, to: Endpoint): Endpoint {
    to.(labels := to.labels[OWNER_LABEL := Label(current, OWNER_LABEL)])
  }

  /** Comparing targets is skipped when the TTL decides, and does not get to
      sorting when the lists differ in length. */
  predicate TargetsSorted(desired: Endpoint, current: Endpoint) {
    !ShouldUpdateTTL(desired, current) && |desired.targets| == |current.targets|
  }

  /** What the comparison leaves of the desired and of the current record. */
  function NewSide(net: Netip, desired: Endpoint, current: Endpoint): Endpoint {
    if TargetsSorted(desired, current) then SortTargets(net, desired) else desired
  }

  function OldSide(net: Netip, desired: Endpoint, current: Endpoint): Endpoint {
    if TargetsSorted(desired, current) then SortTargets(net, current) else current
  }

  // ---- the decision for one cell

  function One(e: Option<Endpoint>): seq<Endpoint> {
    if e.Some? then [e.value] else []
  }

  function RawCreate(cfg: Settings, cur: seq<Endpoint>, des: seq<Endpoint>, c: Cell): seq<Endpoint> {
    if CurrentAt(cur, c).None? && OwnsRow(cfg, cur, c.key) then One(Created(cfg.net, CandidatesAt(des, c))) else []
  }

  function RawDelete(cur: seq<Endpoint>, des: seq<Endpoint>, c: Cell): seq<Endpoint> {
    if RowAt(des, c.key) == [] then At(cur, c)
    else if CandidatesAt(des, c) == [] then One(CurrentAt(cur, c))
    else []
  }

  /** The two sides of the update of a record that is out of date. */
  function UpdateOf(net: Netip, current: Option<Endpoint>, candidates: seq<Endpoint>): Option<(Endpoint, Endpoint)> {
    if current.None? || candidates == [] then None
    else
      var update, stored := Updated(net, current.value, candidates).value, current.value;
      if Outdated(net, update, stored)
      then Some((OldSide(net, update, stored), InheritOwner(stored, NewSide(net, update, stored)))) else None
  }

  function RawUpdate(cfg: Settings, cur: seq<Endpoint>, des: seq<Endpoint>, c: Cell): Option<(Endpoint, Endpoint)> {
    UpdateOf(cfg.net, CurrentAt(cur, c), CandidatesAt(des, c))
  }

  function RawUpdateOld(cfg: Settings, cur: seq<Endpoint>, des: seq<Endpoint>, c: Cell): seq<Endpoint> {
    if RawUpdate(cfg, cur, des, c).Some? then [RawUpdate(cfg, cur, des, c).value.0] else []
  }

  function RawUpdateNew(cfg: Settings, cur: seq<Endpoint>, des: seq<Endpoint>, c: Cell): seq<Endpoint> {
    if RawUpdate(cfg, cur, des, c).Some? then [RawUpdate(cfg, cur, des, c).value.1] else []
  }

  function Owned(cfg: Settings, s: seq<Endpoint>): seq<Endpoint> {
    if cfg.owner == "" then s else Filter(OwnedFn(cfg.owner), s)
  }

  function PlannedDelete(cfg: Settings, cur: seq<Endpoint>, des: seq<Endpoint>, c: Cell): seq<Endpoint> {
    if !AllowsDelete(cfg.policies) then []
    else if cfg.owner == "" then RawDelete(cur, des, c)
    else Distinct(Filter(OwnedFn(cfg.owner), RawDelete(cur, des, c)))
  }

  function PlannedUpdateOld(cfg: Settings, cur: seq<Endpoint>, des: seq<Endpoint>, c: Cell): seq<Endpoint> {
    if AllowsUpdate(cfg.policies) then Owned(cfg, RawUpdateOld(cfg, cur, des, c)) else []
  }

  function PlannedUpdateNew(cfg: Settings, cur: seq<Endpoint>, des: seq<Endpoint>, c: Cell): seq<Endpoint> {
    if AllowsUpdate(cfg.policies) then Owned(cfg, RawUpdateNew(cfg, cur, des, c)) else []
  }

  /** The sides of an update name the same cell, position by position. */
  predicate Paired(ch: Changes) {
    |ch.updateOld| == |ch.updateNew|
      && forall i :: 0 <= i < |ch.updateOld| ==> CellOf(ch.updateOld[i]) == CellOf(ch.updateNew[i])
  }

  /** A plan for the relevant records `cur` and `des`: in each cell the four
      lists hold just the decision for that cell.  The order of cells is open,
      since it comes from iterating over maps. */
  ghost predicate IsPlan(cfg: Settings, cur: seq<Endpoint>, des: seq<Endpoint>, ch: Changes) {
    && Paired(ch)
    && forall c :: PlansCell(cfg, cur, des, ch, c)
  }

  ghost predicate PlansCell(cfg: Settings, cur: seq<Endpoint>, des: seq<Endpoint>, ch: Changes, c: Cell) {
    && At(ch.create, c) == RawCreate(cfg, cur, des, c)
    && At(ch.delete, c) == PlannedDelete(cfg, cur, des, c)
    && At(ch.updateOld, c) == PlannedUpdateOld(cfg, cur, des, c)
    && At(ch.updateNew, c) == PlannedUpdateNew(cfg, cur, des, c)
  }

  // ---- lists are determined, up to order, by their cells

  lemma AtConcat(a: seq<Endpoint>, b: seq<Endpoint>)
    ensures forall c :: At(a + b, c) == At(a, c) + At(b, c)
  {
    forall c ensures At(a + b, c) == At(a, c) + At(b, c) {
      FilterConcat(InCell(c), a, b);
    }
  }

  lemma AtOne(e: Endpoint)
    ensures forall c :: At([e], c) == if CellOf(e) == c then [e] else []
  {
    assert [e][..0] == [];
  }

  /** Appending touches one cell. */
  lemma AtAppend(s: seq<Endpoint>, e: Endpoint, c: Cell)
    ensures At(s + [e], c) == At(s, c) + if CellOf(e) == c then [e] else []
  {
    assert (s + [e])[..|s|] == s;
  }

  lemma {:induction false} AtOfRow(s: seq<Endpoint>, k: PlanKey, c: Cell)
    ensures At(RowAt(s, k), c) == if c.key == k then At(s, c) else []
  {
    if s != [] {
      AtOfRow(s[..|s| - 1], k, c);
      AtAppend(RowAt(s[..|s| - 1], k), s[|s| - 1], c);
    }
  }

  lemma {:induction false} FilterCommutes(p: Endpoint -> bool, q: Endpoint -> bool, s: seq<Endpoint>)
    ensures Filter(p, Filter(q, s)) == Filter(q, Filter(p, s))
  {
    if s != [] {
      var front, last := s[..|s| - 1], s[|s| - 1];
      FilterCommutes(p, q, front);
      FilterConcat(p, Filter(q, front), [last]);
      FilterConcat(q, Filter(p, front), [last]);
      assert [last][..0] == [];
    }
  }

  lemma {:induction false} AtDistinct(s: seq<Endpoint>, c: Cell)
    ensures At(Distinct(s), c) == Distinct(At(s, c))
  {
    if s != [] {
      var front, last := s[..|s| - 1], s[|s| - 1];
      AtDistinct(front, c);
      AtAppend(Distinct(front), last, c);
      KeyPresent(front, KeyOf(last));
      if CellOf(last) == c {
        assert (At(front, c) + [last])[..|At(front, c)|] == At(front, c);
        if KeyOf(last) in KeysOf(front) {
          var e :| e in front && KeyOf(e) == KeyOf(last);
          FilterMember(InCell(c), front, e);
        }
      }
    }
  }

  lemma AtMember(s: seq<Endpoint>, e: Endpoint)
    ensures e in s <==> e in At(s, CellOf(e))
  {
    FilterMember(InCell(CellOf(e)), s, e);
  }

  lemma CountInCell(s: seq<Endpoint>, e: Endpoint)
    ensures multiset(s)[e] == multiset(At(s, CellOf(e)))[e]
  {
    FilterCount(InCell(CellOf(e)), s, e);
  }

  lemma SameCellsSameMultiset(s: seq<Endpoint>, t: seq<Endpoint>)
    requires forall c :: At(s, c) == At(t, c)
    ensures multiset(s) == multiset(t)
  {
    forall e ensures multiset(s)[e] == multiset(t)[e] {
      CountInCell(s, e);
      CountInCell(t, e);
    }
  }

  /** Any two plans for the same records differ in order only: nothing depends
      on the iteration order of rows or of record types. */
  lemma PlansAgree(cfg: Settings, cur: seq<Endpoint>, des: seq<Endpoint>, ch: Changes, other: Changes)
    requires IsPlan(cfg, cur, des, ch) && IsPlan(cfg, cur, des, other)
    ensures multiset(ch.create) == multiset(other.create)
    ensures multiset(ch.delete) == multiset(other.delete)
    ensures multiset(ch.updateOld) == multiset(other.updateOld)
    ensures multiset(ch.updateNew) == multiset(other.updateNew)
  {
    forall c
      ensures At(ch.create, c) == At(other.create, c) && At(ch.delete, c) == At(other.delete, c)
      ensures At(ch.updateOld, c) == At(other.updateOld, c) && At(ch.updateNew, c) == At(other.updateNew, c)
    {
      assert PlansCell(cfg, cur, des, ch, c) && PlansCell(cfg, cur, des, other, c);
    }
    SameCellsSameMultiset(ch.create, other.create);
    SameCellsSameMultiset(ch.delete, other.delete);
    SameCellsSameMultiset(ch.updateOld, other.updateOld);
    SameCellsSameMultiset(ch.updateNew, other.updateNew);
  }

  // ---- provider-specific properties

  predicate DistinctNames(ps: seq<Property>) {
    forall i, j :: 0 <= i < j < |ps| ==> ps[i].name != ps[j].name
  }

  function AsSet(ps: seq<Property>): set<Property> {
    set p | p in ps
  }

  lemma {:induction false} PropertyMapOfDistinct(ps: seq<Property>)
    requires DistinctNames(ps)
    ensures forall n, v :: n in PropertyMap(ps) && PropertyMap(ps)[n] == v <==> Property(n, v) in ps
  {
    if ps != [] {
      var k := |ps| - 1;
      PropertyMapOfDistinct(ps[..k]);
      assert ps == ps[..k] + [ps[k]];
      forall p | p in ps[..k] ensures p.name != ps[k].name {
        var i :| 0 <= i < k && ps[i] == p;
      }
    }
  }

  lemma {:induction false} PropertiesDifferMeans(d: map<string, string>, cs: seq<Property>)
    requires DistinctNames(cs)
    ensures !PropertiesDiffer(d, cs) <==> forall n, v :: n in d && d[n] == v <==> Property(n, v) in cs
  {
    if cs == [] {
      if d != map[] {
        var n :| n in d;
        assert !(n in d && d[n] == d[n] <==> Property(n, d[n]) in cs);
      }
    } else {
      var c, rest := cs[0], cs[1..];
      var d' := d - {c.name};
      assert cs == [c] + rest && c == Property(c.name, c.value);
      PropertiesDifferMeans(d', rest);
      forall p | p in rest ensures p.name != c.name {
        var i :| 0 <= i < |rest| && rest[i] == p;
        assert cs[i + 1] == p;
      }
      if !PropertiesDiffer(d, cs) {
        forall n, v ensures n in d && d[n] == v <==> Property(n, v) in cs {
          assert n in d' && d'[n] == v <==> Property(n, v) in rest;
        }
      }
      if forall n, v :: n in d && d[n] == v <==> Property(n, v) in cs {
        assert c.name in d && d[c.name] == c.value <==> Property(c.name, c.value) in cs;
        forall n, v ensures n in d' && d'[n] == v <==> Property(n, v) in rest {
          assert n in d && d[n] == v <==> Property(n, v) in cs;
        }
      }
    }
  }

  /** Of the desired properties of one name the last one counts. */
  lemma {:induction false} LastPropertyCounts(ps: seq<Property>, i: nat)
    requires i < |ps| && forall j :: i < j < |ps| ==> ps[j].name != ps[i].name
    ensures ps[i].name in PropertyMap(ps) && PropertyMap(ps)[ps[i].name] == ps[i].value
  {
    var n := |ps| - 1;
    if i < n { LastPropertyCounts(ps[..n], i); }
  }

  /** With distinct names, the two loops compare the lists as sets. */
  lemma ProviderSpecificIsSetComparison(desired: Endpoint, current: Endpoint)
    requires DistinctNames(desired.providerSpecific) && DistinctNames(current.providerSpecific)
    ensures ShouldUpdateProviderSpecific(desired, current)
       <==> AsSet(desired.providerSpecific) != AsSet(current.providerSpecific)
  {
    var d, ds, cs := PropertyMap(desired.providerSpecific), desired.providerSpecific, current.providerSpecific;
    PropertyMapOfDistinct(ds);
    PropertiesDifferMeans(d, cs);
    if AsSet(ds) == AsSet(cs) {
      forall n, v ensures n in d && d[n] == v <==> Property(n, v) in cs {
        assert Property(n, v) in AsSet(ds) <==> Property(n, v) in AsSet(cs);
      }
    }
    if forall n, v :: n in d && d[n] == v <==> Property(n, v) in cs {
      forall p ensures p in AsSet(ds) <==> p in AsSet(cs) {
        assert p == Property(p.name, p.value);
      }
    }
  }

  lemma {:induction false} SettledNames(d: map<string, string>, cs: seq<Property>)
    requires !PropertiesDiffer(d, cs)
    ensures DistinctNames(cs) && forall p :: p in cs ==> p.name in d
  {
    if cs != [] {
      SettledNames(d - {cs[0].name}, cs[1..]);
      forall i | 0 < i < |cs| ensures cs[i].name != cs[0].name {
        assert cs[i] == cs[1..][i - 1] && cs[1..][i - 1] in cs[1..];
      }
      forall i, j | 0 < i < j < |cs| ensures cs[i].name != cs[j].name {
        assert cs[i] == cs[1..][i - 1] && cs[j] == cs[1..][j - 1];
      }
    }
  }

  /** A list is settled against itself exactly when no name is repeated: with a
      repeated name the record is updated on every run. */
  lemma SettlesIffDistinct(e: Endpoint)
    ensures ShouldUpdateProviderSpecific(e, e) <==> !DistinctNames(e.providerSpecific)
  {
    if DistinctNames(e.providerSpecific) {
      ProviderSpecificIsSetComparison(e, e);
    }
    if !ShouldUpdateProviderSpecific(e, e) {
      SettledNames(PropertyMap(e.providerSpecific), e.providerSpecific);
    }
  }
}
