/** The TXT registry: every record gets a companion TXT record that carries its
    labels, and reading puts the labels back (pkg/sources/dnsmesh/txt.go). */
module Registry {
  import opened Wrappers
  import opened Sorting
  import opened Endpoints
  import opened Store
  import opened Routing
  import opened InMemory
  import opened LabelText
  import Strings

  const MESH_LABEL := "mesh"
  const OWNED_RECORD_LABEL := "ownedRecord"

  // ---- writing

  function Stamp(owner: string, r: Endpoint): Endpoint {
    r.(labels := r.labels[MESH_LABEL := owner])
  }

  function StampAll(owner: string, s: seq<Endpoint>): (r: seq<Endpoint>)
    ensures |r| == |s| && forall i :: 0 <= i < |s| ==> r[i] == Stamp(owner, s[i])
  {
    seq(|s|, i requires 0 <= i < |s| => Stamp(owner, s[i]))
  }

  /** The companion of a record; none for a name that cannot be built. */
  ghost function Txt(r: Endpoint): seq<Endpoint> {
    if LabelsFit(r.dnsName) then [TxtRecord(r)] else []
  }

  ghost function TxtRecord(r: Endpoint): Endpoint {
    Endpoint(Strings.TrimSuffix(r.dnsName, "."), [Strings.TrimSuffix(Serialize(r.labels, true), ".")], TYPE_TXT,
             r.setIdentifier, 0, map[OWNED_RECORD_LABEL := r.dnsName], [])
  }

  ghost function TxtFn(): Endpoint -> seq<Endpoint> {
    r => Txt(r)
  }

  ghost function Txts(s: seq<Endpoint>): seq<Endpoint> {
    FlatMap(TxtFn(), s)
  }

  ghost function WithTxts(s: seq<Endpoint>): seq<Endpoint> {
    s + Txts(s)
  }

  /** The batch that goes to the provider. */
  ghost function Companion(owner: string, ch: Changes): Changes {
    Changes(WithTxts(StampAll(owner, ch.create)),
            WithTxts(Filter(OwnedFn(owner), ch.updateOld)),
            WithTxts(Filter(OwnedFn(owner), ch.updateNew)),
            WithTxts(Filter(OwnedFn(owner), ch.delete)))
  }

  method GenerateTXTRecord(r: Endpoint) returns (endpoints: seq<Endpoint>)
    ensures endpoints == Txt(r)
  {
    var text := SerializePlain(r.labels, true);
    var txt := NewEndpointWithTTL(r.dnsName, TYPE_TXT, 0, [text]);
    assert CleanTargets([text]) == [Strings.TrimSuffix(text, ".")];
    endpoints := [];
    if txt.Some? {
      var t := txt.value.(setIdentifier := r.setIdentifier);
      t := t.(labels := t.labels[OWNED_RECORD_LABEL := r.dnsName]);
      endpoints := endpoints + [t];
    }
  }

  /** Appends the companions to the list that is ranged over; the range itself is
      fixed when the loop starts. */
  method AppendTxts(s: seq<Endpoint>) returns (r: seq<Endpoint>)
    ensures r == WithTxts(s)
  {
    r := s;
    for i := 0 to |s|
      invariant r == s + Txts(s[..i])
    {
      TxtsOneMore(s, i);
      var txts := GenerateTXTRecord(s[i]);
      r := r + txts;
    }
    assert s[..|s|] == s;
  }

  lemma TxtsOneMore(s: seq<Endpoint>, i: nat)
    requires i < |s|
    ensures Txts(s[..i + 1]) == Txts(s[..i]) + Txt(s[i])
  {
    FlatMapOneMore(TxtFn(), s, i);
  }

  method StampLabels(owner: string, s: seq<Endpoint>) returns (r: seq<Endpoint>)
    ensures r == StampAll(owner, s)
  {
    r := [];
    for i := 0 to |s|
      invariant r == StampAll(owner, s)[..i]
    {
      r := r + [s[i].(labels := s[i].labels[MESH_LABEL := owner])];
    }
  }

  // ---- reading

  function MeshOf(labels: Labels): string {
    if MESH_LABEL in labels then labels[MESH_LABEL] else ""
  }

  /** A companion record of this registry. */
  predicate IsMine(owner: string, r: Endpoint) {
    r.recordType == TYPE_TXT && r.targets != [] && MeshOf(Parse(r.targets[0])) == owner
  }

  function OtherFn(owner: string): Endpoint -> bool {
    r => !IsMine(owner, r)
  }

  /** Labels by DNS name; a later companion of a name replaces an earlier one. */
  function MeshLabels(owner: string, recs: seq<Endpoint>): map<string, Labels> {
    if recs == [] then map[]
    else
      var front, last := MeshLabels(owner, recs[..|recs| - 1]), recs[|recs| - 1];
      if IsMine(owner, last) then front[last.dnsName := Parse(last.targets[0])] else front
  }

  function WithLabels(found: map<string, Labels>, ep: Endpoint): Endpoint {
    if ep.dnsName in found then ep.(labels := ep.labels + found[ep.dnsName]) else ep
  }

  function LabelAll(found: map<string, Labels>, s: seq<Endpoint>): (r: seq<Endpoint>)
    ensures |r| == |s| && forall i :: 0 <= i < |s| ==> r[i] == WithLabels(found, s[i])
  {
    seq(|s|, i requires 0 <= i < |s| => WithLabels(found, s[i]))
  }

  /** The records without the companions, with the labels the companions hold. */
  function View(owner: string, recs: seq<Endpoint>): seq<Endpoint> {
    LabelAll(MeshLabels(owner, recs), Filter(OtherFn(owner), recs))
  }

  /** What a reader gets: every record but the TXT records that name this mesh, with
      the labels found for its name on top of its own. */
  lemma ViewMeans(owner: string, recs: seq<Endpoint>, e: Endpoint)
    ensures e in View(owner, recs) <==> exists r ::
      && r in recs
      && !(r.recordType == "TXT" && r.targets != []
           && (var labels := Parse(r.targets[0]); if "mesh" in labels then labels["mesh"] == owner else owner == ""))
      && e.(labels := r.labels) == r
      && e.labels == if r.dnsName in MeshLabels(owner, recs) then r.labels + MeshLabels(owner, recs)[r.dnsName]
                     else r.labels
  {
    var others, found := Filter(OtherFn(owner), recs), MeshLabels(owner, recs);
    var view := View(owner, recs);
    if e in view {
      var i :| 0 <= i < |view| && view[i] == e;
      FilterMember(OtherFn(owner), recs, others[i]);
    }
    forall r | r in recs && !IsMine(owner, r) && e == WithLabels(found, r) ensures e in view {
      FilterMember(OtherFn(owner), recs, r);
      var i :| 0 <= i < |others| && others[i] == r;
      assert view[i] == e;
    }
    forall r | r in recs ensures e == WithLabels(found, r) <==>
      && e.(labels := r.labels) == r
      && e.labels == if r.dnsName in found then r.labels + found[r.dnsName] else r.labels
    {
      assert e == e.(labels := r.labels).(labels := e.labels);
    }
  }

  /** The labels found for a name are those of the last TXT record of the mesh with
      that name. */
  lemma {:induction false} LastCompanionCounts(owner: string, recs: seq<Endpoint>, i: nat)
    requires i < |recs| && IsMine(owner, recs[i])
    requires forall j :: i < j < |recs| && recs[j].dnsName == recs[i].dnsName ==> !IsMine(owner, recs[j])
    ensures recs[i].dnsName in MeshLabels(owner, recs)
    ensures MeshLabels(owner, recs)[recs[i].dnsName] == Parse(recs[i].targets[0])
  {
    var n := |recs| - 1;
    if i < n { LastCompanionCounts(owner, recs[..n], i); }
  }

  predicate IsBareTxt(r: Endpoint) {
    r.recordType == TYPE_TXT && r.targets == []
  }

  /** A TXT record without a target stops the reader. */
  predicate HasBareTxt(recs: seq<Endpoint>) {
    exists r :: r in recs && IsBareTxt(r)
  }

  class TXTRegistry {
    const provider: InMemoryProvider
    const ownerID: string

    constructor (provider: InMemoryProvider, ownerID: string)
      ensures this.provider == provider && this.ownerID == ownerID
    {
      this.provider := provider;
      this.ownerID := ownerID;
    }

    method ApplyChanges(ch: Changes) returns (err: Option<Error>)
      modifies provider
      ensures exists parts ::
        && IsSplit(provider.zoneDomains, Companion(ownerID, ch), parts)
        && OutcomeOf(old(provider.zones), parts, provider.zones, err)
      ensures DistinctDomains(provider.zoneDomains) ==>
        Outcome(old(provider.zones), provider.zoneDomains, Companion(ownerID, ch), provider.zones, err)
    {
      var updateNew := FilterEndpointsByOwnerID(ownerID, ch.updateNew);
      var updateOld := FilterEndpointsByOwnerID(ownerID, ch.updateOld);
      var delete := FilterEndpointsByOwnerID(ownerID, ch.delete);
      var create := StampLabels(ownerID, ch.create);
      create := AppendTxts(create);
      delete := AppendTxts(delete);
      updateOld := AppendTxts(updateOld);
      updateNew := AppendTxts(updateNew);
      err := provider.ApplyChanges(Changes(create, updateOld, updateNew, delete));
    }

    method Records() returns (r: Result<seq<Endpoint>, Error>)
      ensures r.Ok? ==> exists at, recs ::
        && RecordsAt(provider.zones, provider.zoneDomains.Keys, at, recs)
        && r == ReadAs(ownerID, true, recs)
      ensures r.Ok? <==> forall z :: z in provider.zoneDomains ==>
        z in provider.zones && LegibleZone(provider.zones[z])
      ensures r.Err? ==> ReadStops(provider.zones, provider.zoneDomains, r.error)
      ensures Readable(provider.zones, provider.zoneDomains) ==>
        exists recs :: Lists(Flat(provider.zones, provider.zoneDomains), recs)
          && r == if HasBareTxt(recs) then Err(Panic) else Ok(View(ownerID, recs))
    {
      var copies := provider.Records();
      if copies.Err? {
        ghost var zones := provider.zones;
        if z :| z in provider.zoneDomains && z in zones && !AllFit(zones[z]) { assert !LegibleZone(zones[z]); }
        return copies;
      }
      r := Relabel(ownerID, copies.value);
      ghost var at :| ReadFrom(provider.zones, provider.zoneDomains.Keys, at, copies.value);
      ghost var recs := CopiesAreSeen(provider.zones, provider.zoneDomains.Keys, at, copies.value);
      BareIsIllegible(provider.zones, provider.zoneDomains, at, recs);
    }
  }

  /** The records at some places. */
  ghost predicate RecordsAt(zones: Zones, ids: set<string>, at: seq<Place>, recs: seq<Endpoint>) {
    && Enumerates(zones, ids, at) && |recs| == |at|
    && forall i :: 0 <= i < |at| ==> at[i] in at && recs[i] == zones[at[i].zone][at[i].key]
  }

  /** The provider fails, or a TXT record without a target is met. */
  predicate ReadStops(zones: Zones, domains: Domains, err: Error) {
    || ReadFails(zones, domains, err)
    || (err == Panic && exists z :: z in domains && z in zones && !LegibleZone(zones[z]))
  }

  lemma CopiesAreSeen(zones: Zones, ids: set<string>, at: seq<Place>, copies: seq<Endpoint>)
    returns (recs: seq<Endpoint>)
    requires ReadFrom(zones, ids, at, copies)
    ensures RecordsAt(zones, ids, at, recs) && copies == SeenAll(true, recs)
    ensures forall e :: e in recs ==> LabelsFit(e.dnsName)
    ensures AllLegible(recs) <==> !HasBareTxt(copies)
  {
    assert forall i :: 0 <= i < |at| ==> at[i] in at;
    recs := seq(|at|, i requires 0 <= i < |at| => zones[at[i].zone][at[i].key]);
    forall i | 0 <= i < |at| ensures LabelsFit(recs[i].dnsName) && copies[i] == Seen(true, recs[i]) {
      assert Copy(recs[i]) == Some(copies[i]);
      SeenIsCopy(recs[i]);
    }
    forall i | 0 <= i < |at|
      ensures IsBareTxt(copies[i]) == IsBareTxt(recs[i]) && copies[i] in copies && recs[i] in recs
    {}
    if r :| r in copies && IsBareTxt(r) {
      var i :| 0 <= i < |copies| && copies[i] == r;
      assert IsBareTxt(recs[i]);
    }
  }

  /** What stops the reader is stored somewhere. */
  lemma BareIsIllegible(zones: Zones, domains: Domains, at: seq<Place>, recs: seq<Endpoint>)
    requires domains.Keys <= zones.Keys && RecordsAt(zones, domains.Keys, at, recs)
    ensures AllLegible(recs) <==> forall z :: z in domains ==> LegibleZone(zones[z])
  {
    if AllLegible(recs) {
      forall z, k | z in domains && k in zones[z] ensures Legible(zones[z][k]) {
        assert Place(z, k) in at;
        var i :| 0 <= i < |at| && at[i] == Place(z, k);
        assert recs[i] in recs;
      }
    }
  }

  lemma UnpackStep(owner: string, records: seq<Endpoint>, i: nat)
    requires i < |records|
    ensures HasBareTxt(records[..i + 1]) <==> HasBareTxt(records[..i]) || IsBareTxt(records[i])
    ensures IsBareTxt(records[i]) ==> HasBareTxt(records)
    ensures Filter(OtherFn(owner), records[..i + 1])
         == Filter(OtherFn(owner), records[..i]) + if IsMine(owner, records[i]) then [] else [records[i]]
    ensures MeshLabels(owner, records[..i + 1])
         == var front := MeshLabels(owner, records[..i]);
            if IsMine(owner, records[i]) then front[records[i].dnsName := Parse(records[i].targets[0])] else front
  {
    assert records[..i + 1] == records[..i] + [records[i]];
    FilterOneMore(OtherFn(owner), records, i);
  }

  /** The first loop of `Records`: sets the companions aside. */
  method Unpack(owner: string, records: seq<Endpoint>) returns (r: Result<(seq<Endpoint>, map<string, Labels>), Error>)
    ensures r
      == if HasBareTxt(records) then Err(Panic) else Ok((Filter(OtherFn(owner), records), MeshLabels(owner, records)))
  {
    var endpoints: seq<Endpoint> := [];
    var labelMap: map<string, Labels> := map[];
    for i := 0 to |records|
      invariant !HasBareTxt(records[..i])
      invariant endpoints == Filter(OtherFn(owner), records[..i])
      invariant labelMap == MeshLabels(owner, records[..i])
    {
      var record := records[i];
      UnpackStep(owner, records, i);
      if record.recordType != TYPE_TXT {
        endpoints := endpoints + [record];
        continue;
      }
      if |record.targets| == 0 {
        return Err(Panic);
      }
      var labels := NewLabelsFromStringPlain(record.targets[0]);
      if MeshOf(labels) != owner {
        endpoints := endpoints + [record];
        continue;
      }
      labelMap := labelMap[record.dnsName := labels];
    }
    assert records[..|records|] == records;
    return Ok((endpoints, labelMap));
  }

  /** The second loop: puts the labels back. */
  method AttachLabels(found: map<string, Labels>, endpoints: seq<Endpoint>) returns (r: seq<Endpoint>)
    ensures r == LabelAll(found, endpoints)
  {
    r := [];
    for i := 0 to |endpoints|
      invariant r == LabelAll(found, endpoints)[..i]
    {
      var ep := endpoints[i];
      var dnsName := Strings.Join(Strings.Split(ep.dnsName, '.'), '.');
      Strings.JoinSplit(ep.dnsName, '.');
      if dnsName in found {
        ep := ep.(labels := ep.labels + found[dnsName]);
      }
      r := r + [ep];
    }
  }

  method Relabel(owner: string, records: seq<Endpoint>) returns (r: Result<seq<Endpoint>, Error>)
    ensures r == if HasBareTxt(records) then Err(Panic) else Ok(View(owner, records))
  {
    var unpacked := Unpack(owner, records);
    if unpacked.Err? {
      return Err(unpacked.error);
    }
    var endpoints := AttachLabels(unpacked.value.1, unpacked.value.0);
    return Ok(endpoints);
  }

  // ---- which creations are accepted

  /** A record whose companion has a name of its own: what the registry creates. */
  predicate Nameable(c: Endpoint) {
    c.recordType != TYPE_TXT && LabelsFit(c.dnsName) && !Strings.HasSuffix(c.dnsName, ".")
  }

  predicate AllNameable(s: seq<Endpoint>) {
    forall c :: c in s ==> Nameable(c)
  }

  function TxtKey(c: Endpoint): Key {
    Key(c.dnsName, TYPE_TXT, c.setIdentifier)
  }

  lemma TxtOf(c: Endpoint)
    requires Nameable(c)
    ensures Txt(c) == [TxtRecord(c)] && KeyOf(TxtRecord(c)) == TxtKey(c)
  {
  }

  lemma TxtsOf(s: seq<Endpoint>)
    requires AllNameable(s)
    ensures |Txts(s)| == |s|
      && forall i :: 0 <= i < |s| ==> Txts(s)[i] == TxtRecord(s[i]) && KeyOf(Txts(s)[i]) == TxtKey(s[i])
  {
    var f := TxtFn();
    forall i | 0 <= i < |s| ensures f(s[i]) == [TxtRecord(s[i])] && KeyOf(TxtRecord(s[i])) == TxtKey(s[i]) {
      assert s[i] in s;
      TxtOf(s[i]);
    }
    FlatMapSingles(f, s);
  }

  lemma TxtMember(s: seq<Endpoint>, t: Endpoint) returns (c: Endpoint)
    requires AllNameable(s) && t in Txts(s)
    ensures c in s && t == TxtRecord(c) && KeyOf(t) == TxtKey(c)
  {
    TxtsOf(s);
    var i :| 0 <= i < |s| && Txts(s)[i] == t;
    c := s[i];
  }

  lemma TxtPresent(s: seq<Endpoint>, c: Endpoint)
    requires AllNameable(s) && c in s
    ensures TxtRecord(c) in Txts(s) && KeyOf(TxtRecord(c)) == TxtKey(c)
  {
    TxtsOf(s);
    var i :| 0 <= i < |s| && s[i] == c;
    assert Txts(s)[i] == TxtRecord(c);
  }

  /** No two records of one name and set identifier, whatever their types. */
  predicate DistinctTxtKeys(s: seq<Endpoint>) {
    forall i, j :: 0 <= i < j < |s| ==> TxtKey(s[i]) != TxtKey(s[j])
  }

  lemma TxtsDistinctIff(s: seq<Endpoint>)
    requires AllNameable(s)
    ensures DistinctKeys(Txts(s)) <==> DistinctTxtKeys(s)
  {
    TxtsOf(s);
  }

  lemma TypesApart(s: seq<Endpoint>)
    requires AllNameable(s)
    ensures forall e :: e in Txts(s) ==> KeyOf(e) !in KeysOf(s)
  {
    forall e | e in Txts(s) ensures KeyOf(e) !in KeysOf(s) {
      var c := TxtMember(s, e);
    }
  }

  /** Records and companions have keys of their own exactly when names and set
      identifiers tell the records apart. */
  lemma WithTxtsDistinctIff(s: seq<Endpoint>)
    requires AllNameable(s)
    ensures DistinctKeys(WithTxts(s)) <==> DistinctTxtKeys(s)
  {
    TxtsDistinctIff(s);
    TypesApart(s);
    FreshConcat(s, Txts(s));
    if DistinctTxtKeys(s) {
      forall i, j | 0 <= i < j < |s| ensures KeyOf(s[i]) != KeyOf(s[j]) {
        assert TxtKey(s[i]) != TxtKey(s[j]);
      }
    }
  }

  predicate KeysFree(zone: Zone, s: seq<Endpoint>) {
    forall c :: c in s ==> KeyOf(c) !in zone && TxtKey(c) !in zone
  }

  lemma WithTxtsFreshIff(zone: Zone, s: seq<Endpoint>)
    requires AllNameable(s)
    ensures (forall e :: e in WithTxts(s) ==> KeyOf(e) !in zone) <==> KeysFree(zone, s)
  {
    if forall e :: e in WithTxts(s) ==> KeyOf(e) !in zone {
      forall c | c in s ensures KeyOf(c) !in zone && TxtKey(c) !in zone {
        TxtPresent(s, c);
        assert c in WithTxts(s) && TxtRecord(c) in WithTxts(s);
      }
    }
    if KeysFree(zone, s) {
      forall e | e in WithTxts(s) ensures KeyOf(e) !in zone {
        if e !in s { var c := TxtMember(s, e); }
      }
    }
  }

  /** Stamping keeps everything but the labels. */
  lemma StampedAt(owner: string, s: seq<Endpoint>)
    ensures AllNameable(StampAll(owner, s)) == AllNameable(s)
    ensures DistinctTxtKeys(StampAll(owner, s)) == DistinctTxtKeys(s)
  {
    var r := StampAll(owner, s);
    forall i | 0 <= i < |s|
      ensures r[i] in r && s[i] in s && TxtKey(r[i]) == TxtKey(s[i]) && Nameable(r[i]) == Nameable(s[i])
    {}
  }

  lemma StampedFree(owner: string, zone: Zone, s: seq<Endpoint>)
    ensures KeysFree(zone, StampAll(owner, s)) == KeysFree(zone, s)
  {
    var r := StampAll(owner, s);
    forall i | 0 <= i < |s|
      ensures r[i] in r && s[i] in s && TxtKey(r[i]) == TxtKey(s[i]) && KeyOf(r[i]) == KeyOf(s[i])
    {}
  }

  lemma CompanionOfCreates(owner: string, s: seq<Endpoint>)
    ensures Companion(owner, Changes(s, [], [], [])) == Changes(WithTxts(StampAll(owner, s)), [], [], [])
  {
  }

  lemma CreatesAccepted(zone: Zone, all: seq<Endpoint>)
    ensures BatchOk(zone, Changes(all, [], [], [])) <==> DistinctKeys(all) && forall e :: e in all ==> KeyOf(e) !in zone
    ensures Apply(zone, Changes(all, [], [], [])) == Put(zone, all)
  {
    assert all + [] + [] == all;
    assert KeysOf([]) == {};
  }

  /** Which creations the provider accepts through the registry: those whose records
      differ in name or set identifier, and whose own keys and companions' keys are
      free.  Two types at one name are refused, and so is a name with a TXT record. */
  lemma CreateIsAcceptedIff(owner: string, zone: Zone, s: seq<Endpoint>)
    requires AllNameable(s)
    ensures BatchOk(zone, Companion(owner, Changes(s, [], [], []))) <==> DistinctTxtKeys(s) && KeysFree(zone, s)
    ensures Apply(zone, Companion(owner, Changes(s, [], [], []))) == Put(zone, WithTxts(StampAll(owner, s)))
  {
    var stamped := StampAll(owner, s);
    StampedAt(owner, s);
    StampedFree(owner, zone, s);
    CompanionOfCreates(owner, s);
    CreatesAccepted(zone, WithTxts(stamped));
    WithTxtsDistinctIff(stamped);
    WithTxtsFreshIff(zone, stamped);
  }

  // ---- reading what was created

  /** Records that can be created, with labels that a companion can hold. */
  ghost predicate Creatable(owner: string, s: seq<Endpoint>) {
    AllNameable(s) && DistinctTxtKeys(s) && forall c :: c in s ==> Survives(Stamp(owner, c).labels)
  }

  /** A record that is stamped for this registry. */
  predicate Stamped(owner: string, c: Endpoint) {
    MESH_LABEL in c.labels && c.labels[MESH_LABEL] == owner
  }

  /** Records as they are stored. */
  ghost predicate Created(owner: string, s: seq<Endpoint>) {
    && AllNameable(s) && DistinctTxtKeys(s)
    && forall c :: c in s ==> Stamped(owner, c) && Survives(c.labels)
  }

  /** No stored record is read under a name of the list. */
  predicate NamesFree(zone: Zone, s: seq<Endpoint>) {
    forall k, c :: k in zone && c in s ==> Strings.TrimSuffix(k.dnsName, ".") != c.dnsName
  }

  lemma StampedAreCreated(owner: string, s: seq<Endpoint>)
    requires Creatable(owner, s)
    ensures Created(owner, StampAll(owner, s))
  {
    var r := StampAll(owner, s);
    StampedAt(owner, s);
    forall c | c in r ensures Stamped(owner, c) && Survives(c.labels) {
      var i :| 0 <= i < |r| && r[i] == c;
      assert s[i] in s && c == Stamp(owner, s[i]);
    }
  }

  function NamedFn(s: seq<Endpoint>): Endpoint -> bool {
    (e: Endpoint) => exists c :: c in s && c.dnsName == e.dnsName
  }

  lemma StampedName(owner: string, s: seq<Endpoint>, c: Endpoint) returns (x: Endpoint)
    requires c in StampAll(owner, s)
    ensures x in s && c == Stamp(owner, x)
  {
    var i :| 0 <= i < |s| && StampAll(owner, s)[i] == c;
    x := s[i];
  }

  lemma StampedNamesFree(owner: string, zone: Zone, s: seq<Endpoint>)
    requires NamesFree(zone, s)
    ensures NamesFree(zone, StampAll(owner, s))
  {
    forall k, c | k in zone && c in StampAll(owner, s) ensures Strings.TrimSuffix(k.dnsName, ".") != c.dnsName {
      var x := StampedName(owner, s, c);
    }
  }

  lemma NamesFreeKeysFree(zone: Zone, s: seq<Endpoint>)
    requires AllNameable(s) && NamesFree(zone, s)
    ensures KeysFree(zone, s)
  {
    forall c | c in s ensures KeyOf(c) !in zone && TxtKey(c) !in zone {
      assert Strings.TrimSuffix(c.dnsName, ".") == c.dnsName;
    }
  }

  /** The zone once the records and their companions are there. */
  lemma CreatedZone(zone: Zone, s: seq<Endpoint>)
    requires AllNameable(s) && DistinctTxtKeys(s) && KeysFree(zone, s)
    ensures forall e :: e in WithTxts(s) ==> KeyOf(e) !in zone && Get(Put(zone, WithTxts(s)), KeyOf(e)) == Some(e)
    ensures Put(zone, WithTxts(s)).Keys == zone.Keys + KeysOf(WithTxts(s))
    ensures Put(zone, WithTxts(s)) - KeysOf(WithTxts(s)) == zone
  {
    WithTxtsDistinctIff(s);
    WithTxtsFreshIff(zone, s);
    PutAt(zone, WithTxts(s));
  }

  // ---- copies

  /** What a provider gives back of a record: a copy, with its labels or without. */
  function Seen(kept: bool, e: Endpoint): Endpoint {
    Endpoint(Strings.TrimSuffix(e.dnsName, "."), CleanTargets(e.targets), e.recordType, e.setIdentifier, e.ttl,
             if kept then e.labels else map[], e.providerSpecific)
  }

  /** With its labels, this is the copy that the in-memory provider makes. */
  lemma SeenIsCopy(e: Endpoint)
    requires LabelsFit(e.dnsName)
    ensures Copy(e) == Some(Seen(true, e))
  {
  }

  function SeenAll(kept: bool, recs: seq<Endpoint>): (r: seq<Endpoint>)
    ensures |r| == |recs| && forall i :: 0 <= i < |recs| ==> r[i] == Seen(kept, recs[i])
  {
    seq(|recs|, i requires 0 <= i < |recs| => Seen(kept, recs[i]))
  }

  /** A record that can be copied and does not stop the reader. */
  predicate Legible(e: Endpoint) {
    LabelsFit(e.dnsName) && !IsBareTxt(e)
  }

  predicate AllLegible(recs: seq<Endpoint>) {
    forall e :: e in recs ==> Legible(e)
  }

  /** Reading through the registry what is stored, in some order. */
  function ReadAs(owner: string, kept: bool, recs: seq<Endpoint>): Result<seq<Endpoint>, Error> {
    if AllLegible(recs) then Ok(View(owner, SeenAll(kept, recs))) else Err(Panic)
  }

  /** What is to come back of a record: with a provider that keeps no labels, those
      that its companion holds. */
  function Restored(kept: bool, c: Endpoint): Endpoint {
    if kept then c else c.(labels := c.labels - {NONCE_LABEL})
  }

  lemma SeenMember(kept: bool, recs: seq<Endpoint>, e: Endpoint)
    ensures e in SeenAll(kept, recs) <==> exists r :: r in recs && Seen(kept, r) == e
  {
    var seen := SeenAll(kept, recs);
    if e in seen {
      var i :| 0 <= i < |seen| && seen[i] == e;
      assert recs[i] in recs;
    }
    if r :| r in recs && Seen(kept, r) == e {
      var i :| 0 <= i < |recs| && recs[i] == r;
      assert seen[i] == e;
    }
  }

  /** Copying leaves names of created records alone, and companions altogether. */
  lemma SeenCreated(kept: bool, c: Endpoint)
    requires Nameable(c)
    ensures KeyOf(Seen(kept, c)) == KeyOf(c)
    ensures KeyOf(Seen(kept, TxtRecord(c))) == KeyOf(TxtRecord(c)) == TxtKey(c)
    ensures Seen(kept, TxtRecord(c)).targets == [Serialize(c.labels, true)]
  {
    var text := Serialize(c.labels, true);
    assert text[|text| - 1] == '\"';
    assert !Strings.HasSuffix(text, ".");
    assert CleanTargets([text]) == [text];
  }

  lemma TxtIsMine(owner: string, kept: bool, c: Endpoint)
    requires Nameable(c) && Survives(c.labels) && Stamped(owner, c)
    ensures IsMine(owner, Seen(kept, TxtRecord(c)))
    ensures Parse(Seen(kept, TxtRecord(c)).targets[0]) == c.labels - {NONCE_LABEL}
  {
    SeenCreated(kept, c);
    RoundTripIff(c.labels, true);
  }

  lemma WithTxtsSeen(kept: bool, s: seq<Endpoint>, o: Endpoint)
    requires AllNameable(s) && o in WithTxts(s)
    ensures KeyOf(Seen(kept, o)) == KeyOf(o) && NamedFn(s)(Seen(kept, o)) && Legible(o)
  {
    if o in s {
      SeenCreated(kept, o);
    } else {
      var c := TxtMember(s, o);
      SeenCreated(kept, c);
    }
  }

  // ---- what a reader finds under the created names

  lemma ReadCreated(zone: Zone, s: seq<Endpoint>, kept: bool, recs: seq<Endpoint>, o: Endpoint)
    requires AllNameable(s) && DistinctTxtKeys(s) && NamesFree(zone, s) && Lists(Put(zone, WithTxts(s)), recs)
    ensures o in WithTxts(s) ==> o in recs
    ensures o in recs && NamedFn(s)(Seen(kept, o)) ==> o in WithTxts(s)
  {
    NamesFreeKeysFree(zone, s);
    CreatedZone(zone, s);
    if o in WithTxts(s) {
      ListsMember(Put(zone, WithTxts(s)), recs, KeyOf(o));
    }
    if o in recs && NamedFn(s)(Seen(kept, o)) {
      assert KeyOf(o) !in zone;
      var x :| x in WithTxts(s) && KeyOf(x) == KeyOf(o);
      assert x == o;
    }
  }

  lemma NotMineIsCreated(owner: string, kept: bool, s: seq<Endpoint>, o: Endpoint)
    requires Created(owner, s) && o in WithTxts(s)
    ensures !IsMine(owner, Seen(kept, o)) <==> o in s
  {
    if o in Txts(s) {
      var c := TxtMember(s, o);
      TxtIsMine(owner, kept, c);
    }
  }

  /** All companions read for one name say the same. */
  lemma {:induction false} LabelsFound(owner: string, recs: seq<Endpoint>, name: string, labels: Labels)
    requires forall u :: u in recs && IsMine(owner, u) && u.dnsName == name ==> Parse(u.targets[0]) == labels
    ensures (exists u :: u in recs && IsMine(owner, u) && u.dnsName == name) ==>
      name in MeshLabels(owner, recs) && MeshLabels(owner, recs)[name] == labels
  {
    if recs != [] {
      var front, last := recs[..|recs| - 1], recs[|recs| - 1];
      assert recs == front + [last];
      LabelsFound(owner, front, name, labels);
    }
  }

  function Found(owner: string, kept: bool, recs: seq<Endpoint>): map<string, Labels> {
    MeshLabels(owner, SeenAll(kept, recs))
  }

  /** What a reader sees of a record that is not a companion. */
  lemma ViewMember(owner: string, kept: bool, recs: seq<Endpoint>, e: Endpoint)
    ensures e in View(owner, SeenAll(kept, recs)) <==>
      exists r :: r in recs && !IsMine(owner, Seen(kept, r)) && e == WithLabels(Found(owner, kept, recs), Seen(kept, r))
  {
    var seen := SeenAll(kept, recs);
    var others := Filter(OtherFn(owner), seen);
    if e in View(owner, seen) {
      var i :| 0 <= i < |others| && View(owner, seen)[i] == e;
      assert others[i] in seen;
      SeenMember(kept, recs, others[i]);
    }
    if r :| r in recs && !IsMine(owner, Seen(kept, r)) && e == WithLabels(Found(owner, kept, recs), Seen(kept, r)) {
      SeenMember(kept, recs, Seen(kept, r));
      FilterMember(OtherFn(owner), seen, Seen(kept, r));
      var i :| 0 <= i < |others| && others[i] == Seen(kept, r);
      assert View(owner, seen)[i] == e;
    }
  }

  lemma FilterAppended(keep: Endpoint -> bool, s: seq<Endpoint>, e: Endpoint)
    ensures Filter(keep, s + [e]) == Filter(keep, s) + if keep(e) then [e] else []
  {
    assert (s + [e])[..|s|] == s;
  }

  lemma LabelOneMore(found: map<string, Labels>, s: seq<Endpoint>, e: Endpoint)
    ensures LabelAll(found, s + [e]) == LabelAll(found, s) + [WithLabels(found, e)]
  {
  }

  /** What reading keeps of the records that `keep` picks. */
  function ReadOf(owner: string, kept: bool, found: map<string, Labels>, keep: Endpoint -> bool, recs: seq<Endpoint>)
    : seq<Endpoint>
  {
    Filter(keep, LabelAll(found, Filter(OtherFn(owner), SeenAll(kept, recs))))
  }

  lemma ReadOneMore(owner: string, kept: bool, found: map<string, Labels>, keep: Endpoint -> bool,
                    front: seq<Endpoint>, last: Endpoint)
    ensures var e := WithLabels(found, Seen(kept, last));
      ReadOf(owner, kept, found, keep, front + [last])
      == ReadOf(owner, kept, found, keep, front) + if !IsMine(owner, Seen(kept, last)) && keep(e) then [e] else []
  {
    var seen, e := SeenAll(kept, front), Seen(kept, last);
    assert SeenAll(kept, front + [last]) == seen + [e];
    FilterAppended(OtherFn(owner), seen, e);
    if !IsMine(owner, e) {
      var others := Filter(OtherFn(owner), seen);
      LabelOneMore(found, others, e);
      FilterAppended(keep, LabelAll(found, others), WithLabels(found, e));
    }
  }

  /** Records that keep their keys in copying are read once each. */
  lemma {:induction false} ReadDistinct(owner: string, kept: bool, found: map<string, Labels>,
                                        keep: Endpoint -> bool, recs: seq<Endpoint>)
    requires DistinctKeys(recs)
    requires forall r :: r in recs && keep(WithLabels(found, Seen(kept, r))) ==> KeyOf(Seen(kept, r)) == KeyOf(r)
    ensures DistinctKeys(ReadOf(owner, kept, found, keep, recs))
    ensures KeysOf(ReadOf(owner, kept, found, keep, recs)) <= KeysOf(recs)
  {
    if recs != [] {
      var front, last := recs[..|recs| - 1], recs[|recs| - 1];
      assert recs == front + [last];
      FreshConcat(front, [last]);
      ReadDistinct(owner, kept, found, keep, front);
      ReadOneMore(owner, kept, found, keep, front, last);
      var e := WithLabels(found, Seen(kept, last));
      if !IsMine(owner, Seen(kept, last)) && keep(e) {
        DistinctOneMore(ReadOf(owner, kept, found, keep, front), e, front, last);
      } else {
        DistinctOneMore(front, last, front, last);
      }
    }
  }

  lemma DistinctOneMore(read: seq<Endpoint>, e: Endpoint, front: seq<Endpoint>, last: Endpoint)
    requires DistinctKeys(read) && KeysOf(read) <= KeysOf(front) && KeyOf(e) == KeyOf(last)
    requires DistinctKeys(front + [last])
    ensures DistinctKeys(read + [e])
    ensures KeysOf(front) <= KeysOf(front + [last]) && KeysOf(read + [e]) <= KeysOf(front + [last])
  {
    FreshConcat(front, [last]);
    FreshConcat(read, [e]);
  }

  /** Reading gives exactly the created records back, each once, with their labels,
      and none of their companions. */
  ghost predicate ReadsBack(owner: string, created: seq<Endpoint>, kept: bool, recs: seq<Endpoint>) {
    ReadAs(owner, kept, recs).Ok? &&
    var read := Filter(NamedFn(created), ReadAs(owner, kept, recs).value);
    DistinctKeys(read) && forall e :: e in read <==> exists c :: c in created && e == Restored(kept, c)
  }

  /** Records of one name have the same labels: the registry keeps them by name. */
  predicate SameLabels(s: seq<Endpoint>) {
    forall c, d :: c in s && d in s && c.dnsName == d.dnsName ==> c.labels - {NONCE_LABEL} == d.labels - {NONCE_LABEL}
  }

  /** No target ends in a dot: copying trims them. */
  predicate CleanAll(s: seq<Endpoint>) {
    forall c :: c in s ==> CleanTargets(c.targets) == c.targets
  }

  predicate LegibleZone(zone: Zone) {
    forall k :: k in zone ==> Legible(zone[k])
  }

  /** A zone with the created records, and a listing of it. */
  ghost predicate Reading(owner: string, zone: Zone, s: seq<Endpoint>, recs: seq<Endpoint>) {
    Created(owner, s) && NamesFree(zone, s) && Lists(Put(zone, WithTxts(s)), recs)
  }

  /** The companions read for a created name are those of its records. */
  lemma CompanionsOf(owner: string, zone: Zone, s: seq<Endpoint>, kept: bool, recs: seq<Endpoint>, c: Endpoint,
                     u: Endpoint)
    returns (d: Endpoint)
    requires Reading(owner, zone, s, recs) && c in s
    requires u in SeenAll(kept, recs) && IsMine(owner, u) && u.dnsName == c.dnsName
    ensures d in s && d.dnsName == c.dnsName && Parse(u.targets[0]) == d.labels - {NONCE_LABEL}
  {
    SeenMember(kept, recs, u);
    var o :| o in recs && Seen(kept, o) == u;
    ReadCreated(zone, s, kept, recs, o);
    NotMineIsCreated(owner, kept, s, o);
    d := TxtMember(s, o);
    TxtIsMine(owner, kept, d);
    SeenCreated(kept, d);
  }

  lemma CreatedLabelsFound(owner: string, zone: Zone, s: seq<Endpoint>, kept: bool, recs: seq<Endpoint>, c: Endpoint)
    requires Reading(owner, zone, s, recs) && SameLabels(s) && c in s
    ensures c.dnsName in Found(owner, kept, recs) && Found(owner, kept, recs)[c.dnsName] == c.labels - {NONCE_LABEL}
  {
    var seen, t := SeenAll(kept, recs), Seen(kept, TxtRecord(c));
    TxtPresent(s, c);
    ReadCreated(zone, s, kept, recs, TxtRecord(c));
    SeenMember(kept, recs, t);
    TxtIsMine(owner, kept, c);
    SeenCreated(kept, c);
    forall u | u in seen && IsMine(owner, u) && u.dnsName == c.dnsName
      ensures Parse(u.targets[0]) == c.labels - {NONCE_LABEL}
    {
      var d := CompanionsOf(owner, zone, s, kept, recs, c, u);
    }
    LabelsFound(owner, seen, c.dnsName, c.labels - {NONCE_LABEL});
  }

  lemma CreatedIsRestored(owner: string, zone: Zone, s: seq<Endpoint>, kept: bool, recs: seq<Endpoint>, c: Endpoint)
    requires Reading(owner, zone, s, recs) && SameLabels(s) && CleanAll(s) && c in s
    ensures WithLabels(Found(owner, kept, recs), Seen(kept, c)) == Restored(kept, c)
  {
    CreatedLabelsFound(owner, zone, s, kept, recs, c);
    RestoredBy(kept, c, Found(owner, kept, recs));
  }

  lemma RestoredBy(kept: bool, c: Endpoint, found: map<string, Labels>)
    requires !Strings.HasSuffix(c.dnsName, ".") && CleanTargets(c.targets) == c.targets
    requires c.dnsName in found && found[c.dnsName] == c.labels - {NONCE_LABEL}
    ensures WithLabels(found, Seen(kept, c)) == Restored(kept, c)
  {
    assert Seen(kept, c) == if kept then c else c.(labels := map[]);
    assert c.labels + (c.labels - {NONCE_LABEL}) == c.labels;
    assert map[] + (c.labels - {NONCE_LABEL}) == c.labels - {NONCE_LABEL};
  }

  lemma SameNameNamed(s: seq<Endpoint>, e: Endpoint, c: Endpoint)
    requires e.dnsName == c.dnsName
    ensures NamedFn(s)(e) == NamedFn(s)(c)
  {
  }

  lemma ViewedFrom(owner: string, kept: bool, recs: seq<Endpoint>, e: Endpoint) returns (c: Endpoint)
    requires e in View(owner, SeenAll(kept, recs))
    ensures c in recs && !IsMine(owner, Seen(kept, c))
    ensures e == WithLabels(Found(owner, kept, recs), Seen(kept, c)) && e.dnsName == Seen(kept, c).dnsName
  {
    ViewMember(owner, kept, recs, e);
    c :| c in recs && !IsMine(owner, Seen(kept, c)) && e == WithLabels(Found(owner, kept, recs), Seen(kept, c));
  }

  /** What is read under a created name comes from a created record. */
  lemma ReadNamedIsCreated(owner: string, zone: Zone, s: seq<Endpoint>, kept: bool, recs: seq<Endpoint>, e: Endpoint)
    returns (c: Endpoint)
    requires Reading(owner, zone, s, recs)
    requires e in Filter(NamedFn(s), View(owner, SeenAll(kept, recs)))
    ensures c in s && e == WithLabels(Found(owner, kept, recs), Seen(kept, c))
  {
    FilterMember(NamedFn(s), View(owner, SeenAll(kept, recs)), e);
    c := ViewedFrom(owner, kept, recs, e);
    SameNameNamed(s, e, Seen(kept, c));
    ReadCreated(zone, s, kept, recs, c);
    NotMineIsCreated(owner, kept, s, c);
  }

  /** And every created record is read. */
  lemma CreatedIsRead(owner: string, zone: Zone, s: seq<Endpoint>, kept: bool, recs: seq<Endpoint>, c: Endpoint)
    requires Reading(owner, zone, s, recs) && c in s
    ensures WithLabels(Found(owner, kept, recs), Seen(kept, c)) in Filter(NamedFn(s), View(owner, SeenAll(kept, recs)))
  {
    var e := WithLabels(Found(owner, kept, recs), Seen(kept, c));
    ReadCreated(zone, s, kept, recs, c);
    NotMineIsCreated(owner, kept, s, c);
    ViewMember(owner, kept, recs, e);
    WithTxtsSeen(kept, s, c);
    SameNameNamed(s, e, Seen(kept, c));
    FilterMember(NamedFn(s), View(owner, SeenAll(kept, recs)), e);
  }

  lemma ReadNamedDistinct(owner: string, zone: Zone, s: seq<Endpoint>, kept: bool, recs: seq<Endpoint>)
    requires Reading(owner, zone, s, recs)
    ensures DistinctKeys(Filter(NamedFn(s), View(owner, SeenAll(kept, recs))))
  {
    var found := Found(owner, kept, recs);
    forall r | r in recs && NamedFn(s)(WithLabels(found, Seen(kept, r))) ensures KeyOf(Seen(kept, r)) == KeyOf(r) {
      SameNameNamed(s, WithLabels(found, Seen(kept, r)), Seen(kept, r));
      ReadCreated(zone, s, kept, recs, r);
      WithTxtsSeen(kept, s, r);
    }
    ReadDistinct(owner, kept, found, NamedFn(s), recs);
  }

  /** The reader is not stopped exactly when nothing stored before would stop it. */
  lemma LegibleIff(owner: string, zone: Zone, s: seq<Endpoint>, recs: seq<Endpoint>)
    requires Reading(owner, zone, s, recs)
    ensures AllLegible(recs) <==> LegibleZone(zone)
  {
    NamesFreeKeysFree(zone, s);
    CreatedZone(zone, s);
    var after := Put(zone, WithTxts(s));
    forall k | k in zone ensures zone[k] in recs {
      assert after[k] == (after - KeysOf(WithTxts(s)))[k];
      ListsMember(after, recs, k);
    }
    forall e | e in recs ensures (KeyOf(e) in zone && zone[KeyOf(e)] == e) || e in WithTxts(s) {
      var k := KeyOf(e);
      if k in KeysOf(WithTxts(s)) {
        var o :| o in WithTxts(s) && KeyOf(o) == k;
        assert Get(after, k) == Some(o);
      } else {
        assert after[k] == (after - KeysOf(WithTxts(s)))[k];
      }
    }
    forall o | o in WithTxts(s) ensures Legible(o) { WithTxtsSeen(true, s, o); }
  }

  lemma AllIsReadBack(owner: string, zone: Zone, s: seq<Endpoint>, kept: bool, recs: seq<Endpoint>)
    requires Reading(owner, zone, s, recs) && SameLabels(s) && CleanAll(s) && LegibleZone(zone)
    ensures ReadsBack(owner, s, kept, recs)
  {
    LegibleIff(owner, zone, s, recs);
    ReadNamedDistinct(owner, zone, s, kept, recs);
    forall c | c in s ensures WithLabels(Found(owner, kept, recs), Seen(kept, c)) == Restored(kept, c) {
      CreatedIsRestored(owner, zone, s, kept, recs, c);
    }
    forall e | e in Filter(NamedFn(s), View(owner, SeenAll(kept, recs)))
      ensures exists c :: c in s && e == Restored(kept, c)
    {
      var c := ReadNamedIsCreated(owner, zone, s, kept, recs, e);
    }
    forall c | c in s ensures Restored(kept, c) in Filter(NamedFn(s), View(owner, SeenAll(kept, recs))) {
      CreatedIsRead(owner, zone, s, kept, recs, c);
    }
  }

  // ---- and when not

  lemma {:induction false} SomeListing(zone: Zone) returns (recs: seq<Endpoint>)
    requires Keyed(zone)
    ensures Lists(zone, recs)
    decreases |zone|
  {
    if zone == map[] {
      recs := [];
    } else {
      var k :| k in zone;
      recs := ListingWithLast(zone, k);
    }
  }

  /** A zone can be read in an order that has a given record last. */
  lemma ListingWithLast(zone: Zone, k: Key) returns (recs: seq<Endpoint>)
    requires Keyed(zone) && k in zone
    ensures Lists(zone, recs) && recs != [] && recs[|recs| - 1] == zone[k]
    decreases |zone|, 0
  {
    var rest := zone - {k};
    assert |rest.Keys| == |zone.Keys| - 1 by { assert rest.Keys == zone.Keys - {k}; }
    var front := SomeListing(rest);
    recs := front + [zone[k]];
    ListedOneMore(zone, k, front);
  }

  lemma ListedOneMore(zone: Zone, k: Key, front: seq<Endpoint>)
    requires Keyed(zone) && k in zone && Lists(zone - {k}, front)
    ensures Lists(zone, front + [zone[k]])
  {
    FreshConcat(front, [zone[k]]);
    assert KeysOf(front + [zone[k]]) == KeysOf(front) + {k};
  }

  lemma CreatedIsKeyed(zone: Zone, s: seq<Endpoint>)
    requires AllNameable(s) && DistinctTxtKeys(s) && NamesFree(zone, s) && Keyed(zone)
    ensures Keyed(Put(zone, WithTxts(s)))
    ensures forall e :: e in WithTxts(s) ==> Get(Put(zone, WithTxts(s)), KeyOf(e)) == Some(e)
  {
    NamesFreeKeysFree(zone, s);
    CreatedZone(zone, s);
    PutKeyed(zone, WithTxts(s));
  }

  lemma LastIsFound(owner: string, kept: bool, recs: seq<Endpoint>)
    requires recs != [] && IsMine(owner, Seen(kept, recs[|recs| - 1]))
    ensures var t := Seen(kept, recs[|recs| - 1]);
      t.dnsName in Found(owner, kept, recs) && Found(owner, kept, recs)[t.dnsName] == Parse(t.targets[0])
  {
  }

  /** With the companion of `d` read last, every record of its name gets its labels. */
  lemma LastCompanionWins(owner: string, zone: Zone, s: seq<Endpoint>, kept: bool, d: Endpoint)
    returns (recs: seq<Endpoint>)
    requires Created(owner, s) && NamesFree(zone, s) && Keyed(zone) && d in s
    ensures Reading(owner, zone, s, recs)
    ensures d.dnsName in Found(owner, kept, recs) && Found(owner, kept, recs)[d.dnsName] == d.labels - {NONCE_LABEL}
  {
    CreatedIsKeyed(zone, s);
    TxtPresent(s, d);
    TxtIsMine(owner, kept, d);
    SeenCreated(kept, d);
    assert TxtRecord(d) in WithTxts(s);
    recs := ListingWithLast(Put(zone, WithTxts(s)), TxtKey(d));
    assert recs[|recs| - 1] == TxtRecord(d);
    LastIsFound(owner, kept, recs);
  }

  lemma SameTxtKeySame(s: seq<Endpoint>, x: Endpoint, c: Endpoint)
    requires DistinctTxtKeys(s) && x in s && c in s && TxtKey(x) == TxtKey(c)
    ensures x == c
  {
    var i :| 0 <= i < |s| && s[i] == x;
    var j :| 0 <= j < |s| && s[j] == c;
    assert i == j;
  }

  /** If reading gives the created records back, it gives each of them back. */
  lemma ReadBackIsRestored(owner: string, zone: Zone, s: seq<Endpoint>, kept: bool, recs: seq<Endpoint>, c: Endpoint)
    requires Reading(owner, zone, s, recs) && c in s && ReadsBack(owner, s, kept, recs)
    ensures WithLabels(Found(owner, kept, recs), Seen(kept, c)) == Restored(kept, c)
  {
    var e := WithLabels(Found(owner, kept, recs), Seen(kept, c));
    CreatedIsRead(owner, zone, s, kept, recs, c);
    SeenCreated(kept, c);
    var x :| x in s && e == Restored(kept, x);
    assert KeyOf(x) == KeyOf(c);
    SameTxtKeySame(s, x, c);
  }

  lemma LabelsCovered(kept: bool, c: Endpoint, labels: Labels)
    requires NONCE_LABEL !in labels
    requires Seen(kept, c).labels + labels == Restored(kept, c).labels
    ensures forall x :: x in labels ==> x in c.labels - {NONCE_LABEL} && c.labels[x] == labels[x]
  {
    forall x | x in labels ensures x in c.labels - {NONCE_LABEL} && c.labels[x] == labels[x] {
      assert x in Seen(kept, c).labels + labels && (Seen(kept, c).labels + labels)[x] == labels[x];
    }
  }

  lemma ReadBackSameLabels(owner: string, zone: Zone, s: seq<Endpoint>, kept: bool, c: Endpoint, d: Endpoint)
    requires Created(owner, s) && NamesFree(zone, s) && Keyed(zone)
    requires c in s && d in s && c.dnsName == d.dnsName
    requires AlwaysReadsBack(owner, s, kept, Put(zone, WithTxts(s)))
    ensures forall x :: x in d.labels - {NONCE_LABEL} ==> x in c.labels - {NONCE_LABEL} && c.labels[x] == d.labels[x]
  {
    var recs := LastCompanionWins(owner, zone, s, kept, d);
    ReadBackIsRestored(owner, zone, s, kept, recs, c);
    SeenCreated(kept, c);
    LabelsCovered(kept, c, d.labels - {NONCE_LABEL});
  }

  ghost predicate AlwaysReadsBack(owner: string, created: seq<Endpoint>, kept: bool, zone: Zone) {
    forall recs :: Lists(zone, recs) ==> ReadsBack(owner, created, kept, recs)
  }

  lemma AlwaysReadsBackIff(owner: string, zone: Zone, s: seq<Endpoint>, kept: bool)
    requires Created(owner, s) && NamesFree(zone, s) && Keyed(zone)
    ensures AlwaysReadsBack(owner, s, kept, Put(zone, WithTxts(s)))
       <==> SameLabels(s) && CleanAll(s) && LegibleZone(zone)
  {
    if SameLabels(s) && CleanAll(s) && LegibleZone(zone) {
      forall recs | Lists(Put(zone, WithTxts(s)), recs) ensures ReadsBack(owner, s, kept, recs) {
        AllIsReadBack(owner, zone, s, kept, recs);
      }
    }
    if AlwaysReadsBack(owner, s, kept, Put(zone, WithTxts(s))) {
      ReadBackIsClean(owner, zone, s, kept);
      ReadBackIsSame(owner, zone, s, kept);
    }
  }

  lemma ReadBackIsSame(owner: string, zone: Zone, s: seq<Endpoint>, kept: bool)
    requires Created(owner, s) && NamesFree(zone, s) && Keyed(zone)
    requires AlwaysReadsBack(owner, s, kept, Put(zone, WithTxts(s)))
    ensures SameLabels(s)
  {
    forall c, d | c in s && d in s && c.dnsName == d.dnsName
      ensures c.labels - {NONCE_LABEL} == d.labels - {NONCE_LABEL}
    {
      ReadBackSameLabels(owner, zone, s, kept, c, d);
      ReadBackSameLabels(owner, zone, s, kept, d, c);
      LabelsEqual(c.labels - {NONCE_LABEL}, d.labels - {NONCE_LABEL});
    }
  }

  lemma LabelsEqual(a: Labels, b: Labels)
    requires forall x :: x in a ==> x in b && b[x] == a[x]
    requires forall x :: x in b ==> x in a && a[x] == b[x]
    ensures a == b
  {
  }

  lemma ReadBackIsClean(owner: string, zone: Zone, s: seq<Endpoint>, kept: bool)
    requires Created(owner, s) && NamesFree(zone, s) && Keyed(zone)
    requires AlwaysReadsBack(owner, s, kept, Put(zone, WithTxts(s)))
    ensures CleanAll(s) && LegibleZone(zone)
  {
    CreatedIsKeyed(zone, s);
    var recs := SomeListing(Put(zone, WithTxts(s)));
    assert ReadsBack(owner, s, kept, recs);
    LegibleIff(owner, zone, s, recs);
    forall c | c in s ensures CleanTargets(c.targets) == c.targets {
      ReadBackIsRestored(owner, zone, s, kept, recs, c);
    }
  }

  lemma StampedClean(owner: string, s: seq<Endpoint>)
    ensures CleanAll(StampAll(owner, s)) == CleanAll(s)
  {
    var r := StampAll(owner, s);
    forall i | 0 <= i < |s| ensures s[i] in s && r[i] in r && r[i].targets == s[i].targets {}
  }

  /** Registry round trip.  Creating through the registry where the names are free is
      accepted.  Reading gives exactly the created records back, with their labels and
      the mesh mark, whatever the order of reading, exactly when records of one name
      (with different set identifiers) have the same labels, no target ends in a dot,
      and what was stored before could be read.  So it is with a provider that keeps
      labels, and with one that does not. */
  lemma CreateThenReadIff(owner: string, zone: Zone, s: seq<Endpoint>, kept: bool)
    requires Creatable(owner, s) && NamesFree(zone, s) && Keyed(zone)
    ensures BatchOk(zone, Companion(owner, Changes(s, [], [], [])))
    ensures AlwaysReadsBack(owner, StampAll(owner, s), kept, Apply(zone, Companion(owner, Changes(s, [], [], []))))
       <==> SameLabels(StampAll(owner, s)) && CleanAll(s) && LegibleZone(zone)
  {
    NamesFreeKeysFree(zone, s);
    CreateIsAcceptedIff(owner, zone, s);
    StampedAreCreated(owner, s);
    StampedNamesFree(owner, zone, s);
    StampedClean(owner, s);
    AlwaysReadsBackIff(owner, zone, StampAll(owner, s), kept);
  }

  // ---- deleting what was created

  /** The companion rebuilt from a record that was read, for a deletion or for the
      old side of an update, is the stored one, though the nonce may be lost. */
  lemma RebuiltTxtIsStored(zone: Zone, s: seq<Endpoint>, kept: bool, c: Endpoint)
    requires AllNameable(s) && DistinctTxtKeys(s) && KeysFree(zone, s) && c in s
    ensures Txt(Restored(kept, c)) == [TxtRecord(c)]
    ensures Get(Put(zone, WithTxts(s)), KeyOf(TxtRecord(c))) == Some(TxtRecord(c))
  {
    RestoredTxt(kept, c);
    TxtOf(c);
    TxtPresent(s, c);
    CreatedZone(zone, s);
  }

  lemma RestoredTxt(kept: bool, c: Endpoint)
    ensures Txt(Restored(kept, c)) == Txt(c)
  {
    SerializeSkipsNonce(c.labels, true);
  }

  function RestoredAll(kept: bool, s: seq<Endpoint>): (r: seq<Endpoint>)
    ensures |r| == |s| && forall i :: 0 <= i < |s| ==> r[i] == Restored(kept, s[i])
  {
    seq(|s|, i requires 0 <= i < |s| => Restored(kept, s[i]))
  }

  lemma {:induction false} RestoredTxts(kept: bool, s: seq<Endpoint>)
    ensures Txts(RestoredAll(kept, s)) == Txts(s)
  {
    if s != [] {
      var n := |s| - 1;
      assert RestoredAll(kept, s)[..n] == RestoredAll(kept, s[..n]);
      RestoredTxts(kept, s[..n]);
      RestoredTxt(kept, s[n]);
    }
  }

  lemma RestoredOneMore(kept: bool, s: seq<Endpoint>, c: Endpoint)
    ensures RestoredAll(kept, s + [c]) == RestoredAll(kept, s) + [Restored(kept, c)]
  {
  }

  lemma {:induction false} RestoredOwned(owner: string, kept: bool, s: seq<Endpoint>)
    ensures Filter(OwnedFn(owner), RestoredAll(kept, s)) == RestoredAll(kept, Filter(OwnedFn(owner), s))
  {
    if s != [] {
      var own, front, last := OwnedFn(owner), s[..|s| - 1], s[|s| - 1];
      RestoredOwned(owner, kept, front);
      assert s == front + [last];
      RestoredOneMore(kept, front, last);
      FilterAppended(own, RestoredAll(kept, front), Restored(kept, last));
      FilterAppended(own, front, last);
      RestoredOneMore(kept, Filter(own, front), last);
    }
  }

  /** Deleting what was read is deleting what was created. */
  lemma DeletesAlike(zone: Zone, s: seq<Endpoint>, kept: bool)
    ensures BatchOk(zone, Changes([], [], [], WithTxts(RestoredAll(kept, s))))
       <==> BatchOk(zone, Changes([], [], [], WithTxts(s)))
    ensures KeysOf(WithTxts(RestoredAll(kept, s))) == KeysOf(WithTxts(s))
  {
    RestoredTxts(kept, s);
    AlikeDeletes(zone, WithTxts(RestoredAll(kept, s)), WithTxts(s));
  }

  predicate AlikeInKeys(a: seq<Endpoint>, b: seq<Endpoint>) {
    |a| == |b| && forall i :: 0 <= i < |a| ==> KeyOf(a[i]) == KeyOf(b[i]) && a[i].targets == b[i].targets
  }

  lemma AlikeKeys(a: seq<Endpoint>, b: seq<Endpoint>)
    requires AlikeInKeys(a, b)
    ensures DistinctKeys(a) ==> DistinctKeys(b)
    ensures KeysOf(a) <= KeysOf(b)
  {
    forall k | k in KeysOf(a) ensures k in KeysOf(b) {
      var i :| 0 <= i < |a| && KeyOf(a[i]) == k;
      assert b[i] in b;
    }
  }

  lemma AlikeHeads(zone: Zone, a: seq<Endpoint>, b: seq<Endpoint>)
    requires AlikeInKeys(a, b) && forall e :: e in a ==> HeadMatches(zone, e)
    ensures forall e :: e in b ==> HeadMatches(zone, e)
  {
    forall e | e in b ensures HeadMatches(zone, e) {
      var i :| 0 <= i < |b| && b[i] == e;
      assert a[i] in a;
    }
  }

  lemma DeletesOk(zone: Zone, s: seq<Endpoint>)
    ensures BatchOk(zone, Changes([], [], [], s)) <==> DistinctKeys(s) && forall e :: e in s ==> HeadMatches(zone, e)
  {
    assert [] + [] + s == s;
  }

  lemma AlikeDeletes(zone: Zone, a: seq<Endpoint>, b: seq<Endpoint>)
    requires AlikeInKeys(a, b) && AlikeInKeys(b, a)
    ensures BatchOk(zone, Changes([], [], [], a)) <==> BatchOk(zone, Changes([], [], [], b))
    ensures KeysOf(a) == KeysOf(b)
  {
    AlikeKeys(a, b);
    AlikeKeys(b, a);
    DeletesOk(zone, a);
    DeletesOk(zone, b);
    if BatchOk(zone, Changes([], [], [], a)) { AlikeHeads(zone, a, b); }
    if BatchOk(zone, Changes([], [], [], b)) { AlikeHeads(zone, b, a); }
  }

  lemma {:induction false} MineIsCreatable(owner: string, s: seq<Endpoint>)
    requires AllNameable(s) && DistinctTxtKeys(s)
    ensures AllNameable(Filter(OwnedFn(owner), s)) && DistinctTxtKeys(Filter(OwnedFn(owner), s))
  {
    if s != [] {
      var front, last := s[..|s| - 1], s[|s| - 1];
      assert forall c :: c in front ==> c in s;
      MineIsCreatable(owner, front);
      forall x | x in front ensures TxtKey(x) != TxtKey(last) {
        var i :| 0 <= i < |front| && front[i] == x;
        assert s[i] == x;
      }
    }
  }

  lemma DeleteAccepted(owner: string, zone: Zone, s: seq<Endpoint>)
    requires AllNameable(s) && DistinctTxtKeys(s) && KeysFree(zone, s) && forall c :: c in s ==> c.targets != []
    ensures BatchOk(Put(zone, WithTxts(s)), Changes([], [], [], WithTxts(Filter(OwnedFn(owner), s))))
  {
    var mine, created := Filter(OwnedFn(owner), s), Put(zone, WithTxts(s));
    CreatedZone(zone, s);
    MineIsCreatable(owner, s);
    WithTxtsDistinctIff(mine);
    forall e | e in WithTxts(mine) ensures HeadMatches(created, e) {
      if e in mine {
        assert e in s && e in WithTxts(s);
      } else {
        var c := TxtMember(mine, e);
        RebuiltTxtIsStored(zone, s, true, c);
        assert e.targets != [];
      }
    }
    assert [] + [] + WithTxts(mine) == WithTxts(mine);
  }

  lemma UnownedStays(owner: string, zone: Zone, s: seq<Endpoint>, c: Endpoint)
    requires AllNameable(s) && DistinctTxtKeys(s) && KeysFree(zone, s) && c in s && !IsOwnedBy(c, owner)
    ensures KeyOf(c) !in zone
    ensures KeyOf(c) in Put(zone, WithTxts(s)) - KeysOf(WithTxts(Filter(OwnedFn(owner), s)))
  {
    var mine := Filter(OwnedFn(owner), s);
    CreatedZone(zone, s);
    assert c in WithTxts(s);
    MineIsCreatable(owner, s);
    forall e | e in WithTxts(mine) ensures KeyOf(e) != KeyOf(c) {
      if e in mine {
        if KeyOf(e) == KeyOf(c) { SameTxtKeySame(s, e, c); }
      } else {
        var x := TxtMember(mine, e);
      }
    }
  }

  /** Deleting, through the registry, records it created. */
  lemma DeleteRestoresIff(owner: string, zone: Zone, s: seq<Endpoint>)
    requires AllNameable(s) && DistinctTxtKeys(s) && KeysFree(zone, s)
    ensures Put(zone, WithTxts(s)) - KeysOf(WithTxts(Filter(OwnedFn(owner), s))) == zone
       <==> forall c :: c in s ==> IsOwnedBy(c, owner)
  {
    if forall c :: c in s ==> IsOwnedBy(c, owner) {
      FilterAll(OwnedFn(owner), s);
      CreatedZone(zone, s);
    } else {
      var c :| c in s && !IsOwnedBy(c, owner);
      UnownedStays(owner, zone, s, c);
    }
  }

  lemma StampedOwners(owner: string, s: seq<Endpoint>)
    ensures (forall c :: c in StampAll(owner, s) ==> IsOwnedBy(c, owner))
      <==> (forall c :: c in s ==> IsOwnedBy(c, owner))
    ensures (forall c :: c in s ==> c.targets != []) ==> forall c :: c in StampAll(owner, s) ==> c.targets != []
  {
    var r := StampAll(owner, s);
    forall i | 0 <= i < |s| ensures s[i] in s && r[i] in r && IsOwnedBy(r[i], owner) == IsOwnedBy(s[i], owner) {}
  }

  /** Creating and then deleting through the registry what is read back restores the
      zone exactly when every record carried the registry's own owner label: the
      deletion is filtered by `owner`, which creation does not set. */
  lemma DeleteUndoesCreateIff(owner: string, zone: Zone, s: seq<Endpoint>, kept: bool)
    requires AllNameable(s) && DistinctTxtKeys(s) && KeysFree(zone, s) && forall c :: c in s ==> c.targets != []
    ensures var created := Apply(zone, Companion(owner, Changes(s, [], [], [])));
      var ch := Companion(owner, Changes([], [], [], RestoredAll(kept, StampAll(owner, s))));
      && BatchOk(created, ch)
      && (Apply(created, ch) == zone <==> forall c :: c in s ==> IsOwnedBy(c, owner))
  {
    var stamped := StampAll(owner, s);
    CreateIsAcceptedIff(owner, zone, s);
    StampedAt(owner, s);
    StampedFree(owner, zone, s);
    StampedOwners(owner, s);
    var mine := Filter(OwnedFn(owner), stamped);
    RestoredOwned(owner, kept, stamped);
    assert Companion(owner, Changes([], [], [], RestoredAll(kept, stamped)))
        == Changes([], [], [], WithTxts(RestoredAll(kept, mine)));
    DeleteAccepted(owner, zone, stamped);
    DeletesAlike(Put(zone, WithTxts(stamped)), mine, kept);
    DeleteRestoresIff(owner, zone, stamped);
  }

  // ---- updating

  /** A stored companion has the text of the labels of `o` in front. */
  ghost predicate CompanionMatches(zone: Zone, o: Endpoint) {
    && TxtKey(o) in zone && zone[TxtKey(o)].targets != []
    && zone[TxtKey(o)].targets[0] == Serialize(o.labels, true)
  }

  lemma CompanionMatchesIff(zone: Zone, o: Endpoint)
    requires Nameable(o)
    ensures HeadMatches(zone, TxtRecord(o)) <==> CompanionMatches(zone, o)
    ensures TxtRecord(o).targets == [Serialize(o.labels, true)] && KeyOf(TxtRecord(o)) == TxtKey(o)
  {
    SeenCreated(true, o);
    TxtOf(o);
    var text := Serialize(o.labels, true);
    assert text[|text| - 1] == '\"';
    assert !Strings.HasSuffix(text, ".");
  }

  lemma CompanionOfUpdates(owner: string, olds: seq<Endpoint>, news: seq<Endpoint>)
    ensures Companion(owner, Changes([], olds, news, []))
         == Changes([], WithTxts(Filter(OwnedFn(owner), olds)), WithTxts(Filter(OwnedFn(owner), news)), [])
  {
  }

  lemma UpdatesOk(zone: Zone, olds: seq<Endpoint>, news: seq<Endpoint>)
    ensures BatchOk(zone, Changes([], olds, news, [])) <==>
      && DistinctKeys(news) && (forall n :: n in news ==> KeyOf(n) in zone)
      && (forall o :: o in olds ==> HeadMatches(zone, o))
  {
    assert [] + news + [] == news;
  }

  /** All records of a list have something, and so have their companions. */
  lemma WithTxtsHave(s: seq<Endpoint>, has: iset<Endpoint>)
    requires AllNameable(s)
    ensures (forall e :: e in WithTxts(s) ==> e in has) <==> forall c :: c in s ==> c in has && TxtRecord(c) in has
  {
    if forall e :: e in WithTxts(s) ==> e in has {
      forall c | c in s ensures c in has && TxtRecord(c) in has { TxtPresent(s, c); }
    }
    if forall c :: c in s ==> c in has && TxtRecord(c) in has {
      forall e | e in WithTxts(s) ensures e in has {
        if e !in s { var c := TxtMember(s, e); }
      }
    }
  }

  lemma OwnedNameable(owner: string, s: seq<Endpoint>)
    requires AllNameable(s)
    ensures AllNameable(Filter(OwnedFn(owner), s))
    ensures forall e :: e in Filter(OwnedFn(owner), s) <==> e in s && IsOwnedBy(e, owner)
  {
    forall e ensures e in Filter(OwnedFn(owner), s) <==> e in s && IsOwnedBy(e, owner) {
      FilterMember(OwnedFn(owner), s, e);
    }
  }

  /** Which updates the provider accepts through the registry: of the owned ones, the
      new sides must differ in name or set identifier and be stored with companions,
      and the old sides must have the stored first target and the stored labels. */
  lemma UpdateIsAcceptedIff(owner: string, zone: Zone, olds: seq<Endpoint>, news: seq<Endpoint>)
    requires AllNameable(olds) && AllNameable(news)
    ensures BatchOk(zone, Companion(owner, Changes([], olds, news, []))) <==>
      && DistinctTxtKeys(Filter(OwnedFn(owner), news))
      && (forall n :: n in news && IsOwnedBy(n, owner) ==> KeyOf(n) in zone && TxtKey(n) in zone)
      && (forall o :: o in olds && IsOwnedBy(o, owner) ==> HeadMatches(zone, o) && CompanionMatches(zone, o))
  {
    var mo, mn := Filter(OwnedFn(owner), olds), Filter(OwnedFn(owner), news);
    OwnedNameable(owner, olds);
    OwnedNameable(owner, news);
    CompanionOfUpdates(owner, olds, news);
    UpdatesOk(zone, WithTxts(mo), WithTxts(mn));
    WithTxtsDistinctIff(mn);
    WithTxtsHave(mn, iset e: Endpoint | KeyOf(e) in zone);
    WithTxtsHave(mo, iset e: Endpoint | HeadMatches(zone, e));
    forall n | n in mn ensures KeyOf(TxtRecord(n)) == TxtKey(n) { TxtOf(n); }
    forall o | o in mo ensures HeadMatches(zone, TxtRecord(o)) <==> CompanionMatches(zone, o) {
      CompanionMatchesIff(zone, o);
    }
  }

  /** What an accepted update leaves: the owned new sides, with companions that hold
      their labels. */
  lemma UpdateIsStored(owner: string, zone: Zone, olds: seq<Endpoint>, news: seq<Endpoint>, n: Endpoint)
    requires AllNameable(olds) && AllNameable(news) && n in news && IsOwnedBy(n, owner)
    requires BatchOk(zone, Companion(owner, Changes([], olds, news, [])))
    ensures var after := Apply(zone, Companion(owner, Changes([], olds, news, [])));
      && Get(after, KeyOf(n)) == Some(n)
      && TxtKey(n) in after && after[TxtKey(n)].targets == [Serialize(n.labels, true)]
  {
    var ch, mn := Companion(owner, Changes([], olds, news, [])), Filter(OwnedFn(owner), news);
    CompanionOfUpdates(owner, olds, news);
    OwnedNameable(owner, news);
    TxtPresent(mn, n);
    CompanionMatchesIff(zone, n);
    UpdatedIsThere(zone, ch, n);
    UpdatedIsThere(zone, ch, TxtRecord(n));
  }

  lemma UpdatedIsThere(zone: Zone, ch: Changes, e: Endpoint)
    requires BatchOk(zone, ch) && e in ch.updateNew
    ensures Get(Apply(zone, ch), KeyOf(e)) == Some(e)
  {
    ApplyAt(zone, ch);
  }

  lemma UnmentionedStays(zone: Zone, ch: Changes, k: Key)
    requires BatchOk(zone, ch) && ch.create == [] && ch.delete == []
    requires forall e :: e in ch.updateNew ==> KeyOf(e) != k
    ensures Get(Apply(zone, ch), k) == Get(zone, k)
  {
    ApplyAt(zone, ch);
    assert KeysOf(ch.create) == {} && KeysOf(ch.delete) == {};
  }

  /** Everything else stays as it is, and so unowned updates do nothing. */
  lemma UpdateLeavesOthers(owner: string, zone: Zone, olds: seq<Endpoint>, news: seq<Endpoint>, k: Key)
    requires AllNameable(news) && BatchOk(zone, Companion(owner, Changes([], olds, news, [])))
    requires forall m :: m in news && IsOwnedBy(m, owner) ==> k != KeyOf(m) && k != TxtKey(m)
    ensures Get(Apply(zone, Companion(owner, Changes([], olds, news, []))), k) == Get(zone, k)
  {
    var ch, mn := Companion(owner, Changes([], olds, news, [])), Filter(OwnedFn(owner), news);
    CompanionOfUpdates(owner, olds, news);
    OwnedNameable(owner, news);
    forall e | e in ch.updateNew ensures KeyOf(e) != k {
      if e !in mn { var c := TxtMember(mn, e); }
    }
    UnmentionedStays(zone, ch, k);
  }

  /** Updating what was created and read back is accepted, whatever the new sides are. */
  lemma CreateThenUpdate(owner: string, zone: Zone, s: seq<Endpoint>, kept: bool, news: seq<Endpoint>)
    requires AllNameable(s) && DistinctTxtKeys(s) && KeysFree(zone, s) && forall c :: c in s ==> c.targets != []
    requires |news| == |s| && forall i :: 0 <= i < |s| ==> KeyOf(news[i]) == KeyOf(s[i])
    ensures var created := Apply(zone, Companion(owner, Changes(s, [], [], [])));
      BatchOk(created, Companion(owner, Changes([], RestoredAll(kept, StampAll(owner, s)), news, [])))
  {
    var stamped := StampAll(owner, s);
    CreateIsAcceptedIff(owner, zone, s);
    StampedAt(owner, s);
    StampedFree(owner, zone, s);
    forall i | 0 <= i < |s| ensures stamped[i].targets != [] && KeyOf(news[i]) == KeyOf(stamped[i]) {
      assert s[i] in s;
    }
    StoredThenUpdate(owner, zone, stamped, kept, news);
  }

  lemma StoredThenUpdate(owner: string, zone: Zone, s: seq<Endpoint>, kept: bool, news: seq<Endpoint>)
    requires AllNameable(s) && DistinctTxtKeys(s) && KeysFree(zone, s)
    requires |news| == |s| && forall i :: 0 <= i < |s| ==> s[i].targets != [] && KeyOf(news[i]) == KeyOf(s[i])
    ensures BatchOk(Put(zone, WithTxts(s)), Companion(owner, Changes([], RestoredAll(kept, s), news, [])))
  {
    var created, olds := Put(zone, WithTxts(s)), RestoredAll(kept, s);
    forall n | n in news ensures Nameable(n) && KeyOf(n) in created && TxtKey(n) in created {
      var i :| 0 <= i < |news| && news[i] == n;
      StoredWithTxt(zone, s, s[i]);
    }
    forall o | o in olds ensures Nameable(o) && HeadMatches(created, o) && CompanionMatches(created, o) {
      var i :| 0 <= i < |olds| && olds[i] == o;
      RestoredMatches(zone, s, kept, i);
    }
    KeysDistinct(owner, s, news);
    UpdateIsAcceptedIff(owner, created, olds, news);
  }

  lemma StoredWithTxt(zone: Zone, s: seq<Endpoint>, c: Endpoint)
    requires AllNameable(s) && DistinctTxtKeys(s) && KeysFree(zone, s) && c in s
    ensures KeyOf(c) in Put(zone, WithTxts(s)) && TxtKey(c) in Put(zone, WithTxts(s))
  {
    CreatedZone(zone, s);
    TxtPresent(s, c);
    assert c in WithTxts(s) && TxtRecord(c) in WithTxts(s);
  }

  lemma RestoredMatches(zone: Zone, s: seq<Endpoint>, kept: bool, i: nat)
    requires AllNameable(s) && DistinctTxtKeys(s) && KeysFree(zone, s) && i < |s| && s[i].targets != []
    ensures var o, created := Restored(kept, s[i]), Put(zone, WithTxts(s));
      Nameable(o) && HeadMatches(created, o) && CompanionMatches(created, o)
  {
    var c, o := s[i], Restored(kept, s[i]);
    assert c in s && c in WithTxts(s);
    CreatedZone(zone, s);
    RebuiltTxtIsStored(zone, s, kept, c);
    TxtOf(o);
    CompanionMatchesIff(Put(zone, WithTxts(s)), o);
  }

  lemma KeysDistinct(owner: string, s: seq<Endpoint>, news: seq<Endpoint>)
    requires DistinctTxtKeys(s) && AllNameable(news)
    requires |news| == |s| && forall i :: 0 <= i < |s| ==> KeyOf(news[i]) == KeyOf(s[i])
    ensures DistinctTxtKeys(Filter(OwnedFn(owner), news))
  {
    forall i, j | 0 <= i < j < |news| ensures TxtKey(news[i]) != TxtKey(news[j]) {
      assert TxtKey(s[i]) != TxtKey(s[j]);
      assert KeyOf(news[i]) == KeyOf(s[i]) && KeyOf(news[j]) == KeyOf(s[j]);
    }
    MineIsCreatable(owner, news);
  }
}
