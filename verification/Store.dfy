/** One zone of the in-memory provider as a value: what a batch must satisfy and
    what applying it does (pkg/mem/inmemory.go). */
module Store {
  import opened Wrappers
  import opened Sorting
  import opened Endpoints

  type Zone = map<Key, Endpoint>

  /** `Panic` stands for a nil pointer or an index out of range in the source. */
  datatype Error =
    | ZoneAlreadyExists
    | ZoneNotFound
    | RecordAlreadyExists
    | RecordNotFound
    | DuplicateRecordFound
    | Panic

  /** Records sit under their own keys. */
  predicate Keyed(zone: Zone) {
    forall k :: k in zone ==> KeyOf(zone[k]) == k
  }

  function Get(zone: Zone, k: Key): Option<Endpoint> {
    if k in zone then Some(zone[k]) else None
  }

  // ---- validation, list by list; `mesh` is the set of keys met so far

  function CreateError(zone: Zone, s: seq<Endpoint>, mesh: set<Key>): Option<Error> {
    if s == [] then None
    else if KeyOf(s[0]) in zone then Some(RecordAlreadyExists)
    else if KeyOf(s[0]) in mesh then Some(DuplicateRecordFound)
    else CreateError(zone, s[1..], mesh + {KeyOf(s[0])})
  }

  function UpdateNewError(zone: Zone, s: seq<Endpoint>, mesh: set<Key>): Option<Error> {
    if s == [] then None
    else if KeyOf(s[0]) !in zone then Some(RecordNotFound)
    else if KeyOf(s[0]) in mesh then Some(DuplicateRecordFound)
    else UpdateNewError(zone, s[1..], mesh + {KeyOf(s[0])})
  }

  /** The stored record must exist and have the same first target. */
  function HeadError(zone: Zone, e: Endpoint): Option<Error> {
    if KeyOf(e) !in zone then Some(RecordNotFound)
    else if zone[KeyOf(e)].targets == [] || e.targets == [] then Some(Panic)
    else if zone[KeyOf(e)].targets[0] != e.targets[0] then Some(RecordNotFound)
    else None
  }

  function UpdateOldError(zone: Zone, s: seq<Endpoint>): Option<Error> {
    if s == [] then None
    else if HeadError(zone, s[0]).Some? then HeadError(zone, s[0])
    else UpdateOldError(zone, s[1..])
  }

  function DeleteError(zone: Zone, s: seq<Endpoint>, mesh: set<Key>): Option<Error> {
    if s == [] then None
    else if HeadError(zone, s[0]).Some? then HeadError(zone, s[0])
    else if KeyOf(s[0]) in mesh then Some(DuplicateRecordFound)
    else DeleteError(zone, s[1..], mesh + {KeyOf(s[0])})
  }

  /** The first complaint about a batch, in the order of the four loops. */
  function BatchError(zone: Zone, ch: Changes): Option<Error> {
    var created := KeysOf(ch.create);
    var updated := created + KeysOf(ch.updateNew);
    if CreateError(zone, ch.create, {}).Some? then CreateError(zone, ch.create, {})
    else if UpdateNewError(zone, ch.updateNew, created).Some? then UpdateNewError(zone, ch.updateNew, created)
    else if UpdateOldError(zone, ch.updateOld).Some? then UpdateOldError(zone, ch.updateOld)
    else DeleteError(zone, ch.delete, updated)
  }

  predicate DistinctKeys(s: seq<Endpoint>) {
    forall i, j :: 0 <= i < j < |s| ==> KeyOf(s[i]) != KeyOf(s[j])
  }

  predicate HeadMatches(zone: Zone, e: Endpoint) {
    KeyOf(e) in zone && e.targets != [] && zone[KeyOf(e)].targets != [] && zone[KeyOf(e)].targets[0] == e.targets[0]
  }

  /** What is created is new, what is updated or deleted is there, and no record
      is mentioned twice. */
  predicate Placeable(zone: Zone, ch: Changes) {
    && (forall e :: e in ch.create ==> KeyOf(e) !in zone)
    && (forall e :: e in ch.updateNew ==> KeyOf(e) in zone)
    && (forall e :: e in ch.delete ==> HeadMatches(zone, e))
    && DistinctKeys(ch.create + ch.updateNew + ch.delete)
  }

  /** What the provider promises of an accepted batch: in addition the old sides of
      updates are there. */
  predicate BatchOk(zone: Zone, ch: Changes) {
    Placeable(zone, ch) && forall e :: e in ch.updateOld ==> HeadMatches(zone, e)
  }

  predicate Fresh(s: seq<Endpoint>, mesh: set<Key>) {
    DistinctKeys(s) && forall e :: e in s ==> KeyOf(e) !in mesh
  }

  lemma FreshStep(s: seq<Endpoint>, mesh: set<Key>)
    requires s != []
    ensures Fresh(s, mesh) <==> KeyOf(s[0]) !in mesh && Fresh(s[1..], mesh + {KeyOf(s[0])})
  {
    if Fresh(s, mesh) {
      forall e | e in s[1..] ensures KeyOf(e) !in mesh + {KeyOf(s[0])} {
        var i :| 0 <= i < |s[1..]| && s[1..][i] == e;
        assert s[i + 1] == e;
      }
    }
    if KeyOf(s[0]) !in mesh && Fresh(s[1..], mesh + {KeyOf(s[0])}) {
      forall i, j | 0 <= i < j < |s| ensures KeyOf(s[i]) != KeyOf(s[j]) {
        assert s[j] == s[1..][j - 1];
        assert i > 0 ==> s[i] == s[1..][i - 1];
      }
      assert forall e :: e in s ==> e == s[0] || e in s[1..];
    }
  }

  lemma {:induction false} CreateErrorMeans(zone: Zone, s: seq<Endpoint>, mesh: set<Key>)
    ensures CreateError(zone, s, mesh).None? <==> Fresh(s, mesh) && forall e :: e in s ==> KeyOf(e) !in zone
  {
    if s != [] {
      FreshStep(s, mesh);
      CreateErrorMeans(zone, s[1..], mesh + {KeyOf(s[0])});
      assert forall e :: e in s <==> e == s[0] || e in s[1..];
    }
  }

  lemma {:induction false} UpdateNewErrorMeans(zone: Zone, s: seq<Endpoint>, mesh: set<Key>)
    ensures UpdateNewError(zone, s, mesh).None? <==> Fresh(s, mesh) && forall e :: e in s ==> KeyOf(e) in zone
  {
    if s != [] {
      FreshStep(s, mesh);
      UpdateNewErrorMeans(zone, s[1..], mesh + {KeyOf(s[0])});
      assert forall e :: e in s <==> e == s[0] || e in s[1..];
    }
  }

  lemma {:induction false} UpdateOldErrorMeans(zone: Zone, s: seq<Endpoint>)
    ensures UpdateOldError(zone, s).None? <==> forall e :: e in s ==> HeadMatches(zone, e)
  {
    if s != [] {
      UpdateOldErrorMeans(zone, s[1..]);
      assert HeadError(zone, s[0]).None? <==> HeadMatches(zone, s[0]);
      assert forall e :: e in s <==> e == s[0] || e in s[1..];
    }
  }

  lemma {:induction false} DeleteErrorMeans(zone: Zone, s: seq<Endpoint>, mesh: set<Key>)
    ensures DeleteError(zone, s, mesh).None? <==> Fresh(s, mesh) && forall e :: e in s ==> HeadMatches(zone, e)
  {
    if s != [] {
      FreshStep(s, mesh);
      DeleteErrorMeans(zone, s[1..], mesh + {KeyOf(s[0])});
      assert forall e :: e in s <==> e == s[0] || e in s[1..];
    }
  }

  lemma FreshConcat(a: seq<Endpoint>, b: seq<Endpoint>)
    ensures DistinctKeys(a + b) <==> DistinctKeys(a) && Fresh(b, KeysOf(a))
  {
    var s := a + b;
    if DistinctKeys(s) {
      forall i, j | 0 <= i < j < |a| ensures KeyOf(a[i]) != KeyOf(a[j]) {
        assert s[i] == a[i] && s[j] == a[j];
      }
      forall i, j | 0 <= i < j < |b| ensures KeyOf(b[i]) != KeyOf(b[j]) {
        assert s[|a| + i] == b[i] && s[|a| + j] == b[j];
      }
      forall x, e | x in a && e in b ensures KeyOf(x) != KeyOf(e) {
        var i :| 0 <= i < |a| && a[i] == x;
        var j :| 0 <= j < |b| && b[j] == e;
        assert s[i] == x && s[|a| + j] == e;
      }
    }
    if DistinctKeys(a) && Fresh(b, KeysOf(a)) {
      forall i, j | 0 <= i < j < |s| ensures KeyOf(s[i]) != KeyOf(s[j]) {
        if i < |a| <= j {
          assert s[i] in a && s[j] in b;
          assert KeyOf(s[i]) in KeysOf(a);
        }
      }
    }
  }

  /** The four loops accept exactly the batches the provider promises to accept. */
  lemma ValidationIsExact(zone: Zone, ch: Changes)
    ensures BatchError(zone, ch).None? <==> BatchOk(zone, ch)
  {
    CreateErrorMeans(zone, ch.create, {});
    UpdateNewErrorMeans(zone, ch.updateNew, KeysOf(ch.create));
    UpdateOldErrorMeans(zone, ch.updateOld);
    DeleteErrorMeans(zone, ch.delete, KeysOf(ch.create) + KeysOf(ch.updateNew));
    FreshConcat(ch.create, ch.updateNew);
    FreshConcat(ch.create + ch.updateNew, ch.delete);
    assert KeysOf(ch.create + ch.updateNew) == KeysOf(ch.create) + KeysOf(ch.updateNew);
  }

  // ---- what a complaint says

  lemma {:induction false} CreateErrorSays(zone: Zone, s: seq<Endpoint>, mesh: set<Key>)
    ensures match CreateError(zone, s, mesh)
      case None => true
      case Some(RecordAlreadyExists) => exists e :: e in s && KeyOf(e) in zone
      case Some(DuplicateRecordFound) => !Fresh(s, mesh)
      case Some(_) => false
  {
    if s != [] {
      CreateErrorSays(zone, s[1..], mesh + {KeyOf(s[0])});
      FreshStep(s, mesh);
      assert s[0] in s;
    }
  }

  lemma {:induction false} UpdateNewErrorSays(zone: Zone, s: seq<Endpoint>, mesh: set<Key>)
    ensures match UpdateNewError(zone, s, mesh)
      case None => true
      case Some(RecordNotFound) => exists e :: e in s && KeyOf(e) !in zone
      case Some(DuplicateRecordFound) => !Fresh(s, mesh)
      case Some(_) => false
  {
    if s != [] {
      UpdateNewErrorSays(zone, s[1..], mesh + {KeyOf(s[0])});
      FreshStep(s, mesh);
      assert s[0] in s;
    }
  }

  /** The record is not there, or there with another first target. */
  predicate NotFound(zone: Zone, e: Endpoint) {
    KeyOf(e) !in zone
    || (zone[KeyOf(e)].targets != [] && e.targets != [] && zone[KeyOf(e)].targets[0] != e.targets[0])
  }

  /** One of the two has no first target. */
  predicate Targetless(zone: Zone, e: Endpoint) {
    KeyOf(e) in zone && (zone[KeyOf(e)].targets == [] || e.targets == [])
  }

  lemma {:induction false} UpdateOldErrorSays(zone: Zone, s: seq<Endpoint>)
    ensures match UpdateOldError(zone, s)
      case None => true
      case Some(RecordNotFound) => exists e :: e in s && NotFound(zone, e)
      case Some(Panic) => exists e :: e in s && Targetless(zone, e)
      case Some(_) => false
  {
    if s != [] {
      UpdateOldErrorSays(zone, s[1..]);
      assert s[0] in s;
    }
  }

  lemma {:induction false} DeleteErrorSays(zone: Zone, s: seq<Endpoint>, mesh: set<Key>)
    ensures match DeleteError(zone, s, mesh)
      case None => true
      case Some(RecordNotFound) => exists e :: e in s && NotFound(zone, e)
      case Some(Panic) => exists e :: e in s && Targetless(zone, e)
      case Some(DuplicateRecordFound) => !Fresh(s, mesh)
      case Some(_) => false
  {
    if s != [] {
      DeleteErrorSays(zone, s[1..], mesh + {KeyOf(s[0])});
      FreshStep(s, mesh);
      assert s[0] in s;
    }
  }

  /** What the error of a refused batch says: something created is there, something
      updated or deleted is not or has another first target, something is named
      twice, or a target list that is looked at is empty. */
  lemma ErrorSays(zone: Zone, ch: Changes)
    ensures match BatchError(zone, ch)
      case None => BatchOk(zone, ch)
      case Some(RecordAlreadyExists) => exists e :: e in ch.create && KeyOf(e) in zone
      case Some(RecordNotFound) =>
        || (exists e :: e in ch.updateNew && KeyOf(e) !in zone)
        || (exists e :: e in ch.updateOld + ch.delete && NotFound(zone, e))
      case Some(DuplicateRecordFound) => !DistinctKeys(ch.create + ch.updateNew + ch.delete)
      case Some(Panic) => exists e :: e in ch.updateOld + ch.delete && Targetless(zone, e)
      case Some(_) => false
  {
    ValidationIsExact(zone, ch);
    CreateErrorSays(zone, ch.create, {});
    UpdateNewErrorSays(zone, ch.updateNew, KeysOf(ch.create));
    UpdateOldErrorSays(zone, ch.updateOld);
    DeleteErrorSays(zone, ch.delete, KeysOf(ch.create) + KeysOf(ch.updateNew));
    FreshConcat(ch.create, ch.updateNew);
    FreshConcat(ch.create + ch.updateNew, ch.delete);
    assert KeysOf(ch.create + ch.updateNew) == KeysOf(ch.create) + KeysOf(ch.updateNew);
  }

  // ---- application

  function Put(zone: Zone, s: seq<Endpoint>): Zone {
    if s == [] then zone else Put(zone, s[..|s| - 1])[KeyOf(s[|s| - 1]) := s[|s| - 1]]
  }

  function Apply(zone: Zone, ch: Changes): Zone {
    Put(Put(zone, ch.create), ch.updateNew) - KeysOf(ch.delete)
  }

  /** The zone a batch leaves, accepted or refused. */
  function After(zone: Zone, ch: Changes): Zone {
    if BatchError(zone, ch).None? then Apply(zone, ch) else zone
  }

  lemma {:induction false} PutAt(zone: Zone, s: seq<Endpoint>)
    requires DistinctKeys(s)
    ensures Put(zone, s).Keys == zone.Keys + KeysOf(s)
    ensures forall e :: e in s ==> Put(zone, s)[KeyOf(e)] == e
    ensures forall k :: k in zone && k !in KeysOf(s) ==> Put(zone, s)[k] == zone[k]
  {
    if s != [] {
      var front, last := s[..|s| - 1], s[|s| - 1];
      assert s == front + [last];
      FreshConcat(front, [last]);
      PutAt(zone, front);
      assert KeysOf(s) == KeysOf(front) + {KeyOf(last)};
      assert Put(zone, s) == Put(zone, front)[KeyOf(last) := last];
      forall e | e in s ensures Put(zone, s)[KeyOf(e)] == e {
        if e in front { assert KeyOf(e) in KeysOf(front); }
      }
    }
  }

  lemma {:induction false} DistinctFilter(keep: Endpoint -> bool, s: seq<Endpoint>)
    requires DistinctKeys(s)
    ensures DistinctKeys(Filter(keep, s))
  {
    if s != [] {
      var front, last := s[..|s| - 1], s[|s| - 1];
      DistinctFilter(keep, front);
      forall x | x in front ensures KeyOf(x) != KeyOf(last) {
        var i :| 0 <= i < |front| && front[i] == x;
        assert s[i] == x;
      }
    }
  }

  /** The three lists of an accepted batch name different keys. */
  lemma ListsApart(zone: Zone, ch: Changes)
    requires Placeable(zone, ch)
    ensures DistinctKeys(ch.create) && DistinctKeys(ch.updateNew) && DistinctKeys(ch.delete)
    ensures KeysOf(ch.create) !! KeysOf(ch.updateNew) !! KeysOf(ch.delete)
    ensures KeysOf(ch.updateNew) <= zone.Keys
  {
    FreshConcat(ch.create, ch.updateNew);
    FreshConcat(ch.create + ch.updateNew, ch.delete);
    assert KeysOf(ch.create + ch.updateNew) == KeysOf(ch.create) + KeysOf(ch.updateNew);
  }

  /** Two lists of different keys put one after the other. */
  lemma PutTwice(zone: Zone, s: seq<Endpoint>, t: seq<Endpoint>)
    requires DistinctKeys(s) && DistinctKeys(t) && KeysOf(s) !! KeysOf(t)
    ensures var z := Put(Put(zone, s), t);
      && z.Keys == zone.Keys + KeysOf(s) + KeysOf(t)
      && (forall e :: e in s ==> Get(z, KeyOf(e)) == Some(e))
      && (forall e :: e in t ==> Get(z, KeyOf(e)) == Some(e))
      && (forall k :: k !in KeysOf(s) + KeysOf(t) ==> Get(z, k) == Get(zone, k))
  {
    PutAt(zone, s);
    PutAt(Put(zone, s), t);
    forall e | e in s ensures Get(Put(Put(zone, s), t), KeyOf(e)) == Some(e) {
      assert KeyOf(e) in KeysOf(s);
    }
  }

  /** The zone after an accepted batch, key by key: the old zone without what was
      deleted, overlaid by what was created and updated. */
  lemma ApplyAt(zone: Zone, ch: Changes)
    requires Placeable(zone, ch)
    ensures Apply(zone, ch).Keys == zone.Keys - KeysOf(ch.delete) + KeysOf(ch.create)
    ensures forall e :: e in ch.create ==> Get(Apply(zone, ch), KeyOf(e)) == Some(e)
    ensures forall e :: e in ch.updateNew ==> Get(Apply(zone, ch), KeyOf(e)) == Some(e)
    ensures forall e :: e in ch.delete ==> Get(Apply(zone, ch), KeyOf(e)) == None
    ensures forall k ::
      k !in KeysOf(ch.create) + KeysOf(ch.updateNew) + KeysOf(ch.delete) ==> Get(Apply(zone, ch), k) == Get(zone, k)
  {
    ListsApart(zone, ch);
    PutTwice(zone, ch.create, ch.updateNew);
    assert forall e :: e in ch.create ==> KeyOf(e) in KeysOf(ch.create);
    assert forall e :: e in ch.updateNew ==> KeyOf(e) in KeysOf(ch.updateNew);
  }

  // ---- key by key

  /** What a batch says about one key. */
  function About(ch: Changes, k: Key): Changes {
    Changes(Filter(HasKey(k), ch.create), Filter(HasKey(k), ch.updateOld),
            Filter(HasKey(k), ch.updateNew), Filter(HasKey(k), ch.delete))
  }

  lemma {:induction false} DistinctByKey(s: seq<Endpoint>)
    requires forall k :: DistinctKeys(Filter(HasKey(k), s))
    ensures DistinctKeys(s)
  {
    if s != [] {
      var front, last := s[..|s| - 1], s[|s| - 1];
      forall k ensures DistinctKeys(Filter(HasKey(k), front)) {
        assert DistinctKeys(Filter(HasKey(k), s));
        FreshConcat(Filter(HasKey(k), front), if KeyOf(last) == k then [last] else []);
      }
      DistinctByKey(front);
      forall x | x in front ensures KeyOf(x) != KeyOf(last) {
        FilterMember(HasKey(KeyOf(last)), front, x);
        FreshConcat(Filter(HasKey(KeyOf(last)), front), [last]);
        assert DistinctKeys(Filter(HasKey(KeyOf(last)), s));
      }
    }
  }

  lemma ListsAbout(ch: Changes, k: Key)
    ensures var own := About(ch, k);
      Filter(HasKey(k), ch.create + ch.updateNew + ch.delete) == own.create + own.updateNew + own.delete
  {
    FilterConcat(HasKey(k), ch.create, ch.updateNew);
    FilterConcat(HasKey(k), ch.create + ch.updateNew, ch.delete);
  }

  lemma AboutMember(s: seq<Endpoint>, k: Key, e: Endpoint)
    ensures e in Filter(HasKey(k), s) <==> e in s && KeyOf(e) == k
  {
    FilterMember(HasKey(k), s, e);
  }

  /** A batch is acceptable exactly when what it says about each key is. */
  lemma AcceptedByKey(zone: Zone, ch: Changes)
    ensures BatchOk(zone, ch) <==> forall k :: BatchOk(zone, About(ch, k))
  {
    if BatchOk(zone, ch) {
      forall k ensures BatchOk(zone, About(ch, k)) {
        ListsAbout(ch, k);
        DistinctFilter(HasKey(k), ch.create + ch.updateNew + ch.delete);
      }
    }
    if forall k :: BatchOk(zone, About(ch, k)) {
      forall k ensures DistinctKeys(Filter(HasKey(k), ch.create + ch.updateNew + ch.delete)) {
        ListsAbout(ch, k);
        assert BatchOk(zone, About(ch, k));
      }
      DistinctByKey(ch.create + ch.updateNew + ch.delete);
      forall e | e in ch.create ensures KeyOf(e) !in zone { AboutAccepted(zone, ch, e); }
      forall e | e in ch.updateNew ensures KeyOf(e) in zone { AboutAccepted(zone, ch, e); }
      forall e | e in ch.delete || e in ch.updateOld ensures HeadMatches(zone, e) { AboutAccepted(zone, ch, e); }
    }
  }

  lemma AboutAccepted(zone: Zone, ch: Changes, e: Endpoint)
    requires BatchOk(zone, About(ch, KeyOf(e)))
    ensures e in ch.create ==> KeyOf(e) !in zone
    ensures e in ch.updateNew ==> KeyOf(e) in zone
    ensures e in ch.delete || e in ch.updateOld ==> HeadMatches(zone, e)
  {
    AboutMember(ch.create, KeyOf(e), e);
    AboutMember(ch.updateNew, KeyOf(e), e);
    AboutMember(ch.updateOld, KeyOf(e), e);
    AboutMember(ch.delete, KeyOf(e), e);
  }

  lemma {:induction false} PutAbout(zone: Zone, s: seq<Endpoint>, k: Key)
    ensures Get(Put(zone, s), k) == var own := Filter(HasKey(k), s);
      if own == [] then Get(zone, k) else Some(own[|own| - 1])
  {
    if s != [] { PutAbout(zone, s[..|s| - 1], k); }
  }

  /** What any batch, acceptable or not, would leave under a key. */
  lemma ApplyAbout(zone: Zone, ch: Changes, k: Key)
    ensures Get(Apply(zone, ch), k) == var own := About(ch, k);
      if own.delete != [] then None
      else if own.updateNew != [] then Some(own.updateNew[|own.updateNew| - 1])
      else if own.create != [] then Some(own.create[|own.create| - 1])
      else Get(zone, k)
  {
    PutAbout(zone, ch.create, k);
    PutAbout(Put(zone, ch.create), ch.updateNew, k);
    KeyPresent(ch.delete, k);
  }

  lemma {:induction false} DistinctCount(s: seq<Endpoint>)
    requires DistinctKeys(s)
    ensures |KeysOf(s)| == |s|
  {
    if s != [] {
      var front, last := s[..|s| - 1], s[|s| - 1];
      assert s == front + [last];
      FreshConcat(front, [last]);
      DistinctCount(front);
      assert KeysOf(s) == KeysOf(front) + {KeyOf(last)};
    }
  }

  /** Nothing appears or vanishes beyond the creates and the deletes. */
  lemma ApplySize(zone: Zone, ch: Changes)
    requires Placeable(zone, ch)
    ensures |Apply(zone, ch)| == |zone| + |ch.create| - |ch.delete|
  {
    ApplyAt(zone, ch);
    FreshConcat(ch.create, ch.updateNew);
    FreshConcat(ch.create + ch.updateNew, ch.delete);
    DistinctCount(ch.create);
    DistinctCount(ch.delete);
    assert KeysOf(ch.delete) <= zone.Keys;
    var kept := zone.Keys - KeysOf(ch.delete);
    assert |kept| == |zone.Keys| - |KeysOf(ch.delete)|;
    assert kept !! KeysOf(ch.create);
    assert |kept + KeysOf(ch.create)| == |kept| + |KeysOf(ch.create)|;
    assert |Apply(zone, ch).Keys| == |Apply(zone, ch)|;
  }

  lemma ApplyKeyed(zone: Zone, ch: Changes)
    requires Keyed(zone)
    ensures Keyed(Apply(zone, ch))
  {
    PutKeyed(zone, ch.create);
    PutKeyed(Put(zone, ch.create), ch.updateNew);
  }

  lemma {:induction false} PutKeyed(zone: Zone, s: seq<Endpoint>)
    requires Keyed(zone)
    ensures Keyed(Put(zone, s))
  {
    if s != [] { PutKeyed(zone, s[..|s| - 1]); }
  }

  // ---- reading

  /** The copy handed to a reader; nothing (a nil pointer) for an over-long label. */
  function Copy(e: Endpoint): Option<Endpoint> {
    match Built(e.dnsName, e.recordType, e.ttl, e.targets)
    case None => None
    case Some(b) => Some(b.(setIdentifier := e.setIdentifier, labels := e.labels,
                            providerSpecific := e.providerSpecific))
  }

  /** The records of a zone, each once, in some order. */
  ghost predicate Lists(zone: Zone, recs: seq<Endpoint>) {
    && DistinctKeys(recs)
    && KeysOf(recs) == zone.Keys
    && forall e :: e in recs ==> KeyOf(e) in zone && zone[KeyOf(e)] == e
  }

  lemma ListsMember(zone: Zone, recs: seq<Endpoint>, k: Key)
    requires Lists(zone, recs) && k in zone
    ensures zone[k] in recs
  {
    assert k in KeysOf(recs);
    var e :| e in recs && KeyOf(e) == k;
  }
}
