/** DNS records as the planner and the providers see them
    (endpoint/endpoint.go, endpoint/apis.go).  An endpoint is a value here:
    see the notes on sharing in README.md. */
module Endpoints {
  import opened Wrappers
  import opened Sorting
  import Strings

  const OWNER_LABEL := "owner"
  const RESOURCE_LABEL := "resource"
  const TYPE_CNAME := "CNAME"
  const TYPE_TXT := "TXT"
  const MAX_LABEL_LENGTH := 63

  type Labels = map<string, string>

  datatype Property = Property(name: string, value: string)

  datatype Endpoint = Endpoint(
    dnsName: string,
    targets: seq<string>,
    recordType: string,
    setIdentifier: string,
    ttl: int,
    labels: Labels,
    providerSpecific: seq<Property>)

  datatype Key = Key(dnsName: string, recordType: string, setIdentifier: string)

  datatype Changes = Changes(
    create: seq<Endpoint>,
    updateOld: seq<Endpoint>,
    updateNew: seq<Endpoint>,
    delete: seq<Endpoint>)

  const NO_CHANGES := Changes([], [], [], [])

  function KeyOf(e: Endpoint): Key {
    Key(e.dnsName, e.recordType, e.setIdentifier)
  }

  /** Reading a missing label yields the empty string. */
  function Label(e: Endpoint, name: string): string {
    if name in e.labels then e.labels[name] else ""
  }

  predicate IsOwnedBy(e: Endpoint, owner: string) {
    OWNER_LABEL in e.labels && e.labels[OWNER_LABEL] == owner
  }

  function OwnedFn(owner: string): Endpoint -> bool {
    e => IsOwnedBy(e, owner)
  }

  /** A TTL that is not positive is not configured. */
  predicate TtlConfigured(ttl: int) {
    ttl > 0
  }

  method FilterEndpointsByOwnerID(owner: string, eps: seq<Endpoint>) returns (filtered: seq<Endpoint>)
    ensures filtered == Filter(OwnedFn(owner), eps)
    ensures forall e :: e in filtered <==> e in eps && "owner" in e.labels && e.labels["owner"] == owner
  {
    forall e ensures e in Filter(OwnedFn(owner), eps) <==> e in eps && IsOwnedBy(e, owner) {
      FilterMember(OwnedFn(owner), eps, e);
    }
    filtered := [];
    for i := 0 to |eps|
      invariant filtered == Filter(OwnedFn(owner), eps[..i])
    {
      assert eps[..i + 1][..i] == eps[..i];
      if IsOwnedBy(eps[i], owner) {
        filtered := filtered + [eps[i]];
      }
    }
    assert eps[..|eps|] == eps;
  }

  function KeysOf(eps: seq<Endpoint>): set<Key> {
    set e | e in eps :: KeyOf(e)
  }

  /** Keeps the first endpoint of every key. */
  function Distinct(eps: seq<Endpoint>): seq<Endpoint> {
    if eps == [] then []
    else
      var front, last := eps[..|eps| - 1], eps[|eps| - 1];
      if KeyOf(last) in KeysOf(front) then Distinct(front) else Distinct(front) + [last]
  }

  method RemoveDuplicates(eps: seq<Endpoint>) returns (result: seq<Endpoint>)
    ensures result == Distinct(eps)
  {
    var visited: set<Key> := {};
    result := [];
    for i := 0 to |eps|
      invariant visited == KeysOf(eps[..i])
      invariant result == Distinct(eps[..i])
    {
      assert eps[..i + 1] == eps[..i] + [eps[i]];
      var key := KeyOf(eps[i]);
      if key !in visited {
        result := result + [eps[i]];
        visited := visited + {key};
      }
    }
    assert eps[..|eps|] == eps;
  }

  function HasKey(k: Key): Endpoint -> bool {
    e => KeyOf(e) == k
  }

  lemma KeyPresent(eps: seq<Endpoint>, k: Key)
    ensures k in KeysOf(eps) <==> Filter(HasKey(k), eps) != []
  {
    if k in KeysOf(eps) {
      var e :| e in eps && KeyOf(e) == k;
      FilterMember(HasKey(k), eps, e);
    }
    if Filter(HasKey(k), eps) != [] {
      assert Filter(HasKey(k), eps)[0] in eps;
    }
  }

  /** Of the endpoints of one key exactly the first is kept. */
  lemma {:induction false} DistinctKeepsFirst(eps: seq<Endpoint>, k: Key)
    ensures Filter(HasKey(k), Distinct(eps))
         == var all := Filter(HasKey(k), eps); if all == [] then [] else [all[0]]
  {
    if eps != [] {
      var front, last := eps[..|eps| - 1], eps[|eps| - 1];
      DistinctKeepsFirst(front, k);
      KeyPresent(front, KeyOf(last));
      FilterConcat(HasKey(k), Distinct(front), [last]);
      assert [last][..0] == [];
      assert Filter(HasKey(k), [last]) == if KeyOf(last) == k then [last] else [];
    }
  }

  // ---- construction and copying

  predicate LabelsFit(dnsName: string) {
    forall l :: l in Strings.Split(dnsName, '.') ==> Strings.Bytes(l) <= MAX_LABEL_LENGTH
  }

  function CleanTargets(targets: seq<string>): (r: seq<string>)
    ensures |r| == |targets|
    ensures forall i :: 0 <= i < |r| ==> r[i] == Strings.TrimSuffix(targets[i], ".")
  {
    seq(|targets|, i requires 0 <= i < |targets| => Strings.TrimSuffix(targets[i], "."))
  }

  /** What the constructor yields: nothing (a nil pointer) for an over-long label. */
  function Built(dnsName: string, recordType: string, ttl: int, targets: seq<string>): Option<Endpoint> {
    if !LabelsFit(dnsName) then None
    else Some(Endpoint(Strings.TrimSuffix(dnsName, "."), CleanTargets(targets), recordType, "", ttl, map[], []))
  }

  method NewEndpointWithTTL(dnsName: string, recordType: string, ttl: int, targets: seq<string>)
    returns (e: Option<Endpoint>)
    ensures e == Built(dnsName, recordType, ttl, targets)
    ensures e.None? <==> exists l :: l in Strings.Split(dnsName, '.') && Strings.Bytes(l) > 63
  {
    var clean: seq<string> := [];
    for i := 0 to |targets|
      invariant clean == CleanTargets(targets)[..i]
    {
      clean := clean + [Strings.TrimSuffix(targets[i], ".")];
    }
    var parts := Strings.Split(dnsName, '.');
    for i := 0 to |parts|
      invariant forall j :: 0 <= j < i ==> Strings.Bytes(parts[j]) <= MAX_LABEL_LENGTH
    {
      if Strings.Bytes(parts[i]) > MAX_LABEL_LENGTH {
        return None;
      }
    }
    assert clean == CleanTargets(targets);
    return Some(Endpoint(Strings.TrimSuffix(dnsName, "."), clean, recordType, "", ttl, map[], []));
  }

  /** `Changes.HasChanges`: two update lists that compare equal are no change. */
  predicate HasChanges(c: Changes) {
    c.create != [] || c.delete != [] || c.updateNew != c.updateOld
  }
}
