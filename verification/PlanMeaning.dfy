/** What a plan does, told from the two record lists alone: which names and types
    are looked after, which cells get a record, lose one or have theirs replaced
    (plan/plan.go, `Calculate`). */
module PlanMeaning {
  import opened Wrappers
  import opened Sorting
  import opened Endpoints
  import opened Policies
  import opened DomainFilters
  import opened Targets
  import opened Conflict
  import opened Cells
  import Strings

  /** A record of a list that every filter lets through, of a type that is managed. */
  predicate LookedAfter(cfg: Settings, s: seq<Endpoint>, e: Endpoint) {
    && e in s
    && (forall i :: 0 <= i < |cfg.filters| && cfg.filters[i].Some? ==> Match(cfg.filters[i].value, e.dnsName))
    && e.recordType !in cfg.excluded
    && (cfg.managed.Some? ==> e.recordType in cfg.managed.value)
  }

  /** One name, up to spelling, and one set identifier. */
  predicate SameRow(a: Endpoint, b: Endpoint) {
    NormalizeDNSName(a.dnsName) == NormalizeDNSName(b.dnsName) && a.setIdentifier == b.setIdentifier
  }

  predicate SameCell(a: Endpoint, b: Endpoint) {
    SameRow(a, b) && a.recordType == b.recordType
  }

  /** Names count as one if they are equal up to case, blanks around them and a
      final dot. */
  lemma SameNameIff(a: string, b: string)
    ensures NormalizeDNSName(a) == NormalizeDNSName(b) <==>
      Strings.TrimSuffix(Strings.TrimSpace(Strings.ToLower(a)), ".")
      == Strings.TrimSuffix(Strings.TrimSpace(Strings.ToLower(b)), ".")
  {
    NormalizedEndsInDot(a);
    NormalizedEndsInDot(b);
    var s, t := NormalizeDNSName(a), NormalizeDNSName(b);
    assert s == t ==> s[..|s| - 1] == t[..|t| - 1];
  }

  lemma NormalizedEndsInDot(a: string)
    ensures NormalizeDNSName(a) == Strings.TrimSuffix(Strings.TrimSpace(Strings.ToLower(a)), ".") + "."
  {
    var s := Strings.TrimSpace(Strings.ToLower(a));
    if Strings.HasSuffix(s, ".") { assert s == s[..|s| - 1] + "."; }
  }

  // ---- scope

  lemma RelevantIff(cfg: Settings, s: seq<Endpoint>, e: Endpoint)
    ensures e in Relevant(cfg, s) <==> LookedAfter(cfg, s, e)
  {
    FilterMember(ScopeFn(cfg), s, e);
  }

  lemma InCellIff(cfg: Settings, s: seq<Endpoint>, c: Endpoint, e: Endpoint)
    ensures e in At(Relevant(cfg, s), CellOf(c)) <==> LookedAfter(cfg, s, e) && SameCell(e, c)
  {
    RelevantIff(cfg, s, e);
    FilterMember(InCell(CellOf(c)), Relevant(cfg, s), e);
  }

  lemma InRowIff(cfg: Settings, s: seq<Endpoint>, c: Endpoint, e: Endpoint)
    ensures e in RowAt(Relevant(cfg, s), PlanKeyOf(c)) <==> LookedAfter(cfg, s, e) && SameRow(e, c)
  {
    RelevantIff(cfg, s, e);
    FilterMember(InRow(PlanKeyOf(c)), Relevant(cfg, s), e);
  }

  // ---- what is wanted

  /** Some record is desired for the cell of `c`; a CNAME gives way to any other
      type that is desired for the name. */
  ghost predicate Desired(cfg: Settings, desired: seq<Endpoint>, c: Endpoint) {
    && (exists d :: LookedAfter(cfg, desired, d) && SameCell(d, c))
    && (c.recordType == "CNAME" ==>
          forall d :: LookedAfter(cfg, desired, d) && SameRow(d, c) ==> d.recordType == "CNAME")
  }

  function Candidates(cfg: Settings, desired: seq<Endpoint>, c: Endpoint): seq<Endpoint> {
    CandidatesAt(Relevant(cfg, desired), CellOf(c))
  }

  lemma CandidatesIff(cfg: Settings, desired: seq<Endpoint>, c: Endpoint)
    ensures Candidates(cfg, desired, c) != [] <==> Desired(cfg, desired, c)
    ensures forall d :: d in Candidates(cfg, desired, c) ==> LookedAfter(cfg, desired, d) && SameCell(d, c)
  {
    var rel := Relevant(cfg, desired);
    forall d ensures d in At(rel, CellOf(c)) <==> LookedAfter(cfg, desired, d) && SameCell(d, c) {
      InCellIff(cfg, desired, c, d);
    }
    forall d ensures d in RowAt(rel, PlanKeyOf(c)) <==> LookedAfter(cfg, desired, d) && SameRow(d, c) {
      InRowIff(cfg, desired, c, d);
    }
    if At(rel, CellOf(c)) != [] {
      assert At(rel, CellOf(c))[0] in At(rel, CellOf(c));
    }
  }

  /** Taking on a new record needs a claim on every record of the name. */
  ghost predicate Claimed(cfg: Settings, current: seq<Endpoint>, c: Endpoint) {
    cfg.owner == "" || forall r :: LookedAfter(cfg, current, r) && SameRow(r, c) ==> Mine(cfg, r)
  }

  predicate Mine(cfg: Settings, r: Endpoint) {
    cfg.owner == "" || ("owner" in r.labels && r.labels["owner"] == cfg.owner)
  }

  ghost predicate Taken(cfg: Settings, current: seq<Endpoint>, c: Endpoint) {
    exists r :: LookedAfter(cfg, current, r) && SameCell(r, c)
  }

  lemma CurrentIff(cfg: Settings, current: seq<Endpoint>, c: Endpoint)
    ensures CurrentAt(Relevant(cfg, current), CellOf(c)).Some? <==> Taken(cfg, current, c)
    ensures CurrentAt(Relevant(cfg, current), CellOf(c)).Some? ==>
      var r := CurrentAt(Relevant(cfg, current), CellOf(c)).value; LookedAfter(cfg, current, r) && SameCell(r, c)
  {
    var at := At(Relevant(cfg, current), CellOf(c));
    forall r ensures r in at <==> LookedAfter(cfg, current, r) && SameCell(r, c) { InCellIff(cfg, current, c, r); }
    if at != [] { assert at[|at| - 1] in at; }
  }

  lemma ClaimedIff(cfg: Settings, current: seq<Endpoint>, c: Endpoint)
    ensures OwnsRow(cfg, Relevant(cfg, current), PlanKeyOf(c)) <==> Claimed(cfg, current, c)
  {
    var row := RowAt(Relevant(cfg, current), PlanKeyOf(c));
    forall r ensures r in row <==> LookedAfter(cfg, current, r) && SameRow(r, c) {
      InRowIff(cfg, current, c, r);
    }
  }

  ghost predicate IsPlanFor(cfg: Settings, current: seq<Endpoint>, desired: seq<Endpoint>, ch: Changes) {
    IsPlan(cfg, Relevant(cfg, current), Relevant(cfg, desired), ch)
  }

  lemma CellPlanned(cfg: Settings, current: seq<Endpoint>, desired: seq<Endpoint>, ch: Changes, c: Endpoint)
    requires IsPlanFor(cfg, current, desired, ch)
    ensures PlansCell(cfg, Relevant(cfg, current), Relevant(cfg, desired), ch, CellOf(c))
  {
  }

  lemma SomeAt(s: seq<Endpoint>, c: Endpoint)
    ensures At(s, CellOf(c)) != [] <==> exists e :: e in s && SameCell(e, c)
  {
    forall e ensures e in At(s, CellOf(c)) <==> e in s && SameCell(e, c) {
      FilterMember(InCell(CellOf(c)), s, e);
    }
    if At(s, CellOf(c)) != [] { assert At(s, CellOf(c))[0] in At(s, CellOf(c)); }
  }

  // ---- creating

  /** A cell gets a new record exactly when one is desired there, none is there yet,
      and everything else of the name is claimed. */
  lemma CreatedIff(cfg: Settings, current: seq<Endpoint>, desired: seq<Endpoint>, ch: Changes, c: Endpoint)
    requires IsPlanFor(cfg, current, desired, ch)
    ensures (exists e :: e in ch.create && SameCell(e, c)) <==>
      Desired(cfg, desired, c) && !Taken(cfg, current, c) && Claimed(cfg, current, c)
    ensures |At(ch.create, CellOf(c))| <= 1
  {
    CellPlanned(cfg, current, desired, ch, c);
    SomeAt(ch.create, c);
    CurrentIff(cfg, current, c);
    ClaimedIff(cfg, current, c);
    CandidatesIff(cfg, desired, c);
  }

  /** Equal but for the order of the targets. */
  ghost predicate AsDesired(net: Netip, e: Endpoint, d: Endpoint) {
    e == d || e == d.(targets := Sorted(net, d.targets))
  }

  /** What is created is a desired record of the cell. */
  lemma CreatedFrom(cfg: Settings, current: seq<Endpoint>, desired: seq<Endpoint>, ch: Changes, e: Endpoint)
    returns (d: Endpoint)
    requires IsPlanFor(cfg, current, desired, ch) && e in ch.create
    ensures LookedAfter(cfg, desired, d) && SameCell(d, e) && AsDesired(cfg.net, e, d)
    ensures e == Compared(cfg.net, Candidates(cfg, desired, e), d)
    ensures Some(d) == Least(cfg.net, Candidates(cfg, desired, e))
  {
    CellPlanned(cfg, current, desired, ch, e);
    AtMember(ch.create, e);
    CandidatesIff(cfg, desired, e);
    CreatedAsDesired(cfg.net, Candidates(cfg, desired, e), e);
    d := Least(cfg.net, Candidates(cfg, desired, e)).value;
    assert d in Candidates(cfg, desired, e);
  }

  lemma CreatedAsDesired(net: Netip, candidates: seq<Endpoint>, e: Endpoint)
    requires e in One(Created(net, candidates))
    ensures candidates != [] && AsDesired(net, e, Least(net, candidates).value)
  {
  }

  // ---- deleting

  /** Whatever is deleted is a record of the list that is looked after and owned, and
      for its cell nothing is desired; and every policy allows it. */
  lemma DeletedMeans(cfg: Settings, current: seq<Endpoint>, desired: seq<Endpoint>, ch: Changes, e: Endpoint)
    requires IsPlanFor(cfg, current, desired, ch) && e in ch.delete
    ensures LookedAfter(cfg, current, e) && Mine(cfg, e) && !Desired(cfg, desired, e)
    ensures forall i :: 0 <= i < |cfg.policies| ==> cfg.policies[i].Sync?
  {
    var cur, des, c := Relevant(cfg, current), Relevant(cfg, desired), CellOf(e);
    CellPlanned(cfg, current, desired, ch, e);
    AtMember(ch.delete, e);
    RawDeleteMember(cfg, current, desired, e);
    AllowsDeleteIff(cfg.policies);
    if cfg.owner != "" {
      DistinctWithin(Filter(OwnedFn(cfg.owner), RawDelete(cur, des, c)), e);
      FilterMember(OwnedFn(cfg.owner), RawDelete(cur, des, c), e);
    }
  }

  lemma {:induction false} DistinctWithin(s: seq<Endpoint>, e: Endpoint)
    ensures e in Distinct(s) ==> e in s
  {
    if s != [] { DistinctWithin(s[..|s| - 1], e); }
  }

  lemma NothingDesired(cfg: Settings, desired: seq<Endpoint>, c: Endpoint)
    ensures RowAt(Relevant(cfg, desired), PlanKeyOf(c)) == [] ==> Candidates(cfg, desired, c) == []
    ensures Candidates(cfg, desired, c) == [] <==> !Desired(cfg, desired, c)
  {
    CandidatesIff(cfg, desired, c);
    if Candidates(cfg, desired, c) != [] {
      var d := Candidates(cfg, desired, c)[0];
      assert d in Candidates(cfg, desired, c);
      InRowIff(cfg, desired, c, d);
    }
  }

  /** `r` is in the list, and no later record that is looked after is in its cell. */
  ghost predicate LastInCell(cfg: Settings, current: seq<Endpoint>, r: Endpoint) {
    exists i :: 0 <= i < |current| && current[i] == r && LookedAfter(cfg, current, r)
      && forall j :: i < j < |current| && LookedAfter(cfg, current, current[j]) ==> !SameCell(current[j], r)
  }

  lemma CellOneMore(cfg: Settings, front: seq<Endpoint>, last: Endpoint, r: Endpoint)
    ensures At(Relevant(cfg, front + [last]), CellOf(r))
         == At(Relevant(cfg, front), CellOf(r))
            + if LookedAfter(cfg, [last], last) && SameCell(last, r) then [last] else []
  {
    assert (front + [last])[..|front|] == front;
    RelevantIff(cfg, [last], last);
    AtAppend(Relevant(cfg, front), last, CellOf(r));
    assert [last][..0] == [];
  }

  lemma LookedAfterAlone(cfg: Settings, s: seq<Endpoint>, e: Endpoint)
    ensures LookedAfter(cfg, s, e) <==> e in s && LookedAfter(cfg, [e], e)
  {
  }

  lemma {:induction false} LastAt(cfg: Settings, current: seq<Endpoint>, r: Endpoint, i: nat)
    requires i < |current| && current[i] == r && LookedAfter(cfg, [r], r)
    requires forall j :: i < j < |current| && LookedAfter(cfg, [current[j]], current[j]) ==> !SameCell(current[j], r)
    ensures LastOf(At(Relevant(cfg, current), CellOf(r))) == Some(r)
  {
    var n := |current| - 1;
    assert current == current[..n] + [current[n]];
    CellOneMore(cfg, current[..n], current[n], r);
    if i < n { LastAt(cfg, current[..n], r, i); }
  }

  /** The record of a cell is the last of the list that is in it. */
  lemma LastIsCurrent(cfg: Settings, current: seq<Endpoint>, r: Endpoint)
    requires LastInCell(cfg, current, r)
    ensures CurrentAt(Relevant(cfg, current), CellOf(r)) == Some(r)
  {
    var i :| 0 <= i < |current| && current[i] == r && LookedAfter(cfg, current, r)
      && forall j :: i < j < |current| && LookedAfter(cfg, current, current[j]) ==> !SameCell(current[j], r);
    LookedAfterAlone(cfg, current, r);
    forall j | i < j < |current| && LookedAfter(cfg, [current[j]], current[j]) ensures !SameCell(current[j], r) {
      LookedAfterAlone(cfg, current, current[j]);
    }
    LastAt(cfg, current, r, i);
  }

  lemma {:induction false} SomeIsLast(cfg: Settings, current: seq<Endpoint>, r: Endpoint)
    requires LastOf(At(Relevant(cfg, current), CellOf(r))) == Some(r)
    ensures LastInCell(cfg, current, r)
  {
    var n := |current| - 1;
    if InCellOf(cfg, current[n], r) {
      LastOneMore(cfg, current[..n], current[n], r);
      EndIsLast(cfg, current[..n], r);
    } else {
      LastOneMore(cfg, current[..n], current[n], r);
      SomeIsLast(cfg, current[..n], r);
      StaysLast(cfg, current[..n], current[n], r);
    }
    assert current == current[..n] + [current[n]];
  }

  ghost predicate InCellOf(cfg: Settings, e: Endpoint, r: Endpoint) {
    LookedAfter(cfg, [e], e) && SameCell(e, r)
  }

  lemma LastOneMore(cfg: Settings, front: seq<Endpoint>, last: Endpoint, r: Endpoint)
    ensures LastOf(At(Relevant(cfg, front + [last]), CellOf(r)))
         == if InCellOf(cfg, last, r) then Some(last) else LastOf(At(Relevant(cfg, front), CellOf(r)))
  {
    CellOneMore(cfg, front, last, r);
  }

  lemma EndIsLast(cfg: Settings, front: seq<Endpoint>, r: Endpoint)
    requires LookedAfter(cfg, [r], r)
    ensures LastInCell(cfg, front + [r], r)
  {
    assert (front + [r])[|front|] == r;
  }

  lemma StaysLast(cfg: Settings, front: seq<Endpoint>, last: Endpoint, r: Endpoint)
    requires LastInCell(cfg, front, r)
    requires LookedAfter(cfg, [last], last) ==> !SameCell(last, r)
    ensures LastInCell(cfg, front + [last], r)
  {
    var current, n := front + [last], |front|;
    var i :| 0 <= i < |front| && front[i] == r && LookedAfter(cfg, front, r)
      && forall j :: i < j < |front| && LookedAfter(cfg, front, front[j]) ==> !SameCell(front[j], r);
    forall j | i < j < |current| && LookedAfter(cfg, current, current[j]) ensures !SameCell(current[j], r) {
      if j < n { assert front[j] == current[j] && front[j] in front; }
    }
    assert current[i] == r;
  }

  /** Nothing at all is desired for the name. */
  ghost predicate Released(cfg: Settings, desired: seq<Endpoint>, c: Endpoint) {
    forall d :: LookedAfter(cfg, desired, d) ==> !SameRow(d, c)
  }

  lemma ReleasedIff(cfg: Settings, desired: seq<Endpoint>, c: Endpoint)
    ensures RowAt(Relevant(cfg, desired), PlanKeyOf(c)) == [] <==> Released(cfg, desired, c)
  {
    var row := RowAt(Relevant(cfg, desired), PlanKeyOf(c));
    forall d ensures d in row <==> LookedAfter(cfg, desired, d) && SameRow(d, c) { InRowIff(cfg, desired, c, d); }
    if row != [] { assert row[0] in row; }
  }

  /** What is up for deletion in the cell of `e`, before policies and ownership. */
  lemma RawDeleteMember(cfg: Settings, current: seq<Endpoint>, desired: seq<Endpoint>, e: Endpoint)
    ensures e in RawDelete(Relevant(cfg, current), Relevant(cfg, desired), CellOf(e)) <==>
      && LookedAfter(cfg, current, e) && !Desired(cfg, desired, e)
      && (Released(cfg, desired, e) || LastInCell(cfg, current, e))
  {
    NothingDesired(cfg, desired, e);
    ReleasedIff(cfg, desired, e);
    CurrentIff(cfg, current, e);
    InCellIff(cfg, current, e, e);
    if LastInCell(cfg, current, e) { LastIsCurrent(cfg, current, e); }
    if CurrentAt(Relevant(cfg, current), CellOf(e)) == Some(e) { SomeIsLast(cfg, current, e); }
  }

  lemma {:induction false} DistinctIsAll(s: seq<Endpoint>)
    requires forall i, j :: 0 <= i < j < |s| ==> KeyOf(s[i]) != KeyOf(s[j])
    ensures Distinct(s) == s
  {
    if s != [] {
      var front, last := s[..|s| - 1], s[|s| - 1];
      DistinctIsAll(front);
      assert s == front + [last];
      forall e | e in front ensures KeyOf(e) != KeyOf(last) {
        var i :| 0 <= i < |front| && front[i] == e;
        assert s[i] == e;
      }
      assert KeyOf(last) !in KeysOf(front);
      assert Distinct(s) == Distinct(front) + [last];
    }
  }

  predicate KeysDiffer(s: seq<Endpoint>) {
    forall i, j :: 0 <= i < j < |s| ==> KeyOf(s[i]) != KeyOf(s[j])
  }

  lemma {:induction false} FilterKeysDiffer(keep: Endpoint -> bool, s: seq<Endpoint>)
    requires KeysDiffer(s)
    ensures KeysDiffer(Filter(keep, s))
  {
    if s != [] {
      var front, last := s[..|s| - 1], s[|s| - 1];
      FilterKeysDiffer(keep, front);
      forall x | x in front ensures KeyOf(x) != KeyOf(last) {
        var i :| 0 <= i < |front| && front[i] == x;
        assert s[i] == x;
      }
    }
  }

  lemma RawDeleteKeysDiffer(cfg: Settings, current: seq<Endpoint>, des: seq<Endpoint>, c: Cell)
    requires KeysDiffer(current)
    ensures KeysDiffer(RawDelete(Relevant(cfg, current), des, c))
  {
    FilterKeysDiffer(ScopeFn(cfg), current);
    FilterKeysDiffer(InCell(c), Relevant(cfg, current));
  }

  /** Which of the records, each listed under its own key, are deleted: those that are
      looked after and owned and for whose cell nothing is desired, if every policy
      allows it; where other types of the name are desired, only the last of a cell. */
  lemma DeletedIff(cfg: Settings, current: seq<Endpoint>, desired: seq<Endpoint>, ch: Changes, r: Endpoint)
    requires IsPlanFor(cfg, current, desired, ch) && KeysDiffer(current)
    ensures r in ch.delete <==>
      && LookedAfter(cfg, current, r) && Mine(cfg, r) && !Desired(cfg, desired, r)
      && (Released(cfg, desired, r) || LastInCell(cfg, current, r))
      && forall i :: 0 <= i < |cfg.policies| ==> cfg.policies[i].Sync?
  {
    var raw := RawDelete(Relevant(cfg, current), Relevant(cfg, desired), CellOf(r));
    CellPlanned(cfg, current, desired, ch, r);
    AtMember(ch.delete, r);
    RawDeleteMember(cfg, current, desired, r);
    RawDeleteKeysDiffer(cfg, current, Relevant(cfg, desired), CellOf(r));
    FilterKeysDiffer(OwnedFn(cfg.owner), raw);
    DistinctIsAll(Filter(OwnedFn(cfg.owner), raw));
    FilterMember(OwnedFn(cfg.owner), raw, r);
    AllowsDeleteIff(cfg.policies);
  }

  lemma AllowsDeleteIff(ps: seq<Policy>)
    ensures AllowsDelete(ps) <==> forall i :: 0 <= i < |ps| ==> ps[i].Sync?
  {
    forall p | p in ps && (forall i :: 0 <= i < |ps| ==> ps[i].Sync?) ensures p.Sync? {
      var i :| 0 <= i < |ps| && ps[i] == p;
    }
  }

  // ---- updating

  /** What makes a record out of date: a TTL that is given and differs, targets that do
      not compare as the same, or other properties. */
  predicate OutOfDate(net: Netip, u: Endpoint, r: Endpoint) {
    || (u.ttl > 0 && u.ttl != r.ttl)
    || !Same(net, u.targets, r.targets)
    || ShouldUpdateProviderSpecific(u, r)
  }

  /** The candidate for the record `r` of a cell. */
  function Pick(cfg: Settings, desired: seq<Endpoint>, r: Endpoint): Option<Endpoint> {
    Updated(cfg.net, r, Candidates(cfg, desired, r))
  }

  lemma PickIsDesired(cfg: Settings, desired: seq<Endpoint>, r: Endpoint)
    ensures Pick(cfg, desired, r).Some? <==> Desired(cfg, desired, r)
    ensures Pick(cfg, desired, r).Some? ==>
      exists d :: LookedAfter(cfg, desired, d) && SameCell(d, r) && AsDesired(cfg.net, Pick(cfg, desired, r).value, d)
  {
    CandidatesIff(cfg, desired, r);
    if Candidates(cfg, desired, r) != [] {
      var d := Update(cfg.net, r, Candidates(cfg, desired, r)).value;
      assert d in Candidates(cfg, desired, r) && AsDesired(cfg.net, Pick(cfg, desired, r).value, d);
    }
  }

  /** Lists are compared, and so sorted, unless the TTL decides or their lengths differ. */
  function TargetsAfter(net: Netip, u: Endpoint, r: Endpoint): seq<string> {
    if (u.ttl > 0 && u.ttl != r.ttl) || |u.targets| != |r.targets| then u.targets else Sorted(net, u.targets)
  }

  /** The new side of the update of `r` by `u`: what `u` says, with the owner of `r`. */
  ghost predicate Replaced(net: Netip, n: Endpoint, u: Endpoint, r: Endpoint) {
    && n.(labels := u.labels) == u.(targets := TargetsAfter(net, u, r))
    && n.labels == u.labels["owner" := if "owner" in r.labels then r.labels["owner"] else ""]
  }

  /** The last record of a cell is replaced exactly when it is owned, something is
      desired for its cell, it is out of date, and no policy only creates; its old and
      new sides are then the two sides of that cell. */
  lemma UpdatedIff(cfg: Settings, current: seq<Endpoint>, desired: seq<Endpoint>, ch: Changes, r: Endpoint)
    requires IsPlanFor(cfg, current, desired, ch) && LastInCell(cfg, current, r)
    ensures (exists n :: n in ch.updateNew && SameCell(n, r)) <==>
      && Mine(cfg, r) && Desired(cfg, desired, r) && Pick(cfg, desired, r).Some?
      && OutOfDate(cfg.net, Pick(cfg, desired, r).value, r)
      && forall i :: 0 <= i < |cfg.policies| ==> !cfg.policies[i].CreateOnly?
    ensures forall n :: n in ch.updateNew && SameCell(n, r) ==>
      Pick(cfg, desired, r).Some? && Replaced(cfg.net, n, Pick(cfg, desired, r).value, r)
    ensures forall o :: o in ch.updateOld && SameCell(o, r) ==> AsDesired(cfg.net, o, r)
    ensures |At(ch.updateNew, CellOf(r))| == |At(ch.updateOld, CellOf(r))| <= 1
  {
    CellPlanned(cfg, current, desired, ch, r);
    SomeAt(ch.updateNew, r);
    LastIsCurrent(cfg, current, r);
    PickIsDesired(cfg, desired, r);
    SidesOf(cfg, current, desired, ch, r);
    AtIff(ch.updateNew, r);
    AtIff(ch.updateOld, r);
  }

  lemma AtIff(s: seq<Endpoint>, c: Endpoint)
    ensures forall e :: e in At(s, CellOf(c)) <==> e in s && SameCell(e, c)
  {
    forall e ensures e in At(s, CellOf(c)) <==> e in s && SameCell(e, c) {
      FilterMember(InCell(CellOf(c)), s, e);
    }
  }

  /** The two sides, before policies and ownership. */
  lemma RawSides(net: Netip, r: Endpoint, candidates: seq<Endpoint>)
    ensures var u, sides := Updated(net, r, candidates), UpdateOf(net, Some(r), candidates);
      && (u.Some? <==> candidates != [])
      && (sides.Some? <==> u.Some? && OutOfDate(net, u.value, r))
      && (sides.Some? ==> AsDesired(net, sides.value.0, r) && Replaced(net, sides.value.1, u.value, r))
      && (sides.Some? ==> sides.value.0.labels == r.labels)
  {
    if candidates != [] {
      var u := Updated(net, r, candidates).value;
      NewSideAsDesired(net, u, r);
    }
  }

  lemma NewSideAsDesired(net: Netip, u: Endpoint, r: Endpoint)
    ensures Outdated(net, u, r) <==> OutOfDate(net, u, r)
    ensures AsDesired(net, OldSide(net, u, r), r) && OldSide(net, u, r).labels == r.labels
    ensures Replaced(net, InheritOwner(r, NewSide(net, u, r)), u, r)
  {
    var n := NewSide(net, u, r);
    assert n.labels == u.labels;
    assert InheritOwner(r, n).(labels := u.labels) == n;
  }

  lemma OwnedSides(cfg: Settings, n: Endpoint, u: Endpoint, r: Endpoint)
    requires Replaced(cfg.net, n, u, r)
    ensures Owned(cfg, [n]) == if Mine(cfg, r) then [n] else []
  {
    assert [n][..0] == [];
  }

  lemma OwnedOld(cfg: Settings, o: Endpoint, r: Endpoint)
    requires o.labels == r.labels
    ensures Owned(cfg, [o]) == if Mine(cfg, r) then [o] else []
  {
    assert [o][..0] == [];
  }

  lemma NoneOwned(cfg: Settings)
    ensures Owned(cfg, []) == []
  {
  }

  lemma SidesOf(cfg: Settings, current: seq<Endpoint>, desired: seq<Endpoint>, ch: Changes, r: Endpoint)
    requires PlansCell(cfg, Relevant(cfg, current), Relevant(cfg, desired), ch, CellOf(r))
    requires CurrentAt(Relevant(cfg, current), CellOf(r)) == Some(r)
    ensures At(ch.updateNew, CellOf(r)) != [] <==>
      && Mine(cfg, r) && Pick(cfg, desired, r).Some?
      && OutOfDate(cfg.net, Pick(cfg, desired, r).value, r)
      && forall i :: 0 <= i < |cfg.policies| ==> !cfg.policies[i].CreateOnly?
    ensures forall n :: n in At(ch.updateNew, CellOf(r)) ==>
      Pick(cfg, desired, r).Some? && Replaced(cfg.net, n, Pick(cfg, desired, r).value, r)
    ensures forall o :: o in At(ch.updateOld, CellOf(r)) ==> AsDesired(cfg.net, o, r)
    ensures |At(ch.updateNew, CellOf(r))| == |At(ch.updateOld, CellOf(r))| <= 1
  {
    var candidates := Candidates(cfg, desired, r);
    var sides := UpdateOf(cfg.net, Some(r), candidates);
    RawSides(cfg.net, r, candidates);
    AllowsUpdateIff(cfg.policies);
    NoneOwned(cfg);
    if sides.Some? {
      OwnedSides(cfg, sides.value.1, Pick(cfg, desired, r).value, r);
      OwnedOld(cfg, sides.value.0, r);
      assert At(ch.updateNew, CellOf(r))
        == if AllowsUpdate(cfg.policies) && Mine(cfg, r) then [sides.value.1] else [];
      assert At(ch.updateOld, CellOf(r))
        == if AllowsUpdate(cfg.policies) && Mine(cfg, r) then [sides.value.0] else [];
    } else {
      assert At(ch.updateNew, CellOf(r)) == [] == At(ch.updateOld, CellOf(r));
    }
  }

  lemma AllowsUpdateIff(ps: seq<Policy>)
    ensures AllowsUpdate(ps) <==> forall i :: 0 <= i < |ps| ==> !ps[i].CreateOnly?
  {
    forall p | p in ps && (forall i :: 0 <= i < |ps| ==> !ps[i].CreateOnly?) ensures !p.CreateOnly? {
      var i :| 0 <= i < |ps| && ps[i] == p;
    }
  }

  /** A desired TTL that is not given never causes an update. */
  lemma UnsetTtlKeeps(cfg: Settings, current: seq<Endpoint>, desired: seq<Endpoint>, ch: Changes, r: Endpoint)
    requires IsPlanFor(cfg, current, desired, ch) && LastInCell(cfg, current, r)
    requires forall d :: LookedAfter(cfg, desired, d) && SameCell(d, r) ==>
      && d.ttl <= 0
      && Same(cfg.net, d.targets, r.targets)
      && !ShouldUpdateProviderSpecific(d, r)
    ensures forall n :: n in ch.updateNew ==> !SameCell(n, r)
  {
    CellPlanned(cfg, current, desired, ch, r);
    AtIff(ch.updateNew, r);
    LastIsCurrent(cfg, current, r);
    SidesOf(cfg, current, desired, ch, r);
    PickIsDesired(cfg, desired, r);
    if Pick(cfg, desired, r).Some? {
      var u := Pick(cfg, desired, r).value;
      var d :| LookedAfter(cfg, desired, d) && SameCell(d, r) && AsDesired(cfg.net, u, d);
      OutOfDateAlike(cfg.net, u, d, r);
    }
  }

  lemma OutOfDateAlike(net: Netip, u: Endpoint, d: Endpoint, r: Endpoint)
    requires AsDesired(net, u, d)
    ensures OutOfDate(net, u, r) == OutOfDate(net, d, r)
  {
    SortedIsStable(net, d.targets);
    OrderIrrelevant(net, u.targets, d.targets, r.targets, r.targets);
  }

  // ---- CNAME beside other types

  /** Where another type is desired a CNAME is neither created nor updated, and the
      other type gets its due. */
  lemma CnameGivesWay(cfg: Settings, current: seq<Endpoint>, desired: seq<Endpoint>, ch: Changes, d: Endpoint,
                      e: Endpoint)
    requires IsPlanFor(cfg, current, desired, ch)
    requires LookedAfter(cfg, desired, d) && d.recordType != "CNAME" && SameRow(d, e) && e.recordType == "CNAME"
    ensures e !in ch.create && e !in ch.updateNew
    ensures Desired(cfg, desired, d) && Candidates(cfg, desired, d) != [] && Candidates(cfg, desired, e) == []
  {
    CellPlanned(cfg, current, desired, ch, e);
    assert LookedAfter(cfg, desired, d) && SameCell(d, d) && SameRow(d, e);
    CandidatesIff(cfg, desired, e);
    CandidatesIff(cfg, desired, d);
    NothingForCell(cfg, Relevant(cfg, current), Relevant(cfg, desired), CellOf(e));
    AtMember(ch.create, e);
    AtMember(ch.updateNew, e);
  }

  lemma NothingForCell(cfg: Settings, cur: seq<Endpoint>, des: seq<Endpoint>, c: Cell)
    requires CandidatesAt(des, c) == []
    ensures RawCreate(cfg, cur, des, c) == [] && PlannedUpdateNew(cfg, cur, des, c) == []
  {
  }

  // ---- nothing else

  /** Of every entry of a plan the name passes all filters, and the type is managed. */
  lemma PlanStaysInScope(cfg: Settings, current: seq<Endpoint>, desired: seq<Endpoint>, ch: Changes, e: Endpoint)
    requires IsPlanFor(cfg, current, desired, ch)
    requires e in ch.create || e in ch.delete || e in ch.updateOld || e in ch.updateNew
    ensures LookedAfter(cfg, [e], e)
  {
    CellPlanned(cfg, current, desired, ch, e);
    AtMember(ch.create, e);
    AtMember(ch.updateNew, e);
    AtMember(ch.updateOld, e);
    if e in ch.create {
      var d := CreatedFrom(cfg, current, desired, ch, e);
    } else if e in ch.delete {
      DeletedMeans(cfg, current, desired, ch, e);
    } else {
      SideInScope(cfg, current, desired, ch, e);
    }
  }

  lemma SideInScope(cfg: Settings, current: seq<Endpoint>, desired: seq<Endpoint>, ch: Changes, e: Endpoint)
    requires PlansCell(cfg, Relevant(cfg, current), Relevant(cfg, desired), ch, CellOf(e))
    requires e in At(ch.updateOld, CellOf(e)) || e in At(ch.updateNew, CellOf(e))
    ensures LookedAfter(cfg, [e], e)
  {
    CurrentIff(cfg, current, e);
    CandidatesIff(cfg, desired, e);
    var r := CurrentAt(Relevant(cfg, current), CellOf(e)).value;
    assert CellOf(r) == CellOf(e);
    SidesOfCell(cfg, current, desired, ch, r, e);
  }

  lemma SidesOfCell(cfg: Settings, current: seq<Endpoint>, desired: seq<Endpoint>, ch: Changes, r: Endpoint,
                    e: Endpoint)
    requires PlansCell(cfg, Relevant(cfg, current), Relevant(cfg, desired), ch, CellOf(r))
    requires CurrentAt(Relevant(cfg, current), CellOf(r)) == Some(r) && LookedAfter(cfg, current, r)
    requires e in At(ch.updateOld, CellOf(r)) || e in At(ch.updateNew, CellOf(r))
    ensures LookedAfter(cfg, [e], e)
  {
    SidesOf(cfg, current, desired, ch, r);
    if e in At(ch.updateNew, CellOf(r)) {
      NewSideInScope(cfg, desired, r, e);
    } else {
      AsDesiredInScope(cfg, current, e, r);
    }
  }

  lemma AsDesiredInScope(cfg: Settings, s: seq<Endpoint>, e: Endpoint, d: Endpoint)
    requires AsDesired(cfg.net, e, d) && LookedAfter(cfg, s, d)
    ensures LookedAfter(cfg, [e], e)
  {
    assert e.dnsName == d.dnsName && e.recordType == d.recordType;
  }

  lemma NewSideInScope(cfg: Settings, desired: seq<Endpoint>, r: Endpoint, n: Endpoint)
    requires Pick(cfg, desired, r).Some? && Replaced(cfg.net, n, Pick(cfg, desired, r).value, r)
    ensures LookedAfter(cfg, [n], n)
  {
    PickIsDesired(cfg, desired, r);
    var u := Pick(cfg, desired, r).value;
    var d :| LookedAfter(cfg, desired, d) && SameCell(d, r) && AsDesired(cfg.net, u, d);
    assert n.dnsName == u.dnsName == d.dnsName && n.recordType == u.recordType == d.recordType;
  }
}
