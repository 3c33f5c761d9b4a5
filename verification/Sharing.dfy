/** Convergence when the desired list is the same objects again.  A turn writes to
    the desired endpoints themselves: inheriting an owner sets their owner label
    (plan/plan.go, `inheritOwner`), and comparing sorts their targets
    (endpoint/endpoint.go).  So the list of the next turn may carry other owner
    labels and other orders of targets than the list of this one. */
module Sharing {
  import opened Sorting
  import opened Endpoints
  import opened Targets
  import opened Conflict
  import opened Cells
  import opened Store
  import opened Reconcile
  import opened Convergence

  /** Equal but for the owner label and the order of the targets. */
  ghost predicate Alike(net: Netip, a: Endpoint, b: Endpoint) {
    && b.(labels := a.labels, targets := a.targets) == a
    && b.labels - {OWNER_LABEL} == a.labels - {OWNER_LABEL}
    && Sorted(net, b.targets) == Sorted(net, a.targets)
  }

  ghost predicate AllAlike(net: Netip, s: seq<Endpoint>, t: seq<Endpoint>) {
    |s| == |t| && forall i :: 0 <= i < |s| ==> Alike(net, s[i], t[i])
  }

  /** Alike endpoints are both kept or both dropped. */
  ghost predicate Blind(net: Netip, keep: Endpoint -> bool) {
    forall a, b {:trigger Alike(net, a, b)} :: Alike(net, a, b) ==> keep(a) == keep(b)
  }

  lemma AlikeFacts(net: Netip, a: Endpoint, b: Endpoint)
    requires Alike(net, a, b)
    ensures a.dnsName == b.dnsName && a.recordType == b.recordType && a.setIdentifier == b.setIdentifier
    ensures a.ttl == b.ttl && a.providerSpecific == b.providerSpecific && |a.targets| == |b.targets|
    ensures Label(a, RESOURCE_LABEL) == Label(b, RESOURCE_LABEL)
  {
    assert |Sorted(net, a.targets)| == |Sorted(net, b.targets)|;
    var x, y := a.labels - {OWNER_LABEL}, b.labels - {OWNER_LABEL};
    assert RESOURCE_LABEL != OWNER_LABEL;
    assert RESOURCE_LABEL in a.labels <==> RESOURCE_LABEL in x;
    assert RESOURCE_LABEL in b.labels <==> RESOURCE_LABEL in y;
    assert RESOURCE_LABEL in x ==> x[RESOURCE_LABEL] == y[RESOURCE_LABEL];
  }

  lemma {:induction false} FilterAlike(net: Netip, keep: Endpoint -> bool, s: seq<Endpoint>, t: seq<Endpoint>)
    requires Blind(net, keep) && AllAlike(net, s, t)
    ensures AllAlike(net, Filter(keep, s), Filter(keep, t))
  {
    if s != [] {
      var n := |s| - 1;
      assert Alike(net, s[n], t[n]) && keep(s[n]) == keep(t[n]);
      FilterAlike(net, keep, s[..n], t[..n]);
      AppendAlike(net, Filter(keep, s[..n]), Filter(keep, t[..n]), s[n], t[n]);
    }
  }

  lemma AppendAlike(net: Netip, s: seq<Endpoint>, t: seq<Endpoint>, a: Endpoint, b: Endpoint)
    requires AllAlike(net, s, t) && Alike(net, a, b)
    ensures AllAlike(net, s + [a], t + [b])
  {
  }

  lemma FiltersAreBlind(cfg: Settings, c: Cell, k: PlanKey, resource: string)
    ensures Blind(cfg.net, ScopeFn(cfg)) && Blind(cfg.net, InCell(c)) && Blind(cfg.net, InRow(k))
    ensures Blind(cfg.net, SameResource(resource))
  {
    var scope, cell, row, same := ScopeFn(cfg), InCell(c), InRow(k), SameResource(resource);
    forall a, b | Alike(cfg.net, a, b)
      ensures scope(a) == scope(b) && cell(a) == cell(b) && row(a) == row(b) && same(a) == same(b)
    {
      AlikeFacts(cfg.net, a, b);
    }
  }

  lemma {:induction false} LeastAlike(net: Netip, s: seq<Endpoint>, t: seq<Endpoint>)
    requires AllAlike(net, s, t)
    ensures s != [] ==> Alike(net, Least(net, s).value, Least(net, t).value)
  {
    if s != [] {
      var n := |s| - 1;
      assert Alike(net, s[n], t[n]);
      LeastAlike(net, s[..n], t[..n]);
      if n > 0 {
        OrderIrrelevant(net, s[n].targets, t[n].targets,
                        Least(net, s[..n]).value.targets, Least(net, t[..n]).value.targets);
      }
    }
  }

  lemma ChosenAlike(cfg: Settings, resource: string, s: seq<Endpoint>, t: seq<Endpoint>)
    requires AllAlike(cfg.net, s, t) && s != []
    ensures Alike(cfg.net, Chosen(cfg.net, resource, s).value, Chosen(cfg.net, resource, t).value)
  {
    FiltersAreBlind(cfg, Cell(PlanKey("", ""), ""), PlanKey("", ""), resource);
    FilterAlike(cfg.net, SameResource(resource), s, t);
    LeastAlike(cfg.net, s, t);
    LeastAlike(cfg.net, Filter(SameResource(resource), s), Filter(SameResource(resource), t));
  }

  lemma ConflictingAlike(net: Netip, s: seq<Endpoint>, t: seq<Endpoint>)
    requires AllAlike(net, s, t)
    ensures Conflicting(s) == Conflicting(t)
  {
    forall i | 0 <= i < |s| ensures s[i] in s && t[i] in t && IsCname(s[i]) == IsCname(t[i]) {
      assert Alike(net, s[i], t[i]);
      AlikeFacts(net, s[i], t[i]);
    }
  }

  lemma WantedAlike(cfg: Settings, s: seq<Endpoint>, t: seq<Endpoint>, k: Key)
    requires AllAlike(cfg.net, s, t)
    ensures AllAlike(cfg.net, Wanted(cfg, s, k), Wanted(cfg, t, k))
  {
    var c := CellOfKey(k);
    FiltersAreBlind(cfg, c, c.key, "");
    FilterAlike(cfg.net, ScopeFn(cfg), s, t);
    FilterAlike(cfg.net, InRow(c.key), Relevant(cfg, s), Relevant(cfg, t));
    FilterAlike(cfg.net, InCell(c), Relevant(cfg, s), Relevant(cfg, t));
    ConflictingAlike(cfg.net, RowAt(Relevant(cfg, s), c.key), RowAt(Relevant(cfg, t), c.key));
  }

  lemma OutdatedAlike(net: Netip, u: Endpoint, v: Endpoint, r: Endpoint)
    requires Alike(net, u, v)
    ensures Outdated(net, u, r) == Outdated(net, v, r)
  {
    AlikeFacts(net, u, v);
    OrderIrrelevant(net, u.targets, v.targets, r.targets, r.targets);
  }

  /** Whether a record is replaced is the same for both lists. */
  lemma ReplacesAlike(cfg: Settings, r: Endpoint, s: seq<Endpoint>, t: seq<Endpoint>)
    requires AllAlike(cfg.net, s, t)
    ensures Replaces(cfg, r, s) == Replaces(cfg, r, t)
  {
    if s != [] {
      var resource := Label(r, RESOURCE_LABEL);
      ChosenAlike(cfg, resource, s, t);
      OutdatedAlike(cfg.net, Chosen(cfg.net, resource, s).value, Chosen(cfg.net, resource, t).value, r);
      ReplacesByChosen(cfg, r, s);
      ReplacesByChosen(cfg, r, t);
    }
  }

  lemma NextAlike(cfg: Settings, names: iset<string>, zone: Zone, s: seq<Endpoint>, t: seq<Endpoint>, k: Key)
    requires WfNames(names) && WfList(cfg.net, names, s) && k.dnsName in names
    requires AllAlike(cfg.net, s, t) && Next(cfg, zone, s, k) == Get(zone, k)
    ensures Next(cfg, zone, t, k) == Get(zone, k)
  {
    WantedAlike(cfg, s, t, k);
    if k in zone && KeyInScope(cfg, k) {
      ReplacesAlike(cfg, zone[k], Wanted(cfg, s, k), Wanted(cfg, t, k));
      if Replaces(cfg, zone[k], Wanted(cfg, s, k)) { ReplacedMoves(cfg, names, zone, s, k); }
    }
  }

  /** Convergence does not mind what a turn writes to the desired endpoints: with
      the list as the turn has left it, the second plan is empty all the same. */
  lemma LoopConvergesAlike(cfg: Settings, names: iset<string>, zone: Zone, desired: seq<Endpoint>, ch: Changes,
                           later: seq<Endpoint>, again: Changes)
    requires Turn(cfg, names, zone, desired, ch) && AllAlike(cfg.net, desired, later)
    requires Turn(cfg, names, Apply(zone, ch), later, again)
    ensures again == NO_CHANGES
  {
    forall k: Key | k.dnsName in names ensures Next(cfg, Apply(zone, ch), later, k) == Get(Apply(zone, ch), k) {
      TurnSettles(cfg, names, zone, desired, ch, k);
      NextAlike(cfg, names, Apply(zone, ch), desired, later, k);
    }
    QuietMeansNoChanges(cfg, names, Apply(zone, ch), later, again);
  }

  /** What a turn does to a desired endpoint, choosing, comparing and inheriting,
      leaves it alike. */
  lemma TurnLeavesAlike(net: Netip, current: Endpoint, wanted: seq<Endpoint>, e: Endpoint)
    ensures Alike(net, e, Compared(net, wanted, e))
    ensures Alike(net, e, NewSide(net, Compared(net, wanted, e), current))
    ensures Alike(net, e, InheritOwner(current, NewSide(net, Compared(net, wanted, e), current)))
  {
    var last := NewSide(net, Compared(net, wanted, e), current);
    SortedIsStable(net, e.targets);
    assert InheritOwner(current, last).labels - {OWNER_LABEL} == e.labels - {OWNER_LABEL};
  }
}
