/** A name with a CNAME has no other records (section 3.6.2 of RFC 1034). */
module Cname {
  import opened Sorting
  import opened Endpoints
  import opened Policies
  import opened Conflict
  import opened Cells
  import opened Store
  import opened Reconcile
  import opened Convergence

  /** Two records of one name, of which one is a CNAME and the other is not. */
  predicate Beside(cfg: Settings, cname: Key, other: Key) {
    && PlanKeyOfKey(cname) == PlanKeyOfKey(other)
    && KeyInScope(cfg, cname) && KeyInScope(cfg, other)
    && cname.recordType == TYPE_CNAME && other.recordType != TYPE_CNAME
  }

  ghost predicate Exclusive(cfg: Settings, zone: Zone) {
    forall c, o {:trigger Beside(cfg, c, o)} :: Beside(cfg, c, o) ==> c !in zone || o !in zone
  }

  /** Candidates never mix CNAME and other types. */
  lemma WantedIsExclusive(cfg: Settings, desired: seq<Endpoint>, c: Key, o: Key)
    requires Beside(cfg, c, o)
    ensures Wanted(cfg, desired, c) == [] || Wanted(cfg, desired, o) == []
  {
    var rel, pk := Relevant(cfg, desired), PlanKeyOfKey(c);
    if Wanted(cfg, desired, c) != [] && Wanted(cfg, desired, o) != [] {
      var x, y := At(rel, CellOfKey(c))[0], At(rel, CellOfKey(o))[0];
      FilterMember(InRow(pk), rel, x);
      FilterMember(InRow(pk), rel, y);
      assert x in RowAt(rel, pk) && y in RowAt(rel, pk) && IsCname(x) && !IsCname(y);
      assert false;
    }
  }

  /** A record that is created clashes with one that stays. */
  predicate Clash(cfg: Settings, zone: Zone, desired: seq<Endpoint>, stays: Key, created: Key) {
    && stays in zone && created !in zone
    && (Beside(cfg, stays, created) || Beside(cfg, created, stays))
    && Wanted(cfg, desired, created) != []
    && OwnsName(cfg, zone, PlanKeyOfKey(created))
  }

  lemma MixedOnlyByClash(cfg: Settings, names: iset<string>, zone: Zone, desired: seq<Endpoint>, ch: Changes, c: Key,
                         o: Key)
    requires Turn(cfg, names, zone, desired, ch) && Exclusive(cfg, zone) && Beside(cfg, c, o)
    requires c in Apply(zone, ch) && o in Apply(zone, ch)
    ensures Clash(cfg, zone, desired, c, o) || Clash(cfg, zone, desired, o, c)
    ensures !AllowsDelete(cfg.policies)
  {
    TurnIsNext(cfg, names, zone, desired, ch, c);
    TurnIsNext(cfg, names, zone, desired, ch, o);
    WantedIsExclusive(cfg, desired, c, o);
  }

  /** One turn with deletions allowed keeps names exclusive, whoever owns what. */
  lemma TurnKeepsExclusive(cfg: Settings, names: iset<string>, zone: Zone, desired: seq<Endpoint>, ch: Changes)
    requires Turn(cfg, names, zone, desired, ch) && Exclusive(cfg, zone) && AllowsDelete(cfg.policies)
    ensures Exclusive(cfg, Apply(zone, ch))
  {
    var after := Apply(zone, ch);
    forall c, o | c in after && o in after ensures !Beside(cfg, c, o) {
      if Beside(cfg, c, o) {
        MixedOnlyByClash(cfg, names, zone, desired, ch, c, o);
        assert false;
      }
    }
  }

  /** Without deletions a clash ends with both records in the zone. */
  lemma ClashMixes(cfg: Settings, names: iset<string>, zone: Zone, desired: seq<Endpoint>, ch: Changes, k: Key,
                   e: Endpoint)
    requires Turn(cfg, names, zone, desired, ch) && !AllowsDelete(cfg.policies)
    requires e in desired && Clash(cfg, zone, desired, k, KeyOf(e))
    ensures k in Apply(zone, ch) && KeyOf(e) in Apply(zone, ch)
  {
    TurnIsNext(cfg, names, zone, desired, ch, k);
    TurnIsNext(cfg, names, zone, desired, ch, KeyOf(e));
    LimitsAt(cfg, zone, desired, k);
    ClashCreates(cfg, zone, desired, k, KeyOf(e));
  }

  lemma ClashCreates(cfg: Settings, zone: Zone, desired: seq<Endpoint>, stays: Key, created: Key)
    requires Clash(cfg, zone, desired, stays, created)
    ensures Next(cfg, zone, desired, created).Some?
  {
  }

  /** What is created comes from the desired list. */
  lemma ClashHasCandidate(cfg: Settings, names: iset<string>, zone: Zone, desired: seq<Endpoint>, stays: Key,
                          created: Key)
    returns (e: Endpoint)
    requires WfNames(names) && WfList(cfg.net, names, desired) && created.dnsName in names
    requires Clash(cfg, zone, desired, stays, created)
    ensures e in desired && KeyOf(e) == created
  {
    WantedWf(cfg, names, desired, created);
    e := Wanted(cfg, desired, created)[0];
    assert e in Wanted(cfg, desired, created);
  }

  /** Without deletions an applied plan keeps exclusivity exactly when nothing is
      created that clashes with a record of the name. */
  lemma AppliedKeepsExclusiveIff(cfg: Settings, names: iset<string>, zone: Zone, desired: seq<Endpoint>, ch: Changes)
    requires Turn(cfg, names, zone, desired, ch) && Exclusive(cfg, zone) && !AllowsDelete(cfg.policies)
    ensures Exclusive(cfg, Apply(zone, ch))
       <==> forall k, e :: k in zone && e in desired ==> !Clash(cfg, zone, desired, k, KeyOf(e))
  {
    var after := Apply(zone, ch);
    forall k, e | k in zone && e in desired && Clash(cfg, zone, desired, k, KeyOf(e)) ensures !Exclusive(cfg, after) {
      ClashMixes(cfg, names, zone, desired, ch, k, e);
    }
    forall c, o | c in after && o in after && Beside(cfg, c, o)
      ensures exists k, e :: k in zone && e in desired && Clash(cfg, zone, desired, k, KeyOf(e))
    {
      MixedOnlyByClash(cfg, names, zone, desired, ch, c, o);
      TurnIsNext(cfg, names, zone, desired, ch, c);
      TurnIsNext(cfg, names, zone, desired, ch, o);
      if Clash(cfg, zone, desired, c, o) {
        var e := ClashHasCandidate(cfg, names, zone, desired, c, o);
      } else {
        var e := ClashHasCandidate(cfg, names, zone, desired, o, c);
      }
    }
  }

  /** Without deletions a turn keeps exclusivity exactly when its plan is refused or
      nothing is created that clashes with a record of the name, both of which can be
      told before the turn. */
  lemma UpsertKeepsExclusiveIff(cfg: Settings, names: iset<string>, zone: Zone, desired: seq<Endpoint>, ch: Changes)
    requires Turn(cfg, names, zone, desired, ch) && Exclusive(cfg, zone) && !AllowsDelete(cfg.policies)
    ensures Exclusive(cfg, After(zone, ch)) <==>
      || !Acceptable(cfg, zone, desired)
      || forall k, e :: k in zone && e in desired ==> !Clash(cfg, zone, desired, k, KeyOf(e))
  {
    PlansAreAcceptedIff(cfg, names, zone, desired, ch);
    AppliedKeepsExclusiveIff(cfg, names, zone, desired, ch);
  }

  // ---- whole runs

  /** Settings that look at the same records. */
  ghost predicate SameView(a: Settings, b: Settings) {
    a.net == b.net && a.filters == b.filters && a.managed == b.managed && a.excluded == b.excluded
  }

  /** A turn of some controller: any owner, any desired list.  A plan that is
      refused leaves the zone as it is. */
  datatype Taken = Taken(cfg: Settings, desired: seq<Endpoint>, plan: Changes)

  ghost predicate SyncStep(view: Settings, names: iset<string>, before: Zone, t: Taken, after: Zone) {
    SameView(view, t.cfg) && AllowsDelete(t.cfg.policies) && Turn(t.cfg, names, before, t.desired, t.plan)
      && after == After(before, t.plan)
  }

  ghost predicate SyncStepAt(view: Settings, names: iset<string>, run: seq<Zone>, turns: seq<Taken>, i: nat)
    requires i < |turns| < |run|
  {
    SyncStep(view, names, run[i], turns[i], run[i + 1])
  }

  ghost predicate SyncRun(view: Settings, names: iset<string>, run: seq<Zone>, turns: seq<Taken>) {
    |run| == |turns| + 1 && forall i :: 0 <= i < |turns| ==> SyncStepAt(view, names, run, turns, i)
  }

  ghost predicate StaysIn(good: iset<Zone>, run: seq<Zone>, i: nat)
    requires i + 1 < |run|
  {
    run[i] in good ==> run[i + 1] in good
  }

  lemma {:induction false} RunStaysIn(good: iset<Zone>, run: seq<Zone>, n: nat)
    requires n < |run| && run[0] in good && forall i :: 0 <= i < |run| - 1 ==> StaysIn(good, run, i)
    ensures run[n] in good
  {
    if n > 0 {
      RunStaysIn(good, run, n - 1);
      assert StaysIn(good, run, n - 1);
    }
  }

  /** Exclusive names stay exclusive over every run of sync turns, with owners,
      desired lists and record order varying freely. */
  lemma RunsStayExclusive(view: Settings, names: iset<string>, run: seq<Zone>, turns: seq<Taken>, n: nat)
    requires SyncRun(view, names, run, turns) && Exclusive(view, run[0]) && n < |run|
    ensures Exclusive(view, run[n])
  {
    var good := iset zone | Exclusive(view, zone);
    forall i | 0 <= i < |run| - 1 ensures StaysIn(good, run, i) {
      if Exclusive(view, run[i]) { RunStepStaysExclusive(view, names, run, turns, i); }
    }
    RunStaysIn(good, run, n);
  }

  lemma RunStepStaysExclusive(view: Settings, names: iset<string>, run: seq<Zone>, turns: seq<Taken>, i: nat)
    requires SyncRun(view, names, run, turns) && i < |turns| && Exclusive(view, run[i])
    ensures Exclusive(view, run[i + 1])
  {
    assert SyncStepAt(view, names, run, turns, i);
    StepStaysExclusive(view, names, run[i], turns[i], run[i + 1]);
  }

  lemma StepStaysExclusive(view: Settings, names: iset<string>, before: Zone, t: Taken, after: Zone)
    requires Exclusive(view, before) && SyncStep(view, names, before, t, after)
    ensures Exclusive(view, after)
  {
    SameViewSameExclusive(view, t.cfg, before);
    TurnKeepsExclusive(t.cfg, names, before, t.desired, t.plan);
    SameViewSameExclusive(view, t.cfg, after);
  }

  lemma SameViewSameExclusive(a: Settings, b: Settings, zone: Zone)
    requires SameView(a, b)
    ensures Exclusive(a, zone) == Exclusive(b, zone)
  {
    forall k ensures KeyInScope(a, k) == KeyInScope(b, k) {}
    forall c, o ensures Beside(a, c, o) == Beside(b, c, o) {}
  }
}
