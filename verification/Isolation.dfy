/** Several controllers on one zone, each reading, planning and writing at its
    own pace: plans are applied to a zone that may have changed since it was
    read (controller/controller.go, plan/plan.go, pkg/mem/inmemory.go). */
module Isolation {
  import opened Wrappers
  import opened Endpoints
  import opened Cells
  import opened Store
  import opened Reconcile
  import opened Convergence

  /** A plan on its way, with the zone it was made from. */
  datatype Pending = Pending(snapshot: Zone, desired: seq<Endpoint>, plan: Changes)

  datatype State = State(zone: Zone, pending: map<nat, Pending>)

  /** Controllers with owner identifiers that are set and pairwise different. */
  ghost predicate DistinctOwners(cfgs: seq<Settings>) {
    && (forall i :: 0 <= i < |cfgs| ==> cfgs[i].owner != "" && cfgs[i].net == cfgs[0].net)
    && (forall i, j :: 0 <= i < j < |cfgs| ==> cfgs[i].owner != cfgs[j].owner)
  }

  /** Controller `i` reads the zone and plans: any desired list, any order. */
  ghost predicate Read(cfgs: seq<Settings>, names: iset<string>, s: State, t: State, i: nat) {
    && i < |cfgs|
    && t.zone == s.zone
    && i in t.pending && t.pending == s.pending[i := t.pending[i]]
    && t.pending[i].snapshot == s.zone
    && Turn(cfgs[i], names, s.zone, t.pending[i].desired, t.pending[i].plan)
  }

  /** Controller `i` sends its plan; the provider validates it against the zone
      as it is now. */
  ghost predicate Write(cfgs: seq<Settings>, s: State, t: State, i: nat) {
    && i < |cfgs| && i in s.pending
    && t.pending == s.pending - {i}
    && t.zone == After(s.zone, s.pending[i].plan)
  }

  ghost predicate Step(cfgs: seq<Settings>, names: iset<string>, s: State, t: State) {
    exists i :: Read(cfgs, names, s, t, i) || Write(cfgs, s, t, i)
  }

  /** What a pending plan was made from still holds where it matters: the records
      its controller owned are still there, unchanged. */
  ghost predicate Faithful(cfg: Settings, names: iset<string>, zone: Zone, p: Pending) {
    && Turn(cfg, names, p.snapshot, p.desired, p.plan)
    && forall k :: k in p.snapshot && IsOwnedBy(p.snapshot[k], cfg.owner) ==> k in zone && zone[k] == p.snapshot[k]
  }

  ghost predicate Inv(cfgs: seq<Settings>, names: iset<string>, s: State) {
    && DistinctOwners(cfgs) && WfNames(names)
    && (cfgs != [] ==> WfZone(cfgs[0].net, names, s.zone))
    && forall i :: i in s.pending ==> i < |cfgs| && Faithful(cfgs[i], names, s.zone, s.pending[i])
  }

  // ---- what a plan, even a stale one, can touch

  /** Everything a plan updates was owned when it was read, and keeps its owner. */
  lemma UpdateTouchesOwn(cfg: Settings, names: iset<string>, zone: Zone, desired: seq<Endpoint>, ch: Changes,
                         e: Endpoint)
    requires Turn(cfg, names, zone, desired, ch) && cfg.owner != "" && e in ch.updateNew
    ensures KeyOf(e) in zone && IsOwnedBy(zone[KeyOf(e)], cfg.owner) && IsOwnedBy(e, cfg.owner)
  {
    UpdateNewIsStored(cfg, names, zone, desired, ch, e);
    TurnPlansKey(cfg, names, zone, desired, ch, KeyOf(e));
    AtMember(ch.updateNew, e);
    ReplacementKeepsOwner(cfg, zone[KeyOf(e)], Wanted(cfg, desired, KeyOf(e)));
  }

  /** So was everything it deletes. */
  lemma DeleteTouchesOwn(cfg: Settings, names: iset<string>, zone: Zone, desired: seq<Endpoint>, ch: Changes,
                         e: Endpoint)
    requires Turn(cfg, names, zone, desired, ch) && cfg.owner != "" && e in ch.delete
    ensures KeyOf(e) in zone && IsOwnedBy(zone[KeyOf(e)], cfg.owner)
  {
    DeletedIsStored(cfg, names, zone, desired, ch, e);
    MentionedMoves(cfg, names, zone, desired, ch, e);
    UnclaimedStays(cfg, zone, desired, KeyOf(e));
  }

  /** Nothing is created at a name that had, when it was read, a record in scope
      that the controller does not own. */
  lemma CreateNeedsClaim(cfg: Settings, names: iset<string>, zone: Zone, desired: seq<Endpoint>, ch: Changes,
                         e: Endpoint, k: Key)
    requires Turn(cfg, names, zone, desired, ch) && cfg.owner != "" && e in ch.create
    requires k in zone && PlanKeyOfKey(k) == PlanKeyOfKey(KeyOf(e)) && KeyInScope(cfg, k)
    ensures IsOwnedBy(zone[k], cfg.owner)
  {
    CreateIsFresh(cfg, names, zone, desired, ch, e);
    MentionedMoves(cfg, names, zone, desired, ch, e);
    FreeKeyNeedsName(cfg, zone, desired, KeyOf(e));
  }

  lemma FreeKeyNeedsName(cfg: Settings, zone: Zone, desired: seq<Endpoint>, k: Key)
    requires k !in zone && Next(cfg, zone, desired, k) != Get(zone, k)
    ensures OwnsName(cfg, zone, PlanKeyOfKey(k))
  {
  }

  lemma ReplacementKeepsOwner(cfg: Settings, r: Endpoint, wanted: seq<Endpoint>)
    requires cfg.owner != ""
    ensures Replaces(cfg, r, wanted)
      ==> IsOwnedBy(r, cfg.owner) && IsOwnedBy(NextTaken(cfg, r, wanted).value, cfg.owner)
  {
  }

  lemma UnclaimedStays(cfg: Settings, zone: Zone, desired: seq<Endpoint>, k: Key)
    requires k in zone
    ensures !Claims(cfg, zone[k]) ==> Next(cfg, zone, desired, k) == Some(zone[k])
  {
  }

  /** The effect of an accepted stale plan on one key: a key that was free is
      filled, or a record of the writer's own is replaced, keeping its owner, or
      deleted; or nothing happens. */
  lemma StaleWriteAt(cfg: Settings, names: iset<string>, zone: Zone, p: Pending, k: Key)
    requires cfg.owner != "" && Faithful(cfg, names, zone, p) && BatchOk(zone, p.plan)
    ensures Get(Apply(zone, p.plan), k) != Get(zone, k) ==>
      k !in zone
        || (IsOwnedBy(zone[k], cfg.owner)
          && (k in Apply(zone, p.plan) ==> IsOwnedBy(Apply(zone, p.plan)[k], cfg.owner)))
  {
    ApplyAt(zone, p.plan);
    if k in KeysOf(p.plan.updateNew) {
      var e :| e in p.plan.updateNew && KeyOf(e) == k;
      UpdateTouchesOwn(cfg, names, p.snapshot, p.desired, p.plan, e);
    } else if k in KeysOf(p.plan.delete) {
      var e :| e in p.plan.delete && KeyOf(e) == k;
      DeleteTouchesOwn(cfg, names, p.snapshot, p.desired, p.plan, e);
    } else if k in KeysOf(p.plan.create) {
      var e :| e in p.plan.create && KeyOf(e) == k;
    }
  }

  lemma PlannedIsWf(cfg: Settings, names: iset<string>, zone: Zone, desired: seq<Endpoint>, ch: Changes, e: Endpoint)
    requires Turn(cfg, names, zone, desired, ch) && (e in ch.create || e in ch.updateNew)
    ensures WfEndpoint(cfg.net, names, e)
  {
    PlansArePlaceable(cfg, names, zone, desired, ch);
    ApplyAt(zone, ch);
    TurnKeepsWf(cfg, names, zone, desired, ch);
    assert Get(Apply(zone, ch), KeyOf(e)) == Some(e);
  }

  lemma StaleWriteKeepsWf(cfg: Settings, names: iset<string>, zone: Zone, p: Pending)
    requires Faithful(cfg, names, zone, p) && BatchOk(zone, p.plan) && WfZone(cfg.net, names, zone)
    ensures WfZone(cfg.net, names, Apply(zone, p.plan))
  {
    var after := Apply(zone, p.plan);
    ApplyAt(zone, p.plan);
    ApplyKeyed(zone, p.plan);
    forall k | k in after ensures WfEndpoint(cfg.net, names, after[k]) {
      if k in KeysOf(p.plan.create) {
        var e :| e in p.plan.create && KeyOf(e) == k;
        PlannedIsWf(cfg, names, p.snapshot, p.desired, p.plan, e);
      } else if k in KeysOf(p.plan.updateNew) {
        var e :| e in p.plan.updateNew && KeyOf(e) == k;
        PlannedIsWf(cfg, names, p.snapshot, p.desired, p.plan, e);
      } else {
        assert Get(after, k) == Get(zone, k);
      }
    }
  }

  // ---- one step

  /** Between two states, `i` being the only writer: others' records stay as they
      are, and a record that stays keeps its owner. */
  ghost predicate OnlyOwnTouched(owner: string, before: Zone, after: Zone) {
    && (forall k :: k in before && !IsOwnedBy(before[k], owner) ==> k in after && after[k] == before[k])
    && (forall k :: k in before && k in after ==> Label(after[k], OWNER_LABEL) == Label(before[k], OWNER_LABEL))
  }

  lemma WriteIsolates(cfgs: seq<Settings>, names: iset<string>, s: State, t: State, i: nat)
    requires Inv(cfgs, names, s) && Write(cfgs, s, t, i)
    ensures OnlyOwnTouched(cfgs[i].owner, s.zone, t.zone)
    ensures t.zone == s.zone || BatchOk(s.zone, s.pending[i].plan)
  {
    var p := s.pending[i];
    ValidationIsExact(s.zone, p.plan);
    if BatchOk(s.zone, p.plan) {
      forall k | k in s.zone
        ensures !IsOwnedBy(s.zone[k], cfgs[i].owner) ==> k in t.zone && t.zone[k] == s.zone[k]
        ensures k in t.zone ==> Label(t.zone[k], OWNER_LABEL) == Label(s.zone[k], OWNER_LABEL)
      {
        StaleWriteAt(cfgs[i], names, s.zone, p, k);
      }
    }
  }

  lemma OwnedByOne(cfgs: seq<Settings>, e: Endpoint, i: nat, j: nat)
    requires DistinctOwners(cfgs) && i < |cfgs| && j < |cfgs| && i != j
    ensures IsOwnedBy(e, cfgs[i].owner) ==> !IsOwnedBy(e, cfgs[j].owner)
  {
    assert cfgs[if i < j then i else j].owner != cfgs[if i < j then j else i].owner;
  }

  lemma OthersStayFaithful(cfgs: seq<Settings>, names: iset<string>, s: State, t: State, i: nat, j: nat)
    requires Inv(cfgs, names, s) && Write(cfgs, s, t, i) && j in s.pending && j != i
    ensures Faithful(cfgs[j], names, t.zone, s.pending[j])
  {
    WriteIsolates(cfgs, names, s, t, i);
    var p := s.pending[j];
    forall k | k in p.snapshot && IsOwnedBy(p.snapshot[k], cfgs[j].owner)
      ensures k in t.zone && t.zone[k] == p.snapshot[k]
    {
      OwnedByOne(cfgs, p.snapshot[k], j, i);
    }
  }

  lemma WriteKeepsWf(cfgs: seq<Settings>, names: iset<string>, s: State, t: State, i: nat)
    requires Inv(cfgs, names, s) && Write(cfgs, s, t, i)
    ensures WfZone(cfgs[0].net, names, t.zone)
  {
    ValidationIsExact(s.zone, s.pending[i].plan);
    assert cfgs[i].net == cfgs[0].net;
    if BatchOk(s.zone, s.pending[i].plan) {
      StaleWriteKeepsWf(cfgs[i], names, s.zone, s.pending[i]);
    }
  }

  lemma ReadKeepsFaithful(cfgs: seq<Settings>, names: iset<string>, s: State, t: State, i: nat, j: nat)
    requires Inv(cfgs, names, s) && Read(cfgs, names, s, t, i) && j in t.pending
    ensures j < |cfgs| && Faithful(cfgs[j], names, t.zone, t.pending[j])
  {
    assert j != i ==> j in s.pending && t.pending[j] == s.pending[j];
  }

  lemma StepKeepsInv(cfgs: seq<Settings>, names: iset<string>, s: State, t: State)
    requires Inv(cfgs, names, s) && Step(cfgs, names, s, t)
    ensures Inv(cfgs, names, t)
  {
    var i :| Read(cfgs, names, s, t, i) || Write(cfgs, s, t, i);
    if Write(cfgs, s, t, i) {
      WriteKeepsWf(cfgs, names, s, t, i);
      forall j | j in t.pending ensures j < |cfgs| && Faithful(cfgs[j], names, t.zone, t.pending[j]) {
        OthersStayFaithful(cfgs, names, s, t, i, j);
      }
    } else {
      forall j | j in t.pending ensures j < |cfgs| && Faithful(cfgs[j], names, t.zone, t.pending[j]) {
        ReadKeepsFaithful(cfgs, names, s, t, i, j);
      }
    }
  }

  // ---- whole runs

  ghost predicate Run(cfgs: seq<Settings>, names: iset<string>, run: seq<State>) {
    run != [] && forall n :: 0 < n < |run| ==> StepAt(cfgs, names, run, n)
  }

  ghost predicate StepAt(cfgs: seq<Settings>, names: iset<string>, run: seq<State>, n: nat)
    requires 0 < n < |run|
  {
    Step(cfgs, names, run[n - 1], run[n])
  }

  ghost predicate WritesAt(cfgs: seq<Settings>, run: seq<State>, n: nat, j: nat)
    requires 0 < n < |run|
  {
    Write(cfgs, run[n - 1], run[n], j)
  }

  lemma {:induction false} InvAlongRun(cfgs: seq<Settings>, names: iset<string>, run: seq<State>, n: nat)
    requires Run(cfgs, names, run) && Inv(cfgs, names, run[0]) && n < |run|
    ensures Inv(cfgs, names, run[n])
  {
    if n > 0 {
      InvAlongRun(cfgs, names, run, n - 1);
      assert StepAt(cfgs, names, run, n);
      StepKeepsInv(cfgs, names, run[n - 1], run[n]);
    }
  }

  /** Owner isolation: in every run from an idle start, each step has one writer
      at most, and all it can change are its own records and free keys. */
  lemma OwnerIsolation(cfgs: seq<Settings>, names: iset<string>, run: seq<State>, n: nat)
    requires Run(cfgs, names, run) && 0 < n < |run|
    requires DistinctOwners(cfgs) && WfNames(names) && cfgs != []
    requires WfZone(cfgs[0].net, names, run[0].zone) && run[0].pending == map[]
    ensures run[n].zone == run[n - 1].zone
         || exists i :: 0 <= i < |cfgs| && OnlyOwnTouched(cfgs[i].owner, run[n - 1].zone, run[n].zone)
  {
    InvAlongRun(cfgs, names, run, n - 1);
    var s, t := run[n - 1], run[n];
    assert StepAt(cfgs, names, run, n);
    var i :| Read(cfgs, names, s, t, i) || Write(cfgs, s, t, i);
    if Write(cfgs, s, t, i) {
      WriteIsolates(cfgs, names, s, t, i);
    }
  }

  lemma AbsentOwnerStep(cfgs: seq<Settings>, names: iset<string>, s: State, t: State, j: nat, k: Key)
    requires Inv(cfgs, names, s) && Step(cfgs, names, s, t) && !Write(cfgs, s, t, j) && j < |cfgs|
    requires k in s.zone && IsOwnedBy(s.zone[k], cfgs[j].owner)
    ensures Get(t.zone, k) == Get(s.zone, k)
  {
    var i :| Read(cfgs, names, s, t, i) || Write(cfgs, s, t, i);
    if Write(cfgs, s, t, i) {
      WriteIsolates(cfgs, names, s, t, i);
      OwnedByOne(cfgs, s.zone[k], j, i);
    }
  }

  lemma AbsentOwnerAt(cfgs: seq<Settings>, names: iset<string>, run: seq<State>, j: nat, k: Key, n: nat)
    requires Run(cfgs, names, run) && Inv(cfgs, names, run[0]) && j < |cfgs| && 0 < n < |run|
    requires !WritesAt(cfgs, run, n, j)
    requires k in run[n - 1].zone && IsOwnedBy(run[n - 1].zone[k], cfgs[j].owner)
    ensures Get(run[n].zone, k) == Get(run[n - 1].zone, k)
  {
    InvAlongRun(cfgs, names, run, n - 1);
    assert StepAt(cfgs, names, run, n);
    AbsentOwnerStep(cfgs, names, run[n - 1], run[n], j, k);
  }

  /** Over a run in which controller `j` does not write, its records are exactly
      what they were, however stale the plans of the others. */
  lemma {:induction false} AbsentOwnerKeepsRecords(cfgs: seq<Settings>, names: iset<string>, run: seq<State>, j: nat,
                                                   k: Key, n: nat)
    requires Run(cfgs, names, run) && Inv(cfgs, names, run[0]) && j < |cfgs| && n < |run|
    requires forall m :: 0 < m <= n ==> !WritesAt(cfgs, run, m, j)
    requires k in run[0].zone && IsOwnedBy(run[0].zone[k], cfgs[j].owner)
    ensures k in run[n].zone && run[n].zone[k] == run[0].zone[k]
  {
    if n > 0 {
      AbsentOwnerKeepsRecords(cfgs, names, run, j, k, n - 1);
      assert !WritesAt(cfgs, run, n, j);
      AbsentOwnerAt(cfgs, names, run, j, k, n);
    }
  }
}
