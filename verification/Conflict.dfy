/** Choosing among several desired records for one DNS name (plan/conflict.go,
    `PerResource`), and the rows of the plan table it reads. */
module Conflict {
  import opened Wrappers
  import opened Sorting
  import opened Endpoints
  import opened Targets

  datatype DomainEndpoints = DomainEndpoints(current: Option<Endpoint>, candidates: seq<Endpoint>)

  datatype Row = Row(current: seq<Endpoint>, candidates: seq<Endpoint>, records: map<string, DomainEndpoints>)

  function LessEndpoint(net: Netip): (Endpoint, Endpoint) -> bool {
    (x: Endpoint, y: Endpoint) => IsLess(net, x.targets, y.targets)
  }

  function SameResource(resource: string): Endpoint -> bool {
    e => Label(e, RESOURCE_LABEL) == resource
  }

  ghost function CanonicalEndpoints(net: Netip): iset<Endpoint> {
    iset e: Endpoint | CanonicalList(net, e.targets)
  }

  lemma LessEndpointIsWeakOrder(net: Netip)
    ensures WeakOrderOn(LessEndpoint(net), CanonicalEndpoints(net))
  {
    IsLessIsWeakOrder(net);
    var less, dom, on := LessEndpoint(net), CanonicalEndpoints(net), IsLessFn(net);
    forall a, b | a in dom && b in dom && less(a, b) ensures !less(b, a) {
      assert on(a.targets, b.targets);
    }
    forall a, b, c | a in dom && b in dom && c in dom && !less(a, b) && !less(b, c) ensures !less(a, c) {
      assert !on(a.targets, b.targets) && !on(b.targets, c.targets);
    }
  }

  /** The running minimum of `ResolveCreate`; nil for no candidates. */
  function Least(net: Netip, candidates: seq<Endpoint>): (m: Option<Endpoint>)
    ensures m.Some? <==> candidates != []
    ensures m.Some? ==> m.value in candidates
  {
    if candidates == [] then None
    else
      var front, last := Least(net, candidates[..|candidates| - 1]), candidates[|candidates| - 1];
      if front.None? || IsLess(net, last.targets, front.value.targets) then Some(last) else front
  }

  // ---- what comparing does to the candidates

  /** The endpoint with its target list sorted, as a comparison of lists of one
      length leaves it. */
  function SortTargets(net: Netip, e: Endpoint): Endpoint {
    e.(targets := Sorted(net, e.targets))
  }

  function AfterComparing(net: Netip, e: Endpoint, other: Endpoint): Endpoint {
    if |e.targets| == |other.targets| then SortTargets(net, e) else e
  }

  /** Candidates that compare alike: one is the other, or the other sorted. */
  predicate Reordered(net: Netip, e: Endpoint, f: Endpoint) {
    f == e || f == SortTargets(net, e)
  }

  lemma ReorderedCompares(net: Netip, x: Endpoint, x': Endpoint, y: Endpoint, y': Endpoint)
    requires Reordered(net, x, x') && Reordered(net, y, y')
    ensures IsLess(net, x'.targets, y'.targets) == IsLess(net, x.targets, y.targets)
    ensures Same(net, x'.targets, y'.targets) == Same(net, x.targets, y.targets)
    ensures SortTargets(net, x') == SortTargets(net, x) && |x'.targets| == |x.targets|
  {
    SortedIsStable(net, x.targets);
    SortedIsStable(net, y.targets);
    OrderIrrelevant(net, x.targets, x'.targets, y.targets, y'.targets);
  }

  /** Compares two candidates where they are. */
  method CompareAt(net: Netip, candidates: array<Endpoint>, i: nat, j: nat) returns (less: bool)
    requires i < candidates.Length && j < candidates.Length && i != j
    modifies candidates
    ensures less == IsLess(net, old(candidates[i]).targets, old(candidates[j]).targets)
    ensures candidates[i] == AfterComparing(net, old(candidates[i]), old(candidates[j]))
    ensures candidates[j] == AfterComparing(net, old(candidates[j]), old(candidates[i]))
    ensures forall k :: 0 <= k < candidates.Length && k != i && k != j ==> candidates[k] == old(candidates[k])
  {
    var x, y := candidates[i], candidates[j];
    var t := new string[|x.targets|](k requires 0 <= k < |x.targets| => x.targets[k]);
    var o := new string[|y.targets|](k requires 0 <= k < |y.targets| => y.targets[k]);
    assert t[..] == x.targets && o[..] == y.targets;
    less := IsLessInPlace(net, t, o);
    candidates[i] := x.(targets := t[..]);
    candidates[j] := y.(targets := o[..]);
  }

  /** How many candidates have a number of targets. */
  function Rivals(s: seq<Endpoint>, n: nat): nat {
    if s == [] then 0 else Rivals(s[..|s| - 1], n) + if |s[|s| - 1].targets| == n then 1 else 0
  }

  /** What a choice among `all` leaves of a candidate that had to be compared with
      every other of its length: sorted, unless it is the only one. */
  function Compared(net: Netip, all: seq<Endpoint>, e: Endpoint): Endpoint {
    if Rivals(all, |e.targets|) >= 2 then SortTargets(net, e) else e
  }

  /** A candidate has been compared with another of its length exactly if there is one. */
  lemma ComparedMeans(net: Netip, all: seq<Endpoint>, e: Endpoint)
    ensures Compared(net, all, e).(targets := e.targets) == e
    ensures Compared(net, all, e).targets
         == if exists i, j :: 0 <= i < j < |all| && |all[i].targets| == |e.targets| == |all[j].targets|
            then Sorted(net, e.targets) else e.targets
  {
    TwoRivalsIff(all, |e.targets|);
  }

  lemma {:induction false} OneRivalIff(s: seq<Endpoint>, n: nat)
    ensures Rivals(s, n) >= 1 <==> exists i :: 0 <= i < |s| && |s[i].targets| == n
  {
    if s != [] {
      var front, last := s[..|s| - 1], s[|s| - 1];
      OneRivalIff(front, n);
      if i :| 0 <= i < |front| && |front[i].targets| == n { assert |s[i].targets| == n; }
      if i :| 0 <= i < |s| && |s[i].targets| == n {
        if i < |s| - 1 { assert |front[i].targets| == n; }
      }
    }
  }

  lemma {:induction false} TwoRivalsIff(s: seq<Endpoint>, n: nat)
    ensures Rivals(s, n) >= 2 <==> exists i, j :: 0 <= i < j < |s| && |s[i].targets| == n == |s[j].targets|
  {
    if s != [] {
      var front, last := s[..|s| - 1], s[|s| - 1];
      TwoRivalsIff(front, n);
      OneRivalIff(front, n);
      if i, j :| 0 <= i < j < |front| && |front[i].targets| == n == |front[j].targets| {
        assert |s[i].targets| == n == |s[j].targets|;
      }
      if i :| 0 <= i < |front| && |front[i].targets| == n && |last.targets| == n {
        assert |s[i].targets| == n == |s[|s| - 1].targets|;
      }
      if i, j :| 0 <= i < j < |s| && |s[i].targets| == n == |s[j].targets| {
        assert front[i] == s[i];
        if j < |s| - 1 { assert front[j] == s[j]; }
      }
    }
  }

  function ComparedOption(net: Netip, all: seq<Endpoint>, e: Option<Endpoint>): Option<Endpoint> {
    if e.Some? then Some(Compared(net, all, e.value)) else None
  }

  function LastTouched(net: Netip, now: seq<Endpoint>, m: nat, last: Endpoint): seq<Endpoint>
    requires m < |now|
  {
    now[m := AfterComparing(net, now[m], last)] + [AfterComparing(net, last, now[m])]
  }

  /** The candidates and the place of the minimum after the loop of `ResolveCreate`. */
  function Scanned(net: Netip, s: seq<Endpoint>): (r: (seq<Endpoint>, nat))
    requires s != []
    ensures |r.0| == |s| && r.1 < |s|
  {
    if |s| == 1 then (s, 0)
    else
      var n := |s| - 1;
      var (now, m) := Scanned(net, s[..n]);
      (LastTouched(net, now, m, s[n]), if IsLess(net, s[n].targets, now[m].targets) then n else m)
  }

  /** The loop, where the candidates are: the minimum itself, as it is when the
      loop ends, and what is left of the others. */
  method ResolveCreate(net: Netip, candidates: array<Endpoint>) returns (min: Option<Endpoint>)
    modifies candidates
    ensures min.None? <==> candidates.Length == 0
    ensures candidates.Length > 0 ==>
      && candidates[..] == Scanned(net, old(candidates[..])).0
      && min == Some(candidates[Scanned(net, old(candidates[..])).1])
  {
    if candidates.Length == 0 {
      return None;
    }
    ghost var was := candidates[..];
    var m := 0;
    assert was[..1] == candidates[..1];
    for i := 1 to candidates.Length
      invariant m < i
      invariant (candidates[..i], m) == Scanned(net, was[..i])
      invariant forall k :: i <= k < candidates.Length ==> candidates[k] == was[k]
    {
      ghost var now := candidates[..i];
      assert was[..i + 1][..i] == was[..i] && now[m] == candidates[m];
      var less := CompareAt(net, candidates, i, m);
      assert candidates[..i + 1] == LastTouched(net, now, m, was[i]);
      if less {
        m := i;
      }
    }
    assert was[..candidates.Length] == was && candidates[..candidates.Length] == candidates[..];
    min := Some(candidates[m]);
  }

  /** What the loop leaves, told without it: each candidate is as it was or
      sorted, and the minimum is `Least`, sorted unless no other has its length. */
  lemma {:induction false} ScannedIsLeast(net: Netip, s: seq<Endpoint>)
    requires s != []
    ensures var (now, m) := Scanned(net, s);
      && Some(s[m]) == Least(net, s)
      && now[m] == Compared(net, s, s[m])
      && (forall k :: 0 <= k < |s| ==> Reordered(net, s[k], now[k]))
      && MinimumOf(s, m)
  {
    var n := |s| - 1;
    if n == 0 {
      OnlyCandidate(net, s);
    } else {
      var (now, m) := Scanned(net, s[..n]);
      ScannedIsLeast(net, s[..n]);
      ScanStep(net, s[..n], now, m, s[n]);
      ScannedAppended(net, s, now, m);
      assert s == s[..n] + [s[n]];
      ReorderStep(net, s, now, m);
    }
  }

  lemma OnlyCandidate(net: Netip, s: seq<Endpoint>)
    requires |s| == 1
    ensures Least(net, s) == Some(s[0]) && Compared(net, s, s[0]) == s[0]
  {
    assert s[..0] == [];
    assert Rivals(s[..0], |s[0].targets|) == 0;
    assert Rivals(s, |s[0].targets|) == 1;
  }

  lemma {:induction false} NoShorterNoRivals(s: seq<Endpoint>, n: nat)
    requires forall k :: 0 <= k < |s| ==> n < |s[k].targets|
    ensures Rivals(s, n) == 0
  {
    if s != [] { NoShorterNoRivals(s[..|s| - 1], n); }
  }

  lemma {:induction false} RivalOfItself(s: seq<Endpoint>, k: nat)
    requires k < |s|
    ensures Rivals(s, |s[k].targets|) >= 1
  {
    if k < |s| - 1 {
      assert s[..|s| - 1][k] == s[k];
      RivalOfItself(s[..|s| - 1], k);
    }
  }

  lemma ScannedAppended(net: Netip, s: seq<Endpoint>, now: seq<Endpoint>, m: nat)
    requires |s| > 1 && (now, m) == Scanned(net, s[..|s| - 1])
    ensures Scanned(net, s)
         == (LastTouched(net, now, m, s[|s| - 1]),
             if IsLess(net, s[|s| - 1].targets, now[m].targets) then |s| - 1 else m)
  {
  }

  lemma TouchedReordered(net: Netip, s: seq<Endpoint>, now: seq<Endpoint>, m: nat, k: nat)
    requires m < |now| == |s| - 1 && k < |s|
    requires Reordered(net, s[m], now[m]) && (k < |now| ==> Reordered(net, s[k], now[k]))
    ensures Reordered(net, s[k], LastTouched(net, now, m, s[|s| - 1])[k])
  {
    ReorderedCompares(net, s[m], now[m], s[m], now[m]);
  }

  ghost predicate MinimumOf(s: seq<Endpoint>, m: nat) {
    m < |s| && forall k :: 0 <= k < |s| ==> |s[m].targets| <= |s[k].targets|
  }

  /** The minimum so far, as the comparisons have left it. */
  ghost predicate IsScan(net: Netip, s: seq<Endpoint>, now: seq<Endpoint>, m: nat) {
    && |now| == |s|
    && MinimumOf(s, m)
    && Some(s[m]) == Least(net, s)
    && now[m] == Compared(net, s, s[m])
  }

  lemma NewcomerWins(net: Netip, front: seq<Endpoint>, now: seq<Endpoint>, m: nat, last: Endpoint)
    requires IsScan(net, front, now, m) && IsLess(net, last.targets, front[m].targets)
    ensures IsScan(net, front + [last], LastTouched(net, now, m, last), |front|)
  {
    LeastAppended(net, front, last);
    MinimumCompared(net, front, now[m], front[m], last, m);
  }

  lemma NewcomerLoses(net: Netip, front: seq<Endpoint>, now: seq<Endpoint>, m: nat, last: Endpoint)
    requires IsScan(net, front, now, m) && !IsLess(net, last.targets, front[m].targets)
    ensures IsScan(net, front + [last], LastTouched(net, now, m, last), m)
  {
    LeastAppended(net, front, last);
    MinimumCompared(net, front, now[m], front[m], last, m);
  }

  lemma ScanCompares(net: Netip, front: seq<Endpoint>, now: seq<Endpoint>, m: nat, last: Endpoint)
    requires IsScan(net, front, now, m)
    ensures IsLess(net, last.targets, now[m].targets) == IsLess(net, last.targets, front[m].targets)
  {
    ComparedTwice(net, front, front[m]);
    ReorderedCompares(net, last, last, front[m], now[m]);
  }

  lemma ScanStep(net: Netip, front: seq<Endpoint>, now: seq<Endpoint>, m: nat, last: Endpoint)
    requires IsScan(net, front, now, m)
    ensures IsScan(net, front + [last], LastTouched(net, now, m, last),
                   if IsLess(net, last.targets, now[m].targets) then |front| else m)
  {
    ScanCompares(net, front, now, m, last);
    if IsLess(net, last.targets, now[m].targets) {
      NewcomerWins(net, front, now, m, last);
    } else {
      NewcomerLoses(net, front, now, m, last);
    }
  }

  lemma ReorderStep(net: Netip, s: seq<Endpoint>, now: seq<Endpoint>, m: nat)
    requires |s| > 1 && (now, m) == Scanned(net, s[..|s| - 1])
    requires forall k :: 0 <= k < |s| - 1 ==> Reordered(net, s[k], now[k])
    ensures forall k :: 0 <= k < |s| ==> Reordered(net, s[k], Scanned(net, s).0[k])
  {
    ScannedAppended(net, s, now, m);
    forall k | 0 <= k < |s| ensures Reordered(net, s[k], LastTouched(net, now, m, s[|s| - 1])[k]) {
      TouchedReordered(net, s, now, m, k);
    }
  }

  lemma LeastAppended(net: Netip, front: seq<Endpoint>, last: Endpoint)
    requires front != []
    ensures Least(net, front + [last])
         == if IsLess(net, last.targets, Least(net, front).value.targets) then Some(last) else Least(net, front)
  {
    assert (front + [last])[..|front|] == front;
  }

  /** How the old minimum and the newcomer come out of their comparison. */
  lemma MinimumCompared(net: Netip, front: seq<Endpoint>, now: Endpoint, min: Endpoint, last: Endpoint, m: nat)
    requires MinimumOf(front, m) && front[m] == min && now == Compared(net, front, min)
    ensures IsLess(net, last.targets, min.targets)
      ==> AfterComparing(net, last, now) == Compared(net, front + [last], last)
    ensures !IsLess(net, last.targets, min.targets)
      ==> AfterComparing(net, now, last) == Compared(net, front + [last], min)
    ensures IsLess(net, last.targets, min.targets) ==> |last.targets| <= |min.targets|
    ensures !IsLess(net, last.targets, min.targets) ==> |min.targets| <= |last.targets|
  {
    ReorderedCompares(net, min, now, last, last);
    RivalOfItself(front, m);
    AppendRivals(front, last, |min.targets|);
    AppendRivals(front, last, |last.targets|);
    if |last.targets| < |min.targets| {
      NoShorterNoRivals(front, |last.targets|);
    }
  }

  lemma AppendRivals(s: seq<Endpoint>, x: Endpoint, n: nat)
    ensures Rivals(s + [x], n) == Rivals(s, n) + if |x.targets| == n then 1 else 0
  {
    assert (s + [x])[..|s|] == s;
  }

  function Created(net: Netip, candidates: seq<Endpoint>): Option<Endpoint> {
    ComparedOption(net, candidates, Least(net, candidates))
  }

  /** The first candidate of a resource, in the order given. */
  function FirstOf(resource: string, candidates: seq<Endpoint>): (m: Option<Endpoint>)
    ensures m.Some? ==> m.value in candidates
  {
    if candidates == [] then None
    else if Label(candidates[0], RESOURCE_LABEL) == resource then Some(candidates[0])
    else FirstOf(resource, candidates[1..])
  }

  /** `ResolveUpdate`, as the code computes it. */
  function Update(net: Netip, current: Endpoint, candidates: seq<Endpoint>): (u: Option<Endpoint>)
    ensures u.Some? <==> candidates != []
    ensures u.Some? ==> u.value in candidates
  {
    var sorted := Sort(LessEndpoint(net), candidates);
    var own := FirstOf(Label(current, RESOURCE_LABEL), sorted);
    var u := if own.Some? then own else Least(net, sorted);
    assert u.Some? ==> u.value in candidates by {
      SortPermutes(LessEndpoint(net), candidates);
      assert u.Some? ==> u.value in multiset(sorted);
    }
    u
  }

  function AllCompared(net: Netip, all: seq<Endpoint>, s: seq<Endpoint>): (r: seq<Endpoint>)
    ensures |r| == |s| && forall k :: 0 <= k < |s| ==> r[k] == Compared(net, all, s[k])
  {
    seq(|s|, k requires 0 <= k < |s| => Compared(net, all, s[k]))
  }

  // ---- sorting, where comparing writes

  ghost predicate LengthsAscend(s: seq<Endpoint>) {
    forall i, j :: 0 <= i < j < |s| ==> |s[i].targets| <= |s[j].targets|
  }

  /** Insertion puts shorter lists first, however targets are spelled. */
  lemma {:induction false} InsertAscends(net: Netip, s: seq<Endpoint>, x: Endpoint)
    requires LengthsAscend(s)
    ensures LengthsAscend(Insert(LessEndpoint(net), s, x))
    ensures var r := Insert(LessEndpoint(net), s, x);
      |r[|r| - 1].targets|
        == if s == [] || |s[|s| - 1].targets| <= |x.targets| then |x.targets| else |s[|s| - 1].targets|
  {
    var n := |s| - 1;
    if s != [] && IsLess(net, x.targets, s[n].targets) {
      InsertAscends(net, s[..n], x);
      LastAscends(Insert(LessEndpoint(net), s[..n], x), s[n]);
    } else {
      LastAscends(s, x);
    }
  }

  lemma LastAscends(s: seq<Endpoint>, x: Endpoint)
    requires LengthsAscend(s) && (s == [] || |s[|s| - 1].targets| <= |x.targets|)
    ensures LengthsAscend(s + [x])
  {
  }

  lemma {:induction false} SortAscends(net: Netip, s: seq<Endpoint>)
    ensures LengthsAscend(Sort(LessEndpoint(net), s))
  {
    if s != [] {
      SortAscends(net, s[..|s| - 1]);
      InsertAscends(net, Sort(LessEndpoint(net), s[..|s| - 1]), s[|s| - 1]);
    }
  }

  lemma {:induction false} InsertRivals(less: (Endpoint, Endpoint) -> bool, s: seq<Endpoint>, x: Endpoint, n: nat)
    ensures Rivals(Insert(less, s, x), n) == Rivals(s, n) + if |x.targets| == n then 1 else 0
  {
    if !(s == [] || !less(x, s[|s| - 1])) {
      InsertRivals(less, s[..|s| - 1], x, n);
    }
  }

  lemma {:induction false} SortRivals(less: (Endpoint, Endpoint) -> bool, s: seq<Endpoint>, n: nat)
    ensures Rivals(Sort(less, s), n) == Rivals(s, n)
  {
    if s != [] {
      SortRivals(less, s[..|s| - 1], n);
      InsertRivals(less, Sort(less, s[..|s| - 1]), s[|s| - 1], n);
    }
  }

  lemma SameRivalsSameCompared(net: Netip, all: seq<Endpoint>, other: seq<Endpoint>, e: Endpoint)
    requires Rivals(all, |e.targets|) == Rivals(other, |e.targets|)
    ensures Compared(net, all, e) == Compared(net, other, e)
  {
  }

  /** Among ascending lengths, an equal length to the right of `j` shows at `j`. */
  lemma {:induction false} RivalsOfAscending(s: seq<Endpoint>, n: nat, j: nat)
    requires LengthsAscend(s) && j <= |s|
    requires forall k :: 0 <= k < j ==> |s[k].targets| < n
    requires forall k :: j <= k < |s| ==> n <= |s[k].targets|
    ensures Rivals(s, n) >= 1 <==> j < |s| && |s[j].targets| == n
  {
    if s != [] {
      var front := s[..|s| - 1];
      if j == |s| {
        RivalsOfAscending(front, n, j - 1);
      } else {
        RivalsOfAscending(front, n, j);
      }
    }
  }

  lemma {:induction false} TwoRivals(s: seq<Endpoint>, i: nat, j: nat)
    requires i < j < |s| && |s[i].targets| == |s[j].targets|
    ensures Rivals(s, |s[i].targets|) >= 2
  {
    var front := s[..|s| - 1];
    assert front[i] == s[i];
    if j == |s| - 1 {
      RivalOfItself(front, i);
    } else {
      assert front[j] == s[j];
      TwoRivals(front, i, j);
    }
  }

  /** What has been compared with `x`, and `x` itself, while it sinks past `done[j..]`. */
  ghost predicate SinkingContents(net: Netip, now: seq<Endpoint>, done: seq<Endpoint>, x: Endpoint, j: nat) {
    && |now| == |done| + 1 && j <= |done|
    && (forall k :: 0 <= k < j ==> now[k] == Compared(net, done, done[k]))
    && (forall k :: j < k < |now| ==> now[k] == Compared(net, done + [x], done[k - 1]))
    && now[j] == (if j < |done| && |done[j].targets| == |x.targets| then SortTargets(net, x) else x)
  }

  /** It has passed what it is less than. */
  ghost predicate SinkingOrder(net: Netip, done: seq<Endpoint>, x: Endpoint, j: nat) {
    && j <= |done|
    && (forall k :: j <= k < |done| ==> IsLess(net, x.targets, done[k].targets))
    && Insert(LessEndpoint(net), done, x) == Insert(LessEndpoint(net), done[..j], x) + done[j..]
  }

  ghost predicate Sinking(net: Netip, now: seq<Endpoint>, done: seq<Endpoint>, x: Endpoint, j: nat) {
    SinkingContents(net, now, done, x, j) && SinkingOrder(net, done, x, j)
  }

  lemma SinkingStarts(net: Netip, done: seq<Endpoint>, x: Endpoint)
    ensures Sinking(net, AllCompared(net, done, done) + [x], done, x, |done|)
  {
    assert done[..|done|] == done;
  }

  /** What the comparison with the left neighbour finds and leaves. */
  lemma SinkingCompares(net: Netip, now: seq<Endpoint>, done: seq<Endpoint>, x: Endpoint, j: nat)
    requires Sinking(net, now, done, x, j) && j > 0 && LengthsAscend(done)
    ensures Reordered(net, x, now[j]) && Reordered(net, done[j - 1], now[j - 1])
    ensures IsLess(net, now[j].targets, now[j - 1].targets) == IsLess(net, x.targets, done[j - 1].targets)
    ensures AfterComparing(net, now[j - 1], now[j]) == Compared(net, done + [x], done[j - 1])
    ensures AfterComparing(net, now[j], now[j - 1])
         == if |done[j - 1].targets| == |x.targets| then SortTargets(net, x) else now[j]
  {
    var y := done[j - 1];
    ReorderedCompares(net, x, now[j], y, now[j - 1]);
    ReorderedCompares(net, y, now[j - 1], x, now[j]);
    AppendRivals(done, x, |y.targets|);
    RivalOfItself(done, j - 1);
  }

  lemma SinkingOrderStep(net: Netip, done: seq<Endpoint>, x: Endpoint, j: nat)
    requires SinkingOrder(net, done, x, j) && j > 0 && IsLess(net, x.targets, done[j - 1].targets)
    ensures SinkingOrder(net, done, x, j - 1)
  {
    assert done[..j][..j - 1] == done[..j - 1];
    assert done[j - 1..] == [done[j - 1]] + done[j..];
    assert Insert(LessEndpoint(net), done[..j], x) == Insert(LessEndpoint(net), done[..j - 1], x) + [done[j - 1]];
  }

  /** Swapping after the comparison. */
  function Swapped(net: Netip, now: seq<Endpoint>, j: nat): seq<Endpoint>
    requires 0 < j < |now|
  {
    now[j := AfterComparing(net, now[j - 1], now[j])][j - 1 := AfterComparing(net, now[j], now[j - 1])]
  }

  lemma SinkingStep(net: Netip, now: seq<Endpoint>, done: seq<Endpoint>, x: Endpoint, j: nat)
    requires Sinking(net, now, done, x, j) && j > 0 && LengthsAscend(done)
    requires IsLess(net, x.targets, done[j - 1].targets)
    ensures Sinking(net, Swapped(net, now, j), done, x, j - 1)
  {
    SinkingCompares(net, now, done, x, j);
    SinkingOrderStep(net, done, x, j);
    PassedLengths(net, done, x, j);
  }

  /** If the neighbour is not of the length of `x`, none of those passed is. */
  lemma PassedLengths(net: Netip, done: seq<Endpoint>, x: Endpoint, j: nat)
    requires 0 < j <= |done| && LengthsAscend(done) && IsLess(net, x.targets, done[j - 1].targets)
    ensures |done[j - 1].targets| != |x.targets| && j < |done| ==> |done[j].targets| != |x.targets|
  {
  }

  /** The comparison that does not end in a swap. */
  function Stayed(net: Netip, now: seq<Endpoint>, j: nat): seq<Endpoint>
    requires j < |now|
  {
    if j == 0 then now
    else now[j := AfterComparing(net, now[j], now[j - 1])][j - 1 := AfterComparing(net, now[j - 1], now[j])]
  }

  /** Where it stops, everything is as comparing within `done + [x]` leaves it. */
  lemma SinkingEnds(net: Netip, now: seq<Endpoint>, done: seq<Endpoint>, x: Endpoint, j: nat)
    requires Sinking(net, now, done, x, j) && LengthsAscend(done)
    requires j > 0 ==> !IsLess(net, x.targets, done[j - 1].targets)
    ensures Stayed(net, now, j) == AllCompared(net, done + [x], Insert(LessEndpoint(net), done, x))
  {
    var r := done[..j] + [x] + done[j..];
    InsertStops(net, done, x, j);
    forall k | 0 <= k < |now| ensures Stayed(net, now, j)[k] == Compared(net, done + [x], r[k]) {
      SinkingEndsAt(net, now, done, x, j, k);
      MiddleAt(done, x, j, k);
    }
  }

  lemma MiddleAt(done: seq<Endpoint>, x: Endpoint, j: nat, k: nat)
    requires j <= |done| && k <= |done|
    ensures (done[..j] + [x] + done[j..])[k] == if k < j then done[k] else if k == j then x else done[k - 1]
  {
  }

  lemma InsertStops(net: Netip, done: seq<Endpoint>, x: Endpoint, j: nat)
    requires SinkingOrder(net, done, x, j)
    requires j > 0 ==> !IsLess(net, x.targets, done[j - 1].targets)
    ensures Insert(LessEndpoint(net), done, x) == done[..j] + [x] + done[j..]
  {
    assert j > 0 ==> done[..j][j - 1] == done[j - 1];
  }

  lemma SinkingEndsAt(net: Netip, now: seq<Endpoint>, done: seq<Endpoint>, x: Endpoint, j: nat, k: nat)
    requires Sinking(net, now, done, x, j) && LengthsAscend(done) && k < |now|
    requires j > 0 ==> !IsLess(net, x.targets, done[j - 1].targets)
    ensures Stayed(net, now, j)[k]
         == Compared(net, done + [x], if k < j then done[k] else if k == j then x else done[k - 1])
  {
    if j > 0 { SinkingCompares(net, now, done, x, j); }
    if k == j {
      SunkIsCompared(net, done, x, j);
    } else if k < j - 1 {
      UnpassedIsCompared(net, done, x, j, k);
    }
  }

  lemma SunkIsCompared(net: Netip, done: seq<Endpoint>, x: Endpoint, j: nat)
    requires LengthsAscend(done) && j <= |done|
    requires forall k :: j <= k < |done| ==> IsLess(net, x.targets, done[k].targets)
    requires j > 0 ==> !IsLess(net, x.targets, done[j - 1].targets)
    ensures Compared(net, done + [x], x)
         == if (j < |done| && |done[j].targets| == |x.targets|) || (j > 0 && |done[j - 1].targets| == |x.targets|)
            then SortTargets(net, x) else x
  {
    AppendRivals(done, x, |x.targets|);
    if j > 0 && |done[j - 1].targets| == |x.targets| {
      RivalOfItself(done, j - 1);
    } else {
      assert forall k :: 0 <= k < j ==> |done[k].targets| <= |done[j - 1].targets|;
      RivalsOfAscending(done, |x.targets|, j);
    }
  }

  /** Further to the left equals of `x` have had a rival before. */
  lemma UnpassedIsCompared(net: Netip, done: seq<Endpoint>, x: Endpoint, j: nat, k: nat)
    requires LengthsAscend(done) && k < j - 1 < |done| && !IsLess(net, x.targets, done[j - 1].targets)
    ensures Compared(net, done + [x], done[k]) == Compared(net, done, done[k])
  {
    AppendRivals(done, x, |done[k].targets|);
    if |done[k].targets| == |x.targets| {
      TwoRivals(done, k, j - 1);
    }
  }

  /** Compares with the left neighbour, and swaps if that is greater. */
  method CompareAndSwap(net: Netip, candidates: array<Endpoint>, j: nat) returns (less: bool)
    requires 0 < j < candidates.Length
    modifies candidates
    ensures less == IsLess(net, old(candidates[j]).targets, old(candidates[j - 1]).targets)
    ensures candidates[..] == if less then Swapped(net, old(candidates[..]), j) else Stayed(net, old(candidates[..]), j)
  {
    less := CompareAt(net, candidates, j, j - 1);
    if less {
      candidates[j], candidates[j - 1] := candidates[j - 1], candidates[j];
    }
  }

  lemma SwappedPrefix(net: Netip, now: seq<Endpoint>, j: nat, i: nat)
    requires 0 < j <= i < |now|
    ensures Swapped(net, now, j)[..i + 1] == Swapped(net, now[..i + 1], j)
    ensures Stayed(net, now, j)[..i + 1] == Stayed(net, now[..i + 1], j)
    ensures Swapped(net, now, j)[i + 1..] == now[i + 1..] == Stayed(net, now, j)[i + 1..]
  {
  }

  /** The last candidate has found its place. */
  ghost predicate Sunk(net: Netip, now: seq<Endpoint>, done: seq<Endpoint>, x: Endpoint) {
    now == AllCompared(net, done + [x], Insert(LessEndpoint(net), done, x))
  }

  lemma SinkingIsSunk(net: Netip, now: seq<Endpoint>, done: seq<Endpoint>, x: Endpoint)
    requires Sinking(net, now, done, x, 0) && LengthsAscend(done)
    ensures Sunk(net, now, done, x)
  {
    SinkingEnds(net, now, done, x, 0);
  }

  /** One round of the inner loop. */
  method SinkOnce(net: Netip, candidates: array<Endpoint>, i: nat, j: nat, ghost done: seq<Endpoint>, ghost x: Endpoint)
    returns (less: bool)
    requires 0 < j <= i < candidates.Length && LengthsAscend(done)
    requires Sinking(net, candidates[..i + 1], done, x, j)
    modifies candidates
    ensures less ==> Sinking(net, candidates[..i + 1], done, x, j - 1)
    ensures !less ==> Sunk(net, candidates[..i + 1], done, x)
    ensures candidates[i + 1..] == old(candidates[i + 1..])
  {
    ghost var now := candidates[..];
    SwappedPrefix(net, now, j, i);
    SinkingCompares(net, now[..i + 1], done, x, j);
    less := CompareAndSwap(net, candidates, j);
    if less {
      SinkingStep(net, now[..i + 1], done, x, j);
    } else {
      SinkingEnds(net, now[..i + 1], done, x, j);
    }
  }

  /** The inner loop of the sort. */
  method SinkCandidate(net: Netip, candidates: array<Endpoint>, i: nat, ghost done: seq<Endpoint>, ghost x: Endpoint)
    requires i < candidates.Length && |done| == i && LengthsAscend(done)
    requires candidates[..i + 1] == AllCompared(net, done, done) + [x]
    modifies candidates
    ensures Sunk(net, candidates[..i + 1], done, x)
    ensures candidates[i + 1..] == old(candidates[i + 1..])
  {
    var j := i;
    SinkingStarts(net, done, x);
    while j > 0
      invariant 0 <= j <= i
      invariant Sinking(net, candidates[..i + 1], done, x, j)
      invariant candidates[i + 1..] == old(candidates[i + 1..])
    {
      var less := SinkOnce(net, candidates, i, j, done, x);
      if !less {
        return;
      }
      j := j - 1;
    }
    SinkingIsSunk(net, candidates[..i + 1], done, x);
  }

  lemma SameRivalsAllCompared(net: Netip, all: seq<Endpoint>, other: seq<Endpoint>, s: seq<Endpoint>)
    requires forall n :: Rivals(all, n) == Rivals(other, n)
    ensures AllCompared(net, all, s) == AllCompared(net, other, s)
  {
    forall k | 0 <= k < |s| ensures Compared(net, all, s[k]) == Compared(net, other, s[k]) {
      SameRivalsSameCompared(net, all, other, s[k]);
    }
  }

  lemma SortedRivals(net: Netip, was: seq<Endpoint>, i: nat, n: nat)
    requires i < |was|
    ensures Rivals(Sort(LessEndpoint(net), was[..i]) + [was[i]], n) == Rivals(was[..i + 1], n)
    ensures Rivals(Sort(LessEndpoint(net), was[..i]), n) == Rivals(was[..i], n)
  {
    AppendRivals(Sort(LessEndpoint(net), was[..i]), was[i], n);
    SortRivals(LessEndpoint(net), was[..i], n);
    assert was[..i + 1] == was[..i] + [was[i]];
    AppendRivals(was[..i], was[i], n);
  }

  /** Being sorted so far and being compared so far. */
  lemma SortedSoFar(net: Netip, was: seq<Endpoint>, i: nat)
    requires i < |was|
    ensures var done := Sort(LessEndpoint(net), was[..i]);
      && AllCompared(net, was[..i], done) == AllCompared(net, done, done)
      && AllCompared(net, done + [was[i]], Insert(LessEndpoint(net), done, was[i]))
        == AllCompared(net, was[..i + 1], Sort(LessEndpoint(net), was[..i + 1]))
  {
    var done := Sort(LessEndpoint(net), was[..i]);
    forall n ensures Rivals(done, n) == Rivals(was[..i], n) && Rivals(done + [was[i]], n) == Rivals(was[..i + 1], n) {
      SortedRivals(net, was, i, n);
    }
    SameRivalsAllCompared(net, was[..i], done, done);
    SortOneMore(LessEndpoint(net), was, i);
    SameRivalsAllCompared(net, done + [was[i]], was[..i + 1], Sort(LessEndpoint(net), was[..i + 1]));
  }

  /** The stable sort, with a comparison that sorts what it compares. */
  method SortCandidates(net: Netip, candidates: array<Endpoint>)
    modifies candidates
    ensures candidates[..] == AllCompared(net, old(candidates[..]), Sort(LessEndpoint(net), old(candidates[..])))
  {
    ghost var was := candidates[..];
    var i := 0;
    while i < candidates.Length
      invariant 0 <= i <= candidates.Length
      invariant candidates[..i] == AllCompared(net, was[..i], Sort(LessEndpoint(net), was[..i]))
      invariant candidates[i..] == was[i..]
    {
      SortAscends(net, was[..i]);
      SortedSoFar(net, was, i);
      assert candidates[i] == candidates[i..][0] == was[i];
      assert candidates[..i + 1] == candidates[..i] + [was[i]];
      assert candidates[i + 1..] == candidates[i..][1..] == was[i + 1..];
      SinkCandidate(net, candidates, i, Sort(LessEndpoint(net), was[..i]), was[i]);
      i := i + 1;
    }
    assert candidates[..i] == candidates[..] && was[..i] == was;
  }

  // ---- choosing the candidate of the current resource

  lemma {:induction false} FirstOfCompared(net: Netip, all: seq<Endpoint>, resource: string, s: seq<Endpoint>)
    ensures FirstOf(resource, AllCompared(net, all, s)) == ComparedOption(net, all, FirstOf(resource, s))
  {
    if s != [] {
      FirstOfCompared(net, all, resource, s[1..]);
      assert AllCompared(net, all, s)[1..] == AllCompared(net, all, s[1..]);
    }
  }

  /** Comparing again what has been compared changes nothing. */
  lemma ComparedTwice(net: Netip, all: seq<Endpoint>, e: Endpoint)
    ensures Compared(net, all, Compared(net, all, e)) == Compared(net, all, e)
    ensures Reordered(net, e, Compared(net, all, e)) && |Compared(net, all, e).targets| == |e.targets|
  {
    SortedIsStable(net, e.targets);
  }

  lemma ComparedCompares(net: Netip, all: seq<Endpoint>, x: Endpoint, y: Endpoint)
    ensures IsLess(net, Compared(net, all, x).targets, Compared(net, all, y).targets)
      == IsLess(net, x.targets, y.targets)
  {
    ComparedTwice(net, all, x);
    ComparedTwice(net, all, y);
    ReorderedCompares(net, x, Compared(net, all, x), y, Compared(net, all, y));
  }

  lemma {:induction false} LeastCompared(net: Netip, all: seq<Endpoint>, s: seq<Endpoint>)
    ensures Least(net, AllCompared(net, all, s)) == ComparedOption(net, all, Least(net, s))
  {
    if s != [] {
      var n := |s| - 1;
      assert AllCompared(net, all, s)[..n] == AllCompared(net, all, s[..n]);
      LeastCompared(net, all, s[..n]);
      if n > 0 {
        ComparedCompares(net, all, s[n], Least(net, s[..n]).value);
      }
    }
  }

  lemma {:induction false} ComparedRivals(net: Netip, all: seq<Endpoint>, s: seq<Endpoint>, n: nat)
    ensures Rivals(AllCompared(net, all, s), n) == Rivals(s, n)
  {
    if s != [] {
      assert AllCompared(net, all, s)[..|s| - 1] == AllCompared(net, all, s[..|s| - 1]);
      ComparedRivals(net, all, s[..|s| - 1], n);
    }
  }

  /** The minimum of sorted candidates is as the sort has left it. */
  lemma CreatedOfSorted(net: Netip, was: seq<Endpoint>)
    ensures var sorted := AllCompared(net, was, Sort(LessEndpoint(net), was));
      Created(net, sorted) == ComparedOption(net, was, Least(net, Sort(LessEndpoint(net), was)))
  {
    var order := Sort(LessEndpoint(net), was);
    var sorted := AllCompared(net, was, order);
    LeastCompared(net, was, order);
    if order != [] {
      var m := Least(net, order).value;
      ComparedTwice(net, was, m);
      ComparedRivals(net, was, order, |m.targets|);
      SortRivals(LessEndpoint(net), was, |m.targets|);
      SameRivalsSameCompared(net, sorted, was, Compared(net, was, m));
    }
  }

  lemma CreatedIsMinimum(net: Netip, s: seq<Endpoint>)
    requires s != []
    ensures Created(net, s) == Some(Scanned(net, s).0[Scanned(net, s).1])
  {
    ScannedIsLeast(net, s);
  }

  /** The loop does not touch a candidate that is the only one of its length. */
  lemma {:induction false} LonelyUntouched(net: Netip, s: seq<Endpoint>, k: nat)
    requires k < |s| && Rivals(s, |s[k].targets|) < 2
    ensures Scanned(net, s).0[k] == s[k]
  {
    if |s| > 1 {
      if k < |s| - 1 {
        LonelyInFront(s, k);
        LonelyUntouched(net, s[..|s| - 1], k);
        LonelyStep(net, s, k);
      } else {
        LonelyLast(net, s);
      }
    }
  }

  lemma LonelyInFront(s: seq<Endpoint>, k: nat)
    requires k < |s| - 1 && Rivals(s, |s[k].targets|) < 2
    ensures s[..|s| - 1][k] == s[k] && Rivals(s[..|s| - 1], |s[k].targets|) < 2
    ensures |s[|s| - 1].targets| != |s[k].targets|
  {
    RivalOfItself(s[..|s| - 1], k);
  }

  lemma LonelyStep(net: Netip, s: seq<Endpoint>, k: nat)
    requires k < |s| - 1 && Scanned(net, s[..|s| - 1]).0[k] == s[k] && |s[|s| - 1].targets| != |s[k].targets|
    ensures Scanned(net, s).0[k] == s[k]
  {
    var (now, m) := Scanned(net, s[..|s| - 1]);
    ScannedAppended(net, s, now, m);
  }

  lemma LonelyLast(net: Netip, s: seq<Endpoint>)
    requires |s| > 1 && Rivals(s, |s[|s| - 1].targets|) < 2
    ensures Scanned(net, s).0[|s| - 1] == s[|s| - 1]
  {
    var front := s[..|s| - 1];
    var (now, m) := Scanned(net, front);
    ScannedIsLeast(net, front);
    assert Reordered(net, front[m], now[m]);
    RivalOfItself(front, m);
    ScannedAppended(net, s, now, m);
  }

  /** Scanning what a sort has left changes nothing. */
  lemma ScannedOfSorted(net: Netip, was: seq<Endpoint>)
    requires was != []
    ensures var sorted := AllCompared(net, was, Sort(LessEndpoint(net), was));
      Scanned(net, sorted).0 == sorted
  {
    var order := Sort(LessEndpoint(net), was);
    var sorted := AllCompared(net, was, order);
    ScannedIsLeast(net, sorted);
    forall k | 0 <= k < |sorted| ensures Scanned(net, sorted).0[k] == sorted[k] {
      ComparedTwice(net, was, order[k]);
      ComparedRivals(net, was, order, |sorted[k].targets|);
      SortRivals(LessEndpoint(net), was, |sorted[k].targets|);
      if Rivals(sorted, |sorted[k].targets|) < 2 {
        LonelyUntouched(net, sorted, k);
      } else {
        assert SortTargets(net, sorted[k]) == sorted[k];
      }
    }
  }

  function Updated(net: Netip, current: Endpoint, candidates: seq<Endpoint>): Option<Endpoint> {
    ComparedOption(net, candidates, Update(net, current, candidates))
  }

  ghost function SortedCandidates(net: Netip, was: seq<Endpoint>): seq<Endpoint> {
    AllCompared(net, was, Sort(LessEndpoint(net), was))
  }

  lemma UpdatedIsFirst(net: Netip, current: Endpoint, was: seq<Endpoint>)
    ensures var first := FirstOf(Label(current, RESOURCE_LABEL), SortedCandidates(net, was));
      Updated(net, current, was) == if first.Some? then first else Created(net, SortedCandidates(net, was))
  {
    FirstOfCompared(net, was, Label(current, RESOURCE_LABEL), Sort(LessEndpoint(net), was));
    CreatedOfSorted(net, was);
  }

  /** Sorts the candidates where they are and scans for the current resource;
      without one it scans for the minimum. */
  method ResolveUpdate(net: Netip, current: Endpoint, candidates: array<Endpoint>) returns (u: Option<Endpoint>)
    modifies candidates
    ensures u == Updated(net, current, old(candidates[..]))
    ensures candidates[..] == AllCompared(net, old(candidates[..]), Sort(LessEndpoint(net), old(candidates[..])))
  {
    var currentResource := Label(current, RESOURCE_LABEL);
    ghost var was := candidates[..];
    SortCandidates(net, candidates);
    ghost var sorted := candidates[..];
    assert sorted == SortedCandidates(net, was);
    UpdatedIsFirst(net, current, was);
    for i := 0 to candidates.Length
      invariant candidates[..] == sorted
      invariant FirstOf(currentResource, sorted) == FirstOf(currentResource, sorted[i..])
    {
      assert sorted[i..][0] == candidates[i] && sorted[i..][1..] == sorted[i + 1..];
      if Label(candidates[i], RESOURCE_LABEL) == currentResource {
        return Some(candidates[i]);
      }
    }
    u := ResolveCreate(net, candidates);
    if was != [] {
      CreatedIsMinimum(net, sorted);
      ScannedOfSorted(net, was);
    }
  }

  // ---- what the choices are, on canonically spelled targets

  lemma {:induction false} LeastIsFirstMin(net: Netip, candidates: seq<Endpoint>)
    requires candidates != [] && Within(candidates, CanonicalEndpoints(net))
    ensures IsFirstMin(LessEndpoint(net), candidates, Least(net, candidates).value)
  {
    LessEndpointIsWeakOrder(net);
    var n := |candidates| - 1;
    var front, last := candidates[..n], candidates[n];
    var less := LessEndpoint(net);
    if front == [] {
      assert less(last, last) ==> !less(last, last);
      assert FirstMinAt(less, candidates, 0);
    } else {
      LeastIsFirstMin(net, front);
      FirstMinExtends(less, front, last, Least(net, front).value, CanonicalEndpoints(net));
      assert candidates == front + [last];
    }
  }

  lemma SortedHeadIsLeast(net: Netip, candidates: seq<Endpoint>)
    requires candidates != [] && Within(candidates, CanonicalEndpoints(net))
    ensures Sort(LessEndpoint(net), candidates)[0] == Least(net, candidates).value
  {
    LessEndpointIsWeakOrder(net);
    SortHeadIsFirstMin(LessEndpoint(net), candidates, CanonicalEndpoints(net));
    LeastIsFirstMin(net, candidates);
    FirstMinUnique(LessEndpoint(net), candidates, Sort(LessEndpoint(net), candidates)[0], Least(net, candidates).value);
  }

  lemma {:induction false} FirstOfIsFilterHead(resource: string, s: seq<Endpoint>)
    ensures FirstOf(resource, s)
         == var own := Filter(SameResource(resource), s); if own == [] then None else Some(own[0])
  {
    if s != [] {
      FirstOfIsFilterHead(resource, s[1..]);
      FilterConcat(SameResource(resource), [s[0]], s[1..]);
      assert s == [s[0]] + s[1..] && [s[0]][..0] == [];
    }
  }

  /** The order-free meaning of `ResolveUpdate`: the least candidate of the
      resource that holds the name, or the least of all if it has none. */
  function Chosen(net: Netip, resource: string, candidates: seq<Endpoint>): (u: Option<Endpoint>)
    ensures u.Some? <==> candidates != []
  {
    var own := Filter(SameResource(resource), candidates);
    if own != [] then Least(net, own) else Least(net, candidates)
  }

  lemma FilterWithin(keep: Endpoint -> bool, s: seq<Endpoint>, dom: iset<Endpoint>)
    requires Within(s, dom)
    ensures Within(Filter(keep, s), dom)
  {
    var f := Filter(keep, s);
    forall i | 0 <= i < |f| ensures f[i] in dom {
      assert f[i] in s;
    }
  }

  lemma UpdateIsChosen(net: Netip, current: Endpoint, candidates: seq<Endpoint>)
    requires Within(candidates, CanonicalEndpoints(net))
    ensures Update(net, current, candidates) == Chosen(net, Label(current, RESOURCE_LABEL), candidates)
  {
    if candidates != [] {
      var resource := Label(current, RESOURCE_LABEL);
      var less, dom, sorted := LessEndpoint(net), CanonicalEndpoints(net), Sort(LessEndpoint(net), candidates);
      var own := Filter(SameResource(resource), candidates);
      LessEndpointIsWeakOrder(net);
      SortFilter(less, SameResource(resource), candidates, dom);
      FirstOfIsFilterHead(resource, sorted);
      FilterWithin(SameResource(resource), candidates, dom);
      if own != [] {
        SortedHeadIsLeast(net, own);
      } else {
        SortIsIdempotentHere(net, candidates);
      }
    }
  }

  /** Sorting first does not change which candidate is least. */
  lemma SortIsIdempotentHere(net: Netip, candidates: seq<Endpoint>)
    requires candidates != [] && Within(candidates, CanonicalEndpoints(net))
    ensures Least(net, Sort(LessEndpoint(net), candidates)) == Least(net, candidates)
  {
    var less, dom := LessEndpoint(net), CanonicalEndpoints(net);
    var sorted := Sort(less, candidates);
    LessEndpointIsWeakOrder(net);
    SortOrdered(less, candidates, dom);
    SortWithin(less, candidates, dom);
    SortOfOrdered(less, sorted);
    SortedHeadIsLeast(net, sorted);
    SortedHeadIsLeast(net, candidates);
  }

  /** The choice is stable: once a chosen candidate is the current record, it is
      chosen again, whichever way it was chosen. */
  lemma ChoiceIsStable(net: Netip, resource: string, candidates: seq<Endpoint>, x: Endpoint)
    requires Within(candidates, CanonicalEndpoints(net))
    requires Some(x) == Least(net, candidates) || Some(x) == Chosen(net, resource, candidates)
    ensures Chosen(net, Label(x, RESOURCE_LABEL), candidates) == Some(x)
  {
    var r := Label(x, RESOURCE_LABEL);
    var own := Filter(SameResource(r), candidates);
    FilterWithin(SameResource(r), candidates, CanonicalEndpoints(net));
    FilterWithin(SameResource(resource), candidates, CanonicalEndpoints(net));
    FilterMember(SameResource(r), candidates, x);
    if Some(x) == Least(net, candidates) {
      LeastOfClass(net, candidates, r, x);
    } else {
      assert Filter(SameResource(resource), candidates) != [];
      assert r == resource;
    }
  }

  /** The least of all is the least of its own class. */
  lemma {:induction false} LeastOfClass(net: Netip, candidates: seq<Endpoint>, r: string, x: Endpoint)
    requires Within(candidates, CanonicalEndpoints(net))
    requires Some(x) == Least(net, candidates) && Label(x, RESOURCE_LABEL) == r
    ensures Least(net, Filter(SameResource(r), candidates)) == Some(x)
  {
    var less, dom, keep := LessEndpoint(net), CanonicalEndpoints(net), SameResource(r);
    LessEndpointIsWeakOrder(net);
    var own := Filter(keep, candidates);
    FilterMember(keep, candidates, x);
    FilterWithin(keep, candidates, dom);
    SortFilter(less, keep, candidates, dom);
    SortedHeadIsLeast(net, candidates);
    SortedHeadIsLeast(net, own);
    FirstOfIsFilterHead(r, Sort(less, candidates));
  }

  // ---- CNAME beside other types

  predicate IsCname(e: Endpoint) {
    e.recordType == TYPE_CNAME
  }

  /** Both a CNAME and another type are wanted for the name. */
  predicate Conflicting(candidates: seq<Endpoint>) {
    (exists e :: e in candidates && IsCname(e)) && (exists e :: e in candidates && !IsCname(e))
  }

  function Resolved(row: Row): map<string, DomainEndpoints> {
    if Conflicting(row.candidates) then
      map t | t in row.records ::
        if t == TYPE_CNAME then DomainEndpoints(row.records[t].current, []) else row.records[t]
    else row.records
  }

  /** Who gives way: every other type keeps its group, and CNAME its current record;
      its candidates it keeps exactly when no other type is wanted beside it. */
  lemma CnameCandidatesGiveWay(row: Row)
    ensures Resolved(row).Keys == row.records.Keys
    ensures forall t :: t in row.records && t != "CNAME" ==> Resolved(row)[t] == row.records[t]
    ensures "CNAME" in row.records ==>
      && Resolved(row)["CNAME"].current == row.records["CNAME"].current
      && Resolved(row)["CNAME"].candidates
         == if (exists e :: e in row.candidates && e.recordType == "CNAME")
               && (exists e :: e in row.candidates && e.recordType != "CNAME")
            then [] else row.records["CNAME"].candidates
  {
    assert Conflicting(row.candidates) <==>
      (exists e :: e in row.candidates && e.recordType == "CNAME")
      && (exists e :: e in row.candidates && e.recordType != "CNAME") by {
      forall e | e in row.candidates ensures IsCname(e) <==> e.recordType == "CNAME" {}
    }
  }

  /** Drops the CNAME candidates when other types are wanted too; the current
      CNAME stays listed, so that it can be deleted. */
  method ResolveRecordTypes(row: Row) returns (records: map<string, DomainEndpoints>)
    ensures records == Resolved(row)
  {
    if |row.candidates| <= 1 {
      return row.records;
    }
    var cname, other := false, false;
    var i := 0;
    while i < |row.candidates| && !(cname && other)
      invariant 0 <= i <= |row.candidates|
      invariant cname <==> exists j :: 0 <= j < i && IsCname(row.candidates[j])
      invariant other <==> exists j :: 0 <= j < i && !IsCname(row.candidates[j])
    {
      if row.candidates[i].recordType == TYPE_CNAME {
        cname := true;
      } else {
        other := true;
      }
      i := i + 1;
    }
    if cname && other {
      records := map[];
      var todo := row.records.Keys;
      while todo != {}
        invariant todo <= row.records.Keys
        invariant records == map t | t in Resolved(row) && t !in todo :: Resolved(row)[t]
      {
        var recordType :| recordType in todo;
        var recs := row.records[recordType];
        if recordType == TYPE_CNAME {
          records := records[recordType := DomainEndpoints(recs.current, [])];
        } else {
          records := records[recordType := recs];
        }
        todo := todo - {recordType};
      }
      return records;
    }
    return row.records;
  }
}
