/** What the orders of targets, of target lists and of candidates are, told from
    addresses and characters (endpoint/endpoint.go, plan/conflict.go). */
module TargetOrder {
  import opened Wrappers
  import opened Sorting
  import opened Endpoints
  import opened Targets
  import opened Conflict
  import Strings

  /** IPv4 addresses come before those of IPv6, smaller ones before greater ones, and
      equal ones by their zones. */
  ghost predicate ComesFirst(a: Addr, b: Addr) {
    || a.bitLen < b.bitLen
    || (a.bitLen == b.bitLen && a.value < b.value)
    || (a.bitLen == b.bitLen && a.value == b.value && Strings.Precedes(a.zone, b.zone))
  }

  lemma {:induction false} LessFromDifference(net: Netip, t: seq<string>, o: seq<string>, i: nat)
    requires |t| == |o| && i < |t| && t[..i] == o[..i] && t[i] != o[i]
    ensures LessSorted(net, t, o) == Before(net, t[i], o[i])
  {
    if i > 0 {
      assert t[0] == t[..i][0] == o[..i][0] == o[0];
      assert t[1..][..i - 1] == t[..i][1..] && o[1..][..i - 1] == o[..i][1..];
      LessFromDifference(net, t[1..], o[1..], i - 1);
    }
  }

  /** A shorter list is less than a longer one; between lists of one length the first
      difference of the sorted lists decides: addresses by family and value, an
      address before any other text, and other texts by their characters. */
  lemma FirstDifferenceDecides(net: Netip, t: seq<string>, o: seq<string>, i: nat)
    requires |t| == |o| && i < |t|
    requires Sorted(net, t)[..i] == Sorted(net, o)[..i] && Sorted(net, t)[i] != Sorted(net, o)[i]
    ensures IsLess(net, t, o) <==>
      match (net.parse(Sorted(net, t)[i]), net.parse(Sorted(net, o)[i]))
      case (Some(a), Some(b)) => ComesFirst(a, b)
      case (Some(_), None) => true
      case (None, Some(_)) => false
      case (None, None) => Strings.Precedes(Sorted(net, t)[i], Sorted(net, o)[i])
  {
    var x, y := Sorted(net, t)[i], Sorted(net, o)[i];
    LessFromDifference(net, Sorted(net, t), Sorted(net, o), i);
    Strings.TextOrder(x, y);
    if IsAddr(net, x) && IsAddr(net, y) { Strings.TextOrder(net.parse(x).value.zone, net.parse(y).value.zone); }
  }

  lemma FewerTargetsAreLess(net: Netip, t: seq<string>, o: seq<string>)
    ensures |t| < |o| ==> IsLess(net, t, o) && !IsLess(net, o, t)
  {
  }

  /** Sorting puts canonically spelled targets in the order of their characters. */
  lemma SortedAscends(net: Netip, t: seq<string>, i: nat, j: nat)
    requires CanonicalList(net, t) && i < j < |t|
    ensures multiset(Sorted(net, t)) == multiset(t)
    ensures Sorted(net, t)[i] == Sorted(net, t)[j] || Strings.Precedes(Sorted(net, t)[i], Sorted(net, t)[j])
  {
    var less, dom, s := LessFn(net), CanonicalTexts(net), Sorted(net, t);
    LessIsTotalOrder(net);
    SortPermutes(less, t);
    SortOrdered(less, t, dom);
    SortWithin(less, t, dom);
    assert !less(s[j], s[i]);
    CanonicalLess(net, s[i], s[j]);
    CanonicalLess(net, s[j], s[i]);
    Strings.LessTotal(s[i], s[j]);
    Strings.TextOrder(s[i], s[j]);
  }

  /** Lists compare as the same if their sorted texts differ in case only; a single
      target also if both are spellings of one address, and not otherwise. */
  lemma {:induction false} CaseDoesNotMatter(net: Netip, t: seq<string>, o: seq<string>)
    requires |t| == |o|
    requires forall i :: 0 <= i < |t| ==> Strings.ToLower(t[i]) == Strings.ToLower(o[i])
    ensures SameSorted(net, t, o)
  {
    if t != [] {
      forall i | 0 <= i < |t| - 1 ensures Strings.ToLower(t[1..][i]) == Strings.ToLower(o[1..][i]) {
        assert t[1..][i] == t[i + 1] && o[1..][i] == o[i + 1];
      }
      CaseDoesNotMatter(net, t[1..], o[1..]);
    }
  }

  lemma SameUpToCase(net: Netip, t: seq<string>, o: seq<string>)
    requires |t| == |o|
    requires forall i :: 0 <= i < |t| ==> Strings.ToLower(Sorted(net, t)[i]) == Strings.ToLower(Sorted(net, o)[i])
    ensures Same(net, t, o)
  {
    CaseDoesNotMatter(net, Sorted(net, t), Sorted(net, o));
  }

  lemma OneTargetSameIff(net: Netip, x: string, y: string)
    ensures Same(net, [x], [y]) <==>
      || Strings.ToLower(x) == Strings.ToLower(y)
      || (net.parse(x).Some? && net.parse(y).Some? && net.show(net.parse(x).value) == net.show(net.parse(y).value))
  {
    SinglesAreSame(net, x, y);
  }

  // ---- the candidate that is chosen

  /** A candidate of the resource that holds the name comes before all others. */
  lemma CurrentResourceWins(net: Netip, current: Endpoint, candidates: seq<Endpoint>, x: Endpoint)
    requires "resource" in current.labels && "resource" in x.labels
    requires x in candidates && x.labels["resource"] == current.labels["resource"]
    ensures Updated(net, current, candidates).Some?
    ensures var u := Updated(net, current, candidates).value;
      (if "resource" in u.labels then u.labels["resource"] else "") == current.labels["resource"]
  {
    var sorted := Sort(LessEndpoint(net), candidates);
    SortPermutes(LessEndpoint(net), candidates);
    assert x in multiset(sorted);
    FirstOfFinds(current.labels["resource"], sorted, x);
  }

  lemma {:induction false} FirstOfFinds(resource: string, s: seq<Endpoint>, x: Endpoint)
    requires x in s && "resource" in x.labels && x.labels["resource"] == resource
    ensures FirstOf(resource, s).Some?
    ensures var u := FirstOf(resource, s).value;
      (if "resource" in u.labels then u.labels["resource"] else "") == resource
  {
    if Label(s[0], RESOURCE_LABEL) != resource { FirstOfFinds(resource, s[1..], x); }
  }

  /** One address of one family each. */
  ghost predicate OneAddress(net: Netip, bitLen: nat, e: Endpoint) {
    && |e.targets| == 1
    && IsAddr(net, e.targets[0])
    && net.parse(e.targets[0]).value.bitLen == bitLen
    && net.parse(e.targets[0]).value.zone == ""
  }

  function ValueOf(net: Netip, e: Endpoint): nat
    requires |e.targets| == 1 && IsAddr(net, e.targets[0])
  {
    net.parse(e.targets[0]).value.value
  }

  lemma SmallerIsLess(net: Netip, bitLen: nat, x: Endpoint, y: Endpoint)
    requires OneAddress(net, bitLen, x) && OneAddress(net, bitLen, y)
    ensures IsLess(net, x.targets, y.targets) <==> ValueOf(net, x) < ValueOf(net, y)
  {
    SingleStaysPut(net, x.targets[0]);
    SingleStaysPut(net, y.targets[0]);
    assert x.targets == [x.targets[0]] && y.targets == [y.targets[0]];
    if x.targets[0] != y.targets[0] {
      assert x.targets[..0] == y.targets[..0];
      FirstDifferenceDecides(net, x.targets, y.targets, 0);
    } else {
      assert !LessSorted(net, x.targets, y.targets);
    }
  }

  lemma {:induction false} LeastIsSmallest(net: Netip, bitLen: nat, s: seq<Endpoint>, c: Endpoint)
    requires c in s && forall e :: e in s ==> OneAddress(net, bitLen, e)
    ensures var m := Least(net, s).value;
      OneAddress(net, bitLen, m) && OneAddress(net, bitLen, c) && ValueOf(net, m) <= ValueOf(net, c)
  {
    var front, last := s[..|s| - 1], s[|s| - 1];
    assert s == front + [last];
    if front != [] {
      var m := Least(net, front).value;
      assert m in front;
      SmallerIsLess(net, bitLen, last, m);
      if c in front { LeastIsSmallest(net, bitLen, front, c); }
    }
  }

  /** Among candidates with one address each the smallest address wins the name. */
  lemma SmallestAddressWins(net: Netip, bitLen: nat, s: seq<Endpoint>, c: Endpoint)
    requires c in s && forall e :: e in s ==> OneAddress(net, bitLen, e)
    ensures var (now, m) := Scanned(net, s);
      && OneAddress(net, bitLen, now[m]) && OneAddress(net, bitLen, c)
      && ValueOf(net, now[m]) <= ValueOf(net, c)
  {
    ScannedIsLeast(net, s);
    LeastIsSmallest(net, bitLen, s, c);
    var m := Least(net, s).value;
    SingleStaysPut(net, m.targets[0]);
    assert m.targets == [m.targets[0]];
  }
}
