/** Target lists of an endpoint and the comparisons the planner bases its
    choices on (endpoint/endpoint.go, `Targets`). */
module Targets {
  import opened Wrappers
  import opened Sorting
  import Strings

  /** A parsed address.  Only what netip compares is kept. */
  datatype Addr = Addr(bitLen: nat, value: nat, zone: string)

  /** Go's net/netip is not part of this model: it enters as its two functions. */
  datatype Netip = Netip(parse: string -> Option<Addr>, show: Addr -> string)

  predicate IsAddr(net: Netip, text: string) {
    net.parse(text).Some?
  }

  /** The text is not an address, or it is the way that address prints. */
  ghost predicate Canonical(net: Netip, text: string) {
    IsAddr(net, text) ==> net.show(net.parse(text).value) == text
  }

  ghost function CanonicalTexts(net: Netip): iset<string> {
    iset text | Canonical(net, text)
  }

  /** netip.Addr.Less. */
  predicate AddrLess(a: Addr, b: Addr) {
    if a.bitLen != b.bitLen then a.bitLen < b.bitLen
    else if a.value != b.value then a.value < b.value
    else Strings.Less(a.zone, b.zone)
  }

  /** `Targets.Less`: the order both sorts use. */
  predicate Less(net: Netip, a: string, b: string) {
    if !IsAddr(net, a) || !IsAddr(net, b) then Strings.Less(a, b)
    else Strings.Less(net.show(net.parse(a).value), net.show(net.parse(b).value))
  }

  function LessFn(net: Netip): (string, string) -> bool {
    (a, b) => Less(net, a, b)
  }

  function Sorted(net: Netip, t: seq<string>): (r: seq<string>)
    ensures |r| == |t|
  {
    Sort(LessFn(net), t)
  }

  /** The pairwise loop of `Same`.  Two addresses that differ as text end it,
      whatever follows them. */
  predicate SameSorted(net: Netip, t: seq<string>, o: seq<string>)
    requires |t| == |o|
  {
    if t == [] then true
    else if Strings.EqualFold(t[0], o[0]) then SameSorted(net, t[1..], o[1..])
    else (
      && IsAddr(net, t[0]) && IsAddr(net, o[0])
      && net.show(net.parse(t[0]).value) == net.show(net.parse(o[0]).value)
    )
  }

  predicate Same(net: Netip, t: seq<string>, o: seq<string>) {
    |t| == |o| && SameSorted(net, Sorted(net, t), Sorted(net, o))
  }

  /** How `IsLess` ranks two different texts: addresses first. */
  predicate Before(net: Netip, e: string, f: string) {
    if IsAddr(net, e) && IsAddr(net, f) then AddrLess(net.parse(e).value, net.parse(f).value)
    else if IsAddr(net, e) then true
    else if IsAddr(net, f) then false
    else Strings.Less(e, f)
  }

  /** The first difference of two sorted lists decides. */
  predicate LessSorted(net: Netip, t: seq<string>, o: seq<string>)
    requires |t| == |o|
  {
    t != [] && if t[0] != o[0] then Before(net, t[0], o[0]) else LessSorted(net, t[1..], o[1..])
  }

  predicate IsLess(net: Netip, t: seq<string>, o: seq<string>) {
    |t| < |o| || (|t| == |o| && LessSorted(net, Sorted(net, t), Sorted(net, o)))
  }

  lemma LessIsAsymmetric(net: Netip)
    ensures forall a, b :: LessFn(net)(a, b) ==> !LessFn(net)(b, a)
  {
    forall a, b | LessFn(net)(a, b) ensures !LessFn(net)(b, a) {
      if IsAddr(net, a) && IsAddr(net, b) {
        Strings.LessAsymmetric(net.show(net.parse(a).value), net.show(net.parse(b).value));
      } else {
        Strings.LessAsymmetric(a, b);
      }
    }
  }

  lemma SortedIsStable(net: Netip, t: seq<string>)
    ensures Sorted(net, Sorted(net, t)) == Sorted(net, t)
  {
    LessIsAsymmetric(net);
    SortIdempotent(LessFn(net), t);
  }

  /** The comparisons do not depend on the order within the lists. */
  lemma OrderIrrelevant(net: Netip, t: seq<string>, t': seq<string>, o: seq<string>, o': seq<string>)
    requires Sorted(net, t) == Sorted(net, t') && Sorted(net, o) == Sorted(net, o')
    ensures |t| == |t'| && |o| == |o'|
    ensures IsLess(net, t, o) == IsLess(net, t', o') && Same(net, t, o) == Same(net, t', o')
  {
    assert |t| == |Sorted(net, t)| && |o| == |Sorted(net, o)|;
  }

  /** Sorting the lists of a pair in place, one after the other. */
  method SortBoth(net: Netip, t: array<string>, o: array<string>)
    modifies t, o
    ensures t[..] == Sorted(net, old(t[..])) && o[..] == Sorted(net, old(o[..]))
  {
    LessIsAsymmetric(net);
    SortIdempotent(LessFn(net), t[..]);
    SortInPlace(LessFn(net), t);
    SortInPlace(LessFn(net), o);
  }

  /** `Targets.Same` on the two slices themselves: unless their lengths differ
      both end up sorted.  The slices may be one and the same. */
  method SameInPlace(net: Netip, t: array<string>, o: array<string>) returns (same: bool)
    modifies t, o
    ensures same == Same(net, old(t[..]), old(o[..]))
    ensures t.Length != o.Length ==> t[..] == old(t[..]) && o[..] == old(o[..])
    ensures t.Length == o.Length ==> t[..] == Sorted(net, old(t[..])) && o[..] == Sorted(net, old(o[..]))
  {
    if t.Length != o.Length {
      return false;
    }
    SortBoth(net, t, o);
    var i := 0;
    while i < t.Length
      invariant 0 <= i <= t.Length
      invariant SameSorted(net, t[..], o[..]) == SameSorted(net, t[i..], o[i..])
    {
      if !Strings.EqualFold(t[i], o[i]) {
        var a, b := net.parse(t[i]), net.parse(o[i]);
        if a.Some? && b.Some? {
          return net.show(a.value) == net.show(b.value);
        }
        return false;
      }
      i := i + 1;
    }
    return true;
  }

  /** `Targets.IsLess` on the two slices themselves. */
  method IsLessInPlace(net: Netip, t: array<string>, o: array<string>) returns (less: bool)
    modifies t, o
    ensures less == IsLess(net, old(t[..]), old(o[..]))
    ensures t.Length != o.Length ==> t[..] == old(t[..]) && o[..] == old(o[..])
    ensures t.Length == o.Length ==> t[..] == Sorted(net, old(t[..])) && o[..] == Sorted(net, old(o[..]))
  {
    if t.Length < o.Length {
      return true;
    }
    if t.Length > o.Length {
      return false;
    }
    SortBoth(net, t, o);
    var i := 0;
    while i < t.Length
      invariant 0 <= i <= t.Length
      invariant LessSorted(net, t[..], o[..]) == LessSorted(net, t[i..], o[i..])
    {
      if t[i] != o[i] {
        var a, b := net.parse(t[i]), net.parse(o[i]);
        if a.Some? && b.Some? {
          return AddrLess(a.value, b.value);
        } else if a.Some? && b.None? {
          return true;
        } else if a.None? && b.Some? {
          return false;
        } else {
          return Strings.Less(t[i], o[i]);
        }
      }
      i := i + 1;
    }
    return false;
  }

  // ---- on canonical texts

  /** Canonical texts sort as plain text. */
  lemma CanonicalLess(net: Netip, a: string, b: string)
    requires Canonical(net, a) && Canonical(net, b)
    ensures Less(net, a, b) == Strings.Less(a, b)
  {
  }

  lemma LessIsTotalOrder(net: Netip)
    ensures TotalOrderOn(LessFn(net), CanonicalTexts(net))
  {
    var less, dom := LessFn(net), CanonicalTexts(net);
    LessIsAsymmetric(net);
    forall a, b, c | a in dom && b in dom && c in dom && !less(a, b) && !less(b, c)
      ensures !less(a, c)
    {
      CanonicalLess(net, a, c);
      CanonicalLess(net, a, b);
      CanonicalLess(net, b, c);
      if less(a, c) { Strings.LessNegativelyTransitive(a, b, c); }
    }
    forall a, b | a in dom && b in dom && !less(a, b) && !less(b, a)
      ensures a == b
    {
      Strings.LessTotal(a, b);
    }
  }

  lemma AddrLessIsTotal(a: Addr, b: Addr, c: Addr)
    ensures AddrLess(a, b) ==> !AddrLess(b, a)
    ensures AddrLess(a, b) || a == b || AddrLess(b, a)
    ensures AddrLess(a, c) ==> AddrLess(a, b) || AddrLess(b, c)
  {
    Strings.LessTotal(a.zone, b.zone);
    if Strings.Less(a.zone, b.zone) { Strings.LessAsymmetric(a.zone, b.zone); }
    if Strings.Less(a.zone, c.zone) { Strings.LessNegativelyTransitive(a.zone, b.zone, c.zone); }
  }

  /** `Before` is a strict total order on canonical texts. */
  lemma BeforeIsTotal(net: Netip, a: string, b: string, c: string)
    requires Canonical(net, a) && Canonical(net, b) && Canonical(net, c)
    ensures Before(net, a, b) ==> !Before(net, b, a)
    ensures Before(net, a, b) || a == b || Before(net, b, a)
    ensures Before(net, a, c) ==> Before(net, a, b) || Before(net, b, c)
  {
    if IsAddr(net, a) && IsAddr(net, b) {
      AddrLessIsTotal(net.parse(a).value, net.parse(b).value,
                      if IsAddr(net, c) then net.parse(c).value else net.parse(b).value);
    } else if !IsAddr(net, a) && !IsAddr(net, b) {
      Strings.LessTotal(a, b);
      if Strings.Less(a, b) { Strings.LessAsymmetric(a, b); }
      if Strings.Less(a, c) { Strings.LessNegativelyTransitive(a, b, c); }
    }
  }

  ghost predicate CanonicalList(net: Netip, t: seq<string>) {
    Within(t, CanonicalTexts(net))
  }

  ghost function CanonicalLists(net: Netip): iset<seq<string>> {
    iset t | CanonicalList(net, t)
  }

  lemma {:induction false} LessSortedIsTotal(net: Netip, t: seq<string>, o: seq<string>, u: seq<string>)
    requires |t| == |o| == |u| && CanonicalList(net, t) && CanonicalList(net, o) && CanonicalList(net, u)
    ensures LessSorted(net, t, o) ==> !LessSorted(net, o, t)
    ensures LessSorted(net, t, o) || t == o || LessSorted(net, o, t)
    ensures LessSorted(net, t, u) ==> LessSorted(net, t, o) || LessSorted(net, o, u)
  {
    if t != [] {
      BeforeIsTotal(net, t[0], o[0], u[0]);
      LessSortedIsTotal(net, t[1..], o[1..], u[1..]);
      assert t == [t[0]] + t[1..] && o == [o[0]] + o[1..];
    }
  }

  function IsLessFn(net: Netip): (seq<string>, seq<string>) -> bool {
    (t, o) => IsLess(net, t, o)
  }

  /** `IsLess` is a strict weak order on canonically spelled lists. */
  lemma IsLessIsWeakOrder(net: Netip)
    ensures WeakOrderOn(IsLessFn(net), CanonicalLists(net))
  {
    var less, dom := IsLessFn(net), CanonicalLists(net);
    forall t, o | t in dom && o in dom && less(t, o) ensures !less(o, t) {
      if |t| == |o| {
        SortWithin(LessFn(net), t, CanonicalTexts(net));
        SortWithin(LessFn(net), o, CanonicalTexts(net));
        LessSortedIsTotal(net, Sorted(net, t), Sorted(net, o), Sorted(net, o));
      }
    }
    forall t, o, u | t in dom && o in dom && u in dom && !less(t, o) && !less(o, u)
      ensures !less(t, u)
    {
      if |t| == |o| == |u| {
        SortWithin(LessFn(net), t, CanonicalTexts(net));
        SortWithin(LessFn(net), o, CanonicalTexts(net));
        SortWithin(LessFn(net), u, CanonicalTexts(net));
        LessSortedIsTotal(net, Sorted(net, t), Sorted(net, o), Sorted(net, u));
      }
    }
  }

  /** Two canonically spelled lists tie exactly when one permutes the other. */
  lemma TiesArePermutations(net: Netip, t: seq<string>, o: seq<string>)
    requires CanonicalList(net, t) && CanonicalList(net, o)
    ensures !IsLess(net, t, o) && !IsLess(net, o, t) <==> multiset(t) == multiset(o)
  {
    LessIsTotalOrder(net);
    SortDecidesPermutation(LessFn(net), t, o, CanonicalTexts(net));
    assert multiset(t) == multiset(o) ==> |multiset(t)| == |multiset(o)|;
    if |t| == |o| {
      SortWithin(LessFn(net), t, CanonicalTexts(net));
      SortWithin(LessFn(net), o, CanonicalTexts(net));
      LessSortedIsTotal(net, Sorted(net, t), Sorted(net, o), Sorted(net, o));
    }
  }

  ghost predicate LowerCaseList(t: seq<string>) {
    forall i :: 0 <= i < |t| ==> Strings.ToLower(t[i]) == t[i]
  }

  // ---- exactly when `Same` decides equality of multisets

  /** Two spellings of one address. */
  predicate PrintAlike(net: Netip, x: string, y: string) {
    IsAddr(net, x) && IsAddr(net, y) && net.show(net.parse(x).value) == net.show(net.parse(y).value)
  }

  /** Different texts are told apart by the pairwise loop. */
  ghost predicate ToldApart(net: Netip, dom: iset<string>) {
    forall x, y :: x in dom && y in dom && x != y ==> !Strings.EqualFold(x, y) && !PrintAlike(net, x, y)
  }

  ghost predicate SameDecides(net: Netip, dom: iset<string>) {
    forall t, o :: Within(t, dom) && Within(o, dom) ==> (Same(net, t, o) <==> multiset(t) == multiset(o))
  }

  lemma ToldApartIsTotal(net: Netip, dom: iset<string>)
    requires ToldApart(net, dom)
    ensures TiesAreEqual(LessFn(net), dom)
  {
    var less := LessFn(net);
    forall a, b | a in dom && b in dom && !less(a, b) && !less(b, a) ensures a == b {
      if a != b {
        LessOfDifferent(net, a, b);
        assert false;
      }
    }
  }

  /** Different texts tie only when they are spellings of one address. */
  lemma LessOfDifferent(net: Netip, a: string, b: string)
    requires a != b
    ensures Less(net, a, b) || Less(net, b, a) || PrintAlike(net, a, b)
  {
    if IsAddr(net, a) && IsAddr(net, b) {
      Strings.LessTotal(net.show(net.parse(a).value), net.show(net.parse(b).value));
    } else {
      Strings.LessTotal(a, b);
    }
  }

  lemma {:induction false} SameSortedOfApart(net: Netip, t: seq<string>, o: seq<string>, dom: iset<string>)
    requires ToldApart(net, dom) && |t| == |o| && Within(t, dom) && Within(o, dom)
    ensures SameSorted(net, t, o) <==> t == o
  {
    if t != [] {
      SameSortedOfApart(net, t[1..], o[1..], dom);
      assert t[0] in dom && o[0] in dom;
      assert t[0] != o[0] ==> !Strings.EqualFold(t[0], o[0]) && !PrintAlike(net, t[0], o[0]);
      assert t == [t[0]] + t[1..] && o == [o[0]] + o[1..];
    }
  }

  lemma ApartDecides(net: Netip, t: seq<string>, o: seq<string>, dom: iset<string>)
    requires ToldApart(net, dom) && WeakOrderOn(LessFn(net), dom) && Within(t, dom) && Within(o, dom)
    ensures Same(net, t, o) <==> multiset(t) == multiset(o)
  {
    ToldApartIsTotal(net, dom);
    SortDecidesPermutation(LessFn(net), t, o, dom);
    if multiset(t) == multiset(o) { SameLength(t, o); }
    if |t| == |o| {
      SortWithin(LessFn(net), t, dom);
      SortWithin(LessFn(net), o, dom);
      SameSortedOfApart(net, Sorted(net, t), Sorted(net, o), dom);
    }
  }

  lemma SingleStaysPut(net: Netip, x: string)
    ensures Sorted(net, [x]) == [x]
  {
    var less := LessFn(net);
    assert [x][..0] == [];
    assert Sort(less, [x]) == Insert(less, Sort(less, []), x);
  }

  lemma SinglesAreSame(net: Netip, x: string, y: string)
    ensures Same(net, [x], [y]) <==> Strings.EqualFold(x, y) || PrintAlike(net, x, y)
    ensures multiset([x]) == multiset([y]) <==> x == y
  {
    SingleStaysPut(net, x);
    SingleStaysPut(net, y);
    assert SameSorted(net, [x][1..], [y][1..]);
    assert x in multiset([x]);
    assert x in multiset([y]) <==> x == y;
  }

  lemma DecidesTellsApart(net: Netip, x: string, y: string, dom: iset<string>)
    requires SameDecides(net, dom) && x in dom && y in dom && x != y
    ensures !Strings.EqualFold(x, y) && !PrintAlike(net, x, y)
  {
    SinglesAreSame(net, x, y);
    assert Within([x], dom) && Within([y], dom);
  }

  lemma PairStaysPut(net: Netip, x: string, p: string)
    requires Strings.Less(x, p) && !IsAddr(net, p)
    ensures Sorted(net, [x, p]) == [x, p]
  {
    Strings.LessAsymmetric(x, p);
    assert [x, p][..1] == [x] && [x][..0] == [];
    var less := LessFn(net);
    assert Sort(less, [x]) == Insert(less, Sort(less, []), x) == [x];
  }

  /** Off canonical spelling `Same` is not multiset equality: once a pair of
      different texts for one address is met, the rest is never compared. */
  lemma SameStopsEarly(net: Netip, x: string, y: string, p: string, q: string, a: Addr)
    requires net.parse(x) == Some(a) == net.parse(y)
    requires !Strings.EqualFold(x, y) && p != q
    requires !IsAddr(net, p) && !IsAddr(net, q)
    requires Strings.Less(x, p) && Strings.Less(y, q)
    ensures Same(net, [x, p], [y, q]) && multiset([x, p]) != multiset([y, q])
  {
    PairStaysPut(net, x, p);
    PairStaysPut(net, y, q);
    assert SameSorted(net, [x, p], [y, q]);
    assert x in multiset([x, p]) && x !in multiset([y, q]);
    assert IsAddr(net, x) && !IsAddr(net, q) && x != y;
  }

  lemma SortedTriple(net: Netip, a: string, b: string, c: string)
    requires Less(net, b, a) && !Less(net, c, a)
    ensures Sorted(net, [a, b, c]) == [b, a, c]
  {
    var less := LessFn(net);
    SingleStaysPut(net, a);
    assert [a, b, c][..2] == [a, b] && [a, b][..1] == [a];
    assert Insert(less, [a], b) == [b, a] by { assert [a][..0] == []; }
    assert Sort(less, [a, b]) == [b, a];
    assert Insert(less, [b, a], c) == [b, a, c];
  }

  /** Three texts that are less than each other in a circle sort differently
      according to the order they come in. */
  lemma CircleSortsTwoWays(net: Netip, a: string, b: string, c: string)
    requires Less(net, b, a) && Less(net, a, c) && Less(net, c, b)
    ensures Sorted(net, [a, b, c]) == [b, a, c] && Sorted(net, [b, c, a]) == [c, b, a]
  {
    LessIsAsymmetric(net);
    assert !LessFn(net)(c, a) && !LessFn(net)(a, b);
    SortedTriple(net, a, b, c);
    SortedTriple(net, b, c, a);
  }

  lemma RotatedMultiset(a: string, b: string, c: string)
    ensures multiset([a, b, c]) == multiset([b, c, a])
  {
    assert [a, b, c] == [a] + [b, c] && [b, c, a] == [b, c] + [a];
  }

  /** Lists whose first texts are told apart are told apart. */
  lemma HeadsDiffer(net: Netip, t: seq<string>, o: seq<string>)
    requires |t| == |o| && Sorted(net, t) != [] && Sorted(net, o) != []
    requires !Strings.EqualFold(Sorted(net, t)[0], Sorted(net, o)[0])
    requires !PrintAlike(net, Sorted(net, t)[0], Sorted(net, o)[0])
    ensures !Same(net, t, o)
  {
  }

  lemma CircleIsDifferent(net: Netip, a: string, b: string, c: string)
    requires Less(net, b, a) && Less(net, a, c) && Less(net, c, b)
    requires !Strings.EqualFold(b, c) && !PrintAlike(net, b, c)
    ensures multiset([a, b, c]) == multiset([b, c, a]) && !Same(net, [a, b, c], [b, c, a])
  {
    CircleSortsTwoWays(net, a, b, c);
    RotatedMultiset(a, b, c);
    HeadsDiffer(net, [a, b, c], [b, c, a]);
  }

  /** Such a circle: two addresses whose texts are in one order and whose printed
      forms are in the other, and between them a text that is no address.  Then a
      list and a permutation of it compare as different. */
  lemma SameMissesPermutation(net: Netip, x: string, y: string, z: string)
    requires IsAddr(net, x) && !IsAddr(net, y) && IsAddr(net, z)
    requires Strings.Less(x, y) && Strings.Less(y, z)
    requires Strings.Less(net.show(net.parse(z).value), net.show(net.parse(x).value))
    requires !Strings.EqualFold(x, z)
    ensures multiset([y, x, z]) == multiset([x, z, y]) && !Same(net, [y, x, z], [x, z, y])
  {
    Strings.LessAsymmetric(net.show(net.parse(z).value), net.show(net.parse(x).value));
    CircleIsDifferent(net, y, x, z);
  }

  lemma DecidesHasNoCircle(net: Netip, a: string, b: string, c: string, dom: iset<string>)
    requires SameDecides(net, dom) && a in dom && b in dom && c in dom && b != c
    requires Less(net, b, a) && Less(net, a, c)
    ensures !Less(net, c, b)
  {
    DecidesTellsApart(net, b, c, dom);
    if Less(net, c, b) {
      CircleIsDifferent(net, a, b, c);
      assert Within([a, b, c], dom) && Within([b, c, a], dom);
      assert false;
    }
  }

  lemma DecidesIsWeakOrder(net: Netip, dom: iset<string>)
    requires SameDecides(net, dom)
    ensures WeakOrderOn(LessFn(net), dom)
  {
    var less := LessFn(net);
    LessIsAsymmetric(net);
    forall a, b, c | a in dom && b in dom && c in dom && !less(a, b) && !less(b, c) ensures !less(a, c) {
      if less(a, c) && a != b && b != c {
        DecidesTellsApart(net, a, b, dom);
        DecidesTellsApart(net, b, c, dom);
        LessOfDifferent(net, a, b);
        LessOfDifferent(net, b, c);
        DecidesHasNoCircle(net, a, b, c, dom);
      }
    }
  }

  /** `Same` decides equality of multisets, on the lists over a set of texts,
      exactly when no two of the texts are equal up to case or spell one address,
      and the order they are sorted by has no circles among them. */
  lemma SameDecidesIff(net: Netip, dom: iset<string>)
    ensures SameDecides(net, dom) <==> ToldApart(net, dom) && WeakOrderOn(LessFn(net), dom)
  {
    if SameDecides(net, dom) {
      forall x, y | x in dom && y in dom && x != y ensures !Strings.EqualFold(x, y) && !PrintAlike(net, x, y) {
        DecidesTellsApart(net, x, y, dom);
      }
      DecidesIsWeakOrder(net, dom);
    }
    if ToldApart(net, dom) && WeakOrderOn(LessFn(net), dom) {
      forall t, o | Within(t, dom) && Within(o, dom) ensures Same(net, t, o) <==> multiset(t) == multiset(o) {
        ApartDecides(net, t, o, dom);
      }
    }
  }

  ghost function PlainTexts(net: Netip): iset<string> {
    iset s: string | Canonical(net, s) && Strings.ToLower(s) == s
  }

  /** Canonical lower-case texts are such a set. */
  lemma PlainTextsDecide(net: Netip)
    ensures SameDecides(net, PlainTexts(net))
  {
    LessIsTotalOrder(net);
    SameDecidesIff(net, PlainTexts(net));
  }

  lemma SameReflexive(net: Netip, t: seq<string>)
    ensures Same(net, t, t)
  {
    SameSortedReflexive(net, Sorted(net, t));
  }

  lemma {:induction false} SameSortedReflexive(net: Netip, t: seq<string>)
    ensures SameSorted(net, t, t)
  {
    if t != [] { SameSortedReflexive(net, t[1..]); }
  }

  /** `Same` on canonical lower-case lists. */
  lemma SameIsPermutation(net: Netip, t: seq<string>, o: seq<string>)
    requires CanonicalList(net, t) && CanonicalList(net, o)
    requires LowerCaseList(t) && LowerCaseList(o)
    ensures Same(net, t, o) <==> multiset(t) == multiset(o)
  {
    PlainTextsDecide(net);
    assert Within(t, PlainTexts(net)) && Within(o, PlainTexts(net));
  }
}
