/** Go's insertion sort, which is what sort.Stable and sort.SliceStable run on
    blocks of up to twenty elements, and what any stable sort must agree with. */
module Sorting {
  /** Strict weak order on a domain: asymmetric and negatively transitive. */
  ghost predicate WeakOrderOn<T(!new)>(less: (T, T) -> bool, dom: iset<T>) {
    && (forall a, b {:trigger less(a, b)} :: a in dom && b in dom && less(a, b) ==> !less(b, a))
    && (forall a, b, c {:trigger less(a, b), less(b, c)} ::
          a in dom && b in dom && c in dom && !less(a, b) && !less(b, c) ==> !less(a, c))
  }

  /** In addition, only equal elements tie. */
  ghost predicate TiesAreEqual<T(!new)>(less: (T, T) -> bool, dom: iset<T>) {
    forall a, b {:trigger less(a, b)} :: a in dom && b in dom && !less(a, b) && !less(b, a) ==> a == b
  }

  ghost predicate TotalOrderOn<T(!new)>(less: (T, T) -> bool, dom: iset<T>) {
    WeakOrderOn(less, dom) && TiesAreEqual(less, dom)
  }

  ghost predicate Within<T(!new)>(s: seq<T>, dom: iset<T>) {
    forall i :: 0 <= i < |s| ==> s[i] in dom
  }

  ghost predicate Ordered<T(!new)>(less: (T, T) -> bool, s: seq<T>) {
    forall i, j :: 0 <= i < j < |s| ==> !less(s[j], s[i])
  }

  /** Moves `x` left past the elements it precedes. */
  function Insert<T>(less: (T, T) -> bool, s: seq<T>, x: T): (r: seq<T>)
    ensures |r| == |s| + 1
  {
    if s == [] || !less(x, s[|s| - 1]) then s + [x]
    else Insert(less, s[..|s| - 1], x) + [s[|s| - 1]]
  }

  function Sort<T>(less: (T, T) -> bool, s: seq<T>): (r: seq<T>)
    ensures |r| == |s|
  {
    if s == [] then [] else Insert(less, Sort(less, s[..|s| - 1]), s[|s| - 1])
  }

  lemma {:induction false} InsertPermutes<T>(less: (T, T) -> bool, s: seq<T>, x: T)
    ensures multiset(Insert(less, s, x)) == multiset(s) + multiset{x}
  {
    if !(s == [] || !less(x, s[|s| - 1])) {
      InsertPermutes(less, s[..|s| - 1], x);
      FrontMultiset(s);
    }
  }

  lemma FrontMultiset<T>(s: seq<T>)
    requires s != []
    ensures multiset(s) == multiset(s[..|s| - 1]) + multiset{s[|s| - 1]}
  {
    assert s == s[..|s| - 1] + [s[|s| - 1]];
  }

  lemma {:induction false} SortPermutes<T>(less: (T, T) -> bool, s: seq<T>)
    ensures multiset(Sort(less, s)) == multiset(s)
  {
    if s != [] {
      SortPermutes(less, s[..|s| - 1]);
      InsertPermutes(less, Sort(less, s[..|s| - 1]), s[|s| - 1]);
      FrontMultiset(s);
    }
  }

  lemma SameMultisetWithin<T(!new)>(s: seq<T>, t: seq<T>, dom: iset<T>)
    requires multiset(s) == multiset(t) && Within(s, dom)
    ensures Within(t, dom)
  {
    forall i | 0 <= i < |t| ensures t[i] in dom {
      assert t[i] in multiset(t);
      assert t[i] in s;
    }
  }

  lemma SortWithin<T(!new)>(less: (T, T) -> bool, s: seq<T>, dom: iset<T>)
    requires Within(s, dom)
    ensures Within(Sort(less, s), dom)
  {
    SortPermutes(less, s);
    SameMultisetWithin(s, Sort(less, s), dom);
  }

  lemma {:induction false} InsertOrdered<T(!new)>(less: (T, T) -> bool, s: seq<T>, x: T, dom: iset<T>)
    requires WeakOrderOn(less, dom) && Within(s, dom) && x in dom && Ordered(less, s)
    ensures Ordered(less, Insert(less, s, x))
  {
    if !(s == [] || !less(x, s[|s| - 1])) {
      var front, last := s[..|s| - 1], s[|s| - 1];
      var r := Insert(less, front, x);
      InsertOrdered(less, front, x, dom);
      InsertPermutes(less, front, x);
      forall i | 0 <= i < |r| ensures !less(last, r[i]) {
        assert r[i] in multiset(r);
        assert r[i] == x || r[i] in front;
      }
    }
  }

  lemma {:induction false} SortOrdered<T(!new)>(less: (T, T) -> bool, s: seq<T>, dom: iset<T>)
    requires WeakOrderOn(less, dom) && Within(s, dom)
    ensures Ordered(less, Sort(less, s))
  {
    if s != [] {
      SortOrdered(less, s[..|s| - 1], dom);
      SortWithin(less, s[..|s| - 1], dom);
      InsertOrdered(less, Sort(less, s[..|s| - 1]), s[|s| - 1], dom);
    }
  }

  /** Neighbours in order: all that sorting a second time looks at. */
  ghost predicate LocallyOrdered<T(!new)>(less: (T, T) -> bool, s: seq<T>) {
    forall i :: 0 < i < |s| ==> !less(s[i], s[i - 1])
  }

  lemma {:induction false} SortLocallyOrdered<T(!new)>(less: (T, T) -> bool, s: seq<T>)
    requires forall a, b :: less(a, b) ==> !less(b, a)
    ensures LocallyOrdered(less, Sort(less, s))
  {
    if s != [] {
      SortLocallyOrdered(less, s[..|s| - 1]);
      InsertLocallyOrdered(less, Sort(less, s[..|s| - 1]), s[|s| - 1]);
    }
  }

  lemma {:induction false} InsertLocallyOrdered<T(!new)>(less: (T, T) -> bool, s: seq<T>, x: T)
    requires forall a, b :: less(a, b) ==> !less(b, a)
    requires LocallyOrdered(less, s)
    ensures LocallyOrdered(less, Insert(less, s, x))
    ensures var r := Insert(less, s, x); r[|r| - 1] == x || (s != [] && r[|r| - 1] == s[|s| - 1])
  {
    if !(s == [] || !less(x, s[|s| - 1])) {
      InsertLocallyOrdered(less, s[..|s| - 1], x);
    }
  }

  lemma {:induction false} SortOfOrdered<T(!new)>(less: (T, T) -> bool, s: seq<T>)
    requires LocallyOrdered(less, s)
    ensures Sort(less, s) == s
  {
    if s != [] {
      SortOfOrdered(less, s[..|s| - 1]);
      assert s == s[..|s| - 1] + [s[|s| - 1]];
    }
  }

  /** Sorting twice is sorting once, for any asymmetric comparison. */
  lemma SortIdempotent<T(!new)>(less: (T, T) -> bool, s: seq<T>)
    requires forall a, b :: less(a, b) ==> !less(b, a)
    ensures Sort(less, Sort(less, s)) == Sort(less, s)
  {
    SortLocallyOrdered(less, s);
    SortOfOrdered(less, Sort(less, s));
  }

  /** When only equal elements tie, a multiset has one ordered listing. */
  lemma {:induction false} OrderedUnique<T(!new)>(less: (T, T) -> bool, s: seq<T>, t: seq<T>, dom: iset<T>)
    requires TiesAreEqual(less, dom) && Within(s, dom) && multiset(s) == multiset(t)
    requires Ordered(less, s) && Ordered(less, t)
    ensures s == t
  {
    SameLength(s, t);
    if s != [] {
      HeadsAgree(less, s, t, dom);
      TailMultiset(s);
      TailMultiset(t);
      OrderedUnique(less, s[1..], t[1..], dom);
      assert s == [s[0]] + s[1..] && t == [t[0]] + t[1..];
    }
  }

  lemma SameLength<T>(s: seq<T>, t: seq<T>)
    requires multiset(s) == multiset(t)
    ensures |s| == |t|
  {
    assert |multiset(s)| == |multiset(t)|;
  }

  lemma TailMultiset<T>(s: seq<T>)
    requires s != []
    ensures multiset(s[1..]) == multiset(s) - multiset{s[0]}
  {
    assert s == [s[0]] + s[1..];
  }

  lemma HeadsAgree<T(!new)>(less: (T, T) -> bool, s: seq<T>, t: seq<T>, dom: iset<T>)
    requires TiesAreEqual(less, dom) && Within(s, dom) && multiset(s) == multiset(t)
    requires Ordered(less, s) && Ordered(less, t) && s != [] && t != []
    ensures s[0] == t[0]
  {
    assert s[0] in multiset(t) && t[0] in multiset(s);
    var i :| 0 <= i < |s| && s[i] == t[0];
    var j :| 0 <= j < |t| && t[j] == s[0];
    assert i == 0 || !less(s[i], s[0]);
    assert j == 0 || !less(t[j], t[0]);
  }

  /** Sorting decides equality of multisets. */
  lemma SortDecidesPermutation<T(!new)>(less: (T, T) -> bool, s: seq<T>, t: seq<T>, dom: iset<T>)
    requires TotalOrderOn(less, dom) && Within(s, dom) && Within(t, dom)
    ensures Sort(less, s) == Sort(less, t) <==> multiset(s) == multiset(t)
  {
    SortPermutes(less, s);
    SortPermutes(less, t);
    if multiset(s) == multiset(t) {
      SortOrdered(less, s, dom);
      SortOrdered(less, t, dom);
      SortWithin(less, s, dom);
      OrderedUnique(less, Sort(less, s), Sort(less, t), dom);
    }
  }

  function Filter<T>(keep: T -> bool, s: seq<T>): (r: seq<T>)
    ensures |r| <= |s|
    ensures forall i :: 0 <= i < |r| ==> keep(r[i]) && r[i] in s
  {
    if s == [] then []
    else
      var front := Filter(keep, s[..|s| - 1]);
      if keep(s[|s| - 1]) then front + [s[|s| - 1]] else front
  }

  lemma {:induction false} FilterConcat<T>(keep: T -> bool, a: seq<T>, b: seq<T>)
    ensures Filter(keep, a + b) == Filter(keep, a) + Filter(keep, b)
  {
    if b == [] {
      assert a + b == a;
    } else {
      assert (a + b)[..|a + b| - 1] == a + b[..|b| - 1];
      FilterConcat(keep, a, b[..|b| - 1]);
    }
  }

  lemma FilterOneMore<T>(keep: T -> bool, s: seq<T>, i: nat)
    requires i < |s|
    ensures Filter(keep, s[..i + 1]) == Filter(keep, s[..i]) + if keep(s[i]) then [s[i]] else []
  {
    assert s[..i + 1][..i] == s[..i];
  }

  lemma {:induction false} FilterMember<T>(keep: T -> bool, s: seq<T>, x: T)
    ensures x in Filter(keep, s) <==> x in s && keep(x)
  {
    if s != [] {
      FilterMember(keep, s[..|s| - 1], x);
      assert s == s[..|s| - 1] + [s[|s| - 1]];
    }
  }

  lemma {:induction false} FilterAll<T>(keep: T -> bool, s: seq<T>)
    requires forall x :: x in s ==> keep(x)
    ensures Filter(keep, s) == s
  {
    if s != [] {
      FilterAll(keep, s[..|s| - 1]);
      assert s == s[..|s| - 1] + [s[|s| - 1]];
    }
  }

  lemma {:induction false} SameFilter<T(!new)>(p: T -> bool, q: T -> bool, s: seq<T>)
    requires forall x :: p(x) == q(x)
    ensures Filter(p, s) == Filter(q, s)
  {
    if s != [] { SameFilter(p, q, s[..|s| - 1]); }
  }

  /** An element is kept as often as it occurs, or not at all. */
  lemma {:induction false} FilterCount<T>(keep: T -> bool, s: seq<T>, x: T)
    ensures multiset(Filter(keep, s))[x] == if keep(x) then multiset(s)[x] else 0
  {
    if s != [] {
      var front, last := s[..|s| - 1], s[|s| - 1];
      FilterCount(keep, front, x);
      CountAppend(front, last, x);
      CountAppend(Filter(keep, front), last, x);
      assert s == front + [last];
    }
  }

  lemma CountAppend<T>(s: seq<T>, y: T, x: T)
    ensures multiset(s + [y])[x] == multiset(s)[x] + if y == x then 1 else 0
  {
  }

  lemma FilterLastStays<T(!new)>(less: (T, T) -> bool, keep: T -> bool, s: seq<T>, x: T, dom: iset<T>)
    requires WeakOrderOn(less, dom) && Within(s, dom) && x in dom && Ordered(less, s)
    requires s == [] || !less(x, s[|s| - 1])
    ensures var f := Filter(keep, s); f == [] || !less(x, f[|f| - 1])
  {
    var f := Filter(keep, s);
    if f != [] {
      var y := f[|f| - 1];
      assert y in s;
      var i :| 0 <= i < |s| && s[i] == y;
      assert i < |s| - 1 ==> !less(s[|s| - 1], y);
    }
  }

  lemma {:induction false} InsertFilter<T(!new)>(less: (T, T) -> bool, keep: T -> bool, s: seq<T>, x: T, dom: iset<T>)
    requires WeakOrderOn(less, dom) && Within(s, dom) && x in dom && Ordered(less, s)
    ensures Filter(keep, Insert(less, s, x))
         == if keep(x) then Insert(less, Filter(keep, s), x) else Filter(keep, s)
  {
    if s == [] || !less(x, s[|s| - 1]) {
      FilterConcat(keep, s, [x]);
      FilterLastStays(less, keep, s, x, dom);
    } else {
      var front, last := s[..|s| - 1], s[|s| - 1];
      InsertFilter(less, keep, front, x, dom);
      FilterConcat(keep, Insert(less, front, x), [last]);
      if keep(last) {
        assert (Filter(keep, front) + [last])[..|Filter(keep, front)|] == Filter(keep, front);
      }
    }
  }

  /** Stability: the elements of any class come out in their input order. */
  lemma {:induction false} SortFilter<T(!new)>(less: (T, T) -> bool, keep: T -> bool, s: seq<T>, dom: iset<T>)
    requires WeakOrderOn(less, dom) && Within(s, dom)
    ensures Filter(keep, Sort(less, s)) == Sort(less, Filter(keep, s))
  {
    if s != [] {
      var front := s[..|s| - 1];
      SortFilter(less, keep, front, dom);
      SortOrdered(less, front, dom);
      SortWithin(less, front, dom);
      InsertFilter(less, keep, Sort(less, front), s[|s| - 1], dom);
      if keep(s[|s| - 1]) {
        assert (Filter(keep, front) + [s[|s| - 1]])[..|Filter(keep, front)|] == Filter(keep, front);
      }
    }
  }

  /** What `f` makes of each element, one after the other. */
  function FlatMap<T, U>(f: T -> seq<U>, s: seq<T>): seq<U> {
    if s == [] then [] else FlatMap(f, s[..|s| - 1]) + f(s[|s| - 1])
  }

  lemma FlatMapOneMore<T, U>(f: T -> seq<U>, s: seq<T>, i: nat)
    requires i < |s|
    ensures FlatMap(f, s[..i + 1]) == FlatMap(f, s[..i]) + f(s[i])
  {
    assert s[..i + 1][..i] == s[..i];
  }

  lemma {:induction false} FlatMapSingles<T, U>(f: T -> seq<U>, s: seq<T>)
    requires forall i :: 0 <= i < |s| ==> |f(s[i])| == 1
    ensures |FlatMap(f, s)| == |s| && forall i :: 0 <= i < |s| ==> FlatMap(f, s)[i] == f(s[i])[0]
  {
    if s != [] {
      FlatMapSingles(f, s[..|s| - 1]);
    }
  }

  /** The first of the least elements, in input order. */
  ghost predicate IsFirstMin<T(!new)>(less: (T, T) -> bool, s: seq<T>, x: T) {
    exists i :: 0 <= i < |s| && FirstMinAt(less, s, i) && s[i] == x
  }

  ghost predicate FirstMinAt<T(!new)>(less: (T, T) -> bool, s: seq<T>, i: nat)
    requires i < |s|
  {
    && (forall j :: 0 <= j < |s| ==> !less(s[j], s[i]))
    && (forall j :: 0 <= j < i ==> less(s[i], s[j]))
  }

  lemma FirstMinUnique<T(!new)>(less: (T, T) -> bool, s: seq<T>, x: T, y: T)
    requires IsFirstMin(less, s, x) && IsFirstMin(less, s, y)
    ensures x == y
  {
    var i :| 0 <= i < |s| && FirstMinAt(less, s, i) && s[i] == x;
    var k :| 0 <= k < |s| && FirstMinAt(less, s, k) && s[k] == y;
  }

  lemma InsertHead<T(!new)>(less: (T, T) -> bool, s: seq<T>, x: T, dom: iset<T>)
    requires WeakOrderOn(less, dom) && Within(s, dom) && x in dom && Ordered(less, s)
    ensures Insert(less, s, x)[0] == if s == [] || less(x, s[0]) then x else s[0]
  {
    if |s| > 1 {
      assert !less(s[|s| - 1], s[0]);
      InsertHead(less, s[..|s| - 1], x, dom);
    }
  }

  /** A stable sort puts the first minimum in front. */
  lemma {:induction false} SortHeadIsFirstMin<T(!new)>(less: (T, T) -> bool, s: seq<T>, dom: iset<T>)
    requires WeakOrderOn(less, dom) && Within(s, dom) && s != []
    ensures IsFirstMin(less, s, Sort(less, s)[0])
  {
    var n := |s| - 1;
    var front, last := s[..n], s[n];
    if front == [] {
      assert less(last, last) ==> !less(last, last);
      assert FirstMinAt(less, s, 0);
    } else {
      SortOrdered(less, front, dom);
      SortWithin(less, front, dom);
      InsertHead(less, Sort(less, front), last, dom);
      SortHeadIsFirstMin(less, front, dom);
      FirstMinExtends(less, front, last, Sort(less, front)[0], dom);
      assert s == front + [last];
    }
  }

  lemma FirstMinExtends<T(!new)>(less: (T, T) -> bool, front: seq<T>, last: T, m: T, dom: iset<T>)
    requires WeakOrderOn(less, dom) && Within(front, dom) && last in dom
    requires IsFirstMin(less, front, m)
    ensures IsFirstMin(less, front + [last], if less(last, m) then last else m)
  {
    var s, n := front + [last], |front|;
    var i :| 0 <= i < n && FirstMinAt(less, front, i) && front[i] == m;
    if less(last, m) {
      forall j | 0 <= j < |s| ensures !less(s[j], last) && (j < n ==> less(last, s[j])) {
        if j < n {
          assert !less(front[j], m);
          assert !less(last, front[j]) ==> !less(last, m);
        }
      }
      assert FirstMinAt(less, s, n);
    } else {
      assert FirstMinAt(less, s, i);
    }
  }

  /** One more element of the list is one more insertion. */
  lemma SortOneMore<T>(less: (T, T) -> bool, s: seq<T>, i: nat)
    requires i < |s|
    ensures Sort(less, s[..i + 1]) == Insert(less, Sort(less, s[..i]), s[i])
  {
    assert s[..i + 1][..i] == s[..i];
  }

  /** Insertion sort in place: the loop Go runs. */
  method SortInPlace<T>(less: (T, T) -> bool, a: array<T>)
    modifies a
    ensures a[..] == Sort(less, old(a[..]))
  {
    ghost var was := a[..];
    var i := 0;
    while i < a.Length
      invariant 0 <= i <= a.Length
      invariant a[..i] == Sort(less, was[..i])
      invariant forall k :: i <= k < a.Length ==> a[k] == was[k]
    {
      SortOneMore(less, was, i);
      SinkLast(less, a, i);
      i := i + 1;
    }
    assert a[..i] == a[..] && was[..i] == was;
  }

  /** The inner loop: swaps the element at `i` down to its place. */
  method SinkLast<T>(less: (T, T) -> bool, a: array<T>, i: nat)
    requires i < a.Length
    modifies a
    ensures a[..i + 1] == Insert(less, old(a[..i]), old(a[i]))
    ensures forall k :: i < k < a.Length ==> a[k] == old(a[k])
  {
    ghost var done, x := a[..i], a[i];
    var j := i;
    assert done[..i] == done && a[..i + 1] == done + [x];
    while j > 0 && less(a[j], a[j - 1])
      invariant 0 <= j <= i
      invariant a[..i + 1] == done[..j] + [x] + done[j..]
      invariant forall k :: i < k < a.Length ==> a[k] == old(a[k])
      invariant Insert(less, done, x) == Insert(less, done[..j], x) + done[j..]
    {
      InsertStep(less, done, x, j, a[..i + 1]);
      a[j], a[j - 1] := a[j - 1], a[j];
      j := j - 1;
    }
    InsertDone(less, done, x, j, a[..i + 1]);
  }

  lemma InsertStep<T>(less: (T, T) -> bool, done: seq<T>, x: T, j: nat, now: seq<T>)
    requires 0 < j <= |done| && now == done[..j] + [x] + done[j..]
    ensures now[j] == x && now[j - 1] == done[j - 1]
    ensures less(x, done[j - 1])
      ==> Insert(less, done[..j], x) + done[j..] == Insert(less, done[..j - 1], x) + done[j - 1..]
    ensures now[j := now[j - 1]][j - 1 := x] == done[..j - 1] + [x] + done[j - 1..]
  {
    assert done[..j][..j - 1] == done[..j - 1];
    assert done[j - 1..] == [done[j - 1]] + done[j..];
    assert now == done[..j - 1] + [done[j - 1]] + [x] + done[j..];
  }

  lemma InsertDone<T>(less: (T, T) -> bool, done: seq<T>, x: T, j: nat, now: seq<T>)
    requires 0 <= j <= |done| && now == done[..j] + [x] + done[j..]
    requires j > 0 ==> !less(now[j], now[j - 1])
    ensures Insert(less, done[..j], x) + done[j..] == now
  {
  }
}
