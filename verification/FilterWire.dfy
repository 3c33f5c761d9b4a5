/** A domain filter on the wire (endpoint/domain_filter.go): what it is written as, what is made of that, and when
    the two let the same names through. */
module FilterWire {
  import opened Wrappers
  import opened Sorting
  import opened DomainFilters
  import Strings

  datatype Serde = Serde(
    filters: seq<string>,
    exclude: seq<string>,
    regexInclude: string,
    regexExclude: string)

  function Text(regex: Option<Regex>): string {
    if regex.Some? then regex.value.text else ""
  }

  /** `MarshalJSON` up to the JSON text: a compiled expression, even an empty
      one, goes out instead of the lists. */
  function Marshal(df: DomainFilter): Serde {
    if df.regex.Some? || df.regexExclusion.Some? then Serde([], [], Text(df.regex), Text(df.regexExclusion))
    else Serde(Sort(Strings.LessFn(), df.filters), Sort(Strings.LessFn(), df.exclude), "", "")
  }

  datatype WireError = ListsAndRegex | InvalidInclude | InvalidExclude

  /** An empty text is no expression; any other one has to compile. */
  function Compiled(compile: string -> Option<Regex>, text: string): Option<Regex> {
    if text == "" then None else compile(text)
  }

  /** `UnmarshalJSON` from the parsed object on. */
  function Unmarshal(compile: string -> Option<Regex>, s: Serde): Result<DomainFilter, WireError> {
    if s.regexInclude == "" && s.regexExclude == "" then Ok(New(s.filters, s.exclude))
    else if s.filters != [] || s.exclude != [] then Err(ListsAndRegex)
    else
      var regex, exclusion := Compiled(compile, s.regexInclude), Compiled(compile, s.regexExclude);
      if s.regexInclude != "" && regex.None? then Err(InvalidInclude)
      else if s.regexExclude != "" && exclusion.None? then Err(InvalidExclude)
      else Ok(NewRegex(regex, exclusion))
  }

  /** What is refused: expressions beside lists, and expressions that do not compile,
      the include before the exclude; and nothing is refused without expressions. */
  lemma RefusedMeans(compile: string -> Option<Regex>, s: Serde)
    ensures var r, lists := Unmarshal(compile, s), |s.filters| + |s.exclude| > 0;
      && (r == Err(ListsAndRegex) <==> lists && |s.regexInclude| + |s.regexExclude| > 0)
      && (r == Err(InvalidInclude) <==> !lists && |s.regexInclude| > 0 && compile(s.regexInclude).None?)
      && (r == Err(InvalidExclude) <==>
            && !lists && |s.regexExclude| > 0 && compile(s.regexExclude).None?
            && (|s.regexInclude| > 0 ==> compile(s.regexInclude).Some?))
  {
  }

  /** The expressions a filter holds are what their texts compile to. */
  ghost predicate CompiledBy(compile: string -> Option<Regex>, df: DomainFilter) {
    && (IsSet(df.regex) ==> compile(df.regex.value.text) == df.regex)
    && (IsSet(df.regexExclusion) ==> compile(df.regexExclusion.value.text) == df.regexExclusion)
  }

  /** What the other side makes of a filter. */
  function Returned(df: DomainFilter): DomainFilter {
    if HasRegex(df) then
      NewRegex(if IsSet(df.regex) then df.regex else None, if IsSet(df.regexExclusion) then df.regexExclusion else None)
    else if df.regex.Some? || df.regexExclusion.Some? then New([], [])
    else DomainFilter(ReturnedList(df.filters), ReturnedList(df.exclude), None, None)
  }

  function ReturnedList(fs: seq<string>): seq<string> {
    Prepared(Sort(Strings.LessFn(), fs))
  }

  lemma WireAnswer(compile: string -> Option<Regex>, df: DomainFilter)
    requires CompiledBy(compile, df)
    ensures Unmarshal(compile, Marshal(df)) == Ok(Returned(df))
  {
  }

  /** Fixed points of preparation: lower case, trimmed, not empty. */
  predicate AllPrepared(filters: seq<string>) {
    forall i :: 0 <= i < |filters| ==> filters[i] != "" && PreparedOne(filters[i]) == filters[i]
  }

  lemma {:induction false} CollectFixed(f: string -> string, filters: seq<string>)
    requires forall i :: 0 <= i < |filters| ==> filters[i] != "" && f(filters[i]) == filters[i]
    ensures Collect(f, filters) == filters
  {
    if filters != [] {
      CollectFixed(f, filters[..|filters| - 1]);
      assert filters == filters[..|filters| - 1] + [filters[|filters| - 1]];
    }
  }

  lemma PreparedFixed(filters: seq<string>)
    requires AllPrepared(filters)
    ensures Prepared(filters) == filters
  {
    var f := PreparedFn();
    forall i | 0 <= i < |filters| ensures f(filters[i]) == filters[i] {
      assert PreparedOne(filters[i]) == filters[i];
    }
    CollectFixed(f, filters);
  }

  // ---- which lists the wire format keeps

  /** Length, counting upper-case letters twice. */
  function Weight(s: string): nat {
    if s == [] then 0 else Weight(s[..|s| - 1]) + CharWeight(s[|s| - 1])
  }

  function CharWeight(c: char): nat {
    if 'A' <= c <= 'Z' then 2 else 1
  }

  lemma {:induction false} WeightConcat(a: string, b: string)
    ensures Weight(a + b) == Weight(a) + Weight(b)
  {
    if b == [] {
      assert a + b == a;
    } else {
      assert (a + b)[..|a + b| - 1] == a + b[..|b| - 1];
      WeightConcat(a, b[..|b| - 1]);
    }
  }

  lemma WeightOfPart(a: string, b: string)
    ensures b != [] ==> Weight(a + b) > Weight(a) && Weight(b + a) > Weight(a)
  {
    WeightConcat(a, b);
    WeightConcat(b, a);
  }

  lemma {:induction false} TrimLeftShrinks(s: string, drop: char -> bool)
    ensures Strings.TrimLeft(s, drop) == s || Weight(Strings.TrimLeft(s, drop)) < Weight(s)
  {
    if s != [] && drop(s[0]) {
      TrimLeftShrinks(s[1..], drop);
      WeightOfPart(s[1..], [s[0]]);
      assert s == [s[0]] + s[1..];
    }
  }

  lemma {:induction false} TrimRightShrinks(s: string, drop: char -> bool)
    ensures Strings.TrimRight(s, drop) == s || Weight(Strings.TrimRight(s, drop)) < Weight(s)
  {
    if s != [] && drop(s[|s| - 1]) {
      TrimRightShrinks(s[..|s| - 1], drop);
    }
  }

  lemma {:induction false} LowerShrinks(s: string)
    ensures Strings.ToLower(s) == s || Weight(Strings.ToLower(s)) < Weight(s)
  {
    if s != [] {
      var h, t := [s[0]], s[1..];
      LowerShrinks(t);
      WeightConcat(h, t);
      WeightConcat([Strings.LowerChar(s[0])], Strings.ToLower(t));
      assert s == h + t;
      assert h[..0] == [] && Weight(h) == CharWeight(s[0]);
      assert Weight([Strings.LowerChar(s[0])]) == CharWeight(Strings.LowerChar(s[0]));
    }
  }

  lemma SuffixShrinks(s: string, suffix: string)
    requires suffix != []
    ensures Strings.TrimSuffix(s, suffix) == s || Weight(Strings.TrimSuffix(s, suffix)) < Weight(s)
  {
    if Strings.HasSuffix(s, suffix) {
      var t := Strings.TrimSuffix(s, suffix);
      WeightOfPart(t, suffix);
      assert s == t + suffix;
    }
  }

  /** Preparing a filter makes it lighter, unless it leaves it alone. */
  lemma PreparedOneShrinks(f: string)
    ensures PreparedOne(f) == f || Weight(PreparedOne(f)) < Weight(f)
  {
    var left := Strings.TrimLeft(f, c => Strings.IsSpace(c));
    TrimLeftShrinks(f, c => Strings.IsSpace(c));
    TrimRightShrinks(left, c => Strings.IsSpace(c));
    SuffixShrinks(Strings.TrimSpace(f), ".");
    LowerShrinks(Strings.TrimSuffix(Strings.TrimSpace(f), "."));
  }

  function Total(fs: seq<string>): nat {
    if fs == [] then 0 else Total(fs[..|fs| - 1]) + Weight(fs[|fs| - 1]) + 1
  }

  ghost predicate Fixes(f: string -> string, fs: seq<string>) {
    forall i :: 0 <= i < |fs| ==> fs[i] != "" && f(fs[i]) == fs[i]
  }

  lemma CollectedLast(f: string -> string, fs: seq<string>)
    requires fs != [] && (f(fs[|fs| - 1]) == fs[|fs| - 1] || Weight(f(fs[|fs| - 1])) < Weight(fs[|fs| - 1]))
    ensures var front, last := fs[..|fs| - 1], fs[|fs| - 1];
      && Total(Collect(f, fs)) <= Total(Collect(f, front)) + Weight(last) + 1
      && (Total(Collect(f, fs)) == Total(Collect(f, front)) + Weight(last) + 1 ==> last != "" && f(last) == last)
  {
    var front, d := Collect(f, fs[..|fs| - 1]), f(fs[|fs| - 1]);
    assert (front + [d])[..|front|] == front;
  }

  lemma {:induction false} TotalOfCollected(f: string -> string, fs: seq<string>)
    requires forall s :: f(s) == s || Weight(f(s)) < Weight(s)
    ensures Total(Collect(f, fs)) <= Total(fs)
    ensures Total(Collect(f, fs)) == Total(fs) ==> Fixes(f, fs)
  {
    if fs != [] {
      TotalOfCollected(f, fs[..|fs| - 1]);
      CollectedLast(f, fs);
    }
  }

  lemma {:induction false} TotalOfInserted(less: (string, string) -> bool, fs: seq<string>, x: string)
    ensures Total(Insert(less, fs, x)) == Total(fs) + Weight(x) + 1
  {
    if !(fs == [] || !less(x, fs[|fs| - 1])) {
      TotalOfInserted(less, fs[..|fs| - 1], x);
    }
  }

  lemma {:induction false} TotalOfSorted(less: (string, string) -> bool, fs: seq<string>)
    ensures Total(Sort(less, fs)) == Total(fs)
  {
    if fs != [] {
      TotalOfSorted(less, fs[..|fs| - 1]);
      TotalOfInserted(less, Sort(less, fs[..|fs| - 1]), fs[|fs| - 1]);
    }
  }

  lemma TotalOfPermuted(fs: seq<string>, gs: seq<string>)
    requires multiset(fs) == multiset(gs)
    ensures Total(fs) == Total(gs)
  {
    Strings.LessFnIsTotal();
    SortDecidesPermutation(Strings.LessFn(), fs, gs, Strings.AllStrings());
    TotalOfSorted(Strings.LessFn(), fs);
    TotalOfSorted(Strings.LessFn(), gs);
  }

  lemma SortedPrepared(fs: seq<string>)
    ensures AllPrepared(Sort(Strings.LessFn(), fs)) ==> AllPrepared(fs)
  {
    if AllPrepared(Sort(Strings.LessFn(), fs)) {
      SortPermutes(Strings.LessFn(), fs);
      SameMultisetWithin(Sort(Strings.LessFn(), fs), fs, iset f: string | f != "" && PreparedOne(f) == f);
    }
  }

  lemma ReturnedIff(fs: seq<string>)
    ensures multiset(ReturnedList(fs)) == multiset(fs) <==> AllPrepared(fs)
  {
    var sorted, f := Sort(Strings.LessFn(), fs), PreparedFn();
    SortPermutes(Strings.LessFn(), fs);
    if AllPrepared(fs) {
      SortedStaysPrepared(fs);
      assert ReturnedList(fs) == sorted;
    } else if multiset(ReturnedList(fs)) == multiset(fs) {
      TotalOfPermuted(ReturnedList(fs), sorted);
      forall s ensures f(s) == s || Weight(f(s)) < Weight(s) { PreparedOneShrinks(s); }
      TotalOfCollected(f, sorted);
      assert AllPrepared(sorted);
      SortedPrepared(fs);
      assert false;
    }
  }

  /** A filter of lists comes back with both lists, up to order, exactly when
      every filter is a fixed point of preparation. */
  lemma MarshalKeepsListsIff(df: DomainFilter)
    requires df.regex.None? && df.regexExclusion.None?
    ensures var r := Returned(df);
      multiset(r.filters) == multiset(df.filters) && multiset(r.exclude) == multiset(df.exclude)
      <==> AllPrepared(df.filters) && AllPrepared(df.exclude)
  {
    assert Returned(df) == DomainFilter(ReturnedList(df.filters), ReturnedList(df.exclude), None, None);
    ReturnedIff(df.filters);
    ReturnedIff(df.exclude);
  }

  lemma SortedStaysPrepared(fs: seq<string>)
    requires AllPrepared(fs)
    ensures Prepared(Sort(Strings.LessFn(), fs)) == Sort(Strings.LessFn(), fs)
  {
    SortWithin(Strings.LessFn(), fs, iset f: string | f != "" && PreparedOne(f) == f);
    PreparedFixed(Sort(Strings.LessFn(), fs));
  }

  // ---- when two filters of lists let the same names through

  /** A stripped name a list can tell apart from others: no blank and no upper-case filter ever matches. */
  predicate Live(filter: string) {
    filter != "" && Strings.ToLower(filter) == filter
  }

  predicate Covering(f: string, d: string) {
    f != "" && Covers(f, d)
  }

  lemma CoversIsTransitive(g: string, f: string, d: string)
    requires Covers(g, f) && Covers(f, d)
    ensures Covers(g, d)
  {
    if f != d {
      var p := if Strings.HasPrefix(f, ".") then f else "." + f;
      assert Strings.HasSuffix(d, p) && Strings.HasSuffix(p, f);
      SuffixOfSuffix(d, p, f);
      if Strings.HasPrefix(g, ".") {
        SuffixOfSuffix(d, f, g);
      } else if g == f {
        assert p == "." + g;
      } else {
        SuffixOfSuffix(d, f, "." + g);
      }
    }
  }

  lemma SuffixOfSuffix(s: string, t: string, u: string)
    requires Strings.HasSuffix(s, t) && Strings.HasSuffix(t, u)
    ensures Strings.HasSuffix(s, u)
  {
    assert s[|s| - |u|..] == s[|s| - |t|..][|t| - |u|..];
  }

  lemma ShorterSuffix(s: string, t: string, u: string)
    requires Strings.HasSuffix(s, t) && Strings.HasSuffix(s, u) && |u| <= |t|
    ensures Strings.HasSuffix(t, u)
  {
    assert s[|s| - |u|..] == s[|s| - |t|..][|t| - |u|..];
  }

  /** The end of a name that a filter covering it has seen. */
  function Seen(f: string, d: string): string {
    if f == d || Strings.HasPrefix(f, ".") then f else "." + f
  }

  lemma SeenIsSuffix(f: string, d: string)
    requires Covers(f, d)
    ensures Strings.HasSuffix(d, Seen(f, d)) && Covers(f, Seen(f, d))
  {
  }

  /** Filters do not tell a name from the longest end of it that one of them sees. */
  lemma SeenDecides(f: string, d: string, g: string)
    requires Covers(f, d)
    requires Covers(g, d) ==> |Seen(g, d)| <= |Seen(f, d)|
    ensures Covers(g, d) <==> Covers(g, Seen(f, d))
  {
    var p := Seen(f, d);
    if p != d {
      SeenIsSuffix(f, d);
      if Covers(g, p) {
        assert p[0] == '.';
        SuffixOfSuffix(d, p, if Strings.HasPrefix(g, ".") then g else "." + g);
      }
      if Covers(g, d) {
        SeenIsSuffix(g, d);
        ShorterSuffix(d, p, Seen(g, d));
        assert g != d;
      }
    }
  }

  /** A filter that sees most of a name, if any covers it. */
  lemma {:induction false} MostSeen(fs: seq<string>, d: string) returns (f: Option<string>)
    ensures f.Some? ==> f.value in fs && Covering(f.value, d)
    ensures forall g :: g in fs && Covering(g, d) ==> f.Some? && |Seen(g, d)| <= |Seen(f.value, d)|
  {
    if fs == [] {
      f := None;
    } else {
      var last := fs[|fs| - 1];
      f := MostSeen(fs[..|fs| - 1], d);
      if Covering(last, d) && (f.None? || |Seen(f.value, d)| < |Seen(last, d)|) {
        f := Some(last);
      }
    }
  }

  /** A name that is lower case throughout has lower-case ends. */
  lemma LowerSuffix(d: string, f: string)
    requires Strings.ToLower(d) == d && Strings.HasSuffix(d, f)
    ensures Strings.ToLower(f) == f
  {
    var k := |d| - |f|;
    forall i | 0 <= i < |f| ensures Strings.ToLower(f)[i] == f[i] {
      assert f[i] == d[k..][i] == d[k + i];
    }
  }

  lemma CoveringIsLive(f: string, d: string)
    requires Strings.ToLower(d) == d && Covering(f, d)
    ensures Live(f)
  {
    SeenIsSuffix(f, d);
    LowerSuffix(d, Seen(f, d));
    LowerSuffix(Seen(f, d), f);
  }

  /** Stripping yields the lower-case names and no others. */
  lemma StripIsLower(domain: string)
    ensures Strings.ToLower(Strip(domain)) == Strip(domain)
  {
  }

  lemma StripReaches(d: string)
    requires Strings.ToLower(d) == d
    ensures Strip(d + ".") == d
  {
    assert Strings.TrimSuffix(d + ".", ".") == d;
  }

  predicate Admits(df: DomainFilter, stripped: string) {
    Hits(df.filters, stripped, true) && !Hits(df.exclude, stripped, false)
  }

  function Lists(df: DomainFilter): seq<string> {
    df.filters + df.exclude
  }

  /** The two agree on the empty name and, for each filter that can match, on
      the filter itself and on what lies below it. */
  predicate AgreeAtFilters(df: DomainFilter, dg: DomainFilter) {
    && Admits(df, "") == Admits(dg, "")
    && forall f :: f in Lists(df) + Lists(dg) && Live(f) ==>
         && Admits(df, f) == Admits(dg, f)
         && (!Strings.HasPrefix(f, ".") ==> Admits(df, "." + f) == Admits(dg, "." + f))
  }

  lemma HitsAlike(fs: seq<string>, d: string, p: string, emptyval: bool)
    requires forall g :: g in fs && g != "" ==> (Covers(g, d) <==> Covers(g, p))
    ensures Hits(fs, d, emptyval) == Hits(fs, p, emptyval)
  {
  }

  lemma AdmitsAlike(df: DomainFilter, d: string, p: string)
    requires forall g :: g in Lists(df) && g != "" ==> (Covers(g, d) <==> Covers(g, p))
    ensures Admits(df, d) == Admits(df, p)
  {
    forall g | g in df.filters || g in df.exclude ensures g in Lists(df) {}
    HitsAlike(df.filters, d, p, true);
    HitsAlike(df.exclude, d, p, false);
  }

  lemma AgreeEverywhere(df: DomainFilter, dg: DomainFilter, d: string)
    requires AgreeAtFilters(df, dg) && Strings.ToLower(d) == d
    ensures Admits(df, d) == Admits(dg, d)
  {
    var all := Lists(df) + Lists(dg);
    var f := MostSeen(all, d);
    var p := if f.Some? then Seen(f.value, d) else "";
    forall g | g in all && g != "" ensures Covers(g, d) <==> Covers(g, p) {
      if f.Some? {
        SeenDecides(f.value, d, g);
      } else {
        assert !Covering(g, d);
      }
    }
    AdmitsAlike(df, d, p);
    AdmitsAlike(dg, d, p);
    if f.Some? { CoveringIsLive(f.value, d); }
  }

  lemma AgreeThere(df: DomainFilter, dg: DomainFilter, p: string)
    requires Strings.ToLower(p) == p && !HasRegex(df) && !HasRegex(dg)
    requires Match(df, p + ".") == Match(dg, p + ".")
    ensures Admits(df, p) == Admits(dg, p)
  {
    StripReaches(p);
  }

  lemma AlikeAgree(df: DomainFilter, dg: DomainFilter)
    requires !HasRegex(df) && !HasRegex(dg)
    requires forall domain :: Match(df, domain) == Match(dg, domain)
    ensures AgreeAtFilters(df, dg)
  {
    AgreeThere(df, dg, "");
    forall f | f in Lists(df) + Lists(dg) && Live(f)
      ensures Admits(df, f) == Admits(dg, f) && Admits(df, "." + f) == Admits(dg, "." + f)
    {
      assert Strings.ToLower("." + f) == "." + f by { assert ("." + f)[1..] == f; }
      AgreeThere(df, dg, f);
      AgreeThere(df, dg, "." + f);
    }
  }

  /** Two filters of lists let the same of all names through exactly when they
      agree at the filters they are made of. */
  lemma MatchAlikeIff(df: DomainFilter, dg: DomainFilter)
    requires !HasRegex(df) && !HasRegex(dg)
    ensures (forall domain :: Match(df, domain) == Match(dg, domain)) <==> AgreeAtFilters(df, dg)
  {
    if AgreeAtFilters(df, dg) {
      forall domain ensures Match(df, domain) == Match(dg, domain) {
        StripIsLower(domain);
        AgreeEverywhere(df, dg, Strip(domain));
      }
    } else if forall domain :: Match(df, domain) == Match(dg, domain) {
      AlikeAgree(df, dg);
      assert false;
    }
  }

  /** Every filter of one list that can match lies within the other. */
  predicate Within(fs: seq<string>, gs: seq<string>) {
    forall f :: f in fs && Live(f) ==> exists g :: g in gs && Covering(g, f)
  }

  lemma WithinHits(fs: seq<string>, gs: seq<string>, d: string, emptyval: bool)
    requires Within(fs, gs) && fs != [] && Strings.ToLower(d) == d
    ensures Hits(fs, d, emptyval) && gs != [] ==> Hits(gs, d, emptyval)
  {
    if Hits(fs, d, emptyval) && gs != [] {
      var f :| f in fs && f != "" && Covers(f, d);
      CoveringIsLive(f, d);
      var g :| g in gs && Covering(g, f);
      CoversIsTransitive(g, f, d);
    }
  }

  /** Two lists that are there match alike exactly when each lies within the other. */
  lemma ListsAlikeIff(fs: seq<string>, gs: seq<string>, emptyval: bool)
    requires fs != [] && gs != []
    ensures (forall domain :: Matches(fs, domain, emptyval) == Matches(gs, domain, emptyval))
      <==> Within(fs, gs) && Within(gs, fs)
  {
    if Within(fs, gs) && Within(gs, fs) {
      forall domain ensures Matches(fs, domain, emptyval) == Matches(gs, domain, emptyval) {
        StripIsLower(domain);
        WithinHits(fs, gs, Strip(domain), emptyval);
        WithinHits(gs, fs, Strip(domain), emptyval);
      }
    }
    if forall domain :: Matches(fs, domain, emptyval) == Matches(gs, domain, emptyval) {
      HitsWithin(fs, gs, emptyval);
      HitsWithin(gs, fs, emptyval);
    }
  }

  lemma HitsWithin(fs: seq<string>, gs: seq<string>, emptyval: bool)
    requires fs != [] && gs != []
    requires forall domain :: Matches(fs, domain, emptyval) ==> Matches(gs, domain, emptyval)
    ensures Within(fs, gs)
  {
    forall f | f in fs && Live(f) ensures exists g :: g in gs && Covering(g, f) {
      StripReaches(f);
      assert Covering(f, f);
      assert Matches(fs, f + ".", emptyval);
      assert Matches(gs, f + ".", emptyval);
      var g :| g in gs && g != "" && Covers(g, f);
      assert Covering(g, f);
    }
  }

  // ---- what the wire keeps

  lemma {:induction false} CollectedFrom(f: string -> string, fs: seq<string>, g: string)
    ensures g in Collect(f, fs) <==> g != "" && exists h :: h in fs && f(h) == g
  {
    if fs != [] {
      var front, last := fs[..|fs| - 1], fs[|fs| - 1];
      CollectedFrom(f, front, g);
      forall h ensures h in fs <==> h in front || h == last {
        assert fs == front + [last];
      }
    }
  }

  /** The list that comes back holds the prepared filters. */
  lemma ReturnedFrom(fs: seq<string>, g: string)
    ensures g in ReturnedList(fs) <==> g != "" && exists h :: h in fs && PreparedOne(h) == g
  {
    var sorted, p := Sort(Strings.LessFn(), fs), PreparedFn();
    SortPermutes(Strings.LessFn(), fs);
    forall h ensures h in fs <==> h in sorted {
      assert h in multiset(fs) <==> h in multiset(sorted);
    }
    CollectedFrom(p, sorted, g);
    forall h ensures p(h) == PreparedOne(h) {}
  }

  /** Each filter that can match is covered by a prepared one, and each prepared
      one that is left by a filter that could match. */
  predicate SurvivesPreparation(fs: seq<string>) {
    && (forall f :: f in fs && Live(f) ==> exists h :: h in fs && Covering(PreparedOne(h), f))
    && (forall h :: h in fs && PreparedOne(h) != "" ==> exists f :: f in fs && Covering(f, PreparedOne(h)))
  }

  predicate AllBlank(fs: seq<string>) {
    forall h :: h in fs ==> PreparedOne(h) == ""
  }

  /** What a list matches survives the wire: always if it is empty; if it has
      only blanks, never as includes and as excludes when none could match;
      otherwise exactly when it survives preparation. */
  predicate ListSurvives(fs: seq<string>, emptyval: bool) {
    if fs == [] then true
    else if AllBlank(fs) then !emptyval && forall f :: f in fs ==> !Live(f)
    else SurvivesPreparation(fs)
  }

  lemma BlanksReturnNothing(fs: seq<string>)
    ensures ReturnedList(fs) == [] <==> AllBlank(fs)
  {
    if ReturnedList(fs) != [] {
      ReturnedFrom(fs, ReturnedList(fs)[0]);
    } else {
      forall h | h in fs ensures PreparedOne(h) == "" { ReturnedFrom(fs, PreparedOne(h)); }
    }
  }

  lemma PreparedIsLive(h: string)
    requires PreparedOne(h) != ""
    ensures Live(PreparedOne(h))
  {
  }

  lemma SurvivesIffWithin(fs: seq<string>)
    ensures SurvivesPreparation(fs) <==> Within(fs, ReturnedList(fs)) && Within(ReturnedList(fs), fs)
  {
    var back := ReturnedList(fs);
    forall g ensures g in back <==> g != "" && exists h :: h in fs && PreparedOne(h) == g { ReturnedFrom(fs, g); }
    forall h | h in fs && PreparedOne(h) != "" ensures PreparedOne(h) in back && Live(PreparedOne(h)) {
      PreparedIsLive(h);
    }
    forall f | f in fs && exists h :: h in fs && Covering(PreparedOne(h), f)
      ensures exists g :: g in back && Covering(g, f)
    {
      var h :| h in fs && Covering(PreparedOne(h), f);
      assert PreparedOne(h) in back;
    }
  }

  /** One list matches the same names after the wire exactly when it survives. */
  lemma ListSurvivesIff(fs: seq<string>, emptyval: bool)
    ensures (forall domain :: Matches(ReturnedList(fs), domain, emptyval) == Matches(fs, domain, emptyval))
      <==> ListSurvives(fs, emptyval)
  {
    var back := ReturnedList(fs);
    BlanksReturnNothing(fs);
    if fs != [] && !AllBlank(fs) {
      ListsAlikeIff(back, fs, emptyval);
      SurvivesIffWithin(fs);
    } else if fs != [] {
      BlanksSurviveIff(fs, emptyval);
    }
  }

  lemma DeadHitsNothing(fs: seq<string>, d: string)
    requires fs != [] && Strings.ToLower(d) == d && forall f :: f in fs ==> !Live(f)
    ensures !Hits(fs, d, false)
  {
    if f :| f in fs && f != "" && Covers(f, d) {
      CoveringIsLive(f, d);
      assert false;
    }
  }

  lemma BlanksSurviveIff(fs: seq<string>, emptyval: bool)
    requires fs != [] && AllBlank(fs) && ReturnedList(fs) == []
    ensures (forall domain :: Matches([], domain, emptyval) == Matches(fs, domain, emptyval))
      <==> ListSurvives(fs, emptyval)
  {
    if emptyval {
      assert !Matches(fs, "", true);
    } else if f :| f in fs && Live(f) {
      StripReaches(f);
      assert Covers(f, f) && Matches(fs, f + ".", false);
    } else {
      forall domain ensures !Matches(fs, domain, false) {
        StripIsLower(domain);
        DeadHitsNothing(fs, Strip(domain));
      }
    }
  }

  lemma RegexReturned(df: DomainFilter, domain: string)
    requires HasRegex(df)
    ensures Match(Returned(df), domain) == Match(df, domain)
  {
  }

  lemma ReturnedHasRegex(df: DomainFilter)
    ensures HasRegex(Returned(df)) == HasRegex(df)
  {
  }

  /** A filter comes back and lets the same names through exactly when it has an
      expression, or agrees at the filters it is made of with what comes back. */
  lemma MarshalKeepsMatchIff(compile: string -> Option<Regex>, df: DomainFilter)
    requires CompiledBy(compile, df)
    ensures var r := Unmarshal(compile, Marshal(df));
      && r.Ok?
      && ((forall domain :: Match(r.value, domain) == Match(df, domain))
          <==> HasRegex(df) || AgreeAtFilters(Returned(df), df))
  {
    WireAnswer(compile, df);
    var back := Returned(df);
    ReturnedHasRegex(df);
    if HasRegex(df) {
      forall domain ensures Match(back, domain) == Match(df, domain) { RegexReturned(df, domain); }
    } else {
      MatchAlikeIff(back, df);
    }
  }

  /** A filter all of whose lists survive lets the same names through. */
  lemma MarshalRoundTrip(compile: string -> Option<Regex>, df: DomainFilter)
    requires df.regex.None? && df.regexExclusion.None?
    requires ListSurvives(df.filters, true) && ListSurvives(df.exclude, false)
    ensures var r := Unmarshal(compile, Marshal(df));
      r.Ok? && forall domain :: Match(r.value, domain) == Match(df, domain)
  {
    WireAnswer(compile, df);
    ListSurvivesIff(df.filters, true);
    ListSurvivesIff(df.exclude, false);
  }

  lemma PreparedSurvives(fs: seq<string>, emptyval: bool)
    requires AllPrepared(fs)
    ensures ListSurvives(fs, emptyval)
  {
    forall f | f in fs ensures PreparedOne(f) == f != "" && Covering(f, f) {}
    if fs != [] {
      assert fs[0] in fs && PreparedOne(fs[0]) != "";
      assert !AllBlank(fs);
    }
  }

  /** In particular filters that preparation leaves alone. */
  lemma PreparedRoundTrip(compile: string -> Option<Regex>, df: DomainFilter)
    requires df.regex.None? && df.regexExclusion.None? && AllPrepared(df.filters) && AllPrepared(df.exclude)
    ensures var r := Unmarshal(compile, Marshal(df));
      r.Ok? && forall domain :: Match(r.value, domain) == Match(df, domain)
  {
    PreparedSurvives(df.filters, true);
    PreparedSurvives(df.exclude, false);
    MarshalRoundTrip(compile, df);
  }

  lemma OnePrepared(f: string)
    ensures Prepared([f]) == if PreparedOne(f) != "" then [PreparedOne(f)] else []
    ensures Sort(Strings.LessFn(), [f]) == [f]
  {
    var less, p := Strings.LessFn(), PreparedFn();
    assert [f][..0] == [];
    assert Sort(less, [f]) == Insert(less, Sort(less, []), f);
    assert Collect(p, []) == [] && p(f) == PreparedOne(f);
  }

  lemma OneReturned(f: string)
    ensures ReturnedList([f]) == if PreparedOne(f) != "" then [PreparedOne(f)] else []
  {
    OnePrepared(f);
  }

  lemma NoneReturned()
    ensures ReturnedList([]) == [] && Prepared([]) == []
  {
  }

  /** It does not keep a list that preparation would empty: a filter that let
      nothing through comes back letting everything through. */
  lemma MarshalLosesBlankFilter(domain: string)
    ensures var df := DomainFilter([""], [], None, None);
      !Match(df, domain) && Match(Returned(df), domain)
  {
    OnePrepared("");
    assert PreparedOne("") == "";
  }

  lemma DottedBlankReturned()
    ensures New(["a ."], []) == DomainFilter(["a "], [], None, None)
    ensures Returned(DomainFilter(["a "], [], None, None)) == DomainFilter(["a"], [], None, None)
  {
    PrepareDottedBlank();
    OnePrepared("a .");
    OneReturned("a ");
    NoneReturned();
  }

  lemma LowerA()
    ensures Strings.ToLower("a") == "a" && Strip("a") == "a"
  {
    assert "a"[1..] == "";
  }

  /** Nor are constructed filters safe, since preparing twice is not preparing
      once: a blank before the final dot survives the first time. */
  lemma MarshalMovesDottedBlank()
    ensures !Match(New(["a ."], []), "a")
    ensures Match(Returned(New(["a ."], [])), "a")
  {
    DottedBlankReturned();
    LowerA();
    assert "a" in ["a"] && Covers("a", "a");
  }

  lemma PrepareDottedBlank()
    ensures PreparedOne("a .") == "a " && PreparedOne("a ") == "a"
  {
    assert Strings.TrimSpace("a .") == "a .";
    assert Strings.TrimSuffix("a .", ".") == "a ";
    assert Strings.ToLower("a ") == "a " by {
      assert "a "[1..] == " " && " "[1..] == "";
    }
    assert Strings.TrimSpace("a ") == "a" by {
      assert "a "[..1] == "a";
    }
    assert Strings.ToLower("a") == "a" by {
      assert "a"[1..] == "";
    }
  }
}
