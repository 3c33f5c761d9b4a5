/** Which domains a controller looks after (endpoint/domain_filter.go). */
module DomainFilters {
  import opened Wrappers
  import Strings

  /** A compiled expression: its text and what it matches. */
  datatype Regex = Regex(text: string, matches: string -> bool)

  datatype DomainFilter = DomainFilter(
    filters: seq<string>,
    exclude: seq<string>,
    regex: Option<Regex>,
    regexExclusion: Option<Regex>)

  function Strip(domain: string): string {
    Strings.ToLower(Strings.TrimSuffix(domain, "."))
  }

  /** The meaning of one filter: the domain itself or a parent of it; with a
      leading dot, any text that ends in it. */
  predicate Covers(filter: string, domain: string) {
    if Strings.HasPrefix(filter, ".") then Strings.HasSuffix(domain, filter)
    else domain == filter || Strings.HasSuffix(domain, "." + filter)
  }

  /** A list on a stripped name. */
  predicate Hits(filters: seq<string>, stripped: string, emptyval: bool) {
    if filters == [] then emptyval
    else exists f :: f in filters && f != "" && Covers(f, stripped)
  }

  predicate Matches(filters: seq<string>, domain: string, emptyval: bool) {
    Hits(filters, Strip(domain), emptyval)
  }

  predicate IsSet(regex: Option<Regex>) {
    regex.Some? && regex.value.text != ""
  }

  predicate HasRegex(df: DomainFilter) {
    IsSet(df.regex) || IsSet(df.regexExclusion)
  }

  /** Expressions silence the lists, and an exclusion silences the other
      expression. */
  predicate Match(df: DomainFilter, domain: string) {
    if IsSet(df.regexExclusion) then !df.regexExclusion.value.matches(Strip(domain))
    else if IsSet(df.regex) then df.regex.value.matches(Strip(domain))
    else Matches(df.filters, domain, true) && !Matches(df.exclude, domain, false)
  }

  /** `MatchAllDomainFilters.Match`: absent filters do not restrict. */
  predicate MatchAll(dfs: seq<Option<DomainFilter>>, domain: string) {
    forall i :: 0 <= i < |dfs| && dfs[i].Some? ==> Match(dfs[i].value, domain)
  }

  lemma {:induction false} CountConcat(a: string, b: string, c: char)
    ensures Strings.Count(a + b, c) == Strings.Count(a, c) + Strings.Count(b, c)
  {
    if a == [] {
      assert a + b == b;
    } else {
      assert (a + b)[1..] == a[1..] + b;
      CountConcat(a[1..], b, c);
    }
  }

  /** A name ending in a dot and the filter has more dots than the filter. */
  lemma SuffixHasMoreDots(filter: string, domain: string)
    requires Strings.HasSuffix(domain, "." + filter)
    ensures Strings.Count(domain, '.') > Strings.Count(filter, '.')
  {
    var rest := domain[..|domain| - |filter| - 1];
    assert domain == rest + ("." + filter);
    CountConcat(rest, "." + filter, '.');
    assert ("." + filter)[1..] == filter;
  }

  /** The code's test, with its dot-count shortcut. */
  predicate Shortcut(filter: string, stripped: string) {
    if Strings.HasPrefix(filter, ".") && Strings.HasSuffix(stripped, filter) then true
    else if Strings.Count(stripped, '.') == Strings.Count(filter, '.') then stripped == filter
    else Strings.HasSuffix(stripped, "." + filter)
  }

  /** The shortcut changes nothing, for any filter and any name. */
  lemma ShortcutIsCovers(filter: string, stripped: string)
    ensures Shortcut(filter, stripped) == Covers(filter, stripped)
  {
    if Strings.HasSuffix(stripped, "." + filter) {
      SuffixHasMoreDots(filter, stripped);
      var k := |stripped| - |filter|;
      assert stripped[k - 1..] == "." + filter;
      assert stripped[k..] == stripped[k - 1..][1..] == filter;
    }
  }

  /** One filter on a name without its final dot and in lower case. */
  lemma CoversIff(filter: string, stripped: string)
    ensures Covers(filter, stripped) <==>
      if "." <= filter then exists rest :: stripped == rest + filter
      else stripped == filter || exists rest :: stripped == rest + "." + filter
  {
    if Strings.HasSuffix(stripped, filter) {
      assert stripped == stripped[..|stripped| - |filter|] + filter;
    }
    if Strings.HasSuffix(stripped, "." + filter) {
      assert stripped == stripped[..|stripped| - |filter| - 1] + "." + filter;
    }
    forall rest | stripped == rest + "." + filter ensures Strings.HasSuffix(stripped, "." + filter) {
      assert stripped == rest + ("." + filter);
    }
  }

  /** Which names are let through: with an exclusion expression those it does not
      match; else with an expression those it matches; else those that some include
      covers, if there are any includes, and that no exclude covers. */
  lemma MatchMeans(df: DomainFilter, domain: string)
    ensures var name := Strings.ToLower(Strings.TrimSuffix(domain, "."));
      Match(df, domain) <==>
        if df.regexExclusion.Some? && df.regexExclusion.value.text != "" then !df.regexExclusion.value.matches(name)
        else if df.regex.Some? && df.regex.value.text != "" then df.regex.value.matches(name)
        else (df.filters == [] || exists f :: f in df.filters && f != "" && Covers(f, name))
             && !exists f :: f in df.exclude && f != "" && Covers(f, name)
  {
  }

  method MatchFilter(filters: seq<string>, domain: string, emptyval: bool) returns (b: bool)
    ensures b == Matches(filters, domain, emptyval)
  {
    if |filters| == 0 {
      return emptyval;
    }
    var stripped := Strings.ToLower(Strings.TrimSuffix(domain, "."));
    for i := 0 to |filters|
      invariant forall j :: 0 <= j < i ==> filters[j] == "" || !Covers(filters[j], stripped)
    {
      var filter := filters[i];
      if filter == "" {
        continue;
      }
      ShortcutIsCovers(filter, stripped);
      assert filter in filters && stripped == Strip(domain);
      if Strings.HasPrefix(filter, ".") && Strings.HasSuffix(stripped, filter) {
        return true;
      } else if Strings.Count(stripped, '.') == Strings.Count(filter, '.') {
        if stripped == filter {
          return true;
        }
      } else if Strings.HasSuffix(stripped, "." + filter) {
        return true;
      }
    }
    return false;
  }

  method MatchRegex(regex: Option<Regex>, negativeRegex: Option<Regex>, domain: string) returns (b: bool)
    requires IsSet(regex) || IsSet(negativeRegex)
    ensures b == Match(NewRegex(regex, negativeRegex), domain)
  {
    var stripped := Strings.ToLower(Strings.TrimSuffix(domain, "."));
    if negativeRegex.Some? && negativeRegex.value.text != "" {
      return !negativeRegex.value.matches(stripped);
    }
    return regex.value.matches(stripped);
  }

  method MatchDomain(df: DomainFilter, domain: string) returns (b: bool)
    ensures b == Match(df, domain)
  {
    if (df.regex.Some? && df.regex.value.text != "")
      || (df.regexExclusion.Some? && df.regexExclusion.value.text != "")
    {
      b := MatchRegex(df.regex, df.regexExclusion, domain);
      return;
    }
    b := MatchFilter(df.filters, domain, true);
    if b {
      var excluded := MatchFilter(df.exclude, domain, false);
      b := !excluded;
    }
  }

  method MatchAllFilters(dfs: seq<Option<DomainFilter>>, domain: string) returns (b: bool)
    ensures b == MatchAll(dfs, domain)
  {
    for i := 0 to |dfs|
      invariant forall j :: 0 <= j < i && dfs[j].Some? ==> Match(dfs[j].value, domain)
    {
      if dfs[i].None? {
        continue;
      }
      var one := MatchDomain(dfs[i].value, domain);
      if !one {
        return false;
      }
    }
    return true;
  }

  // ---- parents

  /** `MatchParent`: a name strictly above some filter, unless excluded. */
  predicate MatchesParent(df: DomainFilter, domain: string) {
    && !Matches(df.exclude, domain, false)
    && (df.filters == []
        || exists f :: f in df.filters && f != "" && !Strings.HasPrefix(f, ".")
                       && Strings.HasSuffix(f, "." + Strip(domain)))
  }

  /** A name is let through as a parent if no exclude covers it and, if there are
      includes, it lies strictly above one that does not begin with a dot. */
  lemma ParentMeans(df: DomainFilter, domain: string)
    ensures var name := Strings.ToLower(Strings.TrimSuffix(domain, "."));
      MatchesParent(df, domain) <==>
        && !(exists f :: f in df.exclude && f != "" && Covers(f, name))
        && (df.filters == [] || exists f, rest :: f in df.filters && !("." <= f) && f == rest + ("." + name))
  {
    var name := Strings.ToLower(Strings.TrimSuffix(domain, "."));
    assert name == Strip(domain);
    forall f ensures Strings.HasSuffix(f, "." + name) <==> exists rest :: f == rest + ("." + name) {
      if Strings.HasSuffix(f, "." + name) { assert f == f[..|f| - |name| - 1] + ("." + name); }
    }
    if f :| f in df.filters && f != "" && !Strings.HasPrefix(f, ".") && Strings.HasSuffix(f, "." + name) {
      var rest :| f == rest + ("." + name);
      assert f in df.filters && !("." <= f) && f == rest + ("." + name);
    }
    if f, rest :| f in df.filters && !("." <= f) && f == rest + ("." + name) {
      assert f != "" && !Strings.HasPrefix(f, ".") && Strings.HasSuffix(f, "." + name);
    }
  }

  method MatchParent(df: DomainFilter, domain: string) returns (b: bool)
    ensures b == MatchesParent(df, domain)
  {
    var excluded := MatchFilter(df.exclude, domain, false);
    if excluded {
      return false;
    }
    if |df.filters| == 0 {
      return true;
    }
    var stripped := Strings.ToLower(Strings.TrimSuffix(domain, "."));
    for i := 0 to |df.filters|
      invariant forall j :: 0 <= j < i ==>
        || df.filters[j] == ""
        || Strings.HasPrefix(df.filters[j], ".")
        || !Strings.HasSuffix(df.filters[j], "." + stripped)
    {
      var filter := df.filters[i];
      if filter == "" || Strings.HasPrefix(filter, ".") {
        continue;
      }
      if Strings.HasSuffix(filter, "." + stripped) {
        return true;
      }
    }
    return false;
  }

  /** One filter never sees a name both as its own and as its parent. */
  lemma CoveredIsNoParent(filter: string, domain: string)
    requires !Strings.HasPrefix(filter, ".") && Covers(filter, domain)
    ensures !Strings.HasSuffix(filter, "." + domain)
  {
    if Strings.HasSuffix(filter, "." + domain) {
      SuffixHasMoreDots(domain, filter);
      if domain != filter { SuffixHasMoreDots(filter, domain); }
    }
  }

  // ---- making filters

  function PreparedOne(filter: string): string {
    Strings.ToLower(Strings.TrimSuffix(Strings.TrimSpace(filter), "."))
  }

  function PreparedFn(): string -> string {
    filter => PreparedOne(filter)
  }

  /** The images that are not blank. */
  function Collect(f: string -> string, filters: seq<string>): (fs: seq<string>)
    ensures "" !in fs
  {
    if filters == [] then []
    else
      var front, d := Collect(f, filters[..|filters| - 1]), f(filters[|filters| - 1]);
      if d != "" then front + [d] else front
  }

  function Prepared(filters: seq<string>): seq<string> {
    Collect(PreparedFn(), filters)
  }

  method PrepareFilters(filters: seq<string>) returns (fs: seq<string>)
    ensures fs == Prepared(filters)
  {
    fs := [];
    for i := 0 to |filters|
      invariant fs == Prepared(filters[..i])
    {
      assert filters[..i + 1][..i] == filters[..i];
      var domain := Strings.ToLower(Strings.TrimSuffix(Strings.TrimSpace(filters[i]), "."));
      if domain != "" {
        fs := fs + [domain];
      }
    }
    assert filters[..|filters|] == filters;
  }

  function New(filters: seq<string>, exclude: seq<string>): DomainFilter {
    DomainFilter(Prepared(filters), Prepared(exclude), None, None)
  }

  function NewRegex(regex: Option<Regex>, regexExclusion: Option<Regex>): DomainFilter {
    DomainFilter([], [], regex, regexExclusion)
  }
}
