/** Labels as text: `key=value` tokens in key order (endpoint/labels.go). */
module LabelText {
  import opened Sorting
  import opened Endpoints
  import Strings

  const NONCE_LABEL := "txt-encryption-nonce"

  // ---- writing

  ghost function AnyOrder(s: set<string>): seq<string> {
    if s == {} then [] else var x :| x in s; AnyOrder(s - {x}) + [x]
  }

  lemma {:induction false} AnyOrderListsAll(s: set<string>)
    ensures multiset(AnyOrder(s)) == multiset(s)
  {
    if s != {} {
      var x :| x in s && AnyOrder(s) == AnyOrder(s - {x}) + [x];
      AnyOrderListsAll(s - {x});
      assert s == s - {x} + {x};
    }
  }

  /** The keys in order. */
  ghost function SortedKeys(s: set<string>): seq<string> {
    Sort(Strings.LessFn(), AnyOrder(s))
  }

  /** Every enumeration of the keys sorts to the same list. */
  lemma SortedKeysUnique(s: set<string>, keys: seq<string>)
    requires multiset(keys) == multiset(s)
    ensures Sort(Strings.LessFn(), keys) == SortedKeys(s)
  {
    AnyOrderListsAll(s);
    Strings.LessFnIsTotal();
    SortDecidesPermutation(Strings.LessFn(), keys, AnyOrder(s), Strings.AllStrings());
  }

  /** They ascend, character by character. */
  lemma SortedKeysAscend(s: set<string>, i: nat, j: nat)
    requires i < j < |SortedKeys(s)|
    ensures Strings.Precedes(SortedKeys(s)[i], SortedKeys(s)[j])
  {
    var less, keys, dom := Strings.LessFn(), SortedKeys(s), Strings.AllStrings();
    Strings.LessFnIsTotal();
    SortOrdered(less, AnyOrder(s), dom);
    SortedKeysNoRepeats(s);
    assert !less(keys[j], keys[i]) && keys[i] != keys[j];
    Strings.LessTotal(keys[i], keys[j]);
    Strings.TextOrder(keys[i], keys[j]);
  }

  function Token(key: string, value: string): string {
    key + "=" + value
  }

  function Tokens(labels: Labels, keys: seq<string>): seq<string> {
    if keys == [] then []
    else
      var front, last := Tokens(labels, keys[..|keys| - 1]), keys[|keys| - 1];
      if last == NONCE_LABEL || last !in labels then front else front + [Token(last, labels[last])]
  }

  lemma KeysAreLabels(labels: Labels)
    ensures forall k :: k in SortedKeys(labels.Keys) <==> k in labels
  {
    AnyOrderListsAll(labels.Keys);
    SortPermutes(Strings.LessFn(), AnyOrder(labels.Keys));
    forall k ensures k in SortedKeys(labels.Keys) <==> k in labels {
      assert k in multiset(SortedKeys(labels.Keys)) <==> k in multiset(labels.Keys);
    }
  }

  /** The text of a label map; it does not depend on any iteration order. */
  ghost function Serialize(labels: Labels, withQuotes: bool): string {
    var text := Strings.Join(Tokens(labels, SortedKeys(labels.Keys)), ',');
    if withQuotes then "\"" + text + "\"" else text
  }

  method KeysInMapOrder(labels: Labels) returns (keys: seq<string>)
    ensures multiset(keys) == multiset(labels.Keys)
  {
    keys := [];
    ghost var done: set<string> := {};
    var todo := labels.Keys;
    while todo != {}
      invariant done !! todo && done + todo == labels.Keys
      invariant multiset(keys) == multiset(done)
    {
      var key :| key in todo;
      keys, done, todo := keys + [key], done + {key}, todo - {key};
    }
  }

  /** Collects the keys and sorts them. */
  method KeysInOrder(labels: Labels) returns (keys: seq<string>)
    ensures keys == SortedKeys(labels.Keys)
  {
    keys := KeysInMapOrder(labels);
    SortedKeysUnique(labels.Keys, keys);
    var sorted := new string[|keys|](i requires 0 <= i < |keys| => keys[i]);
    assert sorted[..] == keys;
    SortInPlace(Strings.LessFn(), sorted);
    keys := sorted[..];
  }

  method TokenList(labels: Labels, keys: seq<string>) returns (tokens: seq<string>)
    requires forall k :: k in keys ==> k in labels
    ensures tokens == Tokens(labels, keys)
  {
    tokens := [];
    for i := 0 to |keys|
      invariant tokens == Tokens(labels, keys[..i])
    {
      assert keys[..i + 1][..i] == keys[..i];
      if keys[i] == NONCE_LABEL {
        continue;
      }
      tokens := tokens + [Token(keys[i], labels[keys[i]])];
    }
    assert keys[..|keys|] == keys;
  }

  method SerializePlain(labels: Labels, withQuotes: bool) returns (text: string)
    ensures text == Serialize(labels, withQuotes)
  {
    var keys := KeysInOrder(labels);
    KeysAreLabels(labels);
    var tokens := TokenList(labels, keys);
    text := Strings.Join(tokens, ',');
    if withQuotes {
      text := "\"" + text + "\"";
    }
  }

  // ---- reading

  function QuoteFn(): char -> bool {
    c => c == '\"'
  }

  function TrimQuotes(text: string): string {
    Strings.TrimRight(Strings.TrimLeft(text, QuoteFn()), QuoteFn())
  }

  /** Tokens that are not a single `key=value` are skipped; later ones win. */
  function ParseTokens(tokens: seq<string>): Labels {
    if tokens == [] then map[]
    else
      var front, parts := ParseTokens(tokens[..|tokens| - 1]), Strings.Split(tokens[|tokens| - 1], '=');
      if |parts| == 2 then front[parts[0] := parts[1]] else front
  }

  /** Of the tokens for one key the last one counts. */
  lemma {:induction false} LastTokenWins(tokens: seq<string>, i: nat, k: string, v: string)
    requires i < |tokens| && Strings.Split(tokens[i], '=') == [k, v]
    requires forall j :: i < j < |tokens| ==>
      var parts := Strings.Split(tokens[j], '='); |parts| == 2 ==> parts[0] != k
    ensures k in ParseTokens(tokens) && ParseTokens(tokens)[k] == v
  {
    var n := |tokens| - 1;
    if i < n { LastTokenWins(tokens[..n], i, k, v); }
  }

  /** And nothing else is read. */
  lemma {:induction false} OnlyTokensAreRead(tokens: seq<string>, k: string)
    requires k in ParseTokens(tokens)
    ensures exists i :: 0 <= i < |tokens| && Strings.Split(tokens[i], '=') == [k, ParseTokens(tokens)[k]]
  {
    var n := |tokens| - 1;
    var parts := Strings.Split(tokens[n], '=');
    if |parts| == 2 && parts[0] == k {
      assert Strings.Split(tokens[n], '=') == [k, ParseTokens(tokens)[k]];
    } else {
      OnlyTokensAreRead(tokens[..n], k);
      var i :| 0 <= i < n && Strings.Split(tokens[..n][i], '=') == [k, ParseTokens(tokens[..n])[k]];
      assert tokens[i] == tokens[..n][i];
    }
  }

  function Parse(text: string): Labels {
    ParseTokens(Strings.Split(TrimQuotes(text), ','))
  }

  method NewLabelsFromStringPlain(labelText: string) returns (labels: Labels)
    ensures labels == Parse(labelText)
  {
    labels := map[];
    var tokens := Strings.Split(TrimQuotes(labelText), ',');
    for i := 0 to |tokens|
      invariant labels == ParseTokens(tokens[..i])
    {
      assert tokens[..i + 1][..i] == tokens[..i];
      var parts := Strings.Split(tokens[i], '=');
      if |parts| != 2 {
        continue;
      }
      labels := labels[parts[0] := parts[1]];
    }
    assert tokens[..|tokens|] == tokens;
  }

  // ---- round trip

  /** Text that the separators do not occur in. */
  predicate Unseparated(s: string) {
    ',' !in s && '=' !in s
  }

  /** The nonce is not written, so that it does not matter. */
  predicate Separable(labels: Labels) {
    forall k :: k in labels && k != NONCE_LABEL ==> Unseparated(k) && Unseparated(labels[k])
  }

  /** Reading drops quotes at the two ends of a text, and nowhere else. */
  predicate EndsUnquoted(text: string) {
    text != "" ==> text[0] != '\"' && text[|text| - 1] != '\"'
  }

  /** Labels that reading gives back as they were written. */
  ghost predicate Survives(labels: Labels) {
    Separable(labels) && EndsUnquoted(Serialize(labels, false))
  }

  lemma {:induction false} TokensUnsplit(labels: Labels, keys: seq<string>)
    requires Separable(labels) && forall k :: k in keys ==> k in labels
    ensures forall t :: t in Tokens(labels, keys) ==> ',' !in t
  {
    if keys != [] { TokensUnsplit(labels, keys[..|keys| - 1]); }
  }

  lemma TokenParts(key: string, value: string)
    requires '=' !in key && '=' !in value
    ensures Strings.Split(Token(key, value), '=') == [key, value]
  {
    Strings.SplitAtSeparator(key, value, '=');
    Strings.SplitWithoutSeparator(key, '=');
    Strings.SplitWithoutSeparator(value, '=');
  }

  lemma {:induction false} ParseOfTokens(labels: Labels, keys: seq<string>)
    requires Separable(labels) && forall k :: k in keys ==> k in labels
    ensures ParseTokens(Tokens(labels, keys)) == map k | k in keys && k != NONCE_LABEL :: labels[k]
  {
    if keys != [] {
      var front, last := keys[..|keys| - 1], keys[|keys| - 1];
      ParseOfTokens(labels, front);
      assert keys == front + [last];
      if last != NONCE_LABEL {
        TokenParts(last, labels[last]);
        assert Tokens(labels, keys)[..|Tokens(labels, front)|] == Tokens(labels, front);
      }
    }
  }

  lemma TrimUnquoted(text: string)
    requires EndsUnquoted(text)
    ensures TrimQuotes(text) == text && TrimQuotes("\"" + text + "\"") == text
  {
    var q, quoted := QuoteFn(), "\"" + text + "\"";
    assert quoted[1..] == text + "\"";
    assert (text + "\"")[..|text|] == text;
    if text == "" {
      assert Strings.TrimLeft("\"", q) == Strings.TrimLeft("", q) == "";
      assert text + "\"" == "\"";
    } else {
      assert Strings.TrimLeft(quoted, q) == Strings.TrimLeft(text + "\"", q) == text + "\"";
      assert Strings.TrimRight(text + "\"", q) == Strings.TrimRight(text, q) == text;
    }
  }

  /** Reading the joined tokens is reading the tokens. */
  lemma ParseOfJoined(tokens: seq<string>)
    requires forall t :: t in tokens ==> ',' !in t
    ensures ParseTokens(Strings.Split(Strings.Join(tokens, ','), ',')) == ParseTokens(tokens)
  {
    if tokens == [] {
      assert Strings.Split("", ',') == [""] && [""][..0] == [];
      assert Strings.Split("", '=') == [""];
    } else {
      Strings.SplitJoin(tokens, ',');
    }
  }

  /** Without the trimming of quotes reading would always undo writing. */
  lemma ParseOfWritten(labels: Labels)
    requires Separable(labels)
    ensures ParseTokens(Strings.Split(Serialize(labels, false), ',')) == labels - {NONCE_LABEL}
  {
    KeysAreLabels(labels);
    TokensUnsplit(labels, SortedKeys(labels.Keys));
    ParseOfTokens(labels, SortedKeys(labels.Keys));
    ParseOfJoined(Tokens(labels, SortedKeys(labels.Keys)));
  }

  // ---- what is read fits into the text

  lemma {:induction false} PiecesLack(s: string, sep: char, c: char)
    requires c == sep || c !in s
    ensures forall p :: p in Strings.Split(s, sep) ==> c !in p
  {
    if s != [] { PiecesLack(s[1..], sep, c); }
  }

  /** Every pair that is read is one of the pieces, and holds no separator. */
  lemma {:induction false} ReadFromPieces(tokens: seq<string>, k: string)
    requires (forall t :: t in tokens ==> ',' !in t) && k in ParseTokens(tokens)
    ensures var v := ParseTokens(tokens)[k]; Token(k, v) in tokens && Unseparated(k) && Unseparated(v)
  {
    var front, last := tokens[..|tokens| - 1], tokens[|tokens| - 1];
    var parts := Strings.Split(last, '=');
    assert tokens == front + [last];
    if |parts| == 2 && parts[0] == k {
      Strings.JoinSplit(last, '=');
      assert Strings.Join(parts[1..], '=') == parts[1];
      PiecesLack(last, '=', '=');
      PiecesLack(last, '=', ',');
    } else {
      ReadFromPieces(front, k);
    }
  }

  /** The length of the tokens with a comma after each. */
  function Extent(tokens: seq<string>): nat {
    if tokens == [] then 0 else Extent(tokens[..|tokens| - 1]) + |tokens[|tokens| - 1]| + 1
  }

  lemma {:induction false} ExtentConcat(a: seq<string>, b: seq<string>)
    ensures Extent(a + b) == Extent(a) + Extent(b)
  {
    if b == [] {
      assert a + b == a;
    } else {
      assert (a + b)[..|a + b| - 1] == a + b[..|b| - 1];
      ExtentConcat(a, b[..|b| - 1]);
    }
  }

  lemma {:induction false} ExtentOfJoin(tokens: seq<string>)
    requires tokens != []
    ensures |Strings.Join(tokens, ',')| + 1 == Extent(tokens)
  {
    assert tokens == [tokens[0]] + tokens[1..];
    ExtentConcat([tokens[0]], tokens[1..]);
    assert [tokens[0]][..0] == [] && Extent([tokens[0]]) == |tokens[0]| + 1;
    if |tokens| > 1 {
      ExtentOfJoin(tokens[1..]);
    } else {
      assert tokens[1..] == [];
    }
  }

  predicate NoRepeats(s: seq<string>) {
    forall i, j :: 0 <= i < j < |s| ==> s[i] != s[j]
  }

  /** Different tokens among the pieces take no more room than the pieces. */
  lemma {:induction false} ExtentOfSome(some: seq<string>, pieces: seq<string>)
    requires NoRepeats(some) && forall t :: t in some ==> t in pieces
    ensures Extent(some) <= Extent(pieces)
  {
    if some != [] {
      var front, last := some[..|some| - 1], some[|some| - 1];
      assert last in some;
      var i :| 0 <= i < |pieces| && pieces[i] == last;
      var rest := pieces[..i] + pieces[i + 1..];
      assert pieces == pieces[..i] + ([last] + pieces[i + 1..]);
      ExtentConcat(pieces[..i], [last] + pieces[i + 1..]);
      ExtentConcat([last], pieces[i + 1..]);
      ExtentConcat(pieces[..i], pieces[i + 1..]);
      assert [last][..0] == [] && Extent([last]) == |last| + 1;
      forall t | t in front ensures t in rest {
        var j :| 0 <= j < |front| && front[j] == t;
        assert some[j] == t && t in pieces && t != last;
      }
      ExtentOfSome(front, rest);
    }
  }

  lemma {:induction false} TokensOfKeys(labels: Labels, keys: seq<string>, t: string)
    requires t in Tokens(labels, keys)
    ensures exists k :: k in keys && k in labels && k != NONCE_LABEL && t == Token(k, labels[k])
  {
    var front, last := keys[..|keys| - 1], keys[|keys| - 1];
    if t in Tokens(labels, front) { TokensOfKeys(labels, front, t); }
  }

  lemma TokensDiffer(labels: Labels, j: string, k: string)
    requires j in labels && k in labels && j != k && Separable(labels) && j != NONCE_LABEL && k != NONCE_LABEL
    ensures Token(j, labels[j]) != Token(k, labels[k])
  {
    TokenParts(j, labels[j]);
    TokenParts(k, labels[k]);
  }

  lemma NoRepeatsOneMore(s: seq<string>, t: string)
    requires NoRepeats(s) && t !in s
    ensures NoRepeats(s + [t])
  {
  }

  lemma {:induction false} TokensNoRepeats(labels: Labels, keys: seq<string>)
    requires NoRepeats(keys) && Separable(labels)
    ensures NoRepeats(Tokens(labels, keys))
  {
    if keys != [] {
      var front, last := keys[..|keys| - 1], keys[|keys| - 1];
      TokensNoRepeats(labels, front);
      if last in labels && last != NONCE_LABEL {
        forall t | t in Tokens(labels, front) ensures t != Token(last, labels[last]) {
          TokensOfKeys(labels, front, t);
          var k :| k in front && k in labels && k != NONCE_LABEL && t == Token(k, labels[k]);
          var i :| 0 <= i < |front| && front[i] == k;
          assert keys[i] == k && keys[|keys| - 1] == last;
          TokensDiffer(labels, k, last);
        }
        NoRepeatsOneMore(Tokens(labels, front), Token(last, labels[last]));
      }
    }
  }

  lemma SetHasNoRepeats(s: set<string>, keys: seq<string>)
    requires multiset(keys) == multiset(s)
    ensures NoRepeats(keys)
  {
    forall i, j | 0 <= i < j < |keys| ensures keys[i] != keys[j] {
      assert keys == keys[..j] + [keys[j]] + keys[j + 1..];
      assert keys[i] in multiset(keys[..j]);
      assert multiset(s)[keys[j]] <= 1;
    }
  }

  lemma SortedKeysNoRepeats(s: set<string>)
    ensures NoRepeats(SortedKeys(s))
  {
    AnyOrderListsAll(s);
    SortPermutes(Strings.LessFn(), AnyOrder(s));
    SetHasNoRepeats(s, SortedKeys(s));
  }

  ghost predicate Reads(pieces: seq<string>, labels: Labels) {
    (forall p :: p in pieces ==> ',' !in p) && ParseTokens(pieces) == labels - {NONCE_LABEL}
  }

  lemma LabelIsRead(labels: Labels, pieces: seq<string>, k: string)
    requires Reads(pieces, labels) && k in labels && k != NONCE_LABEL
    ensures Token(k, labels[k]) in pieces && Unseparated(k) && Unseparated(labels[k])
  {
    assert k in labels - {NONCE_LABEL};
    ReadFromPieces(pieces, k);
  }

  lemma ReadIsSeparable(labels: Labels, pieces: seq<string>)
    requires Reads(pieces, labels)
    ensures Separable(labels)
  {
    forall k | k in labels && k != NONCE_LABEL ensures Unseparated(k) && Unseparated(labels[k]) {
      LabelIsRead(labels, pieces, k);
    }
  }

  lemma TokenIsPiece(labels: Labels, pieces: seq<string>, keys: seq<string>, t: string)
    requires Reads(pieces, labels) && t in Tokens(labels, keys)
    ensures t in pieces
  {
    TokensOfKeys(labels, keys, t);
    var k :| k in keys && k in labels && k != NONCE_LABEL && t == Token(k, labels[k]);
    LabelIsRead(labels, pieces, k);
  }

  /** What gives the labels back is at least as long as their text. */
  lemma ReadTextIsLong(labels: Labels, trimmed: string)
    requires ParseTokens(Strings.Split(trimmed, ',')) == labels - {NONCE_LABEL}
    ensures Separable(labels) && |Serialize(labels, false)| <= |trimmed|
  {
    var pieces, keys := Strings.Split(trimmed, ','), SortedKeys(labels.Keys);
    PiecesLack(trimmed, ',', ',');
    assert Reads(pieces, labels);
    ReadIsSeparable(labels, pieces);
    forall t | t in Tokens(labels, keys) ensures t in pieces { TokenIsPiece(labels, pieces, keys, t); }
    SortedKeysNoRepeats(labels.Keys);
    TokensNoRepeats(labels, keys);
    SomeFit(Tokens(labels, keys), trimmed);
  }

  lemma SomeFit(tokens: seq<string>, text: string)
    requires NoRepeats(tokens) && forall t :: t in tokens ==> t in Strings.Split(text, ',')
    ensures |Strings.Join(tokens, ',')| <= |text|
  {
    var pieces := Strings.Split(text, ',');
    ExtentOfSome(tokens, pieces);
    Strings.JoinSplit(text, ',');
    ExtentOfJoin(pieces);
    if tokens != [] { ExtentOfJoin(tokens); }
  }

  lemma {:induction false} TrimLeftShortens(s: string)
    ensures |Strings.TrimLeft(s, QuoteFn())| <= |s|
    ensures s != "" && s[0] == '\"' ==> |Strings.TrimLeft(s, QuoteFn())| < |s|
    ensures var r := Strings.TrimLeft(s, QuoteFn()); r != "" ==> r == s[|s| - |r|..]
  {
    if s != "" && s[0] == '\"' { TrimLeftShortens(s[1..]); }
  }

  lemma {:induction false} TrimRightShortens(s: string)
    ensures |Strings.TrimRight(s, QuoteFn())| <= |s|
    ensures s != "" && s[|s| - 1] == '\"' ==> |Strings.TrimRight(s, QuoteFn())| < |s|
  {
    if s != "" && s[|s| - 1] == '\"' { TrimRightShortens(s[..|s| - 1]); }
  }

  /** A quote at one of its ends is lost. */
  lemma QuotedEndIsLost(text: string)
    requires !EndsUnquoted(text)
    ensures |TrimQuotes(text)| < |text|
  {
    TrimLeftShortens(text);
    TrimRightShortens(Strings.TrimLeft(text, QuoteFn()));
  }

  lemma QuoteInFrontIsLost(text: string, r: string)
    requires text != "" && text[0] == '\"' && r == Strings.TrimLeft(text + "\"", QuoteFn())
    ensures |Strings.TrimRight(r, QuoteFn())| < |text|
  {
    TrimLeftShortens(text + "\"");
    TrimRightShortens(r);
  }

  lemma TwoQuotesAreLost(r: string)
    requires |r| > 1 && r[|r| - 1] == '\"' && r[|r| - 2] == '\"'
    ensures |Strings.TrimRight(r, QuoteFn())| < |r| - 1
  {
    var front := r[..|r| - 1];
    assert Strings.TrimRight(r, QuoteFn()) == Strings.TrimRight(front, QuoteFn());
    assert front[|front| - 1] == '\"';
    TrimRightShortens(front);
  }

  lemma EndOfSuffix(tail: string, r: string)
    requires 1 < |r| <= |tail| && r == tail[|tail| - |r|..]
    ensures r[|r| - 1] == tail[|tail| - 1] && r[|r| - 2] == tail[|tail| - 2]
  {
  }

  lemma QuoteBehindIsLost(text: string, r: string)
    requires text != "" && text[|text| - 1] == '\"' && r == Strings.TrimLeft(text + "\"", QuoteFn())
    ensures |Strings.TrimRight(r, QuoteFn())| < |text|
  {
    var tail := text + "\"";
    TrimLeftShortens(tail);
    if |r| > 1 {
      EndOfSuffix(tail, r);
      assert tail[|tail| - 2] == text[|text| - 1];
      TwoQuotesAreLost(r);
    } else if |r| == 1 {
      assert r[0] == tail[|tail| - 1];
      TrimRightShortens(r);
    }
  }

  lemma QuotesAreLost(text: string)
    requires text != "" && !EndsUnquoted(text)
    ensures |TrimQuotes("\"" + text + "\"")| < |text|
  {
    assert ("\"" + text + "\"")[1..] == text + "\"";
    var r := Strings.TrimLeft(text + "\"", QuoteFn());
    assert TrimQuotes("\"" + text + "\"") == Strings.TrimRight(r, QuoteFn());
    if text[0] == '\"' {
      QuoteInFrontIsLost(text, r);
    } else {
      QuoteBehindIsLost(text, r);
    }
  }

  /** Parsing what was written, quoted or not, gives the labels back, without the
      nonce, exactly when no separator occurs in them and their text has no quote at
      its ends. */
  lemma RoundTripIff(labels: Labels, withQuotes: bool)
    ensures Parse(Serialize(labels, withQuotes)) == labels - {NONCE_LABEL} <==> Survives(labels)
  {
    var text := Serialize(labels, false);
    if Survives(labels) {
      TrimUnquoted(text);
      ParseOfWritten(labels);
    }
    if Parse(Serialize(labels, withQuotes)) == labels - {NONCE_LABEL} {
      ReadTextIsLong(labels, TrimQuotes(Serialize(labels, withQuotes)));
      if !EndsUnquoted(text) {
        QuotedEndIsLost(text);
        QuotesAreLost(text);
        assert false;
      }
    }
  }

  /** Labels without separators have different texts if they are different. */
  lemma SerializeInjective(a: Labels, b: Labels, withQuotes: bool)
    requires Separable(a) && Separable(b)
    ensures Serialize(a, withQuotes) == Serialize(b, withQuotes) ==> a - {NONCE_LABEL} == b - {NONCE_LABEL}
  {
    ParseOfWritten(a);
    ParseOfWritten(b);
    if withQuotes && Serialize(a, true) == Serialize(b, true) {
      assert Serialize(a, false) == Serialize(a, true)[1..|Serialize(a, true)| - 1];
      assert Serialize(b, false) == Serialize(b, true)[1..|Serialize(b, true)| - 1];
    }
  }

  // ---- the nonce is not written

  function WrittenFn(): string -> bool {
    k => k != NONCE_LABEL
  }

  lemma {:induction false} TokensSkipNonce(labels: Labels, keys: seq<string>)
    ensures Tokens(labels, keys) == Tokens(labels - {NONCE_LABEL}, Filter(WrittenFn(), keys))
  {
    if keys != [] { TokensSkipNonce(labels, keys[..|keys| - 1]); }
  }

  lemma {:induction false} FilterOfSet(s: set<string>, keys: seq<string>)
    requires multiset(keys) == multiset(s)
    ensures multiset(Filter(WrittenFn(), keys)) == multiset(s - {NONCE_LABEL})
  {
    forall k ensures multiset(Filter(WrittenFn(), keys))[k] == multiset(s - {NONCE_LABEL})[k] {
      FilterCount(WrittenFn(), keys, k);
    }
  }

  /** Labels have the same text without the nonce. */
  lemma SerializeSkipsNonce(labels: Labels, withQuotes: bool)
    ensures Serialize(labels - {NONCE_LABEL}, withQuotes) == Serialize(labels, withQuotes)
  {
    var s, less := labels.Keys, Strings.LessFn();
    AnyOrderListsAll(s);
    Strings.LessFnIsTotal();
    SortFilter(less, WrittenFn(), AnyOrder(s), Strings.AllStrings());
    FilterOfSet(s, AnyOrder(s));
    assert (labels - {NONCE_LABEL}).Keys == s - {NONCE_LABEL};
    SortedKeysUnique(s - {NONCE_LABEL}, Filter(WrittenFn(), AnyOrder(s)));
    TokensSkipNonce(labels, SortedKeys(s));
  }
}
