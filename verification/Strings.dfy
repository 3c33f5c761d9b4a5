/** The few operations of Go's `strings` package that the program relies on,
    over strings as sequences of code points. */
module Strings {
  import opened Sorting

  /** Go's `<` on strings.  Bytewise order on UTF-8 text is code point order. */
  predicate Less(a: string, b: string) {
    b != [] && (a == [] || a[0] < b[0] || (a[0] == b[0] && Less(a[1..], b[1..])))
  }

  lemma {:induction false} LessAsymmetric(a: string, b: string)
    requires Less(a, b)
    ensures !Less(b, a)
  {
    if a != [] && a[0] == b[0] {
      LessAsymmetric(a[1..], b[1..]);
    }
  }

  lemma {:induction false} LessTotal(a: string, b: string)
    ensures Less(a, b) || a == b || Less(b, a)
  {
    if a != [] && b != [] && a[0] == b[0] {
      LessTotal(a[1..], b[1..]);
      assert a == [a[0]] + a[1..] && b == [b[0]] + b[1..];
    }
  }

  /** Negative transitivity: the form in which sorting uses the order. */
  lemma {:induction false} LessNegativelyTransitive(a: string, b: string, c: string)
    requires Less(a, c)
    ensures Less(a, b) || Less(b, c)
  {
    if a != [] && b != [] && a[0] == c[0] == b[0] {
      LessNegativelyTransitive(a[1..], b[1..], c[1..]);
    }
  }

  function LessFn(): (string, string) -> bool {
    (a, b) => Less(a, b)
  }

  ghost function AllStrings(): iset<string> {
    iset s: string | |s| >= 0
  }

  lemma LessFnIsTotal()
    ensures TotalOrderOn(LessFn(), AllStrings())
  {
    var less := LessFn();
    forall a, b | less(a, b) ensures !less(b, a) { LessAsymmetric(a, b); }
    forall a, b, c | !less(a, b) && !less(b, c) ensures !less(a, c) {
      if Less(a, c) { LessNegativelyTransitive(a, b, c); }
    }
    forall a, b | !less(a, b) && !less(b, a) ensures a == b { LessTotal(a, b); }
  }

  /** The first character that differs decides, or else the shorter text. */
  ghost predicate Precedes(a: string, b: string) {
    exists i :: 0 <= i <= |a| && i < |b| && a[..i] == b[..i] && (i == |a| || a[i] < b[i])
  }

  lemma {:induction false} TextOrder(a: string, b: string)
    ensures Less(a, b) <==> Precedes(a, b)
  {
    if a != [] && b != [] && a[0] == b[0] {
      TextOrder(a[1..], b[1..]);
      if i :| 0 <= i <= |a[1..]| && i < |b[1..]| && a[1..][..i] == b[1..][..i]
              && (i == |a[1..]| || a[1..][i] < b[1..][i])
      {
        assert a[..i + 1] == [a[0]] + a[1..][..i] && b[..i + 1] == [b[0]] + b[1..][..i];
        assert Precedes(a, b);
      }
      if i :| 0 <= i <= |a| && i < |b| && a[..i] == b[..i] && (i == |a| || a[i] < b[i]) {
        assert i > 0;
        assert a[1..][..i - 1] == a[..i][1..] && b[1..][..i - 1] == b[..i][1..];
        assert Precedes(a[1..], b[1..]);
      }
    } else if b != [] && (a == [] || a[0] < b[0]) {
      assert a[..0] == b[..0];
      assert Precedes(a, b);
    }
  }

  predicate HasPrefix(s: string, prefix: string) {
    prefix <= s
  }

  predicate HasSuffix(s: string, suffix: string) {
    |suffix| <= |s| && s[|s| - |suffix|..] == suffix
  }

  /** Removes one occurrence of `suffix`, as strings.TrimSuffix does. */
  function TrimSuffix(s: string, suffix: string): string {
    if HasSuffix(s, suffix) then s[..|s| - |suffix|] else s
  }

  predicate IsSpace(c: char) {
    c == ' ' || c == '\t' || c == '\n' || c == '\r' || c == '\U{000B}' || c == '\U{000C}'
  }

  function TrimLeft(s: string, drop: char -> bool): string {
    if s != [] && drop(s[0]) then TrimLeft(s[1..], drop) else s
  }

  function TrimRight(s: string, drop: char -> bool): string {
    if s != [] && drop(s[|s| - 1]) then TrimRight(s[..|s| - 1], drop) else s
  }

  function TrimSpace(s: string): string {
    TrimRight(TrimLeft(s, c => IsSpace(c)), c => IsSpace(c))
  }

  /** ASCII lower-casing; other code points are their own lower case here. */
  function LowerChar(c: char): char {
    if 'A' <= c <= 'Z' then c + 32 as char else c
  }

  function ToLower(s: string): (r: string)
    ensures |r| == |s|
    ensures forall i :: 0 <= i < |s| ==> r[i] == LowerChar(s[i])
  {
    if s == [] then [] else [LowerChar(s[0])] + ToLower(s[1..])
  }

  /** The ASCII capitals become small letters, and nothing else changes. */
  lemma LowerCaseMeans(s: string, i: nat)
    requires i < |s|
    ensures 'A' <= s[i] <= 'Z' ==> ToLower(s)[i] as int == s[i] as int + 'a' as int - 'A' as int
    ensures !('A' <= s[i] <= 'Z') ==> ToLower(s)[i] == s[i]
  {
  }

  /** strings.EqualFold, with the same case folding. */
  predicate EqualFold(a: string, b: string) {
    ToLower(a) == ToLower(b)
  }

  /** Bytes of a code point in UTF-8. */
  function CharBytes(c: char): nat {
    if c as int < 0x80 then 1 else if c as int < 0x800 then 2 else if c as int < 0x1_0000 then 3 else 4
  }

  /** Go's `len` of a string. */
  function Bytes(s: string): nat {
    if s == [] then 0 else CharBytes(s[0]) + Bytes(s[1..])
  }

  /** A text of ASCII characters has as many bytes as characters; others take more. */
  lemma {:induction false} BytesOfText(s: string)
    ensures |s| <= Bytes(s) <= 4 * |s|
    ensures Bytes(s) == |s| <==> forall i :: 0 <= i < |s| ==> s[i] as int < 128
  {
    if s != [] {
      BytesOfText(s[1..]);
      assert forall i :: 1 <= i < |s| ==> s[i] == s[1..][i - 1];
      assert forall i :: 0 <= i < |s[1..]| ==> s[1..][i] == s[i + 1];
    }
  }

  function Count(s: string, c: char): nat {
    if s == [] then 0 else (if s[0] == c then 1 else 0) + Count(s[1..], c)
  }

  /** strings.Split with a one-character separator: never empty. */
  function Split(s: string, sep: char): (parts: seq<string>)
    ensures parts != []
  {
    if s == [] then [""]
    else
      var rest := Split(s[1..], sep);
      if s[0] == sep then [""] + rest else [[s[0]] + rest[0]] + rest[1..]
  }

  function Join(parts: seq<string>, sep: char): string {
    if parts == [] then ""
    else if |parts| == 1 then parts[0]
    else parts[0] + [sep] + Join(parts[1..], sep)
  }

  /** Cutting at a separator is cutting the list of parts. */
  lemma {:induction false} SplitAtSeparator(a: string, b: string, sep: char)
    ensures Split(a + [sep] + b, sep) == Split(a, sep) + Split(b, sep)
  {
    var whole := a + [sep] + b;
    if a == [] {
      assert whole[1..] == b;
    } else {
      assert whole[1..] == a[1..] + [sep] + b;
      SplitAtSeparator(a[1..], b, sep);
    }
  }

  lemma {:induction false} SplitWithoutSeparator(s: string, sep: char)
    requires sep !in s
    ensures Split(s, sep) == [s]
  {
    if s != [] {
      SplitWithoutSeparator(s[1..], sep);
      assert s == [s[0]] + s[1..];
    }
  }

  /** Splitting undoes joining when no part holds the separator. */
  lemma {:induction false} SplitJoin(parts: seq<string>, sep: char)
    requires parts != [] && forall p :: p in parts ==> sep !in p
    ensures Split(Join(parts, sep), sep) == parts
  {
    SplitWithoutSeparator(parts[0], sep);
    if |parts| > 1 {
      SplitJoin(parts[1..], sep);
      SplitAtSeparator(parts[0], Join(parts[1..], sep), sep);
      assert parts == [parts[0]] + parts[1..];
    } else {
      assert parts == [parts[0]];
    }
  }

  /** Joining undoes splitting on every string. */
  lemma {:induction false} JoinSplit(s: string, sep: char)
    ensures Join(Split(s, sep), sep) == s
  {
    if s != [] {
      JoinSplit(s[1..], sep);
      var rest := Split(s[1..], sep);
      if s[0] == sep {
        assert ([""] + rest)[1..] == rest;
      } else {
        assert ([[s[0]] + rest[0]] + rest[1..])[1..] == rest[1..];
      }
      assert s == [s[0]] + s[1..];
    }
  }

  lemma {:induction false} JoinConcat(a: seq<string>, b: seq<string>, sep: char)
    requires a != [] && b != []
    ensures Join(a + b, sep) == Join(a, sep) + [sep] + Join(b, sep)
  {
    if |a| > 1 {
      JoinConcat(a[1..], b, sep);
      assert (a + b)[1..] == a[1..] + b;
    } else {
      assert (a + b)[1..] == b;
    }
  }

  lemma {:induction false} JoinHasNoOther(parts: seq<string>, sep: char, c: char)
    requires c != sep && forall p :: p in parts ==> c !in p
    ensures c !in Join(parts, sep)
  {
    if |parts| > 1 {
      JoinHasNoOther(parts[1..], sep, c);
    }
  }
}
