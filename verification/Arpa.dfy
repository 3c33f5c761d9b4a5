/** Reverse-lookup names of networks (pkg/rfc2317/arpa.go): section 3.5 of RFC
    1035, section 2.5 of RFC 3596 and, for /25 to /31, section 4 of RFC 2317.
    Go's net package is not part of this model: addresses come parsed. */
module Arpa {
  import opened Wrappers
  import Strings

  predicate IsOctets(s: seq<int>) {
    forall i :: 0 <= i < |s| ==> 0 <= s[i] < 256
  }

  type Octets4 = s: seq<int> | |s| == 4 && IsOctets(s) witness [0, 0, 0, 0]
  type Octets16 = s: seq<int> | |s| == 16 && IsOctets(s) witness [0, 0, 0, 0, 0, 0, 0, 0, 0, 0, 0, 0, 0, 0, 0, 0]

  datatype IP = V4(v4: Octets4) | V6(v6: Octets16)

  /** An address with a prefix length. */
  datatype Net = Net(ip: IP, bits: nat)

  datatype Input = Unparsable | Bare(ip: IP) | WithPrefix(net: Net)

  datatype ArpaError = InvalidAddress | BitsBeyondMask | SlashZero | Misaligned

  function Total(ip: IP): nat {
    if ip.V4? then 32 else 128
  }

  function Bytes(ip: IP): (s: seq<int>)
    ensures IsOctets(s) && 8 * |s| == Total(ip)
  {
    if ip.V4? then ip.v4 else ip.v6
  }

  /** An IPv4 address written as an IPv6 address. */
  predicate IsMapped(ip: IP) {
    ip.V6? && ip.v6[..12] == [0, 0, 0, 0, 0, 0, 0, 0, 0, 0, 255, 255]
  }

  function To4(ip: IP): Option<Octets4> {
    if ip.V4? then Some(ip.v4) else if IsMapped(ip) then Some(ip.v6[12..]) else None
  }

  // ---- masks

  function Pow2(n: nat): (p: nat)
    ensures p > 0
  {
    if n == 0 then 1 else 2 * Pow2(n - 1)
  }

  /** How many of `width` bits, starting at bit `at`, a prefix covers. */
  function Covered(bits: nat, at: nat, width: nat): (n: nat)
    ensures n <= width
  {
    if bits <= at then 0 else if bits - at < width then bits - at else width
  }

  /** Keeps the upper `keep` of `width` bits. */
  function MaskDigit(d: int, width: nat, keep: nat): int
    requires keep <= width
  {
    d - d % Pow2(width - keep)
  }

  function MaskDigits(ds: seq<int>, width: nat, bits: nat): (r: seq<int>)
    ensures |r| == |ds|
    ensures forall i :: 0 <= i < |ds| ==> r[i] == MaskDigit(ds[i], width, Covered(bits, width * i, width))
  {
    seq(|ds|, i requires 0 <= i < |ds| => MaskDigit(ds[i], width, Covered(bits, width * i, width)))
  }

  /** No bits beyond the mask. */
  predicate IsBase(net: Net) {
    MaskDigits(Bytes(net.ip), 8, net.bits) == Bytes(net.ip)
  }

  // ---- digits and their labels

  function Digit(d: nat): char
    requires d < 10
  {
    '0' + d as char
  }

  function Uitoa(n: nat): (s: string)
    ensures s != [] && forall i :: 0 <= i < |s| ==> '0' <= s[i] <= '9'
  {
    if n < 10 then [Digit(n)] else Uitoa(n / 10) + [Digit(n % 10)]
  }

  const HEX_DIGITS := "0123456789abcdef"

  function Nibbles(s: seq<int>): (r: seq<int>)
    requires IsOctets(s)
    ensures |r| == 2 * |s|
    ensures forall i :: 0 <= i < |r| ==> 0 <= r[i] < 16
    ensures forall i :: 0 <= i < |s| ==> r[2 * i] == s[i] / 16 && r[2 * i + 1] == s[i] % 16
  {
    if s == [] then [] else Nibbles(s[..|s| - 1]) + [s[|s| - 1] / 16, s[|s| - 1] % 16]
  }

  /** The unit of a reverse name: an octet or a nibble. */
  function Width(ip: IP): nat {
    if ip.V4? then 8 else 4
  }

  function Digits(ip: IP): (ds: seq<int>)
    ensures Width(ip) * |ds| == Total(ip)
    ensures forall i :: 0 <= i < |ds| ==> 0 <= ds[i] < Pow2(Width(ip))
  {
    assert Pow2(4) == 16 && Pow2(8) == 256 by { assert Pow2(2) == 4 && Pow2(6) == 64; }
    if ip.V4? then ip.v4 else Nibbles(ip.v6)
  }

  function LabelOf(v4: bool, d: int): string
    requires 0 <= d < if v4 then 256 else 16
  {
    if v4 then Uitoa(d) else [HEX_DIGITS[d]]
  }

  predicate DigitsFit(v4: bool, ds: seq<int>) {
    forall i :: 0 <= i < |ds| ==> 0 <= ds[i] < if v4 then 256 else 16
  }

  /** The labels of digits, last digit first. */
  function Reversed(v4: bool, ds: seq<int>): (ls: seq<string>)
    requires DigitsFit(v4, ds)
    ensures |ls| == |ds|
  {
    if ds == [] then [] else [LabelOf(v4, ds[|ds| - 1])] + Reversed(v4, ds[..|ds| - 1])
  }

  function Zone(v4: bool): seq<string> {
    if v4 then ["in-addr", "arpa"] else ["ip6", "arpa"]
  }

  function Labels(v4: bool, ds: seq<int>): seq<string>
    requires DigitsFit(v4, ds)
  {
    Reversed(v4, ds) + Zone(v4)
  }

  /** The labels that `reverseaddr` writes: those of the IPv4 address whenever
      there is one. */
  function AddressLabels(ip: IP): (ls: seq<string>)
    ensures |ls| >= 2
  {
    match To4(ip)
    case Some(o) => Labels(true, o)
    case None => Labels(false, Nibbles(ip.v6))
  }

  predicate Classless(net: Net) {
    net.ip.V4? && 25 <= net.bits < 32
  }

  function ClasslessLabel(d: nat, bits: nat): string {
    Uitoa(d) + "/" + Uitoa(bits)
  }

  function Shorter(a: nat, b: nat): nat {
    if a <= b then a else b
  }

  /** The prefix ends between two labels. */
  predicate OnBoundary(net: Net) {
    if net.ip.V4? then net.bits % 8 == 0 else net.bits % 4 == 0
  }

  /** How many labels an answer leaves out in front. */
  function ToTrim(net: Net): nat
    requires net.bits <= Total(net.ip)
  {
    if net.ip.V4? then (32 - net.bits) / 8 else (128 - net.bits) / 4
  }

  /** What the code answers for a parsed network. */
  function Answer(net: Net): Result<string, ArpaError>
    requires net.bits <= Total(net.ip)
  {
    var labels := AddressLabels(net.ip);
    if !IsBase(net) then Err(BitsBeyondMask)
    else if net.bits == 0 then Err(SlashZero)
    else if Classless(net) then Ok(Strings.Join([ClasslessLabel(net.ip.v4[3], net.bits)] + labels[1..], '.'))
    else if !OnBoundary(net) then Err(Misaligned)
    else Ok(Strings.Join(labels[Shorter(ToTrim(net), |labels| - 1)..], '.'))
  }

  predicate InRange(input: Input) {
    input.WithPrefix? ==> input.net.bits <= Total(input.net.ip)
  }

  function AnswerTo(input: Input): Result<string, ArpaError>
    requires InRange(input)
  {
    match input
    case Unparsable => Err(InvalidAddress)
    case Bare(ip) => Answer(if To4(ip).Some? then Net(V4(To4(ip).value), 32) else Net(ip, 128))
    case WithPrefix(net) => Answer(net)
  }

  // ---- cutting names

  /** strings.SplitN for n > 0: at most n parts, the last one uncut. */
  function SplitN(s: string, sep: char, n: nat): (parts: seq<string>)
    requires n > 0
    ensures parts != []
    decreases n, |s|
  {
    if n == 1 then [s]
    else if s == [] then [""]
    else if s[0] == sep then [""] + SplitN(s[1..], sep, n - 1)
    else
      var rest := SplitN(s[1..], sep, n);
      [[s[0]] + rest[0]] + rest[1..]
  }

  predicate Dotless(ls: seq<string>) {
    forall i :: 0 <= i < |ls| ==> '.' !in ls[i]
  }

  lemma {:induction false} SplitNFirst(a: string, b: string, n: nat)
    requires '.' !in a && n > 1
    ensures SplitN(a + "." + b, '.', n) == [a] + SplitN(b, '.', n - 1)
  {
    var s := a + "." + b;
    if a == [] {
      assert s[1..] == b;
    } else {
      assert s[1..] == a[1..] + "." + b;
      SplitNFirst(a[1..], b, n);
      assert [a[0]] + a[1..] == a;
    }
  }

  lemma {:induction false} SplitNDotless(a: string, n: nat)
    requires '.' !in a && n > 0
    ensures SplitN(a, '.', n) == [a]
  {
    if a != [] && n > 1 {
      SplitNDotless(a[1..], n);
      assert [a[0]] + a[1..] == a;
    }
  }

  function LastPart(ls: seq<string>, n: nat): string {
    var parts := SplitN(Strings.Join(ls, '.'), '.', n + 1);
    parts[|parts| - 1]
  }

  /** Cutting off up to `n` labels at the front. */
  lemma {:induction false} SplitNLast(ls: seq<string>, n: nat)
    requires Dotless(ls) && ls != []
    ensures LastPart(ls, n) == Strings.Join(ls[Shorter(n, |ls| - 1)..], '.')
  {
    if n == 0 {
      assert ls[0..] == ls;
    } else if |ls| == 1 {
      SplitNDotless(ls[0], n + 1);
    } else {
      SplitNOneMore(ls, n);
      SplitNLast(ls[1..], n - 1);
      TailSlice(ls, Shorter(n - 1, |ls| - 2));
    }
  }

  /** The last part is the last part of what follows the first label. */
  lemma SplitNOneMore(ls: seq<string>, n: nat)
    requires Dotless(ls) && |ls| > 1 && n > 0
    ensures Dotless(ls[1..])
    ensures LastPart(ls, n) == LastPart(ls[1..], n - 1)
  {
    SplitNFirst(ls[0], Strings.Join(ls[1..], '.'), n + 1);
  }

  lemma TailSlice(ls: seq<string>, k: nat)
    requires k < |ls|
    ensures ls[1..][k..] == ls[k + 1..]
  {
  }

  lemma {:induction false} ReversedDotless(v4: bool, ds: seq<int>)
    requires DigitsFit(v4, ds)
    ensures Dotless(Reversed(v4, ds))
  {
    if ds != [] {
      ReversedDotless(v4, ds[..|ds| - 1]);
      var l := LabelOf(v4, ds[|ds| - 1]);
      assert '.' !in l;
    }
  }

  lemma LabelsDotless(v4: bool, ds: seq<int>)
    requires DigitsFit(v4, ds)
    ensures Dotless(Labels(v4, ds))
  {
    ReversedDotless(v4, ds);
    assert '.' !in "in-addr" && '.' !in "arpa" && '.' !in "ip6";
  }

  // ---- the code

  lemma JoinCons(a: string, ls: seq<string>)
    requires ls != []
    ensures Strings.Join([a] + ls, '.') == a + "." + Strings.Join(ls, '.')
  {
    assert ([a] + ls)[1..] == ls;
  }

  /** `reverseaddr`: the labels, each followed by a dot. */
  method ReverseAddr(ip: IP) returns (arpa: string)
    ensures arpa == Strings.Join(AddressLabels(ip), '.') + "."
  {
    var o := To4(ip);
    if o.Some? {
      var b := o.value;
      arpa := Uitoa(b[3]) + "." + Uitoa(b[2]) + "." + Uitoa(b[1]) + "." + Uitoa(b[0]) + ".in-addr.arpa.";
      FourLabels(b);
      return;
    }
    ghost var ds: seq<int> := Nibbles(ip.v6);
    var buf: string := [];
    var i := |ip.v6|;
    while i > 0
      invariant 0 <= i <= 16
      invariant buf == Written(ds[2 * i..])
    {
      i := i - 1;
      var v := ip.v6[i];
      WrittenByte(ds, i);
      buf := buf + [HEX_DIGITS[v % 16], '.', HEX_DIGITS[v / 16], '.'];
    }
    assert ds[0..] == ds;
    WrittenIsJoined(ds);
    arpa := buf + "ip6.arpa.";
  }

  /** The text of nibble labels, each with its dot. */
  function Written(ds: seq<int>): string
    requires DigitsFit(false, ds)
  {
    if ds == [] then "" else [HEX_DIGITS[ds[|ds| - 1]], '.'] + Written(ds[..|ds| - 1])
  }

  lemma WrittenAppend(ds: seq<int>, d: int)
    requires DigitsFit(false, ds) && 0 <= d < 16
    ensures DigitsFit(false, ds + [d]) && Written(ds + [d]) == [HEX_DIGITS[d], '.'] + Written(ds)
  {
    assert (ds + [d])[..|ds|] == ds;
  }

  lemma {:induction false} WrittenConcat(a: seq<int>, b: seq<int>)
    requires DigitsFit(false, a) && DigitsFit(false, b)
    ensures DigitsFit(false, a + b) && Written(a + b) == Written(b) + Written(a)
  {
    if b == [] {
      assert a + b == a;
    } else {
      var front, d := b[..|b| - 1], b[|b| - 1];
      assert b == front + [d] && a + b == a + front + [d];
      WrittenConcat(a, front);
      WrittenAppend(a + front, d);
      WrittenAppend(front, d);
    }
  }

  lemma WrittenByte(ds: seq<int>, i: nat)
    requires DigitsFit(false, ds) && 2 * i + 1 < |ds|
    ensures Written(ds[2 * i..])
      == Written(ds[2 * (i + 1)..]) + [HEX_DIGITS[ds[2 * i + 1]], '.', HEX_DIGITS[ds[2 * i]], '.']
  {
    var two := [ds[2 * i], ds[2 * i + 1]];
    assert ds[2 * i..] == two + ds[2 * (i + 1)..];
    WrittenConcat(two, ds[2 * (i + 1)..]);
    assert two[..1] == [ds[2 * i]] && [ds[2 * i]][..0] == [];
    assert Written(two[..1]) == [HEX_DIGITS[ds[2 * i]], '.'];
  }

  lemma ConcatRegroup(l: string, w: string, end: string)
    ensures (l + "." + w) + end == l + "." + (w + end)
  {
  }

  lemma LabelsStep(ds: seq<int>)
    requires ds != [] && DigitsFit(false, ds)
    ensures Labels(false, ds) == [[HEX_DIGITS[ds[|ds| - 1]]]] + Labels(false, ds[..|ds| - 1])
  {
  }

  lemma {:induction false} WrittenIsJoined(ds: seq<int>)
    requires DigitsFit(false, ds)
    ensures Written(ds) + "ip6.arpa." == Strings.Join(Labels(false, ds), '.') + "."
  {
    if ds == [] {
      JoinCons("ip6", ["arpa"]);
      assert Labels(false, ds) == ["ip6"] + ["arpa"];
    } else {
      var front, l := ds[..|ds| - 1], [HEX_DIGITS[ds[|ds| - 1]]];
      WrittenIsJoined(front);
      LabelsStep(ds);
      JoinCons(l, Labels(false, front));
      ConcatRegroup(l, Written(front), "ip6.arpa.");
      ConcatRegroup(l, Strings.Join(Labels(false, front), '.'), ".");
      assert Written(ds) == l + "." + Written(front);
    }
  }

  lemma FourLabels(b: Octets4)
    ensures Uitoa(b[3]) + "." + Uitoa(b[2]) + "." + Uitoa(b[1]) + "." + Uitoa(b[0]) + ".in-addr.arpa."
         == Strings.Join(Labels(true, b), '.') + "."
  {
    FourReversed(b);
    var l0: seq<string> := ["in-addr", "arpa"];
    assert l0[1..] == ["arpa"];
    assert Strings.Join(l0, '.') == "in-addr.arpa";
    var l1 := [Uitoa(b[0])] + l0;
    var l2 := [Uitoa(b[1])] + l1;
    var l3 := [Uitoa(b[2])] + l2;
    JoinCons(Uitoa(b[0]), l0);
    JoinCons(Uitoa(b[1]), l1);
    JoinCons(Uitoa(b[2]), l2);
    JoinCons(Uitoa(b[3]), l3);
    assert Labels(true, b) == [Uitoa(b[3])] + l3;
  }

  lemma FourReversed(b: Octets4)
    ensures Reversed(true, b) == [Uitoa(b[3]), Uitoa(b[2]), Uitoa(b[1]), Uitoa(b[0])]
  {
    assert b[..3][..2] == b[..2] && b[..2][..1] == b[..1] && b[..1][..0] == [];
    assert Reversed(true, b[..1]) == [Uitoa(b[0])];
    assert Reversed(true, b[..2]) == [Uitoa(b[1])] + Reversed(true, b[..1]);
    assert Reversed(true, b[..3]) == [Uitoa(b[2])] + Reversed(true, b[..2]);
  }

  lemma TrimFinalDot(s: string)
    requires s != [] && s[|s| - 1] != '.'
    ensures Strings.TrimRight(s + ".", DotFn()) == s
  {
    assert (s + ".")[..|s|] == s;
  }

  function DotFn(): char -> bool {
    c => c == '.'
  }

  lemma {:induction false} JoinEnds(ls: seq<string>, last: string)
    requires ls != [] && ls[|ls| - 1] == last && last != []
    ensures var s := Strings.Join(ls, '.'); s != [] && s[|s| - 1] == last[|last| - 1]
  {
    if |ls| > 1 {
      JoinEnds(ls[1..], last);
    }
  }

  /** The reverse name of the address, without the final dot. */
  method ReverseBase(ip: IP) returns (base: string)
    ensures base == Strings.Join(AddressLabels(ip), '.')
  {
    base := ReverseAddr(ip);
    AddressLabelsDotless(ip);
    JoinEnds(AddressLabels(ip), "arpa");
    TrimFinalDot(Strings.Join(AddressLabels(ip), '.'));
    base := Strings.TrimRight(base, DotFn());
  }

  /** Section 4 of RFC 2317: first address and prefix length, over the /24. */
  method ClasslessName(net: Net, base: string) returns (name: string)
    requires Classless(net) && base == Strings.Join(AddressLabels(net.ip), '.')
    ensures name == Strings.Join([ClasslessLabel(net.ip.v4[3], net.bits)] + AddressLabels(net.ip)[1..], '.')
  {
    AddressLabelsDotless(net.ip);
    SplitNTwo(AddressLabels(net.ip));
    var bparts := SplitN(base, '.', 2);
    JoinCons(ClasslessLabel(net.ip.v4[3], net.bits), AddressLabels(net.ip)[1..]);
    name := Uitoa(net.ip.v4[3]) + "/" + Uitoa(net.bits) + "." + bparts[1];
  }

  /** The reverse name without its first labels. */
  method TrimmedName(ip: IP, base: string, toTrim: nat) returns (name: string)
    requires base == Strings.Join(AddressLabels(ip), '.')
    ensures name == Strings.Join(AddressLabels(ip)[Shorter(toTrim, |AddressLabels(ip)| - 1)..], '.')
  {
    AddressLabelsDotless(ip);
    SplitNLast(AddressLabels(ip), toTrim);
    var parts := SplitN(base, '.', toTrim + 1);
    name := parts[|parts| - 1];
  }

  method NetToInAddr(net: Net) returns (r: Result<string, ArpaError>)
    requires net.bits <= Total(net.ip)
    ensures r == Answer(net)
  {
    var base := ReverseBase(net.ip);
    if MaskDigits(Bytes(net.ip), 8, net.bits) != Bytes(net.ip) {
      return Err(BitsBeyondMask);
    }
    var bits, total := net.bits, Total(net.ip);
    if bits == 0 {
      return Err(SlashZero);
    }
    var name;
    if total == 32 && bits >= 25 && bits < 32 {
      name := ClasslessName(net, base);
      return Ok(name);
    }
    var toTrim;
    if total == 32 {
      if bits % 8 != 0 {
        return Err(Misaligned);
      }
      toTrim := (total - bits) / 8;
    } else {
      if bits % 4 != 0 {
        return Err(Misaligned);
      }
      toTrim := (total - bits) / 4;
    }
    name := TrimmedName(net.ip, base, toTrim);
    return Ok(name);
  }

  method CidrToInAddr(input: Input) returns (r: Result<string, ArpaError>)
    requires InRange(input)
    ensures r == AnswerTo(input)
  {
    var net: Net;
    match input {
      case Unparsable =>
        return Err(InvalidAddress);
      case Bare(ip) =>
        var o := To4(ip);
        net := if o.Some? then Net(V4(o.value), 32) else Net(ip, 128);
      case WithPrefix(n) =>
        net := n;
    }
    r := NetToInAddr(net);
  }

  lemma AddressLabelsDotless(ip: IP)
    ensures Dotless(AddressLabels(ip)) && AddressLabels(ip)[|AddressLabels(ip)| - 1] == "arpa"
  {
    match To4(ip)
    case Some(o) => LabelsDotless(true, o);
    case None => LabelsDotless(false, Nibbles(ip.v6));
  }

  lemma SplitNTwo(ls: seq<string>)
    requires Dotless(ls) && |ls| >= 2
    ensures SplitN(Strings.Join(ls, '.'), '.', 2) == [ls[0], Strings.Join(ls[1..], '.')]
  {
    SplitNFirst(ls[0], Strings.Join(ls[1..], '.'), 2);
  }
}
