/** What reverse names say about networks: they can be decoded, and containment
    of networks is the suffix relation of names. */
module ArpaNames {
  import opened Wrappers
  import opened Arpa
  import Strings

  predicate Accepted(net: Net) {
    && net.bits <= Total(net.ip) && IsBase(net) && net.bits != 0
    && (Classless(net) || OnBoundary(net))
  }

  // ---- the labels of an accepted network

  /** How many digits a prefix fixes. */
  function FixedLength(net: Net): (n: nat)
    ensures OnBoundary(net) ==> Width(net.ip) * n == net.bits
    ensures net.bits <= Total(net.ip) ==> n <= |Digits(net.ip)|
  {
    if net.ip.V4? then net.bits / 8 else net.bits / 4
  }

  /** The digits that a network on a boundary fixes. */
  function Fixed(net: Net): seq<int>
    requires net.bits <= Total(net.ip)
  {
    Digits(net.ip)[..FixedLength(net)]
  }

  lemma FixedFits(net: Net)
    requires net.bits <= Total(net.ip)
    ensures DigitsFit(net.ip.V4?, Fixed(net)) && DigitsFit(net.ip.V4?, Digits(net.ip))
    ensures OnBoundary(net) ==> |Fixed(net)| * Width(net.ip) == net.bits
  {
    Pow2Values();
  }

  lemma Pow2Values()
    ensures Pow2(4) == 16 && Pow2(8) == 256
  {
    assert Pow2(2) == 4 && Pow2(6) == 64;
  }

  function NetLabels(net: Net): seq<string>
    requires net.bits <= Total(net.ip)
  {
    FixedFits(net);
    if Classless(net) then [ClasslessLabel(net.ip.v4[3], net.bits)] + Labels(true, net.ip.v4[..3])
    else Labels(net.ip.V4?, Fixed(net))
  }

  lemma ReversedCons(v4: bool, ds: seq<int>)
    requires DigitsFit(v4, ds) && ds != []
    ensures Reversed(v4, ds) == [LabelOf(v4, ds[|ds| - 1])] + Reversed(v4, ds[..|ds| - 1])
  {
  }

  lemma TailDrop(l: string, ls: seq<string>, t: nat)
    requires 0 < t <= |ls| + 1
    ensures ([l] + ls)[t..] == ls[t - 1..]
  {
  }

  lemma {:induction false} ReversedDrop(v4: bool, ds: seq<int>, t: nat)
    requires DigitsFit(v4, ds) && t <= |ds|
    ensures Reversed(v4, ds)[t..] == Reversed(v4, ds[..|ds| - t])
  {
    if t == 0 {
      assert ds[..|ds|] == ds;
    } else {
      var front := ds[..|ds| - 1];
      ReversedDrop(v4, front, t - 1);
      ReversedCons(v4, ds);
      TailDrop(LabelOf(v4, ds[|ds| - 1]), Reversed(v4, front), t);
      assert front[..|front| - (t - 1)] == ds[..|ds| - t];
    }
  }

  lemma LabelsDrop(v4: bool, ds: seq<int>, t: nat)
    requires DigitsFit(v4, ds) && t <= |ds|
    ensures Labels(v4, ds)[t..] == Labels(v4, ds[..|ds| - t])
  {
    ReversedDrop(v4, ds, t);
    assert Labels(v4, ds)[t..] == Reversed(v4, ds)[t..] + Zone(v4);
  }

  lemma TrimmedDigits(net: Net)
    requires net.bits <= Total(net.ip) && OnBoundary(net)
    ensures ToTrim(net) == |Digits(net.ip)| - |Fixed(net)|
  {
  }

  lemma PlainLabelsOf(net: Net)
    requires net.bits <= Total(net.ip) && !IsMapped(net.ip)
    ensures DigitsFit(net.ip.V4?, Digits(net.ip)) && AddressLabels(net.ip) == Labels(net.ip.V4?, Digits(net.ip))
  {
    FixedFits(net);
  }

  lemma BoundaryLabels(net: Net)
    requires net.bits <= Total(net.ip) && OnBoundary(net) && !IsMapped(net.ip)
    ensures DigitsFit(net.ip.V4?, Fixed(net))
    ensures AddressLabels(net.ip)[Shorter(ToTrim(net), |AddressLabels(net.ip)| - 1)..] == Labels(net.ip.V4?, Fixed(net))
  {
    var ds := Digits(net.ip);
    FixedFits(net);
    PlainLabelsOf(net);
    TrimmedDigits(net);
    LabelsDrop(net.ip.V4?, ds, ToTrim(net));
    assert ds[..|ds| - ToTrim(net)] == Fixed(net);
  }

  lemma ClasslessLabels(net: Net)
    requires Classless(net)
    ensures [ClasslessLabel(net.ip.v4[3], net.bits)] + AddressLabels(net.ip)[1..] == NetLabels(net)
  {
    LabelsDrop(true, net.ip.v4, 1);
  }

  /** The name of an accepted network, leaving out IPv4 addresses in IPv6 dress. */
  lemma AnswerIsLabels(net: Net)
    requires Accepted(net) && !IsMapped(net.ip)
    ensures Answer(net) == Ok(Strings.Join(NetLabels(net), '.'))
  {
    if Classless(net) {
      ClasslessLabels(net);
    } else {
      BoundaryLabels(net);
    }
  }

  // ---- masks digit by digit

  lemma ModOfUpper(b: nat, h: nat, l: nat, p: nat)
    requires p > 0 && l < b
    ensures (b * h + l) % (b * p) == b * (h % p) + l
  {
    var q, r := h / p, h % p;
    assert h == p * q + r;
    assert b * h == (b * p) * q + b * r;
    MulStep(b, r, p);
    DivModUnique(b * h + l, b * p, q, b * r + l);
  }

  lemma ModOfLower(b: nat, h: nat, l: nat, p: nat, t: nat)
    requires p > 0 && p * t == b
    ensures (b * h + l) % p == l % p
  {
    var q, r := l / p, l % p;
    assert l == p * q + r;
    MulAssociates(p, t, h);
    assert b * h + l == p * (t * h + q) + r;
    DivModUnique(b * h + l, p, t * h + q, r);
  }

  lemma MulAssociates(p: int, t: int, h: int)
    ensures (p * t) * h == p * (t * h)
  {
  }

  /** What a mask keeps of an octet, nibble by nibble. */
  lemma UpperNibbleMask(h: nat, l: nat, keep: nat)
    requires h < 16 && l < 16 && keep <= 4
    ensures MaskDigit(16 * h + l, 8, keep) == 16 * MaskDigit(h, 4, keep)
    ensures 0 <= MaskDigit(h, 4, keep) < 16 && MaskDigit(l, 4, 0) == 0
  {
    UpperMask(h, l, keep, Pow2(4 - keep));
    Pow2Values();
    NoDigit(l, 4);
    DigitShrinks(h, 4, keep);
  }

  lemma UpperMask(h: nat, l: nat, keep: nat, p: nat)
    requires l < 16 && keep <= 4 && p == Pow2(4 - keep)
    ensures MaskDigit(16 * h + l, 8, keep) == 16 * (h - h % p)
  {
    UpperPow2(keep);
    ModOfUpper(16, h, l, p);
  }

  lemma UpperPow2(keep: nat)
    requires keep <= 4
    ensures Pow2(8 - keep) == 16 * Pow2(4 - keep)
  {
    Pow2Add(4, 4 - keep);
    Pow2Values();
  }

  lemma LowerNibbleMask(h: nat, l: nat, keep: nat)
    requires h < 16 && l < 16 && 4 <= keep <= 8
    ensures MaskDigit(16 * h + l, 8, keep) == 16 * h + MaskDigit(l, 4, keep - 4)
    ensures 0 <= MaskDigit(l, 4, keep - 4) < 16 && MaskDigit(h, 4, 4) == h
  {
    Pow2Add(8 - keep, keep - 4);
    Pow2Values();
    ModOfLower(16, h, l, Pow2(8 - keep), Pow2(keep - 4));
    FullDigit(h, 4);
    DigitShrinks(l, 4, keep - 4);
  }

  lemma DigitShrinks(d: nat, w: nat, keep: nat)
    requires keep <= w
    ensures 0 <= MaskDigit(d, w, keep) <= d
  {
    ModBounds(d, Pow2(w - keep));
  }

  lemma ModBounds(d: nat, p: nat)
    requires p > 0
    ensures 0 <= d % p <= d
  {
  }

  lemma {:induction false} Pow2Add(a: nat, b: nat)
    ensures Pow2(a + b) == Pow2(a) * Pow2(b)
  {
    if a > 0 { Pow2Add(a - 1, b); }
  }

  lemma NibbleOfMask(h: nat, l: nat, keep: nat)
    requires h < 16 && l < 16 && keep <= 8
    ensures var m := MaskDigit(16 * h + l, 8, keep);
      && 0 <= m < 256
      && m / 16 == MaskDigit(h, 4, if keep < 4 then keep else 4)
      && m % 16 == MaskDigit(l, 4, if keep < 4 then 0 else keep - 4)
  {
    if keep < 4 {
      UpperNibbleMask(h, l, keep);
      DivModUnique(16 * MaskDigit(h, 4, keep), 16, MaskDigit(h, 4, keep), 0);
    } else {
      LowerNibbleMask(h, l, keep);
      DivModUnique(16 * h + MaskDigit(l, 4, keep - 4), 16, h, MaskDigit(l, 4, keep - 4));
    }
  }

  lemma NibblesOfMaskAt(s: seq<int>, bits: nat, i: nat)
    requires IsOctets(s) && i < |s|
    ensures 0 <= MaskDigits(s, 8, bits)[i] < 256
    ensures MaskDigits(s, 8, bits)[i] / 16 == MaskDigits(Nibbles(s), 4, bits)[2 * i]
    ensures MaskDigits(s, 8, bits)[i] % 16 == MaskDigits(Nibbles(s), 4, bits)[2 * i + 1]
  {
    OctetOfMask(s[i], Covered(bits, 8 * i, 8));
    MaskedNibbles(s, bits, i);
  }

  lemma OctetOfMask(b: nat, keep: nat)
    requires b < 256 && keep <= 8
    ensures var m := MaskDigit(b, 8, keep);
      && 0 <= m < 256
      && m / 16 == MaskDigit(b / 16, 4, if keep < 4 then keep else 4)
      && m % 16 == MaskDigit(b % 16, 4, if keep < 4 then 0 else keep - 4)
  {
    NibbleOfMask(b / 16, b % 16, keep);
  }

  lemma MaskedNibbles(s: seq<int>, bits: nat, i: nat)
    requires IsOctets(s) && i < |s|
    ensures var keep := Covered(bits, 8 * i, 8);
      && MaskDigits(Nibbles(s), 4, bits)[2 * i] == MaskDigit(s[i] / 16, 4, if keep < 4 then keep else 4)
      && MaskDigits(Nibbles(s), 4, bits)[2 * i + 1] == MaskDigit(s[i] % 16, 4, if keep < 4 then 0 else keep - 4)
  {
    CoveredHalves(bits, i);
  }

  lemma CoveredHalves(bits: nat, i: nat)
    ensures var keep := Covered(bits, 8 * i, 8);
      && Covered(bits, 4 * (2 * i), 4) == (if keep < 4 then keep else 4)
      && Covered(bits, 4 * (2 * i + 1), 4) == (if keep < 4 then 0 else keep - 4)
  {
  }

  /** Masking octets masks their nibbles. */
  lemma NibblesOfMask(s: seq<int>, bits: nat)
    requires IsOctets(s)
    ensures IsOctets(MaskDigits(s, 8, bits))
    ensures Nibbles(MaskDigits(s, 8, bits)) == MaskDigits(Nibbles(s), 4, bits)
  {
    var m := MaskDigits(s, 8, bits);
    forall i | 0 <= i < |s| ensures 0 <= m[i] < 256 { NibblesOfMaskAt(s, bits, i); }
    forall i | 0 <= i < |s|
      ensures m[i] / 16 == MaskDigits(Nibbles(s), 4, bits)[2 * i]
        && m[i] % 16 == MaskDigits(Nibbles(s), 4, bits)[2 * i + 1]
    {
      NibblesOfMaskAt(s, bits, i);
    }
    NibblesAre(m, MaskDigits(Nibbles(s), 4, bits));
  }

  /** A list is the nibbles of octets if it is so pair by pair. */
  lemma NibblesAre(s: seq<int>, ds: seq<int>)
    requires IsOctets(s) && |ds| == 2 * |s|
    requires forall i :: 0 <= i < |s| ==> s[i] / 16 == ds[2 * i] && s[i] % 16 == ds[2 * i + 1]
    ensures Nibbles(s) == ds
  {
    forall j | 0 <= j < |ds| ensures Nibbles(s)[j] == ds[j] {
      var i := j / 2;
      assert s[i] / 16 == ds[2 * i] && s[i] % 16 == ds[2 * i + 1];
      assert j == 2 * i || j == 2 * i + 1;
    }
  }

  lemma {:induction false} NibblesInjective(a: seq<int>, b: seq<int>)
    requires IsOctets(a) && IsOctets(b) && |a| == |b|
    ensures Nibbles(a) == Nibbles(b) <==> a == b
  {
    if Nibbles(a) == Nibbles(b) {
      forall i | 0 <= i < |a| ensures a[i] == b[i] {
        assert Nibbles(a)[2 * i] == Nibbles(b)[2 * i] && Nibbles(a)[2 * i + 1] == Nibbles(b)[2 * i + 1];
      }
    }
  }

  /** An address is in a network when masking it gives the network's address. */
  predicate InNet(x: IP, net: Net) {
    x.V4? == net.ip.V4? && MaskDigits(Bytes(x), 8, net.bits) == Bytes(net.ip)
  }

  /** The same, digit by digit. */
  lemma InNetByDigits(x: IP, net: Net)
    requires x.V4? == net.ip.V4?
    ensures InNet(x, net) <==> MaskDigits(Digits(x), Width(net.ip), net.bits) == Digits(net.ip)
  {
    if x.V6? {
      NibblesOfMask(x.v6, net.bits);
      NibblesInjective(MaskDigits(x.v6, 8, net.bits), net.ip.v6);
    }
  }

  function OctetAt(ds: seq<int>, i: nat): int
    requires 2 * i + 1 < |ds|
  {
    16 * ds[2 * i] + ds[2 * i + 1]
  }

  function Octets(ds: seq<int>): (s: seq<int>)
    requires |ds| % 2 == 0 && forall i :: 0 <= i < |ds| ==> 0 <= ds[i] < 16
    ensures |s| == |ds| / 2 && IsOctets(s)
    ensures Nibbles(s) == ds
  {
    var s := seq(|ds| / 2, i requires 0 <= i < |ds| / 2 => OctetAt(ds, i));
    assert forall i :: 0 <= i < |s| ==> s[i] / 16 == ds[2 * i] && s[i] % 16 == ds[2 * i + 1];
    NibblesAre(s, ds);
    s
  }

  /** The address with given digits. */
  function FromDigits(v4: bool, ds: seq<int>): (ip: IP)
    requires |ds| == (if v4 then 4 else 32) && DigitsFit(v4, ds)
    ensures ip.V4? == v4 && Digits(ip) == ds
  {
    if v4 then V4(ds) else V6(Octets(ds))
  }

  lemma DigitsInjective(x: IP, y: IP)
    requires x.V4? == y.V4? && Digits(x) == Digits(y)
    ensures x == y
  {
    if x.V6? { NibblesInjective(x.v6, y.v6); }
  }

  // ---- containment, in digits

  predicate Valid(ds: seq<int>, w: nat) {
    forall i :: 0 <= i < |ds| ==> 0 <= ds[i] < Pow2(w)
  }

  lemma FullDigit(d: int, w: nat)
    ensures MaskDigit(d, w, w) == d
  {
  }

  lemma NoDigit(d: int, w: nat)
    requires 0 <= d < Pow2(w)
    ensures MaskDigit(d, w, 0) == 0
  {
    DivModUnique(d, Pow2(w), 0, d);
  }

  lemma ModSucc(d: nat, p: nat)
    requires p >= 2 && d % p == 0
    ensures (d + 1) % p == 1
  {
    DivModUnique(d + 1, p, d / p, 1);
  }

  lemma MulBounds(p: nat, d: int)
    ensures d >= 1 ==> p * d >= p
    ensures d <= -1 ==> p * d <= -(p as int)
  {
    if d >= 1 { assert p * d == p + p * (d - 1); }
    if d <= -1 { assert p * d == p * (d + 1) - p; }
  }

  lemma DivModUnique(x: nat, p: nat, q: nat, r: nat)
    requires p > 0 && r < p && x == p * q + r
    ensures x / p == q && x % p == r
  {
    var d := x / p - q;
    MulBounds(p, d);
    assert x == p * (x / p) + x % p;
    assert p * d == p * (x / p) - p * q;
  }

  lemma {:induction false} Pow2Mono(a: nat, b: nat)
    requires a <= b
    ensures Pow2(a) <= Pow2(b)
    ensures Pow2(b) % Pow2(a) == 0
  {
    if a < b {
      Pow2Mono(a, b - 1);
      var q := Pow2(b - 1) / Pow2(a);
      assert Pow2(b - 1) == Pow2(a) * q;
      assert Pow2(b) == Pow2(a) * (2 * q) + 0;
      DivModUnique(Pow2(b), Pow2(a), 2 * q, 0);
    }
  }

  /** Below a partly covered digit there is room for a neighbour. */
  lemma PartialDigit(d: int, w: nat, keep: nat)
    requires 0 <= d < Pow2(w) && keep < w && MaskDigit(d, w, keep) == d
    ensures d + 1 < Pow2(w) && MaskDigit(d + 1, w, keep) == d
  {
    var p := Pow2(w - keep);
    assert p == 2 * Pow2(w - keep - 1);
    ModSucc(d, p);
    Pow2Mono(w - keep, w);
  }

  /** The prefix test that containment comes down to. */
  predicate PrefixOf(outer: seq<int>, n: nat, ob: nat, inner: seq<int>, ib: nat)
    requires n <= |outer| && n <= |inner|
  {
    ob <= ib && inner[..n] == outer[..n]
  }

  lemma PrefixContains(w: nat, outer: seq<int>, n: nat, inner: seq<int>, ib: nat, d: seq<int>)
    requires w > 0 && |outer| == |inner| == |d| && n <= |outer| && Valid(d, w) && Valid(outer, w)
    requires MaskDigits(outer, w, w * n) == outer
    requires PrefixOf(outer, n, w * n, inner, ib) && MaskDigits(d, w, ib) == inner
    ensures MaskDigits(d, w, w * n) == outer
  {
    forall i | 0 <= i < |d| ensures MaskDigits(d, w, w * n)[i] == outer[i] {
      CoveredOnBoundary(w, n, i);
      if i < n {
        CoveredBeyond(w, n, i, ib);
        FullDigit(d[i], w);
        assert inner[i] == d[i];
        assert inner[..n][i] == outer[..n][i];
      } else {
        NoDigit(d[i], w);
        NoDigit(outer[i], w);
        assert MaskDigits(outer, w, w * n)[i] == outer[i];
      }
    }
  }

  lemma MulStep(w: nat, i: nat, n: nat)
    ensures i < n ==> w * n >= w * i + w
    ensures i >= n ==> w * i >= w * n
  {
    if i < n {
      MulDistributes(w, i, n - i);
      MulBounds(w, n - i);
    } else {
      MulDistributes(w, n, i - n);
    }
  }

  lemma MulDistributes(w: nat, x: nat, y: nat)
    ensures w * (x + y) == w * x + w * y && w * y >= 0
  {
  }

  lemma CoveredOnBoundary(w: nat, n: nat, i: nat)
    requires w > 0
    ensures Covered(w * n, w * i, w) == if i < n then w else 0
  {
    MulStep(w, i, n);
  }

  lemma CoveredBeyond(w: nat, n: nat, i: nat, ib: nat)
    requires w > 0 && i < n && w * n <= ib
    ensures Covered(ib, w * i, w) == w
  {
    MulStep(w, i, n);
  }

  /** Without the prefix there is an address inside the one and outside the other. */
  lemma NoPrefixEscapes(w: nat, outer: seq<int>, n: nat, inner: seq<int>, ib: nat) returns (d: seq<int>)
    requires w > 0 && |outer| == |inner| && n <= |outer| && Valid(inner, w)
    requires MaskDigits(inner, w, ib) == inner && !PrefixOf(outer, n, w * n, inner, ib)
    ensures |d| == |inner| && Valid(d, w) && MaskDigits(d, w, ib) == inner && MaskDigits(d, w, w * n) != outer
  {
    if inner[..n] != outer[..n] {
      d := inner;
      OtherPrefix(w, outer, n, inner);
    } else {
      d := Neighbour(w, inner, ib, n);
      MaskKeeps(w, n, d, ib / w);
      assert inner[..n][ib / w] == outer[..n][ib / w];
    }
  }

  lemma OtherPrefix(w: nat, outer: seq<int>, n: nat, inner: seq<int>)
    requires w > 0 && |outer| == |inner| && n <= |outer| && inner[..n] != outer[..n]
    ensures MaskDigits(inner, w, w * n) != outer
  {
    var i :| 0 <= i < n && inner[i] != outer[i];
    MaskKeeps(w, n, inner, i);
  }

  lemma MaskKeeps(w: nat, n: nat, d: seq<int>, i: nat)
    requires w > 0 && i < n <= |d|
    ensures MaskDigits(d, w, w * n)[i] == d[i]
  {
    CoveredOnBoundary(w, n, i);
    FullDigit(d[i], w);
  }

  lemma FirstUncovered(w: nat, ib: nat, n: nat)
    requires w > 0 && ib < w * n
    ensures ib / w < n && w * (ib / w) <= ib < w * (ib / w) + w
    ensures Covered(ib, w * (ib / w), w) == ib - w * (ib / w)
  {
    var i := ib / w;
    assert ib == w * i + ib % w;
    MulStep(w, i, n);
  }

  /** An address of `inner` that differs from its base in the first digit that
      its prefix does not cover. */
  lemma Neighbour(w: nat, inner: seq<int>, ib: nat, n: nat) returns (d: seq<int>)
    requires w > 0 && n <= |inner| && Valid(inner, w) && MaskDigits(inner, w, ib) == inner && ib < w * n
    ensures ib / w < n && d == inner[ib / w := inner[ib / w] + 1]
    ensures Valid(d, w) && MaskDigits(d, w, ib) == inner
  {
    var i := ib / w;
    FirstUncovered(w, ib, n);
    var keep := Covered(ib, w * i, w);
    assert MaskDigits(inner, w, ib)[i] == MaskDigit(inner[i], w, keep);
    PartialDigit(inner[i], w, keep);
    d := inner[i := inner[i] + 1];
    MaskOfChange(w, inner, ib, i, d[i]);
  }

  lemma MaskOfChange(w: nat, ds: seq<int>, bits: nat, i: nat, x: int)
    requires i < |ds|
    ensures MaskDigits(ds[i := x], w, bits) == MaskDigits(ds, w, bits)[i := MaskDigit(x, w, Covered(bits, w * i, w))]
  {
  }

  // ---- refusals

  /** An address as a number. */
  function Number(s: seq<int>): nat
    requires IsOctets(s)
  {
    if s == [] then 0 else 256 * Number(s[..|s| - 1]) + s[|s| - 1]
  }

  lemma MaskedAppend(front: seq<int>, x: int, bits: nat)
    ensures MaskDigits(front + [x], 8, bits)
      == MaskDigits(front, 8, bits) + [MaskDigit(x, 8, Covered(bits, 8 * |front|, 8))]
  {
  }

  /** The prefix ends in the last octet, or right before it. */
  lemma MaskOfLast(front: seq<int>, x: nat, bits: nat)
    requires 8 * |front| <= bits <= 8 * |front| + 8
    ensures MaskDigits(front + [x], 8, bits) == front + [x] <==> x % Pow2(8 * |front| + 8 - bits) == 0
  {
    MaskedAppend(front, x, bits);
    forall i | 0 <= i < |front| ensures MaskDigits(front, 8, bits)[i] == front[i] {
      CoveredBeyond(8, |front|, i, bits);
      FullDigit(front[i], 8);
    }
    assert MaskDigits(front, 8, bits) == front;
    assert MaskDigit(x, 8, bits - 8 * |front|) == x - x % Pow2(8 * |front| + 8 - bits);
  }

  /** The prefix ends before the last octet. */
  lemma MaskOfFront(front: seq<int>, x: nat, bits: nat)
    requires bits <= 8 * |front| && x < 256
    ensures MaskDigits(front + [x], 8, bits) == front + [x] <==> MaskDigits(front, 8, bits) == front && x == 0
  {
    MaskedAppend(front, x, bits);
    Pow2Values();
    NoDigit(x, 8);
    assert Covered(bits, 8 * |front|, 8) == 0;
    LastsApart(MaskDigits(front, 8, bits), 0, front, x);
  }

  lemma LastsApart(a: seq<int>, x: int, b: seq<int>, y: int)
    requires |a| == |b|
    ensures a + [x] == b + [y] <==> a == b && x == y
  {
    assert (a + [x])[..|a|] == a && (b + [y])[..|b|] == b;
    assert (a + [x])[|a|] == x && (b + [y])[|b|] == y;
  }

  lemma LastOctetMultiple(f: nat, x: nat, k: nat)
    requires k <= 8
    ensures (256 * f + x) % Pow2(k) == x % Pow2(k)
  {
    Pow2Add(k, 8 - k);
    Pow2Values();
    ModOfLower(256, f, x, Pow2(k), Pow2(8 - k));
  }

  lemma FrontMultiple(f: nat, x: nat, k: nat)
    requires x < 256
    ensures (256 * f + x) % Pow2(k + 8) == 0 <==> f % Pow2(k) == 0 && x == 0
  {
    Pow2Add(8, k);
    Pow2Values();
    ModOfUpper(256, f, x, Pow2(k));
  }

  lemma LongMaskIsMultiple(front: seq<int>, x: nat, bits: nat)
    requires IsOctets(front) && x < 256 && 8 * |front| <= bits <= 8 * |front| + 8
    ensures MaskDigits(front + [x], 8, bits) == front + [x]
       <==> (256 * Number(front) + x) % Pow2(8 * |front| + 8 - bits) == 0
  {
    MaskOfLast(front, x, bits);
    LastOctetMultiple(Number(front), x, 8 * |front| + 8 - bits);
  }

  lemma ShortMaskIsMultiple(front: seq<int>, x: nat, bits: nat, k: nat)
    requires IsOctets(front) && x < 256 && bits + k == 8 * |front|
    requires MaskDigits(front, 8, bits) == front <==> Number(front) % Pow2(k) == 0
    ensures MaskDigits(front + [x], 8, bits) == front + [x] <==> (256 * Number(front) + x) % Pow2(k + 8) == 0
  {
    MaskOfFront(front, x, bits);
    FrontMultiple(Number(front), x, k);
  }

  predicate MaskIsMultiple(s: seq<int>, bits: nat)
    requires IsOctets(s) && bits <= 8 * |s|
  {
    MaskDigits(s, 8, bits) == s <==> Number(s) % Pow2(8 * |s| - bits) == 0
  }

  lemma MaskStep(front: seq<int>, x: nat, bits: nat)
    requires IsOctets(front) && x < 256 && bits <= 8 * |front| + 8
    requires bits < 8 * |front| ==> MaskIsMultiple(front, bits)
    ensures MaskIsMultiple(front + [x], bits)
  {
    assert (front + [x])[..|front|] == front;
    assert Number(front + [x]) == 256 * Number(front) + x;
    if bits >= 8 * |front| {
      LongMaskIsMultiple(front, x, bits);
    } else {
      ShortMaskIsMultiple(front, x, bits, 8 * |front| - bits);
    }
  }

  /** Masking leaves octets alone just when their number is a multiple of the
      power of two that the mask leaves out. */
  lemma {:induction false} MaskedIsMultiple(s: seq<int>, bits: nat)
    requires IsOctets(s) && bits <= 8 * |s|
    ensures MaskIsMultiple(s, bits)
  {
    if s == [] {
      assert Pow2(0) == 1;
    } else {
      var front, x := s[..|s| - 1], s[|s| - 1];
      if bits < 8 * |front| { MaskedIsMultiple(front, bits); }
      MaskStep(front, x, bits);
      assert s == front + [x];
    }
  }

  /** A multiple of the network's size: an address without bits beyond the mask. */
  predicate IsMultiple(net: Net)
    requires net.bits <= Total(net.ip)
  {
    Number(Bytes(net.ip)) % Pow2(Total(net.ip) - net.bits) == 0
  }

  lemma BaseIsMultiple(net: Net)
    requires net.bits <= Total(net.ip)
    ensures IsBase(net) <==> IsMultiple(net)
  {
    MaskedIsMultiple(Bytes(net.ip), net.bits);
    assert Total(net.ip) - net.bits == 8 * |Bytes(net.ip)| - net.bits;
  }

  /** Refusals, exactly, and with which error: an address that is no multiple of
      the network's size, an empty prefix, or a prefix that ends inside a label,
      unless it is one of the /25 to /31 that have names of their own. */
  lemma RefusedIff(net: Net)
    requires net.bits <= Total(net.ip)
    ensures Answer(net) == Err(BitsBeyondMask) <==> !IsMultiple(net)
    ensures Answer(net) == Err(SlashZero) <==> IsMultiple(net) && net.bits == 0
    ensures Answer(net) == Err(Misaligned) <==> IsMultiple(net) && net.bits != 0 && !Classless(net) && !OnBoundary(net)
    ensures Answer(net).Ok? <==> Accepted(net)
  {
    BaseIsMultiple(net);
  }

  // ---- containment

  /** Every address of `inner` is an address of `outer`. */
  ghost predicate Contains(outer: Net, inner: Net) {
    forall x :: InNet(x, inner) ==> InNet(x, outer)
  }

  lemma BaseByDigits(net: Net)
    ensures IsBase(net) <==> MaskDigits(Digits(net.ip), Width(net.ip), net.bits) == Digits(net.ip)
  {
    InNetByDigits(net.ip, net);
  }

  /** The prefix relation of two networks. */
  predicate Extends(outer: Net, inner: Net)
    requires outer.bits <= Total(outer.ip) && inner.ip.V4? == outer.ip.V4?
  {
    PrefixOf(Digits(outer.ip), FixedLength(outer), outer.bits, Digits(inner.ip), inner.bits)
  }

  lemma DigitsValid(ip: IP, other: IP)
    requires ip.V4? == other.V4?
    ensures |Digits(ip)| == |Digits(other)| && Valid(Digits(ip), Width(other))
  {
  }

  lemma ExtendsContains(outer: Net, inner: Net, x: IP)
    requires outer.ip.V4? == inner.ip.V4? && outer.bits <= Total(outer.ip)
    requires IsBase(outer) && OnBoundary(outer) && Extends(outer, inner) && InNet(x, inner)
    ensures InNet(x, outer)
  {
    var w, n := Width(outer.ip), FixedLength(outer);
    BaseByDigits(outer);
    InNetByDigits(x, inner);
    InNetByDigits(x, outer);
    DigitsValid(outer.ip, outer.ip);
    DigitsValid(inner.ip, outer.ip);
    DigitsValid(x, outer.ip);
    DigitsContained(w, Digits(outer.ip), n, outer.bits, Digits(inner.ip), inner.bits, Digits(x));
  }

  lemma DigitsContained(w: nat, outer: seq<int>, n: nat, ob: nat, inner: seq<int>, ib: nat, d: seq<int>)
    requires w > 0 && ob == w * n && |outer| == |inner| == |d| && n <= |outer| && Valid(d, w) && Valid(outer, w)
    requires MaskDigits(outer, w, ob) == outer
    requires PrefixOf(outer, n, ob, inner, ib) && MaskDigits(d, w, ib) == inner
    ensures MaskDigits(d, w, ob) == outer
  {
    PrefixContains(w, outer, n, inner, ib, d);
  }

  lemma EscapingDigits(outer: Net, inner: Net) returns (d: seq<int>)
    requires outer.ip.V4? == inner.ip.V4? && outer.bits <= Total(outer.ip)
    requires IsBase(inner) && OnBoundary(outer) && !Extends(outer, inner)
    ensures |d| == |Digits(inner.ip)| && Valid(d, Width(outer.ip))
    ensures MaskDigits(d, Width(outer.ip), inner.bits) == Digits(inner.ip)
    ensures MaskDigits(d, Width(outer.ip), outer.bits) != Digits(outer.ip)
  {
    BaseByDigits(inner);
    DigitsValid(inner.ip, outer.ip);
    DigitsValid(outer.ip, inner.ip);
    d := NoPrefixEscapes(Width(outer.ip), Digits(outer.ip), FixedLength(outer), Digits(inner.ip), inner.bits);
  }

  lemma EscapingAddress(outer: Net, inner: Net) returns (x: IP)
    requires outer.ip.V4? == inner.ip.V4? && outer.bits <= Total(outer.ip)
    requires IsBase(inner) && OnBoundary(outer) && !Extends(outer, inner)
    ensures InNet(x, inner) && !InNet(x, outer)
  {
    var d := EscapingDigits(outer, inner);
    Pow2Values();
    x := FromDigits(outer.ip.V4?, d);
    InNetByDigits(x, inner);
    InNetByDigits(x, outer);
  }

  lemma ContainsIsPrefix(outer: Net, inner: Net)
    requires outer.ip.V4? == inner.ip.V4? && outer.bits <= Total(outer.ip)
    requires IsBase(outer) && IsBase(inner) && OnBoundary(outer)
    ensures Contains(outer, inner) <==> Extends(outer, inner)
  {
    if Extends(outer, inner) {
      forall x | InNet(x, inner) ensures InNet(x, outer) { ExtendsContains(outer, inner, x); }
    } else {
      var x := EscapingAddress(outer, inner);
    }
  }

  // ---- names and label lists

  predicate IsSuffix(a: seq<string>, b: seq<string>) {
    |a| <= |b| && b[|b| - |a|..] == a
  }

  lemma SplitOfName(ls: seq<string>)
    requires Dotless(ls) && ls != []
    ensures Strings.Split(Strings.Join(ls, '.'), '.') == ls
  {
    forall p | p in ls ensures '.' !in p {
      var i :| 0 <= i < |ls| && ls[i] == p;
    }
    Strings.SplitJoin(ls, '.');
  }

  /** One name equals another or lies under it. */
  predicate Under(name: string, zone: string) {
    name == zone || Strings.HasSuffix(name, "." + zone)
  }

  lemma SuffixIsUnder(a: seq<string>, b: seq<string>)
    requires a != [] && IsSuffix(a, b)
    ensures Under(Strings.Join(b, '.'), Strings.Join(a, '.'))
  {
    var k := |b| - |a|;
    if k == 0 {
      assert b[0..] == b;
    } else {
      var x, y, p := Strings.Join(a, '.'), Strings.Join(b, '.'), b[..k];
      assert b == p + a;
      Strings.JoinConcat(p, a, '.');
      assert y == Strings.Join(p, '.') + ("." + x);
    }
  }

  lemma UnderIsCut(name: string, zone: string)
    requires Strings.HasSuffix(name, "." + zone)
    ensures exists pre: string :: Strings.Split(name, '.') == Strings.Split(pre, '.') + Strings.Split(zone, '.')
  {
    var pre := name[..|name| - |zone| - 1];
    assert name == pre + "." + zone;
    Strings.SplitAtSeparator(pre, zone, '.');
  }

  /** A name lies under another exactly when its labels end in the other's. */
  lemma UnderIsSuffix(a: seq<string>, b: seq<string>)
    requires Dotless(a) && Dotless(b) && a != [] && b != []
    ensures Under(Strings.Join(b, '.'), Strings.Join(a, '.')) <==> IsSuffix(a, b)
  {
    SplitOfName(a);
    SplitOfName(b);
    if IsSuffix(a, b) {
      SuffixIsUnder(a, b);
    } else if Strings.HasSuffix(Strings.Join(b, '.'), "." + Strings.Join(a, '.')) {
      UnderIsCut(Strings.Join(b, '.'), Strings.Join(a, '.'));
      assert false;
    } else if Strings.Join(b, '.') == Strings.Join(a, '.') {
      assert false;
    }
  }

  // ---- reading labels

  function DigitValue(c: char): nat {
    if '0' <= c <= '9' then c as int - '0' as int else 0
  }

  function ParseDec(s: string): nat {
    if s == [] then 0 else 10 * ParseDec(s[..|s| - 1]) + DigitValue(s[|s| - 1])
  }

  lemma {:induction false} ParseUitoa(n: nat)
    ensures ParseDec(Uitoa(n)) == n
  {
    var s := Uitoa(n);
    assert DigitValue(Digit(n % 10)) == n % 10;
    if n < 10 {
      assert s[..0] == [];
    } else {
      ParseUitoa(n / 10);
      assert s[..|s| - 1] == Uitoa(n / 10);
    }
  }

  function HexValue(c: char): nat {
    if '0' <= c <= '9' then c as int - '0' as int else if 'a' <= c <= 'f' then c as int - 'a' as int + 10 else 0
  }

  function ValueOf(v4: bool, text: string): nat {
    if v4 then ParseDec(text) else if |text| == 1 then HexValue(text[0]) else 0
  }

  lemma ValueOfLabel(v4: bool, d: int)
    requires 0 <= d < if v4 then 256 else 16
    ensures ValueOf(v4, LabelOf(v4, d)) == d
  {
    if v4 { ParseUitoa(d); }
  }

  /** The digits that labels stand for, in address order. */
  function Values(v4: bool, ls: seq<string>): (ds: seq<int>)
    ensures |ds| == |ls|
  {
    if ls == [] then [] else Values(v4, ls[1..]) + [ValueOf(v4, ls[0])]
  }

  lemma ValuesCons(v4: bool, l: string, ls: seq<string>)
    ensures Values(v4, [l] + ls) == Values(v4, ls) + [ValueOf(v4, l)]
  {
    assert ([l] + ls)[1..] == ls;
  }

  lemma {:induction false} ValuesOfReversed(v4: bool, ds: seq<int>)
    requires DigitsFit(v4, ds)
    ensures Values(v4, Reversed(v4, ds)) == ds
  {
    if ds != [] {
      var front, last := ds[..|ds| - 1], ds[|ds| - 1];
      ValuesOfReversed(v4, front);
      ValueOfLabel(v4, last);
      ReversedCons(v4, ds);
      ValuesCons(v4, LabelOf(v4, last), Reversed(v4, front));
      assert ds == front + [last];
    }
  }

  // ---- containment is the suffix relation

  lemma ReversedSuffix(v4: bool, a: seq<int>, b: seq<int>)
    requires DigitsFit(v4, a) && DigitsFit(v4, b) && |a| <= |b|
    ensures Reversed(v4, b)[|b| - |a|..] == Reversed(v4, a) <==> b[..|a|] == a
  {
    ReversedDrop(v4, b, |b| - |a|);
    ValuesOfReversed(v4, a);
    ValuesOfReversed(v4, b[..|a|]);
  }

  lemma LabelsSuffix(v4: bool, a: seq<int>, b: seq<int>)
    requires DigitsFit(v4, a) && DigitsFit(v4, b)
    ensures IsSuffix(Labels(v4, a), Labels(v4, b)) <==> |a| <= |b| && b[..|a|] == a
  {
    if |a| <= |b| {
      ReversedSuffix(v4, a, b);
      var k, ra, rb := |b| - |a|, Reversed(v4, a), Reversed(v4, b);
      assert Labels(v4, b)[k..] == rb[k..] + Zone(v4);
      assert (rb[k..] + Zone(v4))[..|a|] == rb[k..] && (ra + Zone(v4))[..|a|] == ra;
    }
  }

  lemma ClasslessHasSlash(d: nat, bits: nat)
    ensures '/' in ClasslessLabel(d, bits) && '.' !in ClasslessLabel(d, bits)
  {
    assert ClasslessLabel(d, bits)[|Uitoa(d)|] == '/';
  }

  lemma NetLabelsDotless(net: Net)
    requires net.bits <= Total(net.ip)
    ensures Dotless(NetLabels(net)) && NetLabels(net) != []
  {
    FixedFits(net);
    LabelsDotless(net.ip.V4?, Fixed(net));
    if Classless(net) {
      LabelsDotless(true, net.ip.v4[..3]);
      ClasslessHasSlash(net.ip.v4[3], net.bits);
    }
  }

  lemma IsSuffixOfCons(a: seq<string>, c: string, b: seq<string>)
    ensures |a| <= |b| ==> (IsSuffix(a, [c] + b) <==> IsSuffix(a, b))
    ensures |a| == |b| + 1 && a[0] != c ==> !IsSuffix(a, [c] + b)
  {
    var all := [c] + b;
    if |a| <= |b| {
      assert all[|all| - |a|..] == b[|b| - |a|..];
    } else if |a| == |b| + 1 {
      assert all[0..][0] == c;
    }
  }

  lemma SuffixUnderClassless(a: seq<int>, d: nat, bits: nat, b: seq<int>)
    requires DigitsFit(true, a) && DigitsFit(true, b) && |b| == 3 && |a| <= 4
    ensures IsSuffix(Labels(true, a), [ClasslessLabel(d, bits)] + Labels(true, b)) <==> |a| <= 3 && b[..|a|] == a
  {
    LabelsSuffix(true, a, b);
    IsSuffixOfCons(Labels(true, a), ClasslessLabel(d, bits), Labels(true, b));
    if |a| == 4 {
      LabelHasNoSlash(true, a[3]);
      ClasslessHasSlash(d, bits);
    }
  }

  lemma QuotientOrder(w: nat, x: nat, y: nat)
    requires w > 0 && x % w == 0 && y % w == 0
    ensures x / w <= y / w <==> x <= y
  {
    assert x == w * (x / w) && y == w * (y / w);
    MulStep(w, y / w, x / w);
    MulStep(w, x / w, y / w);
  }

  lemma CutsFollowPrefix(v4: bool, w: nat, outer: seq<int>, ob: nat, inner: seq<int>, ib: nat)
    requires w > 0 && ob % w == 0 && ib % w == 0 && |outer| == |inner|
    requires ob / w <= |outer| && ib / w <= |inner| && DigitsFit(v4, outer) && DigitsFit(v4, inner)
    ensures IsSuffix(Labels(v4, outer[..ob / w]), Labels(v4, inner[..ib / w]))
      <==> PrefixOf(outer, ob / w, ob, inner, ib)
  {
    LabelsSuffix(v4, outer[..ob / w], inner[..ib / w]);
    QuotientOrder(w, ob, ib);
    if ob <= ib { assert inner[..ib / w][..ob / w] == inner[..ob / w]; }
  }

  lemma ClasslessFollowsPrefix(outer: Net, inner: Net)
    requires Accepted(outer) && Accepted(inner) && OnBoundary(outer) && outer.ip.V4? && Classless(inner)
    ensures IsSuffix(Labels(true, outer.ip.v4[..outer.bits / 8]), NetLabels(inner))
       <==> PrefixOf(outer.ip.v4, outer.bits / 8, outer.bits, inner.ip.v4, inner.bits)
  {
    var n := outer.bits / 8;
    SuffixUnderClassless(outer.ip.v4[..n], inner.ip.v4[3], inner.bits, inner.ip.v4[..3]);
    if n <= 3 { assert inner.ip.v4[..3][..n] == inner.ip.v4[..n]; }
  }

  lemma V6FollowsPrefix(outer: Net, inner: Net)
    requires Accepted(outer) && Accepted(inner) && outer.ip.V6? && inner.ip.V6?
    ensures IsSuffix(NetLabels(outer), NetLabels(inner))
       <==> PrefixOf(Nibbles(outer.ip.v6), outer.bits / 4, outer.bits, Nibbles(inner.ip.v6), inner.bits)
  {
    CutsFollowPrefix(false, 4, Nibbles(outer.ip.v6), outer.bits, Nibbles(inner.ip.v6), inner.bits);
  }

  lemma V4Labels(net: Net)
    requires net.bits <= Total(net.ip) && net.ip.V4? && OnBoundary(net)
    ensures net.bits / 8 <= 4 && NetLabels(net) == Labels(true, net.ip.v4[..net.bits / 8])
  {
  }

  lemma V4FollowsPrefix(outer: Net, inner: Net)
    requires Accepted(outer) && Accepted(inner) && outer.ip.V4? && inner.ip.V4? && OnBoundary(outer)
    ensures IsSuffix(NetLabels(outer), NetLabels(inner))
       <==> PrefixOf(outer.ip.v4, outer.bits / 8, outer.bits, inner.ip.v4, inner.bits)
  {
    V4Labels(outer);
    if Classless(inner) {
      ClasslessFollowsPrefix(outer, inner);
    } else {
      V4Labels(inner);
      CutsFollowPrefix(true, 8, outer.ip.v4, outer.bits, inner.ip.v4, inner.bits);
    }
  }

  lemma DigitsOfV4(ip: IP)
    requires ip.V4?
    ensures Width(ip) == 8 && Digits(ip) == ip.v4
  {
  }

  lemma DigitsOfV6(ip: IP)
    requires ip.V6?
    ensures Width(ip) == 4 && Digits(ip) == Nibbles(ip.v6)
  {
  }

  /** The labels of `inner` end in those of `outer` just when its prefix extends
      the prefix of `outer`. */
  lemma LabelsFollowPrefix(outer: Net, inner: Net)
    requires Accepted(outer) && Accepted(inner) && OnBoundary(outer) && outer.ip.V4? == inner.ip.V4?
    ensures IsSuffix(NetLabels(outer), NetLabels(inner)) <==> Extends(outer, inner)
  {
    if outer.ip.V4? {
      DigitsOfV4(outer.ip);
      DigitsOfV4(inner.ip);
      V4FollowsPrefix(outer, inner);
    } else {
      DigitsOfV6(outer.ip);
      DigitsOfV6(inner.ip);
      V6FollowsPrefix(outer, inner);
    }
  }

  /** For networks of one family, the outer one on an octet or nibble boundary:
      one contains the other exactly when the name of the contained one equals, or
      lies under, the name of the container. */
  lemma ContainmentIsNameSuffix(outer: Net, inner: Net)
    requires Accepted(outer) && Accepted(inner) && OnBoundary(outer)
    requires outer.ip.V4? == inner.ip.V4? && !IsMapped(outer.ip) && !IsMapped(inner.ip)
    ensures Contains(outer, inner) <==> Under(Answer(inner).value, Answer(outer).value)
  {
    AnswerIsLabels(outer);
    AnswerIsLabels(inner);
    NetLabelsDotless(outer);
    NetLabelsDotless(inner);
    UnderIsSuffix(NetLabels(outer), NetLabels(inner));
    LabelsFollowPrefix(outer, inner);
    ContainsIsPrefix(outer, inner);
  }

  // ---- decoding

  function Zeros(n: nat): seq<int> {
    seq(n, _ => 0)
  }

  function Padded(v4: bool, ds: seq<int>, bits: nat): Option<Net> {
    var count := if v4 then 4 else 32;
    if |ds| <= count && DigitsFit(v4, ds) then Some(Net(FromDigits(v4, ds + Zeros(count - |ds|)), bits)) else None
  }

  /** What the labels before the zone stand for. */
  function DecodeHead(v4: bool, head: seq<string>): Option<Net>
    requires head != []
  {
    if v4 && '/' in head[0] then
      var parts := Strings.Split(head[0], '/');
      if |parts| == 2 then Padded(true, Values(true, head[1..]) + [ParseDec(parts[0])], ParseDec(parts[1])) else None
    else Padded(v4, Values(v4, head), (if v4 then 8 else 4) * |head|)
  }

  /** Address and prefix length, from a reverse name. */
  function Decode(name: string): Option<Net> {
    var ls := Strings.Split(name, '.');
    if |ls| < 3 then None
    else
      var head, zone := ls[..|ls| - 2], ls[|ls| - 2..];
      if zone == Zone(true) then DecodeHead(true, head)
      else if zone == Zone(false) then DecodeHead(false, head)
      else None
  }

  lemma ZonesDiffer()
    ensures |Zone(true)| == |Zone(false)| == 2 && Zone(true) != Zone(false)
    ensures Dotless(Zone(true)) && Dotless(Zone(false))
  {
    assert Zone(true)[0] != Zone(false)[0];
    assert '.' !in "in-addr" && '.' !in "arpa" && '.' !in "ip6";
  }

  lemma DecodeName(v4: bool, head: seq<string>)
    requires head != [] && Dotless(head)
    ensures Decode(Strings.Join(head + Zone(v4), '.')) == DecodeHead(v4, head)
  {
    var ls := head + Zone(v4);
    ZonesDiffer();
    SplitOfName(ls);
    assert ls[..|ls| - 2] == head && ls[|ls| - 2..] == Zone(v4);
  }

  lemma MaskClears(w: nat, n: nat, ds: seq<int>, i: nat)
    requires w > 0 && n <= i < |ds| && Valid(ds, w)
    ensures MaskDigits(ds, w, w * n)[i] == 0
  {
    CoveredOnBoundary(w, n, i);
    NoDigit(ds[i], w);
  }

  lemma ZeroTail(w: nat, n: nat, ds: seq<int>)
    requires w > 0 && n <= |ds| && Valid(ds, w) && MaskDigits(ds, w, w * n) == ds
    ensures ds == ds[..n] + Zeros(|ds| - n)
  {
    forall i | n <= i < |ds| ensures ds[i] == 0 {
      MaskClears(w, n, ds, i);
    }
  }

  lemma BaseTail(net: Net, w: nat, n: nat, ds: seq<int>)
    requires IsBase(net) && w == Width(net.ip) && net.bits == w * n && ds == Digits(net.ip) && n <= |ds|
    ensures ds == ds[..n] + Zeros(|ds| - n)
  {
    BaseByDigits(net);
    ZeroTail(w, n, ds);
  }

  /** The digits a base address has beyond its prefix are zero. */
  lemma BaseIsPadded(net: Net)
    requires net.bits <= Total(net.ip) && IsBase(net) && OnBoundary(net)
    ensures Digits(net.ip) == Fixed(net) + Zeros(|Digits(net.ip)| - |Fixed(net)|)
  {
    BaseTail(net, Width(net.ip), FixedLength(net), Digits(net.ip));
  }

  lemma LabelHasNoSlash(v4: bool, d: int)
    requires 0 <= d < if v4 then 256 else 16
    ensures '/' !in LabelOf(v4, d)
  {
    if !v4 {
      assert HEX_DIGITS[d] != '/';
    }
  }

  lemma FromDigitsOf(ip: IP)
    ensures DigitsFit(ip.V4?, Digits(ip)) && FromDigits(ip.V4?, Digits(ip)) == ip
  {
    Pow2Values();
    DigitsInjective(FromDigits(ip.V4?, Digits(ip)), ip);
  }

  lemma PaddedTo(v4: bool, ds: seq<int>, all: seq<int>, bits: nat)
    requires |all| == (if v4 then 4 else 32) && DigitsFit(v4, all)
    requires |ds| <= |all| && all == ds + Zeros(|all| - |ds|)
    ensures Padded(v4, ds, bits) == Some(Net(FromDigits(v4, all), bits))
  {
    forall i | 0 <= i < |ds| ensures ds[i] == all[i] {}
  }

  /** Padding the fixed digits gives the network back. */
  lemma PaddedIsNet(net: Net)
    requires Accepted(net) && OnBoundary(net)
    ensures Padded(net.ip.V4?, Fixed(net), net.bits) == Some(net)
  {
    FromDigitsOf(net.ip);
    BaseIsPadded(net);
    PaddedTo(net.ip.V4?, Fixed(net), Digits(net.ip), net.bits);
  }

  lemma DecodeLabels(v4: bool, ds: seq<int>)
    requires DigitsFit(v4, ds) && ds != []
    ensures Decode(Strings.Join(Labels(v4, ds), '.')) == Padded(v4, ds, (if v4 then 8 else 4) * |ds|)
  {
    ReversedDotless(v4, ds);
    DecodeName(v4, Reversed(v4, ds));
    LabelHasNoSlash(v4, ds[|ds| - 1]);
    ValuesOfReversed(v4, ds);
  }

  lemma FixedCount(net: Net)
    requires net.bits <= Total(net.ip) && net.bits != 0 && OnBoundary(net)
    ensures DigitsFit(net.ip.V4?, Fixed(net)) && Fixed(net) != []
    ensures net.bits == (if net.ip.V4? then 8 else 4) * |Fixed(net)|
  {
    FixedFits(net);
  }

  lemma DecodeBoundary(net: Net)
    requires Accepted(net) && OnBoundary(net)
    ensures DigitsFit(net.ip.V4?, Fixed(net)) && Decode(Strings.Join(Labels(net.ip.V4?, Fixed(net)), '.')) == Some(net)
  {
    FixedCount(net);
    PaddedIsNet(net);
    var ds := Fixed(net);
    DecodeLabels(net.ip.V4?, ds);
  }

  lemma ClasslessParts(d: nat, bits: nat)
    ensures Strings.Split(ClasslessLabel(d, bits), '/') == [Uitoa(d), Uitoa(bits)]
  {
    Strings.SplitAtSeparator(Uitoa(d), Uitoa(bits), '/');
    Strings.SplitWithoutSeparator(Uitoa(d), '/');
    Strings.SplitWithoutSeparator(Uitoa(bits), '/');
  }

  lemma DecodeClasslessHead(o: Octets4, bits: nat)
    requires DigitsFit(true, o[..3])
    ensures DecodeHead(true, [ClasslessLabel(o[3], bits)] + Reversed(true, o[..3])) == Some(Net(V4(o), bits))
  {
    var c, tail := ClasslessLabel(o[3], bits), Reversed(true, o[..3]);
    ValuesOfReversed(true, o[..3]);
    ClasslessHasSlash(o[3], bits);
    ClasslessParts(o[3], bits);
    ParseUitoa(o[3]);
    ParseUitoa(bits);
    assert ([c] + tail)[1..] == tail;
    assert o[..3] + [o[3]] == o && o + Zeros(0) == o;
  }

  lemma DecodeClassless(net: Net)
    requires Classless(net)
    ensures Decode(Strings.Join(NetLabels(net), '.')) == Some(net)
  {
    var o := net.ip.v4;
    var head := [ClasslessLabel(o[3], net.bits)] + Reversed(true, o[..3]);
    ReversedDotless(true, o[..3]);
    ClasslessHasSlash(o[3], net.bits);
    DecodeName(true, head);
    DecodeClasslessHead(o, net.bits);
    assert NetLabels(net) == head + Zone(true);
  }

  /** The name of an accepted network gives the network back. */
  lemma NameDecodes(net: Net)
    requires Accepted(net) && !IsMapped(net.ip)
    ensures Answer(net).Ok? && Decode(Answer(net).value) == Some(net)
  {
    AnswerIsLabels(net);
    if Classless(net) {
      DecodeClassless(net);
    } else {
      DecodeBoundary(net);
    }
  }

  /** A name under in-addr.arpa, cut anywhere, never decodes to an IPv6 network. */
  lemma CutNameIsNoV6(ls: seq<string>, k: nat)
    requires Dotless(ls) && |ls| >= 2 && ls[|ls| - 2..] == Zone(true) && k < |ls|
    ensures var net := Decode(Strings.Join(ls[k..], '.')); net.None? || net.value.ip.V4?
  {
    var rest := ls[k..];
    SplitOfName(rest);
    ZonesDiffer();
    if |rest| >= 3 {
      assert rest[|rest| - 2..] == ls[|ls| - 2..];
    }
  }

  /** The name of an IPv4 address in IPv6 dress, with any prefix, is a name of IPv4. */
  lemma MappedAnswer(net: Net) returns (k: nat)
    requires Accepted(net) && IsMapped(net.ip)
    ensures k < |AddressLabels(net.ip)| && Answer(net) == Ok(Strings.Join(AddressLabels(net.ip)[k..], '.'))
    ensures AddressLabels(net.ip)[|AddressLabels(net.ip)| - 2..] == Zone(true)
  {
    k := Shorter(ToTrim(net), |AddressLabels(net.ip)| - 1);
    var o := To4(net.ip).value;
    assert AddressLabels(net.ip) == Reversed(true, o) + Zone(true);
  }

  /** Which accepted networks can be recovered from their names: all but IPv4 in IPv6
      dress with an explicit prefix, and none of those. */
  lemma DecodesIff(net: Net)
    requires Accepted(net)
    ensures Answer(net).Ok? && (Decode(Answer(net).value) == Some(net) <==> !IsMapped(net.ip))
  {
    if IsMapped(net.ip) {
      var k := MappedAnswer(net);
      AddressLabelsDotless(net.ip);
      CutNameIsNoV6(AddressLabels(net.ip), k);
    } else {
      NameDecodes(net);
    }
  }

  /** Different networks, of either family, have different names. */
  lemma NamesAreDistinct(a: Net, b: Net)
    requires Accepted(a) && Accepted(b) && !IsMapped(a.ip) && !IsMapped(b.ip) && a != b
    ensures Answer(a) != Answer(b)
  {
    NameDecodes(a);
    NameDecodes(b);
  }

  /** A whole address has no bits beyond its mask. */
  lemma WholeAddressAccepted(ip: IP)
    ensures Accepted(Net(ip, Total(ip)))
  {
    BaseIsMultiple(Net(ip, Total(ip)));
    assert Pow2(0) == 1;
  }

  /** Every bare address is accepted, and can be recovered from its name: as an
      IPv4 address if it is one, however it was written. */
  lemma BareAddressDecodes(ip: IP)
    ensures var net := if To4(ip).Some? then Net(V4(To4(ip).value), 32) else Net(ip, 128);
      AnswerTo(Bare(ip)).Ok? && Decode(AnswerTo(Bare(ip)).value) == Some(net)
  {
    var net := if To4(ip).Some? then Net(V4(To4(ip).value), 32) else Net(ip, 128);
    WholeAddressAccepted(net.ip);
    NameDecodes(net);
  }
}
