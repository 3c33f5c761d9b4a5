/** Which networks share their reverse name with another one: IPv4 addresses in
    IPv6 dress are written as octets but cut off nibble by nibble. */
module ArpaCollisions {
  import opened Wrappers
  import opened Arpa
  import opened ArpaNames
  import Strings

  /** An IPv4 address in IPv6 dress. */
  function Dressed(o: Octets4): (x: Octets16)
    ensures IsMapped(V6(x)) && To4(V6(x)) == Some(o)
  {
    [0, 0, 0, 0, 0, 0, 0, 0, 0, 0, 255, 255] + o
  }

  predicate ZeroFrom(s: seq<int>, n: nat) {
    forall i :: n <= i < |s| ==> s[i] == 0
  }

  lemma ZeroTailIsBase(s: seq<int>, n: nat, bits: nat)
    requires ZeroFrom(s, n) && n <= |s| && 8 * n <= bits
    ensures MaskDigits(s, 8, bits) == s
  {
    forall i | 0 <= i < |s| ensures MaskDigits(s, 8, bits)[i] == s[i] {
      if i < n {
        CoveredBeyond(8, n, i, bits);
        FullDigit(s[i], 8);
      }
    }
  }

  lemma BaseIsZeroFrom(o: Octets4, n: nat)
    requires n <= 4 && IsBase(Net(V4(o), 8 * n))
    ensures ZeroFrom(o, n)
  {
    BaseTail(Net(V4(o), 8 * n), 8, n, o);
    ZerosBehind(o, n);
  }

  lemma ZerosBehind(s: seq<int>, n: nat)
    requires n <= |s| && s == s[..n] + Zeros(|s| - n)
    ensures ZeroFrom(s, n)
  {
    forall i | n <= i < |s| ensures s[i] == 0 {
      assert (s[..n] + Zeros(|s| - n))[i] == Zeros(|s| - n)[i - n];
    }
  }

  lemma BoundaryAccepted(net: Net)
    requires 0 < net.bits <= Total(net.ip) && OnBoundary(net)
    requires MaskDigits(Bytes(net.ip), 8, net.bits) == Bytes(net.ip)
    ensures Accepted(net)
  {
  }

  lemma BoundaryAnswer(net: Net, t: nat)
    requires Accepted(net) && !Classless(net) && t == Shorter(ToTrim(net), |AddressLabels(net.ip)| - 1)
    ensures Answer(net) == Ok(Strings.Join(AddressLabels(net.ip)[t..], '.'))
  {
  }

  // ---- names cut after some labels

  /** What is left of the name of an IPv4 address without its first `t` labels. */
  function Cut(o: Octets4, t: nat): string
    requires t <= 5
  {
    Strings.Join(AddressLabels(V4(o))[t..], '.')
  }

  /** It depends on the octets that are left, and from the fifth label on on none. */
  lemma SameCut(o: Octets4, p: Octets4, t: nat)
    requires t <= 5 && (t < 4 ==> o[..4 - t] == p[..4 - t])
    ensures Cut(o, t) == Cut(p, t)
  {
    if t <= 4 {
      LabelsDrop(true, o, t);
      LabelsDrop(true, p, t);
      assert o[..4 - t] == p[..4 - t];
    } else {
      assert AddressLabels(V4(o))[5..] == ["arpa"] == AddressLabels(V4(p))[5..];
    }
  }

  /** The network whose name is that of an IPv4 address without `t` labels. */
  function Plain(o: Octets4, t: nat): Net
    requires t <= 3
  {
    Net(V4(o), 32 - 8 * t)
  }

  lemma PlainFacts(o: Octets4, t: nat)
    requires t <= 3
    ensures var net := Plain(o, t);
      && OnBoundary(net) && ToTrim(net) == t && !Classless(net) && 0 < net.bits <= Total(net.ip)
      && |AddressLabels(net.ip)| == 6
  {
  }

  lemma PlainAnswer(net: Net, t: nat)
    requires net.ip.V4? && Accepted(net) && !Classless(net) && t == ToTrim(net) && |AddressLabels(net.ip)| == 6
    ensures Answer(net) == Ok(Cut(net.ip.v4, t))
  {
    assert net.ip == V4(net.ip.v4);
    BoundaryAnswer(net, t);
  }

  lemma PlainAccepted(o: Octets4, t: nat)
    requires t <= 3 && ZeroFrom(o, 4 - t)
    ensures Accepted(Plain(o, t))
  {
    PlainFacts(o, t);
    ZeroTailIsBase(o, 4 - t, Plain(o, t).bits);
    BoundaryAccepted(Plain(o, t));
  }

  lemma V4Cut(o: Octets4, t: nat)
    requires t <= 3 && ZeroFrom(o, 4 - t)
    ensures Accepted(Plain(o, t)) && Answer(Plain(o, t)) == Ok(Cut(o, t))
  {
    PlainAccepted(o, t);
    PlainFacts(o, t);
    PlainAnswer(Plain(o, t), t);
  }

  /** A dressed address without the last `t` nibbles. */
  function InDress(o: Octets4, t: nat): Net
    requires t <= 32
  {
    Net(V6(Dressed(o)), 128 - 4 * t)
  }

  lemma DressedFacts(o: Octets4, t: nat)
    requires t < 32
    ensures var net := InDress(o, t);
      && OnBoundary(net) && ToTrim(net) == t && !Classless(net) && 0 < net.bits <= Total(net.ip)
      && AddressLabels(net.ip) == AddressLabels(V4(o)) && |AddressLabels(net.ip)| == 6
  {
  }

  /** It is named like the plain one, cut after as many labels as there are nibbles
      left out, up to the last label. */
  lemma DressedAnswer(o: Octets4, t: nat)
    requires t < 32 && Accepted(InDress(o, t))
    ensures Answer(InDress(o, t)) == Ok(Cut(o, Shorter(t, 5)))
  {
    DressedFacts(o, t);
    BoundaryAnswer(InDress(o, t), Shorter(t, 5));
  }

  lemma DressedZeros(o: Octets4, n: nat)
    requires n <= 4 && ZeroFrom(o, n)
    ensures ZeroFrom(Dressed(o), 12 + n)
  {
    var x := Dressed(o);
    forall i | 12 + n <= i < 16 ensures x[i] == 0 { assert x[i] == o[i - 12]; }
  }

  lemma DressedAccepted(o: Octets4, n: nat, t: nat)
    requires n <= 4 && ZeroFrom(o, n) && t + 2 * n <= 8
    ensures Accepted(InDress(o, t))
  {
    DressedFacts(o, t);
    DressedZeros(o, n);
    ZeroTailIsBase(Dressed(o), 12 + n, InDress(o, t).bits);
    BoundaryAccepted(InDress(o, t));
  }

  // ---- shared names

  lemma PlainIsZeroFrom(o: Octets4, t: nat)
    requires t <= 3 && Accepted(Plain(o, t))
    ensures ZeroFrom(o, 4 - t)
  {
    assert Plain(o, t) == Net(V4(o), 8 * (4 - t));
    BaseIsZeroFrom(o, 4 - t);
  }

  ghost predicate Share(a: Net, b: Net) {
    a != b && Accepted(a) && Accepted(b) && Answer(a) == Answer(b)
  }

  lemma SharedCut(o: Octets4, p: Octets4, t: nat)
    requires t <= 3 && Accepted(InDress(o, t)) && ZeroFrom(p, 4 - t) && o[..4 - t] == p[..4 - t]
    ensures Share(InDress(o, t), Plain(p, t)) && Share(Plain(p, t), InDress(o, t))
  {
    DressedAnswer(o, t);
    V4Cut(p, t);
    SameCut(o, p, t);
  }

  /** Every plain network on a label boundary shares its name with a dressed one. */
  lemma PlainSharesName(o: Octets4, t: nat)
    requires t <= 3 && Accepted(Plain(o, t))
    ensures Share(Plain(o, t), InDress(o, t))
  {
    PlainIsZeroFrom(o, t);
    DressedAccepted(o, 4 - t, t);
    SharedCut(o, o, t);
  }

  lemma Zeroed(o: Octets4, t: nat) returns (p: Octets4)
    requires t <= 4
    ensures ZeroFrom(p, 4 - t) && o[..4 - t] == p[..4 - t]
  {
    p := o[..4 - t] + Zeros(t);
  }

  /** The dressed ones without an octet in their names, "in-addr.arpa" or "arpa", share
      them among themselves. */
  lemma DressedShareAmongThemselves(o: Octets4, t: nat) returns (p: Octets4, u: nat)
    requires 4 <= t < 32 && Accepted(InDress(o, t))
    ensures u < 32 && Share(InDress(o, t), InDress(p, u))
  {
    if t == 4 {
      p := OtherFirst(o);
      u := t;
      DressedAccepted(p, 1, u);
    } else {
      p := Zeroed(o, 4);
      u := if t == 8 then 7 else 8;
      DressedAccepted(p, 0, u);
    }
    SharedZone(o, t, p, u);
  }

  lemma OtherFirst(o: Octets4) returns (p: Octets4)
    ensures ZeroFrom(p, 1) && Dressed(p) != Dressed(o)
  {
    p := [if o[0] == 0 then 1 else 0, 0, 0, 0];
    assert Dressed(p)[12] == p[0] && Dressed(o)[12] == o[0];
  }

  lemma SharedZone(o: Octets4, t: nat, p: Octets4, u: nat)
    requires 4 <= t < 32 && 4 <= u < 32 && Shorter(t, 5) == Shorter(u, 5) && (t != u || Dressed(o) != Dressed(p))
    requires Accepted(InDress(o, t)) && Accepted(InDress(p, u))
    ensures Share(InDress(o, t), InDress(p, u))
  {
    DressedAnswer(o, t);
    DressedAnswer(p, u);
    SameCut(o, p, Shorter(t, 5));
  }

  lemma Undressed(x: Octets16)
    requires IsMapped(V6(x))
    ensures x == Dressed(x[12..])
  {
    assert x == x[..12] + x[12..];
  }

  lemma DressedShares(o: Octets4, t: nat) returns (other: Net)
    requires t < 32 && Accepted(InDress(o, t))
    ensures Share(InDress(o, t), other)
  {
    if t <= 3 {
      var p := Zeroed(o, t);
      SharedCut(o, p, t);
      other := Plain(p, t);
    } else {
      var p, u := DressedShareAmongThemselves(o, t);
      other := InDress(p, u);
    }
  }

  lemma AsPlain(net: Net) returns (o: Octets4, t: nat)
    requires Accepted(net) && net.ip.V4? && !Classless(net)
    ensures t <= 3 && net == Plain(o, t)
  {
    t := LeftOut(32, net.bits, 8);
    o := net.ip.v4;
  }

  lemma LeftOut(total: nat, bits: nat, w: nat) returns (t: nat)
    requires w > 0 && bits <= total && total % w == 0 && bits % w == 0
    ensures w * t == total - bits
  {
    var d := total - bits;
    assert d == w * (total / w - bits / w);
    t := total / w - bits / w;
  }

  lemma AsDressed(net: Net) returns (o: Octets4, t: nat)
    requires Accepted(net) && IsMapped(net.ip)
    ensures t < 32 && net == InDress(o, t)
  {
    Undressed(net.ip.v6);
    t := LeftOut(128, net.bits, 4);
    o := net.ip.v6[12..];
  }

  lemma SharesName(net: Net) returns (other: Net)
    requires Accepted(net) && !Classless(net) && (net.ip.V4? || IsMapped(net.ip))
    ensures Share(net, other)
  {
    if net.ip.V4? {
      var o, t := AsPlain(net);
      PlainSharesName(o, t);
      other := InDress(o, t);
    } else {
      var o, t := AsDressed(net);
      other := DressedShares(o, t);
    }
  }

  // ---- names of one network only

  lemma FirstLabel(ls: seq<string>)
    requires Dotless(ls) && ls != []
    ensures Strings.Split(Strings.Join(ls, '.'), '.')[0] == ls[0]
  {
    SplitOfName(ls);
  }

  lemma {:induction false} ReversedHasNoSlash(ds: seq<int>)
    requires DigitsFit(true, ds)
    ensures forall l :: l in Reversed(true, ds) ==> '/' !in l
  {
    if ds != [] {
      ReversedHasNoSlash(ds[..|ds| - 1]);
      LabelHasNoSlash(true, ds[|ds| - 1]);
    }
  }

  lemma MappedLabelHasNoSlash(ip: IP, k: nat)
    requires IsMapped(ip) && k < |AddressLabels(ip)|
    ensures '/' !in AddressLabels(ip)[k]
  {
    var o := To4(ip).value;
    ReversedHasNoSlash(o);
    var ls := AddressLabels(ip);
    assert ls == Reversed(true, o) + Zone(true);
    assert ls[k] in Reversed(true, o) || ls[k] in Zone(true);
  }

  /** No dressed network has the name of a classless or of a proper IPv6 one. */
  lemma DressedNameDiffers(net: Net, other: Net)
    requires Accepted(net) && Accepted(other) && IsMapped(other.ip)
    requires Classless(net) || (net.ip.V6? && !IsMapped(net.ip))
    ensures Answer(other) != Answer(net)
  {
    var k := MappedAnswer(other);
    var rest := AddressLabels(other.ip)[k..];
    AddressLabelsDotless(other.ip);
    NameDecodes(net);
    if net.ip.V6? {
      CutNameIsNoV6(AddressLabels(other.ip), k);
    } else {
      AnswerIsLabels(net);
      NetLabelsDotless(net);
      FirstLabel(NetLabels(net));
      FirstLabel(rest);
      ClasslessHasSlash(net.ip.v4[3], net.bits);
      MappedLabelHasNoSlash(other.ip, k);
    }
  }

  /** Which accepted networks have a name of their own: the classless ones and those
      of IPv6, without IPv4 in IPv6 dress.  No decoder recovers any other. */
  lemma NameIsUniqueIff(net: Net)
    requires Accepted(net)
    ensures (forall other :: Accepted(other) && Answer(other) == Answer(net) ==> other == net)
       <==> Classless(net) || (net.ip.V6? && !IsMapped(net.ip))
  {
    if Classless(net) || (net.ip.V6? && !IsMapped(net.ip)) {
      forall other | Accepted(other) && Answer(other) == Answer(net) ensures other == net {
        if IsMapped(other.ip) {
          DressedNameDiffers(net, other);
        } else if other != net {
          NamesAreDistinct(net, other);
        }
      }
    } else {
      var other := SharesName(net);
    }
  }

  /** A dressed /(128 - 4t) has the name of a plain /(32 - 8t), if the octets that
      the latter leaves out are zero: sixteen addresses that of a /24, and so on. */
  lemma MappedPrefixCollides(x: Octets16, t: nat)
    requires IsMapped(V6(x)) && t <= 3 && ZeroFrom(x, 16 - t)
    ensures Accepted(Net(V6(x), 128 - 4 * t)) && Accepted(Net(V4(x[12..]), 32 - 8 * t))
    ensures Answer(Net(V6(x), 128 - 4 * t)) == Answer(Net(V4(x[12..]), 32 - 8 * t))
  {
    var o: Octets4 := x[12..];
    Undressed(x);
    assert ZeroFrom(o, 4 - t) by { assert forall i :: 0 <= i < 4 ==> o[i] == x[12 + i]; }
    DressedAccepted(o, 4 - t, t);
    SharedCut(o, o, t);
    assert InDress(o, t) == Net(V6(x), 128 - 4 * t);
  }

  // ---- the names as they are written

  predicate IsDigit(v4: bool, d: int) {
    0 <= d < if v4 then 256 else 16
  }

  lemma Reversed3(v4: bool, a: int, b: int, c: int)
    requires IsDigit(v4, a) && IsDigit(v4, b) && IsDigit(v4, c)
    ensures DigitsFit(v4, [a, b, c])
    ensures Reversed(v4, [a, b, c]) == [LabelOf(v4, c), LabelOf(v4, b), LabelOf(v4, a)]
  {
    ReversedCons(v4, [a, b, c]);
    assert [a, b, c][..2] == [a, b];
    ReversedCons(v4, [a, b]);
    assert [a, b][..1] == [a];
    ReversedCons(v4, [a]);
    assert [a][..0] == [];
  }

  lemma Reversed4(v4: bool, a: int, b: int, c: int, d: int)
    requires IsDigit(v4, a) && IsDigit(v4, b) && IsDigit(v4, c) && IsDigit(v4, d)
    ensures DigitsFit(v4, [a, b, c, d])
    ensures Reversed(v4, [a, b, c, d]) == [LabelOf(v4, d), LabelOf(v4, c), LabelOf(v4, b), LabelOf(v4, a)]
  {
    ReversedCons(v4, [a, b, c, d]);
    assert [a, b, c, d][..3] == [a, b, c];
    Reversed3(v4, a, b, c);
  }

  /** The zones are written "in-addr.arpa" and "ip6.arpa". */
  lemma ZoneText(v4: bool)
    ensures Strings.Join(Zone(v4), '.') == if v4 then "in-addr.arpa" else "ip6.arpa"
  {
    assert Zone(v4)[1..] == ["arpa"];
    assert Strings.Join(["arpa"], '.') == "arpa";
  }

  lemma ThreeText(v4: bool, x: string, y: string, z: string)
    ensures Strings.Join([x, y, z] + Zone(v4), '.')
         == x + "." + (y + "." + (z + "." + Strings.Join(Zone(v4), '.')))
  {
    assert [x, y, z] + Zone(v4) == [x] + ([y] + ([z] + Zone(v4)));
    JoinCons(z, Zone(v4));
    JoinCons(y, [z] + Zone(v4));
    JoinCons(x, [y] + ([z] + Zone(v4)));
  }

  /** A /24 is named after its first three octets in decimal, the third one first. */
  lemma Slash24Text(net: Net)
    requires Accepted(net) && net.ip.V4? && net.bits == 24
    ensures var o := net.ip.v4;
      Answer(net) == Ok(Uitoa(o[2]) + "." + (Uitoa(o[1]) + "." + (Uitoa(o[0]) + "." + "in-addr.arpa")))
  {
    var o := net.ip.v4;
    AnswerIsLabels(net);
    assert Fixed(net) == [o[0], o[1], o[2]];
    Reversed3(true, o[0], o[1], o[2]);
    ThreeText(true, Uitoa(o[2]), Uitoa(o[1]), Uitoa(o[0]));
    ZoneText(true);
  }

  /** A /25 to /31 has its last octet and prefix length, with a slash between them,
      in front of the name of the /24. */
  lemma ClasslessText(net: Net)
    requires Accepted(net) && net.ip.V4? && 25 <= net.bits < 32
    ensures var o := net.ip.v4;
      Answer(net) == Ok(Uitoa(o[3]) + "/" + Uitoa(net.bits) + "."
                        + (Uitoa(o[2]) + "." + (Uitoa(o[1]) + "." + (Uitoa(o[0]) + "." + "in-addr.arpa"))))
  {
    var o := net.ip.v4;
    AnswerIsLabels(net);
    assert o[..3] == [o[0], o[1], o[2]];
    Reversed3(true, o[0], o[1], o[2]);
    ThreeText(true, Uitoa(o[2]), Uitoa(o[1]), Uitoa(o[0]));
    JoinCons(ClasslessLabel(o[3], net.bits), [Uitoa(o[2]), Uitoa(o[1]), Uitoa(o[0])] + Zone(true));
    ZoneText(true);
  }

  lemma FirstNibbles(net: Net)
    requires net.ip.V6? && net.bits == 16
    ensures var o := net.ip.v6;
      Fixed(net) == [o[0] / 16, o[0] % 16, o[1] / 16, o[1] % 16]
  {
    var o := net.ip.v6;
    var n := Nibbles(o);
    assert n[2 * 0] == o[0] / 16 && n[2 * 0 + 1] == o[0] % 16;
    assert n[2 * 1] == o[1] / 16 && n[2 * 1 + 1] == o[1] % 16;
    assert Fixed(net) == n[..4] == [n[0], n[1], n[2], n[3]];
  }

  lemma FourNibbles(a: int, b: int, c: int, d: int)
    requires IsDigit(false, a) && IsDigit(false, b) && IsDigit(false, c) && IsDigit(false, d)
    ensures DigitsFit(false, [a, b, c, d])
    ensures Strings.Join(Labels(false, [a, b, c, d]), '.')
         == [HexDigit(d)] + "." + ([HexDigit(c)] + "." + ([HexDigit(b)] + "." + ([HexDigit(a)] + "." + "ip6.arpa")))
  {
    Reversed4(false, a, b, c, d);
    HexText(a);
    HexText(b);
    HexText(c);
    HexText(d);
    var w, x, y, z := [HexDigit(d)], [HexDigit(c)], [HexDigit(b)], [HexDigit(a)];
    assert Labels(false, [a, b, c, d]) == [w] + ([x, y, z] + Zone(false));
    JoinCons(w, [x, y, z] + Zone(false));
    ThreeText(false, x, y, z);
    ZoneText(false);
  }

  /** An IPv6 /16 is named after its first four nibbles in hexadecimal, last one first. */
  lemma Slash16Text(net: Net)
    requires Accepted(net) && net.ip.V6? && !IsMapped(net.ip) && net.bits == 16
    ensures var o := net.ip.v6;
      Answer(net) == Ok([HexDigit(o[1] % 16)] + "." + ([HexDigit(o[1] / 16)] + "."
                        + ([HexDigit(o[0] % 16)] + "." + ([HexDigit(o[0] / 16)] + "." + "ip6.arpa"))))
  {
    var o := net.ip.v6;
    AnswerIsLabels(net);
    FirstNibbles(net);
    FourNibbles(o[0] / 16, o[0] % 16, o[1] / 16, o[1] % 16);
  }

  function HexDigit(d: int): char
    requires 0 <= d < 16
  {
    if d < 10 then '0' + d as char else 'a' + (d - 10) as char
  }

  lemma HexText(d: int)
    requires 0 <= d < 16
    ensures LabelOf(false, d) == [HexDigit(d)]
  {
  }
}
