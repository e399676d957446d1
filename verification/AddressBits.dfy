/**
 * src/ipAddr.ts:77-120 and src/store.ts:704-773 in terms of the address texts alone: the bits of a point are the bits
 * of the dotted octets, or of the words of the IPv6 text, most significant first, and a prefix covers the addresses
 * that begin with its first bits.
 */
module AddressBits {
  import opened Prelude
  import opened Text
  import opened IpText
  import opened Canonical
  import opened Ranges
  import opened Prefixes

  // ---------- Bits of numbers made of groups ----------

  lemma HalfOf(a: nat, o: nat, n: nat)
    requires n > 0
    ensures (a * Pow2(n) + o) / 2 == a * Pow2(n - 1) + o / 2 && (a * Pow2(n) + o) % 2 == o % 2
  {
    var p := Pow2(n - 1);
    assert Pow2(n) == 2 * p;
    assert a * (2 * p) == 2 * (a * p);
  }

  lemma {:induction false} HighPart(a: nat, o: nat, n: nat)
    requires o < Pow2(n)
    ensures Shift(a * Pow2(n) + o, n) == a
  {
    if n > 0 {
      HalfOf(a, o, n);
      HighPart(a, o / 2, n - 1);
    } else {
      assert a * Pow2(0) == a;
    }
  }

  lemma {:induction false} LowBit(a: nat, o: nat, n: nat, k: nat)
    requires k < n
    ensures Bit(a * Pow2(n) + o, k) == Bit(o, k)
  {
    HalfOf(a, o, n);
    if k > 0 {
      LowBit(a, o / 2, n - 1, k - 1);
    }
  }

  lemma {:induction false} ShiftTwice(v: nat, n: nat, k: nat)
    ensures Shift(v, n + k) == Shift(Shift(v, n), k)
  {
    if n > 0 {
      ShiftTwice(v / 2, n - 1, k);
    }
  }

  lemma HighBit(a: nat, o: nat, n: nat, k: nat)
    requires o < Pow2(n)
    ensures Bit(a * Pow2(n) + o, n + k) == Bit(a, k)
  {
    HighPart(a, o, n);
    ShiftTwice(a * Pow2(n) + o, n, k);
  }

  /** The number that groups of n bits make, first group most significant. */
  function Number(ws: seq<nat>, n: nat): nat {
    if ws == [] then 0 else Number(ws[..|ws| - 1], n) * Pow2(n) + ws[|ws| - 1]
  }

  /** m groups of n bits. */
  function Place(n: nat, m: nat): nat {
    if m == 0 then 0 else n + Place(n, m - 1)
  }

  ghost predicate Groups(ws: seq<nat>, n: nat) {
    forall i :: 0 <= i < |ws| ==> ws[i] < Pow2(n)
  }

  lemma {:induction false} NumberBit(ws: seq<nat>, n: nat, i: nat, k: nat)
    requires i < |ws| && k < n && Groups(ws, n)
    ensures Bit(Number(ws, n), Place(n, |ws| - 1 - i) + k) == Bit(ws[i], k)
    decreases |ws|
  {
    var m := |ws| - 1;
    if i == m {
      LowBit(Number(ws[..m], n), ws[m], n, k);
    } else {
      NumberBit(ws[..m], n, i, k);
      HighBit(Number(ws[..m], n), ws[m], n, Place(n, m - 1 - i) + k);
    }
  }

  /** The same for a number given by its groups, at a place given by its value. */
  lemma GroupBit(v: nat, ws: seq<nat>, n: nat, i: nat, k: nat, at: nat)
    requires i < |ws| && k < n && Groups(ws, n) && v == Number(ws, n) && at == Place(n, |ws| - 1 - i) + k
    ensures Bit(v, at) == Bit(ws[i], k)
  {
    NumberBit(ws, n, i, k);
  }

  lemma Places(m: nat)
    requires m < 8
    ensures Place(8, m) == 8 * m && Place(16, m) == 16 * m
  {
    assert Place(8, 2) == 16 && Place(16, 2) == 32;
    assert Place(8, 4) == 32 && Place(16, 4) == 64;
    assert Place(8, 6) == 48 && Place(16, 6) == 96;
  }

  // ---------- IPv4 ----------

  /** One to three decimal digits, by their places, of a number up to 255. */
  ghost predicate OctetText(p: string, v: nat) {
    && 1 <= |p| <= 3 && v <= 255 && (forall i :: 0 <= i < |p| ==> '0' <= p[i] <= '9')
    && var d := (i: int) requires 0 <= i < |p| => p[i] as int - '0' as int;
    v == if |p| == 1 then d(0) else if |p| == 2 then 10 * d(0) + d(1) else 100 * d(0) + 10 * d(1) + d(2)
  }

  /** a.b.c.d with these four octets. */
  ghost predicate Dotted(ip: string, os: seq<nat>) {
    && |os| == 4
    && exists a, b, c, d ::
         && ip == a + ['.'] + b + ['.'] + c + ['.'] + d
         && OctetText(a, os[0]) && OctetText(b, os[1]) && OctetText(c, os[2]) && OctetText(d, os[3])
  }

  lemma OctetTextIs(p: string, v: nat)
    ensures OctetText(p, v) <==> IsOctet(p) && Decimal(p) == v
  {
    if 1 <= |p| <= 3 {
      assert Decimal(p[..0]) == 0;
      assert p[..1][..0] == p[..0];
      if |p| >= 2 {
        assert p[..2][..1] == p[..1];
        assert Decimal(p[..1]) == Digit(p[0]) && Decimal(p[..2]) == 10 * Digit(p[0]) + Digit(p[1]);
      }
      assert p[..|p|] == p;
      assert forall i :: 0 <= i < |p| ==> p[i] in p;
      assert (forall c <- p :: IsDigit(c)) <==> forall i :: 0 <= i < |p| ==> '0' <= p[i] <= '9';
    }
  }

  lemma JoinFour(parts: seq<string>)
    requires |parts| == 4
    ensures Join(parts, '.') == parts[0] + ['.'] + parts[1] + ['.'] + parts[2] + ['.'] + parts[3]
  {
    assert Join(parts[3..], '.') == parts[3];
    assert parts[1..][1..] == parts[2..] && parts[2..][1..] == parts[3..];
    assert Join(parts[2..], '.') == parts[2] + ['.'] + parts[3];
    assert Join(parts[1..], '.') == parts[1] + ['.'] + (parts[2] + ['.'] + parts[3]);
  }

  lemma FourParts(a: string, b: string, c: string, d: string)
    requires IsOctet(a) && IsOctet(b) && IsOctet(c) && IsOctet(d)
    ensures Split(a + ['.'] + b + ['.'] + c + ['.'] + d, '.') == [a, b, c, d]
  {
    var parts := [a, b, c, d];
    JoinFour(parts);
    forall p <- parts ensures '.' !in p {
      assert IsOctet(p);
    }
    SplitJoin(parts, '.');
  }

  lemma FourOctets(ip: string, a: string, b: string, c: string, d: string, os: seq<nat>)
    requires ip == a + ['.'] + b + ['.'] + c + ['.'] + d && |os| == 4
    requires IsOctet(a) && IsOctet(b) && IsOctet(c) && IsOctet(d)
    requires Decimal(a) == os[0] && Decimal(b) == os[1] && Decimal(c) == os[2] && Decimal(d) == os[3]
    ensures IsIPv4(ip) && |Split(ip, '.')| == 4 && forall i :: 0 <= i < 4 ==> IsOctet(Split(ip, '.')[i]) && Decimal(Split(ip, '.')[i]) == os[i]
  {
    FourParts(a, b, c, d);
  }

  /** isIPv4 accepts exactly the dotted texts, and their parts are the octets. */
  lemma DottedParts(ip: string, os: seq<nat>)
    requires Dotted(ip, os)
    ensures IsIPv4(ip) && |Split(ip, '.')| == 4 && forall i :: 0 <= i < 4 ==> IsOctet(Split(ip, '.')[i]) && Decimal(Split(ip, '.')[i]) == os[i]
  {
    var a, b, c, d :|
      && ip == a + ['.'] + b + ['.'] + c + ['.'] + d
      && OctetText(a, os[0]) && OctetText(b, os[1]) && OctetText(c, os[2]) && OctetText(d, os[3]);
    OctetTextIs(a, os[0]);
    OctetTextIs(b, os[1]);
    OctetTextIs(c, os[2]);
    OctetTextIs(d, os[3]);
    FourOctets(ip, a, b, c, d, os);
  }

  lemma IPv4IsDotted(ip: string) returns (os: seq<nat>)
    requires IsIPv4(ip)
    ensures Dotted(ip, os)
  {
    var parts := Split(ip, '.');
    os := [Decimal(parts[0]), Decimal(parts[1]), Decimal(parts[2]), Decimal(parts[3])];
    JoinFour(parts);
    OctetTextIs(parts[0], os[0]);
    OctetTextIs(parts[1], os[1]);
    OctetTextIs(parts[2], os[2]);
    OctetTextIs(parts[3], os[3]);
    assert ip == parts[0] + ['.'] + parts[1] + ['.'] + parts[2] + ['.'] + parts[3];
  }

  lemma {:induction false} OctetsAreNumber(octets: seq<string>, os: seq<nat>)
    requires |octets| == |os| && forall i :: 0 <= i < |os| ==> Decimal(octets[i]) == os[i]
    ensures OctetsNumber(octets) == Number(os, 8)
  {
    if os != [] {
      OctetsAreNumber(octets[..|os| - 1], os[..|os| - 1]);
      EightMore(0);
    }
  }

  lemma OctetsPoint(ip: string, os: seq<nat>)
    requires Dotted(ip, os)
    ensures IpToHex(ip).Some? && HexNumber(IpToHex(ip).value) == Number(os, 8) && Groups(os, 8)
  {
    DottedParts(ip, os);
    OctetsAreNumber(Split(ip, '.'), os);
    OctetsBound(Split(ip, '.'));
    HexIsPoint(OctetsNumber(Split(ip, '.')), false);
    EightMore(0);
  }

  /** The point of a.b.c.d: bit 8 * (3 - i) + k is bit k of the i-th octet. */
  lemma OctetBits(ip: string, os: seq<nat>, i: nat, k: nat)
    requires Dotted(ip, os) && i < 4 && k < 8
    ensures IpToHex(ip).Some? && Bit(HexNumber(IpToHex(ip).value), 8 * (3 - i) + k) == Bit(os[i], k)
  {
    OctetsPoint(ip, os);
    Places(3 - i);
    GroupBit(HexNumber(IpToHex(ip).value), os, 8, i, k, 8 * (3 - i) + k);
  }

  // ---------- IPv6 ----------

  lemma {:induction false} HexConcat(a: string, b: string)
    ensures HexNumber(a + b) == HexNumber(a) * Pow16(|b|) + HexNumber(b)
  {
    if b == "" {
      assert a + b == a;
      assert HexNumber(a) * Pow16(0) == HexNumber(a);
    } else {
      var n := |b| - 1;
      assert (a + b)[..|a + b| - 1] == a + b[..n];
      HexConcat(a, b[..n]);
      ShiftDigit(HexNumber(a), Pow16(n), HexNumber(b[..n]), Digit(b[n]));
    }
  }

  lemma {:induction false} HexIsNumber(hex: string)
    requires |hex| % 4 == 0
    ensures HexNumber(hex) == Number(Words(hex), 16)
    decreases |hex|
  {
    if hex != "" {
      var n := |hex| - 4;
      var front, last := hex[..n], hex[n..];
      assert hex == front + last;
      HexIsNumber(front);
      HexConcat(front, last);
      Pow16IsPow2(4);
      WordsAppend(front, last);
      NumberAppend(Words(front), HexNumber(last), 16);
    }
  }

  lemma WordsAppend(front: string, last: string)
    requires |front| % 4 == 0 && |last| == 4
    ensures Words(front + last) == Words(front) + [HexNumber(last)]
  {
    var m := |front| / 4;
    assert |front| == 4 * m && |front + last| / 4 == m + 1;
    forall i | 0 <= i < m + 1 ensures Words(front + last)[i] == (Words(front) + [HexNumber(last)])[i] {
      FourOf(front, last, m, i);
    }
  }

  lemma FourOf(front: string, last: string, m: nat, i: nat)
    requires |front| == 4 * m && |last| == 4 && i <= m
    ensures (front + last)[4 * i..4 * i + 4] == if i < m then front[4 * i..4 * i + 4] else last
  {
  }

  lemma NumberAppend(ws: seq<nat>, w: nat, n: nat)
    ensures Number(ws + [w], n) == Number(ws, n) * Pow2(n) + w
  {
    assert (ws + [w])[..|ws|] == ws;
  }

  lemma WordsPoint(ip: string, ws: seq<nat>)
    requires Denotes(ip, ws)
    ensures !IsIPv4(ip) && IpToHex(ip).Some? && |ws| == 8 && HexNumber(IpToHex(ip).value) == Number(ws, 16)
    ensures Groups(ws, 16)
  {
    ExpandIsTheAddress(ip, ws);
    DenotesHasColon(ip, ws);
    ExpandLength(ip);
    HexIsNumber(IpToHex(ip).value);
    WordsFit(IpToHex(ip).value);
  }

  /** The point of an IPv6 text: bit 16 * (7 - i) + k is bit k of the i-th word it denotes. */
  lemma WordBits(ip: string, ws: seq<nat>, i: nat, k: nat)
    requires Denotes(ip, ws) && i < 8 && k < 16
    ensures !IsIPv4(ip) && IpToHex(ip).Some? && |ws| == 8 && Bit(HexNumber(IpToHex(ip).value), 16 * (7 - i) + k) == Bit(ws[i], k)
  {
    WordsPoint(ip, ws);
    WordBit(HexNumber(IpToHex(ip).value), ws, i, k);
  }

  lemma WordBit(v: nat, ws: seq<nat>, i: nat, k: nat)
    requires |ws| == 8 && Groups(ws, 16) && v == Number(ws, 16) && i < 8 && k < 16
    ensures Bit(v, 16 * (7 - i) + k) == Bit(ws[i], k)
  {
    Places(7 - i);
    GroupBit(v, ws, 16, i, k, 16 * (7 - i) + k);
  }

  lemma WordsFit(hex: string)
    ensures Groups(Words(hex), 16)
  {
    forall i | 0 <= i < |hex| / 4 ensures Words(hex)[i] < Pow2(16) {
      HexNumberBound(hex[4 * i..4 * i + 4]);
      Pow16IsPow2(4);
    }
  }

  /** A text that isIPv4 and expandIPv6 accept denotes octets or words. */
  lemma ValidDenotes(ip: string) returns (os: seq<nat>, ws: seq<nat>)
    requires IpToHex(ip).Some?
    ensures if IsIPv4(ip) then Dotted(ip, os) else Denotes(ip, ws)
  {
    os, ws := [], [];
    if IsIPv4(ip) {
      os := IPv4IsDotted(ip);
    } else {
      ws := Words(ExpandIPv6(ip).value);
      ExpandIsTheAddress(ip, ws);
    }
  }

  // ---------- Prefixes ----------

  /** Bit k from the front of an address made of groups of n bits. */
  function FrontBit(ws: seq<nat>, n: nat, k: nat): nat
    requires n > 0 && k / n < |ws|
  {
    Bit(ws[k / n], n - 1 - k % n)
  }

  ghost predicate SameBits(ws: seq<nat>, vs: seq<nat>, n: nat, len: int)
    requires n > 0 && len <= n * |ws| && len <= n * |vs|
  {
    forall k :: 0 <= k < len ==> FrontBit(ws, n, k) == FrontBit(vs, n, k)
  }

  /** The first len bits of the two IPv4 texts are the same. */
  ghost predicate SameFront4(a: string, b: string, len: int) {
    && 0 <= len <= 32
    && exists os, ps :: Dotted(a, os) && Dotted(b, ps) && SameBits(os, ps, 8, len)
  }

  ghost predicate SameFront6(a: string, b: string, len: int) {
    && 0 <= len <= 128
    && exists ws, vs :: Denotes(a, ws) && Denotes(b, vs) && |ws| == |vs| == 8 && SameBits(ws, vs, 16, len)
  }

  /** The first len bits of the two addresses are the same, and they are of one family. */
  ghost predicate SameFront(a: string, b: string, len: int) {
    SameFront4(a, b, len) || SameFront6(a, b, len)
  }

  /** Four octets, or eight words. */
  ghost predicate Shape(ws: seq<nat>, n: nat, width: nat) {
    Groups(ws, n) && ((n == 8 && |ws| == 4 && width == 32) || (n == 16 && |ws| == 8 && width == 128))
  }

  lemma FrontPlace(ws: seq<nat>, n: nat, width: nat, k: nat)
    requires Shape(ws, n, width) && k < width
    ensures k / n < |ws| && n - 1 - k % n >= 0 && Place(n, |ws| - 1 - k / n) + (n - 1 - k % n) == width - 1 - k
  {
    Places(|ws| - 1 - k / n);
  }

  lemma FrontOf(v: nat, ws: seq<nat>, n: nat, width: nat, k: nat)
    requires Shape(ws, n, width) && v == Number(ws, n) && k < width
    ensures k / n < |ws| && Bit(v, width - 1 - k) == FrontBit(ws, n, k)
  {
    FrontPlace(ws, n, width, k);
    GroupBit(v, ws, n, k / n, n - 1 - k % n, width - 1 - k);
  }

  lemma LeadingOf(v: nat, ws: seq<nat>, w: nat, vs: seq<nat>, n: nat, width: nat, len: nat)
    requires Shape(ws, n, width) && Shape(vs, n, width) && v == Number(ws, n) && w == Number(vs, n) && len <= width
    ensures SameLeadingBits(w, v, width - len, width) <==> SameBits(ws, vs, n, len)
  {
    forall k | 0 <= k < len ensures (Bit(v, width - 1 - k) == Bit(w, width - 1 - k)) <==> FrontBit(ws, n, k) == FrontBit(vs, n, k) {
      FrontOf(v, ws, n, width, k);
      FrontOf(w, vs, n, width, k);
    }
    if SameBits(ws, vs, n, len) {
      forall p | width - len <= p < width ensures Bit(w, p) == Bit(v, p) {
        assert FrontBit(ws, n, width - 1 - p) == FrontBit(vs, n, width - 1 - p);
      }
    }
  }

  lemma DottedUnique(ip: string, os: seq<nat>, ps: seq<nat>)
    requires Dotted(ip, os) && Dotted(ip, ps)
    ensures os == ps
  {
    DottedParts(ip, os);
    DottedParts(ip, ps);
  }

  lemma DenotesUnique(ip: string, ws: seq<nat>, vs: seq<nat>)
    requires Denotes(ip, ws) && Denotes(ip, vs)
    ensures ws == vs
  {
    ExpandIsTheAddress(ip, ws);
    ExpandIsTheAddress(ip, vs);
  }

  lemma SameFront4Is(a: string, b: string, len: nat)
    requires IsIPv4(a) && IsIPv4(b) && len <= 32
    ensures SameLeadingBits(HexNumber(IpToHex(b).value), HexNumber(IpToHex(a).value), 32 - len, 32) <==> SameFront4(a, b, len)
  {
    var os := IPv4IsDotted(a);
    var ps := IPv4IsDotted(b);
    OctetsPoint(a, os);
    OctetsPoint(b, ps);
    LeadingOf(HexNumber(IpToHex(a).value), os, HexNumber(IpToHex(b).value), ps, 8, 32, len);
    if SameFront4(a, b, len) {
      var xs, ys :| Dotted(a, xs) && Dotted(b, ys) && SameBits(xs, ys, 8, len);
      DottedUnique(a, os, xs);
      DottedUnique(b, ps, ys);
    }
  }

  lemma SameFront6Is(a: string, b: string, len: nat)
    requires !IsIPv4(a) && !IsIPv4(b) && IpToHex(a).Some? && IpToHex(b).Some? && len <= 128
    ensures SameLeadingBits(HexNumber(IpToHex(b).value), HexNumber(IpToHex(a).value), 128 - len, 128) <==> SameFront6(a, b, len)
  {
    var _, ws := ValidDenotes(a);
    var _, vs := ValidDenotes(b);
    WordsPoint(a, ws);
    WordsPoint(b, vs);
    LeadingOf(HexNumber(IpToHex(a).value), ws, HexNumber(IpToHex(b).value), vs, 16, 128, len);
    if SameFront6(a, b, len) {
      var xs, ys :| Denotes(a, xs) && Denotes(b, ys) && |xs| == |ys| == 8 && SameBits(xs, ys, 16, len);
      DenotesUnique(a, ws, xs);
      DenotesUnique(b, vs, ys);
    }
  }

  /** Leading bits of points are front bits of the texts. */
  lemma SameFrontIs(a: string, b: string, len: nat)
    requires IpToHex(a).Some? && IpToHex(b).Some? && IsIPv4(a) == IsIPv4(b) && len <= Width(!IsIPv4(a))
    ensures SameLeadingBits(HexNumber(IpToHex(b).value), HexNumber(IpToHex(a).value), Width(!IsIPv4(a)) - len, Width(!IsIPv4(a)))
            <==> SameFront(a, b, len)
  {
    NotBoth(a);
    if IsIPv4(a) {
      SameFront4Is(a, b, len);
    } else {
      SameFront6Is(a, b, len);
    }
  }

  lemma NotBoth(ip: string)
    ensures (exists os :: Dotted(ip, os)) ==> IsIPv4(ip)
    ensures (exists ws :: Denotes(ip, ws)) ==> !IsIPv4(ip)
  {
    if os :| Dotted(ip, os) {
      DottedParts(ip, os);
    }
    if ws :| Denotes(ip, ws) {
      DenotesHasColon(ip, ws);
    }
  }

  lemma {:induction false} LastSlashIs(addr: string, len: string, end: nat)
    requires '/' !in len && |addr| < end <= |addr + ['/'] + len|
    ensures LastSlash(addr + ['/'] + len, end) == Some(|addr|)
  {
    var prefix := addr + ['/'] + len;
    if end - 1 > |addr| {
      assert prefix[end - 1] == len[end - 2 - |addr|];
      LastSlashIs(addr, len, end - 1);
    }
  }

  /** A prefix is the address and the length around its last slash. */
  lemma PrefixParts(addr: string, len: string)
    requires '/' !in len
    ensures var prefix := addr + ['/'] + len;
            LastSlash(prefix, |prefix|) == Some(|addr|) && prefix[..|addr|] == addr && prefix[|addr| + 1..] == len
  {
    LastSlashIs(addr, len, |addr + ['/'] + len|);
  }

  ghost predicate IsDotted(ip: string) {
    exists os :: Dotted(ip, os)
  }

  ghost predicate IsIPv6Text(ip: string) {
    exists ws :: Denotes(ip, ws)
  }

  lemma Families(ip: string)
    ensures IsIPv4(ip) <==> IsDotted(ip)
    ensures IpToHex(ip).Some? <==> IsDotted(ip) || IsIPv6Text(ip)
    ensures !(IsDotted(ip) && IsIPv6Text(ip))
  {
    NotBoth(ip);
    if IpToHex(ip).Some? {
      var os, ws := ValidDenotes(ip);
    }
    if ws :| Denotes(ip, ws) {
      ExpandIsTheAddress(ip, ws);
    }
  }

  /** prefixToRange accepts address/length if and only if the address is one and the length is an integer that fits it. */
  lemma PrefixIsValid(addr: string, len: string, number: string -> Option<int>)
    requires '/' !in len
    ensures
      var r, n := PrefixToRange(addr + ['/'] + len, number), number(len);
      && (r.Some? <==> n.Some? && 0 <= n.value && ((IsDotted(addr) && n.value <= 32) || (IsIPv6Text(addr) && n.value <= 128)))
      && (r.Some? ==> r.value.prefixLen == n.value && (r.value.isIPv6 <==> IsIPv6Text(addr)))
  {
    PrefixParts(addr, len);
    Families(addr);
  }

  ghost predicate OneFamily(a: string, b: string) {
    (IsDotted(a) && IsDotted(b)) || (IsIPv6Text(a) && IsIPv6Text(b))
  }

  lemma RangeHoldsIn(prefix: string, addr: string, len: string, number: string -> Option<int>, ip: string)
    requires PrefixToRange(prefix, number).Some? && AddressPart(prefix) == addr && OneFamily(addr, ip)
    ensures IpToHex(ip).Some?
    ensures var r := PrefixToRange(prefix, number).value;
            Contains(r, IpToHex(ip).value) <==> SameFront(addr, ip, r.prefixLen)
  {
    Families(addr);
    Families(ip);
    InRangeIsPrefixMatch(prefix, number, ip);
    SameFrontIs(addr, ip, PrefixToRange(prefix, number).value.prefixLen);
  }

  /** Main result: an address is found in the range of address/length if and only if their first length bits are the same. */
  lemma RangeHolds(addr: string, len: string, number: string -> Option<int>, ip: string)
    requires '/' !in len && PrefixToRange(addr + ['/'] + len, number).Some? && OneFamily(addr, ip)
    ensures IpToHex(ip).Some? && number(len).Some?
    ensures Contains(PrefixToRange(addr + ['/'] + len, number).value, IpToHex(ip).value) <==> SameFront(addr, ip, number(len).value)
  {
    PrefixParts(addr, len);
    PrefixIsValid(addr, len, number);
    RangeHoldsIn(addr + ['/'] + len, addr, len, number, ip);
  }

  // ---------- The cache ----------

  /** The stored prefix is address/n, and the address has the first n bits of ip. */
  ghost predicate Covers(prefix: string, number: string -> Option<int>, ip: string, n: int) {
    exists addr, len :: prefix == addr + ['/'] + len && '/' !in len && number(len) == Some(n) && SameFront(addr, ip, n)
  }

  lemma HasSlash(prefix: string, number: string -> Option<int>) returns (addr: string, len: string)
    requires PrefixToRange(prefix, number).Some?
    ensures prefix == addr + ['/'] + len && '/' !in len
  {
    assert LastSlash(prefix, |prefix|).Some?;
    addr, len := AroundSlash(prefix);
  }

  lemma AroundSlash(prefix: string) returns (addr: string, len: string)
    requires LastSlash(prefix, |prefix|).Some?
    ensures prefix == addr + ['/'] + len && '/' !in len
  {
    var slash := LastSlash(prefix, |prefix|).value;
    addr, len := prefix[..slash], prefix[slash + 1..];
    assert prefix[slash + 1..|prefix|] == len;
  }

  lemma OnePrefix(a: string, l: string, addr: string, len: string)
    requires '/' !in l && '/' !in len && a + ['/'] + l == addr + ['/'] + len
    ensures a == addr && l == len
  {
    PrefixParts(a, l);
    PrefixParts(addr, len);
  }

  lemma CoversIs(addr: string, len: string, number: string -> Option<int>, ip: string, n: int)
    requires '/' !in len
    ensures Covers(addr + ['/'] + len, number, ip, n) <==> number(len) == Some(n) && SameFront(addr, ip, n)
  {
    if Covers(addr + ['/'] + len, number, ip, n) {
      var a, l :| addr + ['/'] + len == a + ['/'] + l && '/' !in l && number(l) == Some(n) && SameFront(a, ip, n);
      OnePrefix(a, l, addr, len);
    }
  }

  lemma SameFrontFamily(a: string, b: string, n: int)
    requires SameFront(a, b, n)
    ensures OneFamily(a, b)
  {
  }

  /** A stored row matches an address if and only if its prefix covers it. */
  lemma MatchesIsCovers(prefix: string, row: AsnRow, number: string -> Option<int>, ip: string, n: int)
    requires PrefixToRange(prefix, number) == Some(row.range) && IpToHex(ip).Some?
    ensures Matches(row, ':' in ip, IpToHex(ip).value) && row.range.prefixLen == n <==> Covers(prefix, number, ip, n)
  {
    var addr, len := HasSlash(prefix, number);
    PrefixIsValid(addr, len, number);
    CoversIs(addr, len, number, ip, n);
    MatchFamily(addr, row, ip);
    if OneFamily(addr, ip) {
      RangeHolds(addr, len, number, ip);
    } else if SameFront(addr, ip, n) {
      SameFrontFamily(addr, ip, n);
    }
  }

  lemma MatchFamily(addr: string, row: AsnRow, ip: string)
    requires IpToHex(ip).Some? && (IsDotted(addr) || IsIPv6Text(addr)) && (row.range.isIPv6 <==> IsIPv6Text(addr))
    ensures row.range.isIPv6 == (':' in ip) <==> OneFamily(addr, ip)
  {
    Families(addr);
    Families(ip);
    ColonMeansIPv6(ip);
  }

  /**
   * Main result. getASN answers with a stored prefix that covers the address, has the most bits among those that do, and
   * has not expired; it answers nothing only if no stored prefix covers the address or one with the most bits expired.
   */
  lemma AnswerIsLongestPrefix(rows: map<string, AsnRow>, number: string -> Option<int>, ip: string, now: int, r: Option<AsnAnswer>)
    requires RangesRight(rows, number) && MayAnswer(rows, ip, now, r) && (IsDotted(ip) || IsIPv6Text(ip))
    ensures
      match r
      case Some(a) =>
        && a.prefix in rows && a.info == rows[a.prefix].info && now - a.info.checkedAt <= a.info.ttlSeconds * 1000
        && IsLongestCover(rows, number, ip, a.prefix)
      case None =>
        || (forall q, n :: q in rows ==> !Covers(q, number, ip, n))
        || exists p :: IsLongestCover(rows, number, ip, p) && now - rows[p].info.checkedAt > rows[p].info.ttlSeconds * 1000
  {
    Families(ip);
    var point := IpToHex(ip).value;
    forall q, n | q in rows ensures Covers(q, number, ip, n) <==> Matches(rows[q], ':' in ip, point) && rows[q].range.prefixLen == n {
      MatchesIsCovers(q, rows[q], number, ip, n);
    }
    if !(r == None && forall q <- rows :: !Matches(rows[q], ':' in ip, point)) {
      var p :| IsLongest(rows, ':' in ip, point, p) && r == if Fresh(rows[p].info, now) then Some(AsnAnswer(p, rows[p].info)) else None;
      assert Covers(p, number, ip, rows[p].range.prefixLen);
      assert IsLongestCover(rows, number, ip, p);
    }
  }

  /** A text that is no address gets no answer. */
  lemma NoAddressNoAnswer(rows: map<string, AsnRow>, ip: string, now: int, r: Option<AsnAnswer>)
    requires MayAnswer(rows, ip, now, r) && !IsDotted(ip) && !IsIPv6Text(ip)
    ensures r == None
  {
    Families(ip);
  }

  ghost predicate IsLongestCover(rows: map<string, AsnRow>, number: string -> Option<int>, ip: string, p: string) {
    && p in rows
    && exists n :: Covers(p, number, ip, n) && forall q, m :: q in rows && Covers(q, number, ip, m) ==> m <= n
  }

  ghost predicate ValidPrefix(addr: string, len: string, number: string -> Option<int>) {
    && number(len).Some? && 0 <= number(len).value
    && ((IsDotted(addr) && number(len).value <= 32) || (IsIPv6Text(addr) && number(len).value <= 128))
  }

  lemma SavedRow(rows: map<string, AsnRow>, prefix: string, info: AsnInfo, number: string -> Option<int>)
    ensures
      var saved, range := Saved(rows, prefix, info, number), PrefixToRange(prefix, number);
      && (range.None? ==> saved == rows)
      && (range.Some? ==>
            saved.Keys == rows.Keys + {prefix} && saved[prefix] == AsnRow(if prefix in rows then rows[prefix].range else range.value, info))
      && (forall p <- rows :: p != prefix ==> p in saved && saved[p] == rows[p])
  {
  }

  lemma SavedRanges(rows: map<string, AsnRow>, saved: map<string, AsnRow>, prefix: string, number: string -> Option<int>)
    requires RangesRight(rows, number) && saved.Keys == rows.Keys + {prefix} && PrefixToRange(prefix, number).Some?
    requires saved[prefix].range == if prefix in rows then rows[prefix].range else PrefixToRange(prefix, number).value
    requires forall p <- rows :: p != prefix ==> saved[p] == rows[p]
    ensures RangesRight(saved, number)
  {
  }

  /** saveASN: a valid prefix has the new information afterwards, new or not; nothing else changes. */
  lemma SavedMeans(rows: map<string, AsnRow>, addr: string, len: string, info: AsnInfo, number: string -> Option<int>)
    requires RangesRight(rows, number) && '/' !in len
    ensures
      var prefix, saved := addr + ['/'] + len, Saved(rows, addr + ['/'] + len, info, number);
      && RangesRight(saved, number)
      && (!ValidPrefix(addr, len, number) ==> saved == rows)
      && (ValidPrefix(addr, len, number) ==> saved.Keys == rows.Keys + {prefix} && saved[prefix].info == info)
      && (forall p <- rows :: p != prefix ==> p in saved && saved[p] == rows[p])
  {
    var prefix := addr + ['/'] + len;
    PrefixIsValid(addr, len, number);
    SavedRow(rows, prefix, info, number);
    if ValidPrefix(addr, len, number) {
      SavedRanges(rows, Saved(rows, prefix, info, number), prefix, number);
    }
  }

  /** A text without a slash is no prefix. */
  lemma NoSlashNoPrefix(prefix: string, number: string -> Option<int>)
    requires '/' !in prefix
    ensures PrefixToRange(prefix, number) == None
  {
  }

  // ---------- normalizeIPAddress ----------

  /** Accepted are exactly the dotted texts, which stay as they are, and the texts that denote an IPv6 address. */
  lemma NormalizeAccepts(s: string)
    ensures NormalizeIPAddress(s).Some? <==> IsDotted(s) || IsIPv6Text(s)
    ensures IsDotted(s) ==> NormalizeIPAddress(s) == Some(s)
  {
    Families(s);
    if !IsIPv4(s) && ExpandIPv6(s).Some? {
      ExpandIsTheAddress(s, Words(ExpandIPv6(s).value));
    }
    if ws :| Denotes(s, ws) {
      ExpandIsTheAddress(s, ws);
    }
  }
}
