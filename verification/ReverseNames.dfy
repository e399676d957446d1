/**
 * src/resolver.ts:28-45 and src/dnsWire.ts:28-43: the name that reverseName makes of an address, character by
 * character, and the bytes of the query for it.
 */
module ReverseNames {
  import opened Prelude
  import opened Text
  import opened IpText
  import opened Canonical
  import opened Ranges
  import opened AddressBits
  import opened DnsWire
  import opened DnsMessage
  import opened DnsResponse
  import Prefixes

  // ---------- IPv4 ----------

  /** The octets of a.b.c.d from last to first, as they are written. */
  lemma ReverseOfDotted(a: string, b: string, c: string, d: string)
    requires IsOctet(a) && IsOctet(b) && IsOctet(c) && IsOctet(d)
    ensures ReverseName(a + ['.'] + b + ['.'] + c + ['.'] + d)
         == Some(d + ['.'] + c + ['.'] + b + ['.'] + a + ['.'] + "in-addr" + ['.'] + "arpa")
  {
    var ip := a + ['.'] + b + ['.'] + c + ['.'] + d;
    FourParts(a, b, c, d);
    FourOctets(ip, a, b, c, d, [Decimal(a), Decimal(b), Decimal(c), Decimal(d)]);
    DottedHasNoColon(ip);
    assert ip[|a|] == '.';
    JoinSix(d, c, b, a, "in-addr", "arpa");
  }

  lemma JoinSix(p: string, q: string, r: string, s: string, t: string, u: string)
    ensures Join([p, q, r, s, t, u], '.') == p + ['.'] + q + ['.'] + r + ['.'] + s + ['.'] + t + ['.'] + u
  {
    var parts := [p, q, r, s, t, u];
    JoinFour([r, s, t, u]);
    assert parts[1..][1..] == [r, s, t, u];
    assert Join(parts[1..], '.') == q + ['.'] + Join([r, s, t, u], '.');
    assert Join(parts, '.') == p + ['.'] + Join(parts[1..], '.');
  }

  // ---------- IPv6 ----------

  const HEX: string := "0123456789abcdef"

  /** Four bits of a word, i of them from the low end. */
  function Nibble(w: nat, i: nat): nat
    requires i < 4
  {
    (if i == 0 then w else if i == 1 then w / 0x10 else if i == 2 then w / 0x100 else w / 0x1000) % 0x10
  }

  lemma FourDigits(s: string)
    requires |s| == 4
    ensures HexNumber(s) == 0x1000 * Digit(s[0]) + 0x100 * Digit(s[1]) + 0x10 * Digit(s[2]) + Digit(s[3])
  {
    assert s[..3][..2] == s[..2] && s[..2][..1] == s[..1] && s[..1][..0] == "";
    assert HexNumber(s[..1]) == Digit(s[0]);
    assert HexNumber(s[..2]) == 0x10 * Digit(s[0]) + Digit(s[1]);
    assert HexNumber(s[..3]) == 0x100 * Digit(s[0]) + 0x10 * Digit(s[1]) + Digit(s[2]);
  }

  lemma FourNibbles(n: nat, a: nat, b: nat, c: nat, d: nat)
    requires n == 0x1000 * a + 0x100 * b + 0x10 * c + d && a < 0x10 && b < 0x10 && c < 0x10 && d < 0x10
    ensures Nibble(n, 0) == d && Nibble(n, 1) == c && Nibble(n, 2) == b && Nibble(n, 3) == a
  {
    assert n / 0x10 == 0x100 * a + 0x10 * b + c;
    assert n / 0x100 == 0x10 * a + b;
    assert n / 0x1000 == a;
  }

  lemma NibbleOfText(s: string, i: nat)
    requires |s| == 4 && i < 4
    ensures Nibble(HexNumber(s), i) == Digit(s[3 - i])
  {
    FourDigits(s);
    FourNibbles(HexNumber(s), Digit(s[0]), Digit(s[1]), Digit(s[2]), Digit(s[3]));
  }

  lemma LowerDigitIsHex(c: char)
    requires IsLowerDigit(c)
    ensures c == HEX[Digit(c)]
  {
  }

  /** Digit k of the expansion, counted from its end. */
  lemma DigitOfWords(hex: string, k: nat)
    requires |hex| == 32 && LowerHex(hex) && k < 32
    ensures |Words(hex)| == 8 && hex[31 - k] == HEX[Nibble(Words(hex)[7 - k / 4], k % 4)]
  {
    var w := 7 - k / 4;
    var text := hex[4 * w..4 * w + 4];
    NibbleOfText(text, k % 4);
    assert text[3 - k % 4] == hex[31 - k];
    LowerDigitIsHex(hex[31 - k]);
  }

  /** The digits of the expansion are the four-bit parts of the words. */
  lemma Expanded(ip: string, ws: seq<nat>)
    requires Denotes(ip, ws)
    ensures !IsIPv4(ip) && ':' in ip && ExpandIPv6(ip).Some?
    ensures var hex := ExpandIPv6(ip).value; |hex| == 32 && LowerHex(hex) && Words(hex) == ws
  {
    ExpandIsTheAddress(ip, ws);
    DenotesHasColon(ip, ws);
    ExpandLength(ip);
    Prefixes.PointMeans(ip);
  }

  /** The characters of s from last to first, a dot behind each. */
  ghost predicate Spaced(name: string, s: string) {
    |name| >= 2 * |s| && forall k :: 0 <= k < |s| ==> name[2 * k] == s[|s| - 1 - k] && name[2 * k + 1] == '.'
  }

  lemma SpacedNext(more: string, s: string)
    requires s != "" && Spaced(more, s[..|s| - 1])
    ensures Spaced([s[|s| - 1]] + ['.'] + more, s)
  {
    var n, name := |s| - 1, [s[|s| - 1]] + ['.'] + more;
    forall k | 0 <= k < |s| ensures name[2 * k] == s[|s| - 1 - k] && name[2 * k + 1] == '.' {
      if k > 0 {
        assert name[2 * k] == more[2 * (k - 1)] && name[2 * k + 1] == more[2 * (k - 1) + 1];
        assert s[..n][n - 1 - (k - 1)] == s[|s| - 1 - k];
      }
    }
  }

  lemma JoinFirst(first: string, rest: seq<string>)
    requires rest != []
    ensures Join([first] + rest, '.') == first + ['.'] + Join(rest, '.')
  {
    assert ([first] + rest)[1..] == rest;
  }

  /** Joined one-character labels. */
  lemma {:induction false} JoinNibbles(s: string, tail: seq<string>)
    requires tail != []
    ensures
      var name := Join(ReverseNibbles(s) + tail, '.');
      Spaced(name, s) && |name| == 2 * |s| + |Join(tail, '.')| && name[2 * |s|..] == Join(tail, '.')
  {
    if s == "" {
      assert ReverseNibbles(s) + tail == tail;
    } else {
      var n := |s| - 1;
      var rest := ReverseNibbles(s[..n]) + tail;
      JoinNibbles(s[..n], tail);
      assert ReverseNibbles(s) + tail == [[s[n]]] + rest;
      JoinFirst([s[n]], rest);
      SpacedNext(Join(rest, '.'), s);
      var more := Join(rest, '.');
      assert ([s[n]] + ['.'] + more)[2 * |s|..] == more[2 * n..];
    }
  }

  lemma ReverseIs(ip: string)
    requires ':' in ip && ExpandIPv6(ip).Some?
    ensures ReverseName(ip) == Some(Join(ReverseNibbles(ExpandIPv6(ip).value) + ["ip6", "arpa"], '.'))
  {
  }

  lemma ReverseEnd()
    ensures Join(["ip6", "arpa"], '.') == "ip6.arpa"
  {
    JoinFirst("ip6", ["arpa"]);
    assert ["ip6"] + ["arpa"] == ["ip6", "arpa"];
  }

  lemma ReverseText(ip: string, hex: string)
    requires ':' in ip && ExpandIPv6(ip) == Some(hex) && |hex| == 32
    ensures ReverseName(ip).Some?
    ensures var name := ReverseName(ip).value; Spaced(name, hex) && |name| == 72 && name[64..] == "ip6.arpa"
  {
    ReverseIs(ip);
    JoinNibbles(hex, ["ip6", "arpa"]);
    ReverseEnd();
  }

  lemma DigitInName(name: string, hex: string, ws: seq<nat>, k: nat)
    requires Spaced(name, hex) && |hex| == 32 && LowerHex(hex) && Words(hex) == ws && k < 32
    ensures |ws| == 8 && |name| >= 64 && name[2 * k] == HEX[Nibble(ws[7 - k / 4], k % 4)] && name[2 * k + 1] == '.'
  {
    DigitOfWords(hex, k);
  }

  /** Digit k of the address, counted from its end, at its place in the name. */
  ghost predicate ReverseDigit(name: string, ws: seq<nat>, k: nat) {
    |ws| == 8 && k < 32 && |name| >= 64 && name[2 * k] == HEX[Nibble(ws[7 - k / 4], k % 4)] && name[2 * k + 1] == '.'
  }

  /** The 32 digits of the address from last to first, a dot behind each, and then ip6.arpa. */
  lemma ReverseOfIPv6(ip: string, ws: seq<nat>, k: nat)
    requires Denotes(ip, ws) && k < 32
    ensures ReverseName(ip).Some?
    ensures var name := ReverseName(ip).value; |name| == 72 && name[64..] == "ip6.arpa" && ReverseDigit(name, ws, k)
  {
    Expanded(ip, ws);
    ReverseText(ip, ExpandIPv6(ip).value);
    DigitInName(ReverseName(ip).value, ExpandIPv6(ip).value, ws, k);
  }

  // ---------- The query ----------

  lemma {:induction false} LabelsOnTheWire(labels: seq<string>)
    requires forall i :: 0 <= i < |labels| ==> IsLabel(labels[i])
    ensures EncodeLabels(labels) + [0] == NameBytes(WireName(labels, None))
  {
    if labels != [] {
      LabelsOnTheWire(labels[1..]);
      var l, rest := labels[0], WireName(labels, None).(labels := labels[1..]);
      assert EncodeLabel(l) == LabelBytes(l);
      assert EncodeLabel(l) + EncodeLabels(labels[1..]) + [0] == EncodeLabel(l) + (EncodeLabels(labels[1..]) + [0]);
    }
  }

  /**
   * The query for a valid address: the length of the message in two bytes, and a message with the low 16 bits of the
   * identifier, recursion desired, one question and no record; the question is the reverse name, type 12, class 1.
   */
  lemma QueryOnTheWire(id: nat, ip: string) returns (labels: seq<string>)
    requires IsIPv4(ip) || ExpandIPv6(ip).Some?
    ensures ReverseName(ip) == Some(Join(labels, '.')) && ValidName(WireName(labels, None))
    ensures
      var question := NameBytes(WireName(labels, None)) + Two(12) + Two(1);
      var msg := Two(id % 0x1_0000) + Two(0x0100) + Two(1) + Two(0) + Two(0) + Two(0) + question;
      |msg| < 0x1_0000 && PTRQuery(id, ip) == Some(Two(|msg|) + msg)
  {
    ReverseIsShort(ip);
    labels := ReverseLabels(ip).value;
    forall i | 0 <= i < |labels| ensures IsLabel(labels[i]) {
      assert ShortLabels(labels);
      forall k | 0 <= k < |labels[i]| ensures labels[i][k] as int < 0x100 {
        assert labels[i][k] in labels[i];
      }
    }
    LabelsOnTheWire(labels);
    SplitShort(labels);
    ShortEncoding(labels);
    var qname := EncodeQName(Join(labels, '.'));
    assert qname == NameBytes(WireName(labels, None));
    QueryBytes(id, qname);
  }

  lemma SplitShort(labels: seq<string>)
    requires labels != [] && ShortLabels(labels)
    ensures Split(Join(labels, '.'), '.') == labels
  {
    SplitJoin(labels, '.');
  }

  lemma QueryBytes(id: nat, qname: seq<byte>)
    requires |qname| < 0x8000
    ensures
      var msg := Two(id % 0x1_0000) + Two(0x0100) + Two(1) + Two(0) + Two(0) + Two(0) + (qname + Two(12) + Two(1));
      |msg| < 0x1_0000 && QueryMessage(id, qname) == msg && Frame(QueryMessage(id, qname)) == Two(|msg|) + msg
  {
    var v := id % 0x1_0000;
    assert v / 256 % 256 == v / 256;
    var msg := Two(v) + Two(0x0100) + Two(1) + Two(0) + Two(0) + Two(0) + (qname + Two(12) + Two(1));
    assert Header(id) == Two(v) + Two(0x0100) + Two(1) + Two(0) + Two(0) + Two(0);
    assert QueryMessage(id, qname) == msg;
    assert |msg| / 256 % 256 == |msg| / 256;
  }
}
