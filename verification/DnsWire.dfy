/**
 * src/dnsWire.ts and src/resolver.ts:28-45: names and messages of RFC 1035 as bytes. Lengths 64 to 191, which the
 * standard reserves, are label lengths here, as they are in the code.
 */
module DnsWire {
  import opened Prelude
  import opened Text
  import opened IpText

  type byte = b: int | 0 <= b < 256

  // ---------- reverseName ----------

  /** The digits of s as one-character labels, last first. */
  function ReverseNibbles(s: string): seq<string> {
    if s == "" then [] else [[s[|s| - 1]]] + ReverseNibbles(s[..|s| - 1])
  }

  /** The labels of reverseName, None where it throws. */
  function ReverseLabels(ip: string): Option<seq<string>> {
    if '.' in ip && ':' !in ip then
      var parts := Split(ip, '.');
      if |parts| != 4 then None else Some([parts[3], parts[2], parts[1], parts[0], "in-addr", "arpa"])
    else
      match ExpandIPv6(ip)
      case None => None
      case Some(full) => Some(ReverseNibbles(full) + ["ip6", "arpa"])
  }

  function ReverseName(ip: string): Option<string> {
    match ReverseLabels(ip)
    case None => None
    case Some(labels) => Some(Join(labels, '.'))
  }

  /** The loop of reverseNibblesDotted. */
  method ReverseNibblesDotted(fullHex: string) returns (dotted: string)
    ensures dotted == Join(ReverseNibbles(fullHex), '.')
  {
    var nibbles: seq<string> := [];
    var i := |fullHex|;
    assert fullHex[..|fullHex|] == fullHex;
    while i > 0
      invariant 0 <= i <= |fullHex|
      invariant nibbles + ReverseNibbles(fullHex[..i]) == ReverseNibbles(fullHex)
    {
      i := i - 1;
      assert fullHex[..i + 1][..i] == fullHex[..i];
      assert nibbles + ReverseNibbles(fullHex[..i + 1]) == nibbles + [[fullHex[i]]] + ReverseNibbles(fullHex[..i]);
      nibbles := nibbles + [[fullHex[i]]];
    }
    assert nibbles == ReverseNibbles(fullHex);
    dotted := Join(nibbles, '.');
  }

  // ---------- encodeQName ----------

  /** One label: its length and its characters, each cut to a byte; empty labels are left out. */
  function EncodeLabel(p: string): seq<byte> {
    if p == "" then [] else [|p| % 256] + seq(|p|, i requires 0 <= i < |p| => p[i] as int % 256)
  }

  function EncodeLabels(parts: seq<string>): seq<byte> {
    if parts == [] then [] else EncodeLabel(parts[0]) + EncodeLabels(parts[1..])
  }

  function EncodeQName(name: string): seq<byte> {
    EncodeLabels(Split(name, '.')) + [0]
  }

  lemma EncodeNext(bytes: seq<byte>, parts: seq<string>, k: nat)
    requires k < |parts|
    ensures bytes + EncodeLabels(parts[k..]) == bytes + EncodeLabel(parts[k]) + EncodeLabels(parts[k + 1..])
  {
    assert parts[k..][1..] == parts[k + 1..];
  }

  /** The body of the loop over the labels. */
  method AppendLabel(before: seq<byte>, p: string) returns (bytes: seq<byte>)
    ensures bytes == before + EncodeLabel(p)
  {
    bytes := before;
    if |p| == 0 {
      return;
    }
    bytes := bytes + [|p| % 256];
    for i := 0 to |p|
      invariant bytes == before + EncodeLabel(p)[..i + 1]
    {
      bytes := bytes + [p[i] as int % 256];
    }
    assert EncodeLabel(p)[..|p| + 1] == EncodeLabel(p);
  }

  method ComputeEncodeQName(name: string) returns (bytes: seq<byte>)
    ensures bytes == EncodeQName(name)
  {
    var parts := Split(name, '.');
    bytes := [];
    for k := 0 to |parts|
      invariant bytes + EncodeLabels(parts[k..]) == EncodeLabels(parts)
    {
      EncodeNext(bytes, parts, k);
      bytes := AppendLabel(bytes, parts[k]);
    }
    assert EncodeLabels(parts[|parts|..]) == [];
    bytes := bytes + [0];
  }

  // ---------- skipName ----------

  function SkipName(buf: seq<byte>, o: nat): nat
    decreases |buf| - o
  {
    if o >= |buf| then o
    else if buf[o] == 0 then o + 1
    else if buf[o] >= 0xc0 then o + 2
    else SkipName(buf, o + 1 + buf[o])
  }

  method ComputeSkipName(buf: seq<byte>, offset: nat) returns (o: nat)
    ensures o == SkipName(buf, offset)
  {
    o := offset;
    while o < |buf|
      invariant SkipName(buf, o) == SkipName(buf, offset)
      decreases |buf| - o
    {
      var len := buf[o];
      if len == 0 {
        return o + 1;
      }
      if len >= 0xc0 {
        return o + 2;
      }
      o := o + 1 + len;
    }
  }

  // ---------- decodeName ----------

  const MAX_JUMPS: nat := 20

  /** The two bytes of a pointer; a missing second byte reads as 0. */
  function Target(buf: seq<byte>, o: nat): nat
    requires o < |buf|
  {
    var high: int, low: int := buf[o] % 64, if o + 1 < |buf| then buf[o + 1] else 0;
    high * 256 + low
  }

  /** String.fromCharCode of the bytes behind the length byte at o, cut where the message ends. */
  function LabelAt(buf: seq<byte>, o: nat): string
    requires o < |buf|
  {
    seq(Min(buf[o], |buf| - o - 1), i requires 0 <= i < Min(buf[o], |buf| - o - 1) => buf[o + 1 + i] as char)
  }

  datatype Decoded = Decoded(labels: seq<string>, next: nat)

  /** The labels from o on, and where the encoding ends, after `jumps` pointers; None when a pointer is one too many. */
  function DecodeFrom(buf: seq<byte>, o: nat, jumps: nat): (r: Option<Decoded>)
    requires jumps <= MAX_JUMPS + 1
    decreases MAX_JUMPS + 1 - jumps, |buf| - o
  {
    if o >= |buf| then Some(Decoded([], o))
    else if buf[o] == 0 then Some(Decoded([], o + 1))
    else if buf[o] >= 0xc0 then
      if jumps > MAX_JUMPS then None
      else
        match DecodeFrom(buf, Target(buf, o), jumps + 1)
        case None => None
        case Some(d) => Some(Decoded(d.labels, o + 2))
    else
      match DecodeFrom(buf, o + 1 + buf[o], jumps)
      case None => None
      case Some(d) => Some(Decoded([LabelAt(buf, o)] + d.labels, d.next))
  }

  function DecodeLabels(buf: seq<byte>, offset: nat): Option<Decoded> {
    DecodeFrom(buf, offset, 0)
  }

  /** What the loop still has to add to what it has collected. */
  ghost predicate Continues(whole: Option<Decoded>, labels: seq<string>, next: Option<nat>, rest: Option<Decoded>) {
    match rest
    case None => whole == None
    case Some(d) => whole == Some(Decoded(labels + d.labels, next.GetOr(d.next)))
  }

  lemma NothingCollected(whole: Option<Decoded>)
    ensures Continues(whole, [], None, whole)
  {
    if whole.Some? {
      assert [] + whole.value.labels == whole.value.labels;
    }
  }

  lemma OneMore(whole: Option<Decoded>, labels: seq<string>, next: Option<nat>, first: string, rest: Option<Decoded>)
    requires Continues(whole, labels, next, match rest case None => None case Some(d) => Some(Decoded([first] + d.labels, d.next)))
    ensures Continues(whole, labels + [first], next, rest)
  {
    if rest.Some? {
      assert labels + ([first] + rest.value.labels) == labels + [first] + rest.value.labels;
    }
  }

  /** The loop of decodeName. It ends although pointers may go anywhere: at most 21 are followed. */
  method ComputeDecodeName(buf: seq<byte>, offset: nat) returns (r: Option<(string, nat)>)
    ensures r == match DecodeLabels(buf, offset) case None => None case Some(d) => Some((Join(d.labels, '.'), d.next))
  {
    var labels: seq<string> := [];
    var o: nat, jumps: nat := offset, 0;
    var next: Option<nat> := None;
    NothingCollected(DecodeLabels(buf, offset));
    while o < |buf|
      invariant jumps <= MAX_JUMPS + 1
      invariant Continues(DecodeLabels(buf, offset), labels, next, DecodeFrom(buf, o, jumps))
      decreases MAX_JUMPS + 1 - jumps, |buf| - o
    {
      var len := buf[o];
      if len == 0 {
        if next.None? {
          next := Some(o + 1);
        }
        assert labels + [] == labels;
        return Some((Join(labels, '.'), next.value));
      }
      if len >= 0xc0 {
        if jumps > MAX_JUMPS {
          return None;
        }
        jumps := jumps + 1;
        if next.None? {
          next := Some(o + 2);
        }
        o := Target(buf, o);
        continue;
      }
      OneMore(DecodeLabels(buf, offset), labels, next, LabelAt(buf, o), DecodeFrom(buf, o + 1 + len, jumps));
      labels := labels + [LabelAt(buf, o)];
      o := o + 1 + len;
    }
    assert labels + [] == labels;
    return Some((Join(labels, '.'), next.GetOr(o)));
  }

  // ---------- What decodeName computes ----------

  /** Whenever decodeName returns, its next is where skipName stops. */
  lemma {:induction false} NextIsSkip(buf: seq<byte>, o: nat, jumps: nat)
    requires jumps <= MAX_JUMPS + 1 && DecodeFrom(buf, o, jumps).Some?
    ensures DecodeFrom(buf, o, jumps).value.next == SkipName(buf, o)
    decreases |buf| - o
  {
    if o < |buf| && 0 < buf[o] < 0xc0 {
      NextIsSkip(buf, o + 1 + buf[o], jumps);
    }
  }

  /** Reading on from o comes across at least k pointers. */
  ghost predicate Meets(buf: seq<byte>, o: nat, k: nat)
    decreases k, |buf| - o
  {
    if k == 0 then true
    else if o >= |buf| || buf[o] == 0 then false
    else if buf[o] >= 0xc0 then Meets(buf, Target(buf, o), k - 1)
    else Meets(buf, o + 1 + buf[o], k)
  }

  lemma {:induction false} FailsOnPointers(buf: seq<byte>, o: nat, jumps: nat)
    requires jumps <= MAX_JUMPS + 1
    ensures DecodeFrom(buf, o, jumps).None? <==> Meets(buf, o, MAX_JUMPS + 2 - jumps)
    decreases MAX_JUMPS + 1 - jumps, |buf| - o
  {
    if o < |buf| && buf[o] != 0 {
      if buf[o] < 0xc0 {
        FailsOnPointers(buf, o + 1 + buf[o], jumps);
      } else if jumps <= MAX_JUMPS {
        FailsOnPointers(buf, Target(buf, o), jumps + 1);
      } else {
        assert MAX_JUMPS + 2 - jumps == 1 && Meets(buf, Target(buf, o), 0);
      }
    }
  }

  /** decodeName throws if and only if it would have to follow a 22nd pointer. */
  lemma ThrowsOnPointer22(buf: seq<byte>, offset: nat)
    ensures DecodeLabels(buf, offset).None? <==> Meets(buf, offset, 22)
  {
    FailsOnPointers(buf, offset, 0);
  }

  lemma {:induction false} FewerJumps(buf: seq<byte>, o: nat, i: nat, j: nat)
    requires i <= j <= MAX_JUMPS + 1 && DecodeFrom(buf, o, j).Some?
    ensures DecodeFrom(buf, o, i) == DecodeFrom(buf, o, j)
    decreases MAX_JUMPS + 1 - j, |buf| - o
  {
    if o < |buf| && buf[o] != 0 {
      if buf[o] >= 0xc0 {
        FewerJumps(buf, Target(buf, o), i + 1, j + 1);
      } else {
        FewerJumps(buf, o + 1 + buf[o], i, j);
      }
    }
  }

  /** These labels stand one behind the other from o to p. */
  ghost predicate LabelsBetween(buf: seq<byte>, o: nat, p: nat, labels: seq<string>)
    decreases |labels|
  {
    if labels == [] then o == p
    else o < |buf| && 0 < buf[o] < 0xc0 && labels[0] == LabelAt(buf, o) && LabelsBetween(buf, o + 1 + buf[o], p, labels[1..])
  }

  lemma {:induction false} LabelsThenRest(buf: seq<byte>, o: nat, p: nat, labels: seq<string>, jumps: nat)
    requires jumps <= MAX_JUMPS + 1 && LabelsBetween(buf, o, p, labels)
    ensures Continues(DecodeFrom(buf, o, jumps), labels, None, DecodeFrom(buf, p, jumps))
    decreases |labels|
  {
    if labels != [] {
      LabelsThenRest(buf, o + 1 + buf[o], p, labels[1..], jumps);
      assert labels == [labels[0]] + labels[1..];
      if DecodeFrom(buf, p, jumps).Some? {
        var d := DecodeFrom(buf, p, jumps).value;
        assert [labels[0]] + (labels[1..] + d.labels) == labels + d.labels;
      }
    } else if DecodeFrom(buf, p, jumps).Some? {
      assert [] + DecodeFrom(buf, p, jumps).value.labels == DecodeFrom(buf, p, jumps).value.labels;
    }
  }

  /** A name that ends in a pointer is the labels before it and then the name at its target (section 4.1.4 of RFC 1035). */
  lemma PointerMeansTarget(buf: seq<byte>, o: nat, p: nat, labels: seq<string>)
    requires LabelsBetween(buf, o, p, labels) && p < |buf| && buf[p] >= 0xc0
    requires DecodeLabels(buf, o).Some?
    ensures DecodeLabels(buf, Target(buf, p)).Some?
    ensures DecodeLabels(buf, o).value == Decoded(labels + DecodeLabels(buf, Target(buf, p)).value.labels, p + 2)
  {
    LabelsThenRest(buf, o, p, labels, 0);
    FewerJumps(buf, Target(buf, p), 0, 1);
  }

  // ---------- Encoding and decoding ----------

  /** A label that survives: neither its length nor a character is cut or mistaken for a pointer. */
  predicate Encodable(p: string) {
    |p| < 0xc0 && forall c <- p :: c as int < 256
  }

  function NonEmpty(parts: seq<string>): seq<string> {
    if parts == [] then [] else (if parts[0] == "" then [] else [parts[0]]) + NonEmpty(parts[1..])
  }

  /** These bytes stand at o. */
  ghost predicate HasBytes(buf: seq<byte>, o: nat, bytes: seq<byte>) {
    o + |bytes| <= |buf| && forall i :: 0 <= i < |bytes| ==> buf[o + i] == bytes[i]
  }

  lemma HasParts(buf: seq<byte>, o: nat, a: seq<byte>, b: seq<byte>)
    requires HasBytes(buf, o, a + b)
    ensures HasBytes(buf, o, a) && HasBytes(buf, o + |a|, b)
  {
    forall i | 0 <= i < |a| ensures buf[o + i] == a[i] {
      assert (a + b)[i] == a[i];
    }
    forall i | 0 <= i < |b| ensures buf[o + |a| + i] == b[i] {
      assert (a + b)[|a| + i] == b[i];
    }
  }

  lemma LabelEncoded(buf: seq<byte>, o: nat, p: string)
    requires p != "" && Encodable(p) && HasBytes(buf, o, EncodeLabel(p))
    ensures o < |buf| && buf[o] == |p| && LabelAt(buf, o) == p
  {
    var enc := EncodeLabel(p);
    assert buf[o + 0] == enc[0];
    forall i | 0 <= i < |p| ensures buf[o + 1 + i] as char == p[i] {
      assert p[i] in p;
      assert buf[o + (1 + i)] == enc[1 + i];
    }
  }

  /** Labels that survive, none of them empty. */
  ghost predicate Proper(labels: seq<string>) {
    forall i :: 0 <= i < |labels| ==> labels[i] != "" && Encodable(labels[i])
  }

  lemma LabelBefore(buf: seq<byte>, o: nat, end: nat, first: string, rest: seq<string>)
    requires o < |buf| && 0 < buf[o] == |first| < 0xc0 && LabelAt(buf, o) == first
    requires LabelsBetween(buf, o + 1 + |first|, end, rest)
    ensures LabelsBetween(buf, o, end, [first] + rest)
  {
    assert ([first] + rest)[1..] == rest;
  }

  lemma EncodeFirst(first: string, rest: seq<string>)
    requires first != ""
    ensures EncodeLabels([first] + rest) == EncodeLabel(first) + EncodeLabels(rest)
    ensures |EncodeLabel(first)| == 1 + |first|
  {
    assert ([first] + rest)[1..] == rest;
  }

  lemma FirstEncoded(buf: seq<byte>, o: nat, first: string, rest: seq<string>)
    requires first != "" && Encodable(first) && HasBytes(buf, o, EncodeLabels([first] + rest))
    ensures o < |buf| && buf[o] == |first| && LabelAt(buf, o) == first
    ensures HasBytes(buf, o + 1 + |first|, EncodeLabels(rest))
    ensures |EncodeLabels([first] + rest)| == 1 + |first| + |EncodeLabels(rest)|
  {
    EncodeFirst(first, rest);
    var head, tail := EncodeLabel(first), EncodeLabels(rest);
    assert HasBytes(buf, o, head + tail);
    HasParts(buf, o, head, tail);
    LabelEncoded(buf, o, first);
  }

  lemma {:induction false} LabelsEncoded(buf: seq<byte>, o: nat, labels: seq<string>)
    requires Proper(labels) && HasBytes(buf, o, EncodeLabels(labels))
    ensures LabelsBetween(buf, o, o + |EncodeLabels(labels)|, labels)
    decreases |labels|
  {
    if labels != [] {
      var first, rest := labels[0], labels[1..];
      assert labels == [first] + rest;
      FirstEncoded(buf, o, first, rest);
      LabelsEncoded(buf, o + 1 + |first|, rest);
      LabelBefore(buf, o, o + |EncodeLabels(labels)|, first, rest);
    }
  }

  lemma {:induction false} NonEmptyEncodes(parts: seq<string>)
    requires forall p <- parts :: Encodable(p)
    ensures EncodeLabels(NonEmpty(parts)) == EncodeLabels(parts)
    ensures Proper(NonEmpty(parts))
  {
    if parts != [] {
      NonEmptyEncodes(parts[1..]);
      var rest := NonEmpty(parts[1..]);
      if parts[0] == "" {
        assert NonEmpty(parts) == rest;
        assert EncodeLabel("") + EncodeLabels(parts[1..]) == EncodeLabels(parts[1..]);
      } else {
        assert NonEmpty(parts) == [parts[0]] + rest;
        assert ([parts[0]] + rest)[1..] == rest;
      }
    }
  }

  /** Labels up to a zero byte decode to themselves. */
  lemma DecodeUpToZero(buf: seq<byte>, o: nat, p: nat, labels: seq<string>)
    requires LabelsBetween(buf, o, p, labels) && p < |buf| && buf[p] == 0
    ensures DecodeLabels(buf, o) == Some(Decoded(labels, p + 1))
  {
    LabelsThenRest(buf, o, p, labels, 0);
    assert labels + [] == labels;
  }

  /** Decoding an encoded name, anywhere in a message, gives its non-empty labels back. */
  lemma NameRoundTrip(buf: seq<byte>, o: nat, name: string)
    requires (forall p <- Split(name, '.') :: Encodable(p)) && HasBytes(buf, o, EncodeQName(name))
    ensures DecodeLabels(buf, o) == Some(Decoded(NonEmpty(Split(name, '.')), o + |EncodeQName(name)|))
  {
    var parts := Split(name, '.');
    NonEmptyEncodes(parts);
    HasParts(buf, o, EncodeLabels(parts), [0]);
    LabelsEncoded(buf, o, NonEmpty(parts));
    var p := o + |EncodeLabels(parts)|;
    assert buf[p + 0] == [0][0];
    DecodeUpToZero(buf, o, p, NonEmpty(parts));
  }
}
