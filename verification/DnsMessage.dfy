/** src/dnsWire.ts:23-43 and 97-136: building a PTR query and parsing a response. */
module DnsMessage {
  import opened Prelude
  import opened Text
  import opened IpText
  import opened DnsWire
  import Canonical
  import Prefixes
  import Ranges

  // ---------- DataView ----------

  function U16(v: nat): seq<byte> {
    [v / 256 % 256, v % 256]
  }

  function U16At(buf: seq<byte>, o: nat): (v: nat)
    requires o + 2 <= |buf|
    ensures v < 0x1_0000
  {
    var high: int, low: int := buf[o], buf[o + 1];
    high * 256 + low
  }

  function U32At(buf: seq<byte>, o: nat): nat
    requires o + 4 <= |buf|
  {
    U16At(buf, o) * 0x1_0000 + U16At(buf, o + 2)
  }

  /** view.setUint16(o, v). */
  method SetUint16(a: array<byte>, o: nat, v: nat)
    requires o + 2 <= a.Length
    modifies a
    ensures a[..] == old(a[..])[o := v / 256 % 256][o + 1 := v % 256]
  {
    a[o] := v / 256 % 256;
    a[o + 1] := v % 256;
  }

  /** a.set(bytes, o). */
  method SetBytes(a: array<byte>, bytes: seq<byte>, o: nat)
    requires o + |bytes| <= a.Length
    modifies a
    ensures a[..] == old(a[..])[..o] + bytes + old(a[..])[o + |bytes|..]
  {
    for i := 0 to |bytes|
      invariant forall k :: 0 <= k < a.Length ==> a[k] == if o <= k < o + i then bytes[k - o] else old(a[k])
    {
      a[o + i] := bytes[i];
    }
  }

  // ---------- buildPTRQuery ----------

  /** Identifier, flags 0x0100, one question, no records. */
  function Header(id: nat): seq<byte> {
    U16(id % 0x1_0000) + [1, 0, 0, 1, 0, 0, 0, 0, 0, 0]
  }

  function QueryMessage(id: nat, qname: seq<byte>): seq<byte> {
    Header(id) + qname + [0, 12, 0, 1]
  }

  /** A two-byte length, then the message. */
  function Frame(msg: seq<byte>): seq<byte> {
    U16(|msg|) + msg
  }

  function PTRQuery(id: nat, ip: string): Option<seq<byte>> {
    match ReverseName(ip)
    case None => None
    case Some(name) => Some(Frame(QueryMessage(id, EncodeQName(name))))
  }

  method WriteHeader(a: array<byte>, id: nat)
    requires a.Length >= 12 && forall i :: 0 <= i < 12 ==> a[i] == 0
    modifies a
    ensures a[..12] == Header(id) && a[12..] == old(a[12..])
  {
    SetUint16(a, 0, id % 0x1_0000);
    SetUint16(a, 2, 0x0100);
    SetUint16(a, 4, 1);
  }

  method WriteQuestion(a: array<byte>, qname: seq<byte>)
    requires a.Length == 12 + |qname| + 4
    modifies a
    ensures a[..] == old(a[..12]) + qname + [0, 12, 0, 1]
  {
    SetBytes(a, qname, 12);
    assert a[..12 + |qname|] == old(a[..12]) + qname;
    label Named:
    SetUint16(a, 12 + |qname|, 12);
    SetUint16(a, 12 + |qname| + 2, 1);
    assert a[..12 + |qname|] == old@Named(a[..12 + |qname|]);
    assert a[12 + |qname|..] == [0, 12, 0, 1];
  }

  method BuildPTRQuery(id: nat, ip: string) returns (query: Option<seq<byte>>)
    ensures query == PTRQuery(id, ip)
  {
    var name := ReverseName(ip);
    if name.None? {
      return None;
    }
    var qname := ComputeEncodeQName(name.value);
    var msg := WriteMessage(id, qname);
    var framed := WriteFrame(msg);
    return Some(framed);
  }

  method WriteMessage(id: nat, qname: seq<byte>) returns (msg: seq<byte>)
    ensures msg == QueryMessage(id, qname)
  {
    var a := new byte[12 + |qname| + 4](_ => 0);
    WriteHeader(a, id);
    WriteQuestion(a, qname);
    return a[..];
  }

  method WriteFrame(msg: seq<byte>) returns (framed: seq<byte>)
    ensures framed == Frame(msg)
  {
    var a := new byte[2 + |msg|](_ => 0);
    SetUint16(a, 0, |msg|);
    assert a[..2] == U16(|msg|);
    SetBytes(a, msg, 2);
    return a[..];
  }

  // ---------- parseMessage ----------

  datatype DNSAnswer = DNSAnswer(kind: nat, ttl: nat, data: string)

  datatype DNSResponse = DNSResponse(id: nat, rcode: nat, answers: seq<DNSAnswer>)

  const PTR: nat := 12

  function SkipQuestions(buf: seq<byte>, o: nat, count: nat): nat
    decreases count
  {
    if count == 0 then o else SkipQuestions(buf, SkipName(buf, o) + 4, count - 1)
  }

  /** The PTR records among count records from o on; None where reading past the end or decodeName throws. */
  function ParseAnswers(buf: seq<byte>, o: nat, count: nat): Option<seq<DNSAnswer>>
    decreases count
  {
    if count == 0 then Some([])
    else
      var p := SkipName(buf, o);
      if p + 10 > |buf| then None
      else
        var rest := ParseAnswers(buf, p + 10 + U16At(buf, p + 8), count - 1);
        if U16At(buf, p) != PTR then rest
        else
          match (DecodeLabels(buf, p + 10), rest)
          case (Some(d), Some(answers)) => Some([DNSAnswer(PTR, U32At(buf, p + 4), Join(d.labels, '.'))] + answers)
          case _ => None
  }

  /** parseMessage; None where it throws. */
  function ParseMessage(buf: seq<byte>): Option<DNSResponse> {
    if |buf| < 12 then None
    else
      match ParseAnswers(buf, SkipQuestions(buf, 12, U16At(buf, 4)), U16At(buf, 6))
      case None => None
      case Some(answers) => Some(DNSResponse(U16At(buf, 0), buf[3] % 16, answers))
  }

  /** What the answer loop still has to add to what it has collected. */
  ghost predicate Collects(whole: Option<seq<DNSAnswer>>, answers: seq<DNSAnswer>, rest: Option<seq<DNSAnswer>>) {
    match rest
    case None => whole == None
    case Some(more) => whole == Some(answers + more)
  }

  lemma CollectNext(whole: Option<seq<DNSAnswer>>, answers: seq<DNSAnswer>, a: DNSAnswer, rest: Option<seq<DNSAnswer>>)
    requires Collects(whole, answers, match rest case None => None case Some(more) => Some([a] + more))
    ensures Collects(whole, answers + [a], rest)
  {
    if rest.Some? {
      assert answers + ([a] + rest.value) == answers + [a] + rest.value;
    }
  }

  method ReadAnswers(buf: seq<byte>, start: nat, ancount: nat) returns (r: Option<seq<DNSAnswer>>)
    ensures r == ParseAnswers(buf, start, ancount)
  {
    var answers: seq<DNSAnswer> := [];
    var o: nat := start;
    var whole := ParseAnswers(buf, start, ancount);
    if whole.Some? {
      assert [] + whole.value == whole.value;
    }
    for i := 0 to ancount
      invariant Collects(whole, answers, ParseAnswers(buf, o, ancount - i))
    {
      o := ComputeSkipName(buf, o);
      if o + 10 > |buf| {
        return None;
      }
      var kind, ttl, rdlength := U16At(buf, o), U32At(buf, o + 4), U16At(buf, o + 8);
      var rdataOffset := o + 10;
      if kind == PTR {
        var decoded := ComputeDecodeName(buf, rdataOffset);
        if decoded.None? {
          return None;
        }
        CollectNext(whole, answers, DNSAnswer(kind, ttl, decoded.value.0), ParseAnswers(buf, rdataOffset + rdlength, ancount - i - 1));
        answers := answers + [DNSAnswer(kind, ttl, decoded.value.0)];
      }
      o := rdataOffset + rdlength;
    }
    assert answers + [] == answers;
    return Some(answers);
  }

  method ComputeParseMessage(buf: seq<byte>) returns (r: Option<DNSResponse>)
    ensures r == ParseMessage(buf)
  {
    if |buf| < 12 {
      return None;
    }
    var qdcount := U16At(buf, 4);
    var o: nat := 12;
    for i := 0 to qdcount
      invariant SkipQuestions(buf, o, qdcount - i) == SkipQuestions(buf, 12, qdcount)
    {
      o := ComputeSkipName(buf, o);
      o := o + 4;
    }
    var answers := ReadAnswers(buf, o, U16At(buf, 6));
    return match answers
      case None => None
      case Some(found) => Some(DNSResponse(U16At(buf, 0), buf[3] % 16, found));
  }

  // ---------- Building and parsing ----------

  lemma FrameLength(msg: seq<byte>)
    requires |msg| < 0x1_0000
    ensures U16At(Frame(msg), 0) == |msg| && Frame(msg)[2..] == msg
  {
    var n := |msg|;
    assert n == n / 256 * 256 + n % 256;
    assert n / 256 % 256 == n / 256;
  }

  lemma QueryHeader(id: nat, qname: seq<byte>)
    ensures var msg := QueryMessage(id, qname);
            |msg| == 16 + |qname| && U16At(msg, 0) == id % 0x1_0000 && msg[3] == 0 && U16At(msg, 4) == 1 && U16At(msg, 6) == 0
  {
    var msg, v := QueryMessage(id, qname), id % 0x1_0000;
    assert msg[0] == v / 256 % 256 && msg[1] == v % 256;
    assert v == v / 256 * 256 + v % 256;
    assert v / 256 % 256 == v / 256;
    assert msg[4] == 0 && msg[5] == 1 && msg[6] == 0 && msg[7] == 0;
  }

  lemma QuestionStandsAt12(id: nat, qname: seq<byte>)
    ensures HasBytes(QueryMessage(id, qname), 12, qname)
  {
    assert |Header(id)| == 12;
  }

  /** Whatever the name, parsing a query gives its identifier modulo 65536, rcode 0 and no answers. */
  lemma QueryParses(id: nat, qname: seq<byte>)
    ensures ParseMessage(QueryMessage(id, qname)) == Some(DNSResponse(id % 0x1_0000, 0, []))
  {
    QueryHeader(id, qname);
  }

  // ---------- The labels of reverseName ----------

  ghost predicate ShortLabels(labels: seq<string>) {
    forall i :: 0 <= i < |labels| ==> 0 < |labels[i]| <= 7 && '.' !in labels[i] && Encodable(labels[i])
  }

  lemma {:induction false} NibbleLabels(s: string)
    requires forall i :: 0 <= i < |s| ==> s[i] as int < 128 && s[i] != '.'
    ensures ShortLabels(ReverseNibbles(s)) && |ReverseNibbles(s)| == |s|
  {
    if s != "" {
      NibbleLabels(s[..|s| - 1]);
    }
  }

  lemma {:induction false} ShortEncoding(labels: seq<string>)
    requires ShortLabels(labels)
    ensures |EncodeLabels(labels)| <= 8 * |labels| && NonEmpty(labels) == labels
  {
    if labels != [] {
      ShortEncoding(labels[1..]);
      assert labels == [labels[0]] + labels[1..];
    }
  }

  lemma OctetLabels(ip: string)
    requires IsIPv4(ip)
    ensures ReverseLabels(ip).Some? && ShortLabels(ReverseLabels(ip).value) && |ReverseLabels(ip).value| == 6
  {
    var parts := Split(ip, '.');
    assert ip == parts[0] + ['.'] + Join(parts[1..], '.');
    assert ip[|parts[0]|] == '.';
    Canonical.DottedHasNoColon(ip);
    forall i | 0 <= i < 4 ensures 0 < |parts[i]| <= 7 && '.' !in parts[i] && Encodable(parts[i]) {
      assert IsOctet(parts[i]);
    }
  }

  lemma HexLabels(ip: string)
    requires ExpandIPv6(ip).Some? && !IsIPv4(ip)
    ensures ReverseLabels(ip).Some? && ShortLabels(ReverseLabels(ip).value) && |ReverseLabels(ip).value| == 34
  {
    Prefixes.PointMeans(ip);
    Prefixes.ColonMeansIPv6(ip);
    HexNibbles(ExpandIPv6(ip).value);
  }

  lemma HexNibbles(full: string)
    requires Prefixes.IsPoint(full)
    ensures ShortLabels(ReverseNibbles(full) + ["ip6", "arpa"]) && |ReverseNibbles(full)| == 32
  {
    forall i | 0 <= i < |full| ensures full[i] as int < 128 && full[i] != '.' {
      assert Ranges.IsLowerDigit(full[i]);
    }
    NibbleLabels(full);
  }

  lemma ReverseIsShort(ip: string)
    requires IsIPv4(ip) || ExpandIPv6(ip).Some?
    ensures ReverseLabels(ip).Some? && ShortLabels(ReverseLabels(ip).value) && 6 <= |ReverseLabels(ip).value| <= 34
  {
    if IsIPv4(ip) {
      OctetLabels(ip);
    } else {
      HexLabels(ip);
    }
  }

  lemma LabelsDecode(buf: seq<byte>, o: nat, labels: seq<string>)
    requires labels != [] && ShortLabels(labels) && HasBytes(buf, o, EncodeQName(Join(labels, '.')))
    ensures DecodeLabels(buf, o).Some? && DecodeLabels(buf, o).value.labels == labels
    ensures |EncodeQName(Join(labels, '.'))| <= 8 * |labels| + 1
  {
    SplitJoin(labels, '.');
    ShortEncoding(labels);
    NameRoundTrip(buf, o, Join(labels, '.'));
  }

  /**
   * Main result. For every valid address: the frame announces its length, the message parses to the identifier modulo
   * 65536 with no answers, and the question at offset 12 decodes to reverseName of the address.
   */
  lemma QueryRoundTrip(id: nat, ip: string)
    requires IsIPv4(ip) || ExpandIPv6(ip).Some?
    ensures PTRQuery(id, ip).Some? && |PTRQuery(id, ip).value| > 2
    ensures
      var query := PTRQuery(id, ip).value;
      var msg := query[2..];
      && U16At(query, 0) == |msg|
      && ParseMessage(msg) == Some(DNSResponse(id % 0x1_0000, 0, []))
      && DecodeLabels(msg, 12).Some?
      && Some(Join(DecodeLabels(msg, 12).value.labels, '.')) == ReverseName(ip)
  {
    ReverseIsShort(ip);
    var labels := ReverseLabels(ip).value;
    var qname := EncodeQName(Join(labels, '.'));
    var msg := QueryMessage(id, qname);
    QuestionStandsAt12(id, qname);
    LabelsDecode(msg, 12, labels);
    QueryHeader(id, qname);
    FrameLength(msg);
    QueryParses(id, qname);
  }
}
