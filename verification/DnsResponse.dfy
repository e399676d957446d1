/**
 * Responses on the wire (section 4.1 of RFC 1035), byte by byte, and that parseMessage (src/dnsWire.ts:97-136) reads them:
 * the identifier, the rcode and the PTR records, whatever stands before, between and behind them.
 */
module DnsResponse {
  import opened Prelude
  import opened Text
  import opened DnsWire
  import opened DnsMessage

  // ---------- The bytes ----------

  function Two(v: nat): seq<byte>
    requires v < 0x1_0000
  {
    [v / 0x100, v % 0x100]
  }

  function Four(v: nat): seq<byte>
    requires v < 0x1_0000_0000
  {
    [v / 0x100_0000, v / 0x1_0000 % 0x100, v / 0x100 % 0x100, v % 0x100]
  }

  /** Labels, and at their end a zero byte or a pointer to an offset. */
  datatype WireName = WireName(labels: seq<string>, pointer: Option<nat>)

  /** One to 63 characters that are bytes. */
  predicate IsLabel(l: string) {
    1 <= |l| <= 63 && forall i :: 0 <= i < |l| ==> l[i] as int < 0x100
  }

  predicate ValidName(n: WireName) {
    (forall i :: 0 <= i < |n.labels| ==> IsLabel(n.labels[i])) && (n.pointer.Some? ==> n.pointer.value < 0x4000)
  }

  function LabelBytes(l: string): seq<byte>
    requires IsLabel(l)
  {
    [|l|] + seq(|l|, i requires 0 <= i < |l| => l[i] as int)
  }

  function NameBytes(n: WireName): seq<byte>
    requires ValidName(n)
    decreases |n.labels|
  {
    if n.labels == [] then
      match n.pointer
      case None => [0]
      case Some(t) => [0xc0 + t / 0x100, t % 0x100]
    else LabelBytes(n.labels[0]) + NameBytes(n.(labels := n.labels[1..]))
  }

  datatype Question = Question(name: WireName, kind: nat, class_: nat)

  datatype Record = Record(name: WireName, kind: nat, class_: nat, ttl: nat, rdata: seq<byte>)

  predicate ValidQuestion(q: Question) {
    ValidName(q.name) && q.kind < 0x1_0000 && q.class_ < 0x1_0000
  }

  predicate ValidRecord(r: Record) {
    ValidName(r.name) && r.kind < 0x1_0000 && r.class_ < 0x1_0000 && r.ttl < 0x1_0000_0000 && |r.rdata| < 0x1_0000
  }

  function QuestionBytes(q: Question): seq<byte>
    requires ValidQuestion(q)
  {
    NameBytes(q.name) + (Two(q.kind) + Two(q.class_))
  }

  /** Type, class, ttl and length of a record. */
  function Fields(r: Record): (bytes: seq<byte>)
    requires ValidRecord(r)
    ensures |bytes| == 10
  {
    Two(r.kind) + Two(r.class_) + Four(r.ttl) + Two(|r.rdata|)
  }

  function RecordBytes(r: Record): seq<byte>
    requires ValidRecord(r)
  {
    NameBytes(r.name) + (Fields(r) + r.rdata)
  }

  predicate Valid(qs: seq<Question>, rs: seq<Record>) {
    (forall i :: 0 <= i < |qs| ==> ValidQuestion(qs[i])) && (forall i :: 0 <= i < |rs| ==> ValidRecord(rs[i]))
  }

  function QuestionsBytes(qs: seq<Question>): seq<byte>
    requires forall i :: 0 <= i < |qs| ==> ValidQuestion(qs[i])
  {
    if qs == [] then [] else QuestionBytes(qs[0]) + QuestionsBytes(qs[1..])
  }

  function RecordsBytes(rs: seq<Record>): seq<byte>
    requires forall i :: 0 <= i < |rs| ==> ValidRecord(rs[i])
  {
    if rs == [] then [] else RecordBytes(rs[0]) + RecordsBytes(rs[1..])
  }

  /** What stands in front of the questions; flags and counts of the other sections are arbitrary but for the rcode. */
  datatype Head = Head(id: nat, flags: nat, rcode: nat, authorities: nat, additionals: nat)

  predicate ValidHead(h: Head) {
    h.id < 0x1_0000 && h.flags < 0x1000 && h.rcode < 16 && h.authorities < 0x1_0000 && h.additionals < 0x1_0000
  }

  /** The rcode is the low four bits of the flags. */
  function HeadBytes(h: Head, questions: nat, answers: nat): (bytes: seq<byte>)
    requires ValidHead(h) && questions < 0x1_0000 && answers < 0x1_0000
    ensures |bytes| == 12
  {
    Two(h.id) + Two(16 * h.flags + h.rcode) + Two(questions) + Two(answers) + Two(h.authorities) + Two(h.additionals)
  }

  function ResponseBytes(h: Head, qs: seq<Question>, rs: seq<Record>, behind: seq<byte>): seq<byte>
    requires ValidHead(h) && Valid(qs, rs) && |qs| < 0x1_0000 && |rs| < 0x1_0000
  {
    HeadBytes(h, |qs|, |rs|) + (QuestionsBytes(qs) + (RecordsBytes(rs) + behind))
  }

  // ---------- The names in a message ----------

  /** The bytes of the label stand at o behind its length, which is below 192; the end of the message may cut it off. */
  ghost predicate StandsAt(buf: seq<byte>, o: nat, l: string) {
    && o < |buf| && 0 < buf[o] < 0xc0
    && |l| == Min(buf[o], |buf| - (o + 1))
    && forall i :: 0 <= i < |l| ==> buf[o + 1 + i] == l[i] as int
  }

  /** The two bytes at o without their two high bits; a byte behind the end of the message counts as 0. */
  function Low14(buf: seq<byte>, o: nat): nat
    requires o < |buf| && buf[o] >= 0xc0
  {
    var high: int, low: int := buf[o], if o + 1 < |buf| then buf[o + 1] else 0;
    (high - 0xc0) * 0x100 + low
  }

  /**
   * The labels of the name at o, which may follow so many pointers. A pointer's two high bits are set, and the 14 others
   * are the offset of the rest of the name (section 4.1.4 of RFC 1035). A name ends at a zero byte, or with the message.
   */
  ghost predicate Named(buf: seq<byte>, o: nat, labels: seq<string>, jumps: nat)
    decreases jumps, |labels|
  {
    if o >= |buf| || buf[o] == 0 then labels == []
    else if buf[o] >= 0xc0 then jumps > 0 && Named(buf, Low14(buf, o), labels, jumps - 1)
    else labels != [] && StandsAt(buf, o, labels[0]) && Named(buf, o + 1 + buf[o], labels[1..], jumps)
  }

  lemma StandingLabel(buf: seq<byte>, o: nat, l: string)
    requires o < |buf| && 0 < buf[o] < 0xc0
    ensures LabelAt(buf, o) == l <==> StandsAt(buf, o, l)
  {
    if StandsAt(buf, o, l) {
      SameCharacters(buf, o, l);
    }
  }

  lemma SameCharacters(buf: seq<byte>, o: nat, l: string)
    requires StandsAt(buf, o, l)
    ensures LabelAt(buf, o) == l
  {
    forall i | 0 <= i < |l| ensures LabelAt(buf, o)[i] == l[i] {
      assert buf[o + 1 + i] == l[i] as int;
    }
  }

  /** decodeName reads such a name, with up to 21 pointers. */
  lemma {:induction false} NamedDecodes(buf: seq<byte>, o: nat, labels: seq<string>, jumps: nat, followed: nat)
    requires Named(buf, o, labels, jumps) && jumps + followed <= MAX_JUMPS + 1
    ensures DecodeFrom(buf, o, followed).Some? && DecodeFrom(buf, o, followed).value.labels == labels
    decreases jumps, |labels|
  {
    if o >= |buf| || buf[o] == 0 {
    } else if buf[o] >= 0xc0 {
      PointerTarget(buf, o);
      NamedDecodes(buf, Low14(buf, o), labels, jumps - 1, followed + 1);
    } else {
      StandingLabel(buf, o, labels[0]);
      NamedDecodes(buf, o + 1 + buf[o], labels[1..], jumps, followed);
      assert labels == [labels[0]] + labels[1..];
    }
  }

  lemma {:induction false} DecodedIsNamed(buf: seq<byte>, o: nat, followed: nat)
    requires followed <= 21 && DecodeFrom(buf, o, followed).Some?
    ensures Named(buf, o, DecodeFrom(buf, o, followed).value.labels, 21 - followed)
    decreases 21 - followed, |buf| - o
  {
    if o >= |buf| || buf[o] == 0 {
    } else if buf[o] >= 0xc0 {
      PointerTarget(buf, o);
      DecodedIsNamed(buf, Low14(buf, o), followed + 1);
    } else {
      DecodedIsNamed(buf, o + 1 + buf[o], followed);
      StandingLabel(buf, o, LabelAt(buf, o));
      var rest := DecodeFrom(buf, o + 1 + buf[o], followed).value.labels;
      assert ([LabelAt(buf, o)] + rest)[1..] == rest;
    }
  }

  /** On any bytes decodeName returns labels if and only if they are the name at the offset, with up to 21 pointers. */
  lemma DecodesIffNamed(buf: seq<byte>, o: nat, labels: seq<string>)
    ensures DecodeLabels(buf, o).Some? && DecodeLabels(buf, o).value.labels == labels <==> Named(buf, o, labels, 21)
  {
    if Named(buf, o, labels, 21) {
      NamedDecodes(buf, o, labels, 21, 0);
    }
    if DecodeLabels(buf, o).Some? {
      DecodedIsNamed(buf, o, 0);
    }
  }

  /** A pointer's target is its low 14 bits. */
  lemma PointerTarget(buf: seq<byte>, o: nat)
    requires o < |buf| && buf[o] >= 0xc0
    ensures Target(buf, o) == Low14(buf, o)
  {
  }

  lemma LabelStands(buf: seq<byte>, o: nat, l: string)
    requires IsLabel(l) && HasBytes(buf, o, LabelBytes(l))
    ensures StandsAt(buf, o, l)
  {
    var bytes := LabelBytes(l);
    assert buf[o + 0] == bytes[0];
    forall i | 0 <= i < |l| ensures buf[o + 1 + i] == l[i] as int {
      assert buf[o + (1 + i)] == bytes[1 + i];
    }
  }

  /** skipName stops behind an encoded name. */
  lemma {:induction false} NameSkipped(buf: seq<byte>, o: nat, n: WireName)
    requires ValidName(n) && HasBytes(buf, o, NameBytes(n))
    ensures SkipName(buf, o) == o + |NameBytes(n)|
    decreases |n.labels|
  {
    if n.labels == [] {
      assert buf[o + 0] == NameBytes(n)[0];
    } else {
      var l, rest := n.labels[0], n.(labels := n.labels[1..]);
      HasParts(buf, o, LabelBytes(l), NameBytes(rest));
      LabelStands(buf, o, l);
      NameSkipped(buf, o + |LabelBytes(l)|, rest);
    }
  }

  /** An encoded name without a pointer is itself; one with a pointer goes on with the name at its target. */
  lemma {:induction false} EncodedIsNamed(buf: seq<byte>, o: nat, n: WireName, more: seq<string>, jumps: nat)
    requires ValidName(n) && HasBytes(buf, o, NameBytes(n))
    requires if n.pointer.None? then more == [] else jumps > 0 && Named(buf, n.pointer.value, more, jumps - 1)
    ensures Named(buf, o, n.labels + more, jumps)
    decreases |n.labels|
  {
    if n.labels == [] {
      assert n.labels + more == more;
      assert buf[o + 0] == NameBytes(n)[0];
      if n.pointer.Some? {
        assert buf[o + 1] == NameBytes(n)[1];
      }
    } else {
      var l, rest := n.labels[0], n.(labels := n.labels[1..]);
      HasParts(buf, o, LabelBytes(l), NameBytes(rest));
      LabelStands(buf, o, l);
      EncodedIsNamed(buf, o + |LabelBytes(l)|, rest, more, jumps);
      assert (n.labels + more)[0] == l && (n.labels + more)[1..] == rest.labels + more;
    }
  }

  // ---------- Numbers in a message ----------

  lemma TwoAt(buf: seq<byte>, o: nat, v: nat)
    requires v < 0x1_0000 && HasBytes(buf, o, Two(v))
    ensures U16At(buf, o) == v
  {
    assert buf[o + 0] == Two(v)[0] && buf[o + 1] == Two(v)[1];
  }

  lemma FourAt(buf: seq<byte>, o: nat, v: nat)
    requires v < 0x1_0000_0000 && HasBytes(buf, o, Four(v))
    ensures U32At(buf, o) == v
  {
    var bytes := Four(v);
    assert buf[o + 0] == bytes[0] && buf[o + 1] == bytes[1] && buf[o + 2] == bytes[2] && buf[o + 3] == bytes[3];
    assert v == v / 0x1_0000 * 0x1_0000 + v % 0x1_0000;
    assert v / 0x1_0000 == v / 0x100_0000 * 0x100 + v / 0x1_0000 % 0x100;
    assert v % 0x1_0000 == v / 0x100 % 0x100 * 0x100 + v % 0x100;
  }

  lemma FieldsAt(buf: seq<byte>, o: nat, r: Record)
    requires ValidRecord(r) && HasBytes(buf, o, Fields(r))
    ensures U16At(buf, o) == r.kind && U32At(buf, o + 4) == r.ttl && U16At(buf, o + 8) == |r.rdata|
  {
    HasParts(buf, o, Two(r.kind) + Two(r.class_) + Four(r.ttl), Two(|r.rdata|));
    HasParts(buf, o, Two(r.kind) + Two(r.class_), Four(r.ttl));
    HasParts(buf, o, Two(r.kind), Two(r.class_));
    TwoAt(buf, o, r.kind);
    FourAt(buf, o + 4, r.ttl);
    TwoAt(buf, o + 8, |r.rdata|);
  }

  lemma HeadAt(buf: seq<byte>, h: Head, questions: nat, answers: nat)
    requires ValidHead(h) && questions < 0x1_0000 && answers < 0x1_0000 && HasBytes(buf, 0, HeadBytes(h, questions, answers))
    ensures U16At(buf, 0) == h.id && buf[3] % 16 == h.rcode && U16At(buf, 4) == questions && U16At(buf, 6) == answers
  {
    var id, flags, q, a := Two(h.id), Two(16 * h.flags + h.rcode), Two(questions), Two(answers);
    HasParts(buf, 0, id + flags + q + a + Two(h.authorities), Two(h.additionals));
    HasParts(buf, 0, id + flags + q + a, Two(h.authorities));
    HasParts(buf, 0, id + flags + q, a);
    HasParts(buf, 0, id + flags, q);
    HasParts(buf, 0, id, flags);
    TwoAt(buf, 0, h.id);
    TwoAt(buf, 4, questions);
    TwoAt(buf, 6, answers);
    assert buf[2 + 1] == flags[1];
    LowFour(16 * h.flags + h.rcode, h.flags, h.rcode);
  }

  lemma LowFour(v: nat, high: nat, low: nat)
    requires v == 16 * high + low && low < 16
    ensures v % 0x100 % 16 == low
  {
  }

  // ---------- Sections ----------

  lemma {:induction false} QuestionsSkipped(buf: seq<byte>, o: nat, qs: seq<Question>)
    requires (forall i :: 0 <= i < |qs| ==> ValidQuestion(qs[i])) && HasBytes(buf, o, QuestionsBytes(qs))
    ensures SkipQuestions(buf, o, |qs|) == o + |QuestionsBytes(qs)|
    decreases |qs|
  {
    if qs != [] {
      var q := qs[0];
      HasParts(buf, o, QuestionBytes(q), QuestionsBytes(qs[1..]));
      HasParts(buf, o, NameBytes(q.name), Two(q.kind) + Two(q.class_));
      NameSkipped(buf, o, q.name);
      QuestionsSkipped(buf, o + |QuestionBytes(q)|, qs[1..]);
    }
  }

  /** The record of type 12, with the name in its rdata; any other record gives nothing. */
  function PTRAnswer(r: Record, name: seq<string>): seq<DNSAnswer> {
    if r.kind == 12 then [DNSAnswer(12, r.ttl, Join(name, '.'))] else []
  }

  /** In order. */
  function PTRAnswers(rs: seq<Record>, names: seq<seq<string>>): seq<DNSAnswer>
    requires |rs| == |names|
  {
    if rs == [] then [] else PTRAnswer(rs[0], names[0]) + PTRAnswers(rs[1..], names[1..])
  }

  /** The i-th name is that of the i-th record's rdata, if the record is of type 12; the records stand from o on. */
  ghost predicate NamesIn(buf: seq<byte>, o: nat, rs: seq<Record>, names: seq<seq<string>>)
    requires |rs| == |names| && forall i :: 0 <= i < |rs| ==> ValidRecord(rs[i])
    decreases |rs|
  {
    rs != [] ==>
      && ValidRecord(rs[0])
      && (rs[0].kind == 12 ==> Named(buf, o + |NameBytes(rs[0].name)| + 10, names[0], 21))
      && NamesIn(buf, o + |RecordBytes(rs[0])|, rs[1..], names[1..])
  }

  lemma RecordParts(buf: seq<byte>, o: nat, r: Record)
    requires ValidRecord(r) && HasBytes(buf, o, RecordBytes(r))
    ensures var p := o + |NameBytes(r.name)|;
            && SkipName(buf, o) == p && p + 10 <= |buf|
            && U16At(buf, p) == r.kind && U32At(buf, p + 4) == r.ttl && U16At(buf, p + 8) == |r.rdata|
            && p + 10 + |r.rdata| == o + |RecordBytes(r)| && HasBytes(buf, p + 10, r.rdata)
  {
    HasParts(buf, o, NameBytes(r.name), Fields(r) + r.rdata);
    HasParts(buf, o + |NameBytes(r.name)|, Fields(r), r.rdata);
    NameSkipped(buf, o, r.name);
    FieldsAt(buf, o + |NameBytes(r.name)|, r);
  }

  /** One turn of the answer loop. */
  lemma TurnParses(buf: seq<byte>, o: nat, p: nat, name: seq<string>, more: nat, rest: seq<DNSAnswer>)
    requires SkipName(buf, o) == p && p + 10 <= |buf| && ParseAnswers(buf, p + 10 + U16At(buf, p + 8), more) == Some(rest)
    requires U16At(buf, p) == 12 ==> DecodeLabels(buf, p + 10).Some? && DecodeLabels(buf, p + 10).value.labels == name
    ensures U16At(buf, p) == 12 ==> ParseAnswers(buf, o, more + 1) == Some([DNSAnswer(12, U32At(buf, p + 4), Join(name, '.'))] + rest)
    ensures U16At(buf, p) != 12 ==> ParseAnswers(buf, o, more + 1) == Some(rest)
  {
  }

  lemma RecordParses(buf: seq<byte>, o: nat, r: Record, name: seq<string>, more: nat, rest: seq<DNSAnswer>)
    requires ValidRecord(r) && HasBytes(buf, o, RecordBytes(r))
    requires r.kind == 12 ==> Named(buf, o + |NameBytes(r.name)| + 10, name, 21)
    requires ParseAnswers(buf, o + |RecordBytes(r)|, more) == Some(rest)
    ensures ParseAnswers(buf, o, more + 1) == Some(PTRAnswer(r, name) + rest)
  {
    var p := o + |NameBytes(r.name)|;
    RecordParts(buf, o, r);
    if r.kind == 12 {
      NamedDecodes(buf, p + 10, name, 21, 0);
    }
    TurnParses(buf, o, p, name, more, rest);
    assert [] + rest == rest;
  }

  lemma {:induction false} RecordsParse(buf: seq<byte>, o: nat, rs: seq<Record>, names: seq<seq<string>>)
    requires |rs| == |names| && (forall i :: 0 <= i < |rs| ==> ValidRecord(rs[i])) && HasBytes(buf, o, RecordsBytes(rs))
    requires NamesIn(buf, o, rs, names)
    ensures ParseAnswers(buf, o, |rs|) == Some(PTRAnswers(rs, names))
    decreases |rs|
  {
    if rs != [] {
      var r, more := rs[0], PTRAnswers(rs[1..], names[1..]);
      HasParts(buf, o, RecordBytes(r), RecordsBytes(rs[1..]));
      RecordsParse(buf, o + |RecordBytes(r)|, rs[1..], names[1..]);
      RecordParses(buf, o, r, names[0], |rs| - 1, more);
      AnswersNext(rs, names);
    }
  }

  lemma AnswersNext(rs: seq<Record>, names: seq<seq<string>>)
    requires |rs| == |names| && rs != []
    ensures PTRAnswers(rs, names) == PTRAnswer(rs[0], names[0]) + PTRAnswers(rs[1..], names[1..])
  {
  }

  lemma Sections(buf: seq<byte>, h: Head, qs: seq<Question>, rs: seq<Record>, behind: seq<byte>)
    requires ValidHead(h) && Valid(qs, rs) && |qs| < 0x1_0000 && |rs| < 0x1_0000 && buf == ResponseBytes(h, qs, rs, behind)
    ensures |buf| >= 12 && HasBytes(buf, 0, HeadBytes(h, |qs|, |rs|)) && HasBytes(buf, 12, QuestionsBytes(qs))
    ensures HasBytes(buf, 12 + |QuestionsBytes(qs)|, RecordsBytes(rs))
  {
    var head, questions, records := HeadBytes(h, |qs|, |rs|), QuestionsBytes(qs), RecordsBytes(rs);
    assert HasBytes(buf, 0, buf);
    HasParts(buf, 0, head, questions + (records + behind));
    HasParts(buf, 12, questions, records + behind);
    HasParts(buf, 12 + |questions|, records, behind);
  }

  lemma MessageParses(buf: seq<byte>, o: nat, answers: seq<DNSAnswer>)
    requires |buf| >= 12 && SkipQuestions(buf, 12, U16At(buf, 4)) == o && ParseAnswers(buf, o, U16At(buf, 6)) == Some(answers)
    ensures ParseMessage(buf) == Some(DNSResponse(U16At(buf, 0), buf[3] % 16, answers))
  {
  }

  lemma SectionsParse(buf: seq<byte>, h: Head, qs: seq<Question>, rs: seq<Record>, names: seq<seq<string>>)
    requires ValidHead(h) && Valid(qs, rs) && |qs| < 0x1_0000 && |rs| < 0x1_0000 && |names| == |rs|
    requires |buf| >= 12 && HasBytes(buf, 0, HeadBytes(h, |qs|, |rs|)) && HasBytes(buf, 12, QuestionsBytes(qs))
    requires HasBytes(buf, 12 + |QuestionsBytes(qs)|, RecordsBytes(rs)) && NamesIn(buf, 12 + |QuestionsBytes(qs)|, rs, names)
    ensures ParseMessage(buf) == Some(DNSResponse(h.id, h.rcode, PTRAnswers(rs, names)))
  {
    var o := 12 + |QuestionsBytes(qs)|;
    HeadAt(buf, h, |qs|, |rs|);
    QuestionsSkipped(buf, 12, qs);
    RecordsParse(buf, o, rs, names);
    MessageParses(buf, o, PTRAnswers(rs, names));
  }

  /**
   * Main result. A response made of any head, questions and records, and anything behind them, parses to its identifier,
   * its rcode and exactly its records of type 12, in order, with their ttl and the name their rdata denotes. Records of
   * other types are walked past, whatever their rdata.
   */
  lemma ResponseRoundTrip(h: Head, qs: seq<Question>, rs: seq<Record>, behind: seq<byte>, names: seq<seq<string>>)
    requires ValidHead(h) && Valid(qs, rs) && |qs| < 0x1_0000 && |rs| < 0x1_0000 && |names| == |rs|
    requires NamesIn(ResponseBytes(h, qs, rs, behind), 12 + |QuestionsBytes(qs)|, rs, names)
    ensures ParseMessage(ResponseBytes(h, qs, rs, behind)) == Some(DNSResponse(h.id, h.rcode, PTRAnswers(rs, names)))
  {
    Sections(ResponseBytes(h, qs, rs, behind), h, qs, rs, behind);
    SectionsParse(ResponseBytes(h, qs, rs, behind), h, qs, rs, names);
  }

  // ---------- Names in rdata ----------

  /** The records of type 12 hold encoded names without pointers. */
  ghost predicate PlainRdata(rs: seq<Record>, names: seq<seq<string>>) {
    && |rs| == |names|
    && forall i :: 0 <= i < |rs| && rs[i].kind == 12 ==>
         ValidName(WireName(names[i], None)) && rs[i].rdata == NameBytes(WireName(names[i], None))
  }

  /** Wherever these bytes stand they are the name. */
  ghost predicate NamedWherever(buf: seq<byte>, bytes: seq<byte>, name: seq<string>) {
    forall o: nat :: HasBytes(buf, o, bytes) ==> Named(buf, o, name, 21)
  }

  lemma PlainWherever(buf: seq<byte>, bytes: seq<byte>, name: seq<string>)
    requires ValidName(WireName(name, None)) && bytes == NameBytes(WireName(name, None))
    ensures NamedWherever(buf, bytes, name)
  {
    forall o: nat | HasBytes(buf, o, bytes) ensures Named(buf, o, name, 21) {
      EncodedIsNamed(buf, o, WireName(name, None), [], 21);
      assert name + [] == name;
    }
  }

  lemma RdataNamed(buf: seq<byte>, o: nat, r: Record, name: seq<string>)
    requires ValidRecord(r) && HasBytes(buf, o, RecordBytes(r)) && NamedWherever(buf, r.rdata, name)
    ensures Named(buf, o + |NameBytes(r.name)| + 10, name, 21)
  {
    HasParts(buf, o, NameBytes(r.name), Fields(r) + r.rdata);
    HasParts(buf, o + |NameBytes(r.name)|, Fields(r), r.rdata);
  }

  lemma {:induction false} PlainNames(buf: seq<byte>, o: nat, rs: seq<Record>, names: seq<seq<string>>)
    requires PlainRdata(rs, names) && (forall i :: 0 <= i < |rs| ==> ValidRecord(rs[i])) && HasBytes(buf, o, RecordsBytes(rs))
    ensures NamesIn(buf, o, rs, names)
    decreases |rs|
  {
    if rs != [] {
      HasParts(buf, o, RecordBytes(rs[0]), RecordsBytes(rs[1..]));
      if rs[0].kind == 12 {
        PlainWherever(buf, rs[0].rdata, names[0]);
        RdataNamed(buf, o, rs[0], names[0]);
      }
      PlainNames(buf, o + |RecordBytes(rs[0])|, rs[1..], names[1..]);
    }
  }

  /** Without compression in the rdata nothing else is needed: every such response reads back. */
  lemma PlainResponseRoundTrip(h: Head, qs: seq<Question>, rs: seq<Record>, behind: seq<byte>, names: seq<seq<string>>)
    requires ValidHead(h) && Valid(qs, rs) && |qs| < 0x1_0000 && |rs| < 0x1_0000 && PlainRdata(rs, names)
    ensures ParseMessage(ResponseBytes(h, qs, rs, behind)) == Some(DNSResponse(h.id, h.rcode, PTRAnswers(rs, names)))
  {
    Sections(ResponseBytes(h, qs, rs, behind), h, qs, rs, behind);
    PlainNames(ResponseBytes(h, qs, rs, behind), 12 + |QuestionsBytes(qs)|, rs, names);
    ResponseRoundTrip(h, qs, rs, behind, names);
  }
}
