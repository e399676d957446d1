/**
 * src/ptrRefresh.ts:66-152: reassembling length-prefixed messages (section 4.2.2 of RFC 1035) from whatever chunks a
 * TCP connection delivers, and matching the answers to the queries by identifier.
 */
module Deframe {
  import opened Prelude
  import opened DnsWire
  import opened DnsMessage

  /** The complete messages at the front of a stream, and the bytes behind them. */
  datatype Deframed = Deframed(messages: seq<seq<byte>>, rest: seq<byte>)

  /** Too short for the message it announces, or for the announcement. */
  predicate Incomplete(s: seq<byte>) {
    |s| < 2 || |s| < 2 + U16At(s, 0)
  }

  function FirstMessage(s: seq<byte>): seq<byte>
    requires !Incomplete(s)
  {
    s[2..2 + U16At(s, 0)]
  }

  function Behind(s: seq<byte>): seq<byte>
    requires !Incomplete(s)
  {
    s[2 + U16At(s, 0)..]
  }

  function DeframeAll(s: seq<byte>): Deframed {
    if Incomplete(s) then Deframed([], s)
    else
      var d := DeframeAll(Behind(s));
      Deframed([FirstMessage(s)] + d.messages, d.rest)
  }

  function Flatten(chunks: seq<seq<byte>>): seq<byte> {
    if chunks == [] then [] else Flatten(chunks[..|chunks| - 1]) + chunks[|chunks| - 1]
  }

  // ---------- What deframing means ----------

  function Frames(messages: seq<seq<byte>>): seq<byte> {
    if messages == [] then [] else Frame(messages[0]) + Frames(messages[1..])
  }

  ghost predicate Sendable(messages: seq<seq<byte>>) {
    forall i :: 0 <= i < |messages| ==> |messages[i]| < 0x1_0000
  }

  lemma FrameFront(m: seq<byte>, more: seq<byte>)
    requires |m| < 0x1_0000
    ensures var s := Frame(m) + more;
            !Incomplete(s) && FirstMessage(s) == m && Behind(s) == more
  {
    FrameLength(m);
    var s := Frame(m) + more;
    assert s[0] == Frame(m)[0] && s[1] == Frame(m)[1];
  }

  lemma FrameAgain(s: seq<byte>)
    requires !Incomplete(s)
    ensures s == Frame(FirstMessage(s)) + Behind(s)
  {
    var n := U16At(s, 0);
    assert n / 256 == s[0] && n % 256 == s[1];
    assert U16(n) == s[..2];
  }

  /**
   * Deframing a stream finds exactly the messages whose frames, followed by an incomplete rest, make up the stream:
   * there is one way to read it, and a concatenation of frames yields the framed messages.
   */
  lemma {:induction false} DeframeMeans(s: seq<byte>, messages: seq<seq<byte>>, rest: seq<byte>)
    ensures DeframeAll(s) == Deframed(messages, rest) <==> Sendable(messages) && Incomplete(rest) && s == Frames(messages) + rest
    decreases |s|
  {
    if DeframeAll(s) == Deframed(messages, rest) {
      DeframeBuilds(s);
    }
    if Sendable(messages) && Incomplete(rest) && s == Frames(messages) + rest {
      FramesDeframe(messages, rest);
    }
  }

  lemma {:induction false} DeframeBuilds(s: seq<byte>)
    ensures var d := DeframeAll(s); Sendable(d.messages) && Incomplete(d.rest) && s == Frames(d.messages) + d.rest
  {
    if Incomplete(s) {
      assert Frames([]) + s == s;
    } else {
      DeframeBuilds(Behind(s));
      FrameAgain(s);
      var d := DeframeAll(Behind(s));
      FramesFirst(FirstMessage(s), d.messages);
      Regroup(Frame(FirstMessage(s)), Frames(d.messages), d.rest);
    }
  }

  lemma Regroup<T>(a: seq<T>, b: seq<T>, c: seq<T>)
    ensures a + (b + c) == a + b + c
  {
  }

  lemma FramesFirst(m: seq<byte>, more: seq<seq<byte>>)
    ensures Frames([m] + more) == Frame(m) + Frames(more)
  {
    assert ([m] + more)[1..] == more;
  }

  lemma {:induction false} FramesDeframe(messages: seq<seq<byte>>, rest: seq<byte>)
    requires Sendable(messages) && Incomplete(rest)
    ensures DeframeAll(Frames(messages) + rest) == Deframed(messages, rest)
    decreases |messages|
  {
    if messages == [] {
      assert Frames(messages) + rest == rest;
    } else {
      var m, more := messages[0], messages[1..];
      FramesDeframe(more, rest);
      FrameFront(m, Frames(more) + rest);
      assert Frames(messages) + rest == Frame(m) + (Frames(more) + rest);
      assert messages == [m] + more;
    }
  }

  // ---------- Chunk boundaries ----------

  lemma FrontKept(a: seq<byte>, b: seq<byte>)
    requires !Incomplete(a)
    ensures !Incomplete(a + b) && FirstMessage(a + b) == FirstMessage(a) && Behind(a + b) == Behind(a) + b
  {
    assert (a + b)[0] == a[0] && (a + b)[1] == a[1];
  }

  /** Deframing a prefix, and then its incomplete rest with what follows, is deframing the whole. */
  lemma {:induction false} DeframeInParts(a: seq<byte>, b: seq<byte>)
    ensures
      var first := DeframeAll(a);
      var second := DeframeAll(first.rest + b);
      DeframeAll(a + b) == Deframed(first.messages + second.messages, second.rest)
    decreases |a|
  {
    if Incomplete(a) {
      assert [] + DeframeAll(a + b).messages == DeframeAll(a + b).messages;
    } else {
      DeframeInParts(Behind(a), b);
      FrontKept(a, b);
      var first := DeframeAll(Behind(a));
      Regroup([FirstMessage(a)], first.messages, DeframeAll(first.rest + b).messages);
    }
  }

  // ---------- Matching answers ----------

  /** idToIP: the i-th query carries identifier i + 1. */
  function Ids(ips: seq<string>): map<nat, string> {
    if ips == [] then map[] else Ids(ips[..|ips| - 1])[|ips| := ips[|ips| - 1]]
  }

  /** One message: a malformed or stray one changes nothing. */
  function HandleOne(results: map<string, DNSResponse>, ids: map<nat, string>, msg: seq<byte>): map<string, DNSResponse> {
    match ParseMessage(msg)
    case None => results
    case Some(parsed) => if parsed.id in ids && ids[parsed.id] != "" then results[ids[parsed.id] := parsed] else results
  }

  function HandleAll(results: map<string, DNSResponse>, ids: map<nat, string>, messages: seq<seq<byte>>): map<string, DNSResponse> {
    if messages == [] then results
    else HandleOne(HandleAll(results, ids, messages[..|messages| - 1]), ids, messages[|messages| - 1])
  }

  lemma {:induction false} HandleAllAppend(results: map<string, DNSResponse>, ids: map<nat, string>, a: seq<seq<byte>>, b: seq<seq<byte>>)
    ensures HandleAll(results, ids, a + b) == HandleAll(HandleAll(results, ids, a), ids, b)
  {
    if b == [] {
      assert a + b == a;
    } else {
      assert (a + b)[..|a + b| - 1] == a + b[..|b| - 1];
      HandleAllAppend(results, ids, a, b[..|b| - 1]);
    }
  }

  /** Some messages are taken; d is what deframing the remaining bytes will give. */
  ghost predicate Taken(whole: Deframed, taken: seq<seq<byte>>, d: Deframed) {
    whole == Deframed(taken + d.messages, d.rest)
  }

  lemma TakeOne(whole: Deframed, taken: seq<seq<byte>>, s: seq<byte>)
    requires Taken(whole, taken, DeframeAll(s)) && !Incomplete(s)
    ensures Taken(whole, taken + [FirstMessage(s)], DeframeAll(Behind(s)))
  {
    Regroup(taken, [FirstMessage(s)], DeframeAll(Behind(s)).messages);
  }

  /** The variables of the read loop. */
  class Connection {
    var recvBuf: seq<byte>
    var results: map<string, DNSResponse>
    const idToIP: map<nat, string>

    constructor (ips: seq<string>)
      ensures recvBuf == [] && results == map[] && idToIP == Ids(ips)
    {
      recvBuf, results, idToIP := [], map[], Ids(ips);
    }

    method Match(msg: seq<byte>)
      modifies this`results
      ensures results == HandleOne(old(results), idToIP, msg)
    {
      var parsed := ComputeParseMessage(msg);
      if parsed.Some? && parsed.value.id in idToIP && idToIP[parsed.value.id] != "" {
        results := results[idToIP[parsed.value.id] := parsed.value];
      }
    }

    /** One turn of the outer loop: merge the chunk, then take every complete message. */
    method Receive(value: seq<byte>)
      modifies this
      ensures var d := DeframeAll(old(recvBuf) + value);
              recvBuf == d.rest && results == HandleAll(old(results), idToIP, d.messages)
    {
      recvBuf := recvBuf + value;
      ghost var whole := DeframeAll(recvBuf);
      ghost var taken: seq<seq<byte>> := [];
      assert [] + whole.messages == whole.messages;
      while |recvBuf| >= 2
        invariant Taken(whole, taken, DeframeAll(recvBuf))
        invariant results == HandleAll(old(results), idToIP, taken)
        decreases |recvBuf|
      {
        var msgLen := U16At(recvBuf, 0);
        if |recvBuf| < 2 + msgLen {
          break;
        }
        var msg := recvBuf[2..2 + msgLen];
        TakeOne(whole, taken, recvBuf);
        recvBuf := recvBuf[2 + msgLen..];
        assert (taken + [msg])[..|taken|] == taken;
        taken := taken + [msg];
        Match(msg);
      }
      assert taken + [] == taken;
    }
  }

  /** What has been read after k chunks. */
  function ReadResults(ips: seq<string>, chunks: seq<seq<byte>>, k: nat): map<string, DNSResponse>
    requires k <= |chunks|
  {
    HandleAll(map[], Ids(ips), DeframeAll(Flatten(chunks[..k])).messages)
  }

  lemma ReadOneMore(ips: seq<string>, chunks: seq<seq<byte>>, k: nat)
    requires k < |chunks|
    ensures
      var d := DeframeAll(DeframeAll(Flatten(chunks[..k])).rest + chunks[k]);
      && DeframeAll(Flatten(chunks[..k + 1])).rest == d.rest
      && ReadResults(ips, chunks, k + 1) == HandleAll(ReadResults(ips, chunks, k), Ids(ips), d.messages)
  {
    assert chunks[..k + 1][..k] == chunks[..k];
    var before := DeframeAll(Flatten(chunks[..k]));
    DeframeInParts(Flatten(chunks[..k]), chunks[k]);
    HandleAllAppend(map[], Ids(ips), before.messages, DeframeAll(before.rest + chunks[k]).messages);
  }

  // ---------- Independence of chunk boundaries ----------

  /** The query a message answers. */
  function Answers(ids: map<nat, string>, msg: seq<byte>): Option<nat> {
    match ParseMessage(msg)
    case None => None
    case Some(parsed) => if parsed.id in ids && ids[parsed.id] != "" then Some(parsed.id) else None
  }

  ghost predicate AnsweredOnce(ids: map<nat, string>, messages: seq<seq<byte>>) {
    forall i, j :: 0 <= i < j < |messages| && Answers(ids, messages[i]).Some? ==> Answers(ids, messages[i]) != Answers(ids, messages[j])
  }

  lemma {:induction false} IdsMean(ips: seq<string>)
    ensures forall id :: id in Ids(ips) <==> 1 <= id <= |ips|
    ensures forall id :: 1 <= id <= |ips| ==> Ids(ips)[id] == ips[id - 1]
  {
    if ips != [] {
      IdsMean(ips[..|ips| - 1]);
    }
  }

  /** Every result comes from a message that answers its query. */
  lemma {:induction false} ResultFrom(ids: map<nat, string>, messages: seq<seq<byte>>, ip: string) returns (i: nat)
    requires ip in HandleAll(map[], ids, messages)
    ensures i < |messages| && Answers(ids, messages[i]).Some? && ids[Answers(ids, messages[i]).value] == ip
    ensures HandleAll(map[], ids, messages)[ip] == ParseMessage(messages[i]).value
  {
    var n := |messages| - 1;
    var last := Answers(ids, messages[n]);
    if last.Some? && ids[last.value] == ip {
      i := n;
    } else {
      i := ResultFrom(ids, messages[..n], ip);
    }
  }

  /** The message parses, and answers the query for ip. */
  ghost predicate IsAnswerFor(ips: seq<string>, msg: seq<byte>, ip: string) {
    match ParseMessage(msg)
    case None => false
    case Some(r) => ip != "" && 1 <= r.id <= |ips| && ips[r.id - 1] == ip
  }

  /** An address has a result iff some message answers its query, and the result is the last such message. */
  lemma {:induction false} ResultIsLast(ips: seq<string>, messages: seq<seq<byte>>, ip: string)
    ensures var results := HandleAll(map[], Ids(ips), messages);
            && (ip in results <==> exists i :: 0 <= i < |messages| && IsAnswerFor(ips, messages[i], ip))
            && forall i :: 0 <= i < |messages| && IsAnswerFor(ips, messages[i], ip) && (forall j :: i < j < |messages| ==> !IsAnswerFor(ips, messages[j], ip))
                 ==> ip in results && ParseMessage(messages[i]) == Some(results[ip])
  {
    if messages != [] {
      var n := |messages| - 1;
      var before := messages[..n];
      ResultIsLast(ips, before, ip);
      IdsMean(ips);
      assert forall i :: 0 <= i < n ==> before[i] == messages[i];
      if IsAnswerFor(ips, messages[n], ip) {
        assert HandleAll(map[], Ids(ips), messages)[ip] == ParseMessage(messages[n]).value;
      }
    }
  }

  lemma {:induction false} DistinctCount(ips: seq<string>)
    ensures |ToSet(ips)| <= |ips|
  {
    if ips != [] {
      var n := |ips| - 1;
      DistinctCount(ips[..n]);
      assert ips == ips[..n] + [ips[n]];
      assert ToSet(ips) == ToSet(ips[..n]) + {ips[n]};
    }
  }

  lemma SmallerIsAll(a: set<string>, b: set<string>)
    requires a <= b && |b| <= |a|
    ensures a == b
  {
    assert |b - a| == |b| - |a|;
  }

  /** As many results as queries: every query is answered. */
  lemma AllAnswered(ips: seq<string>, messages: seq<seq<byte>>)
    requires |HandleAll(map[], Ids(ips), messages)| >= |ips|
    ensures forall ip <- ips :: ip in HandleAll(map[], Ids(ips), messages)
  {
    var results := HandleAll(map[], Ids(ips), messages);
    forall ip | ip in results ensures ip in ips {
      var i := ResultFrom(Ids(ips), messages, ip);
      IdsMean(ips);
    }
    DistinctCount(ips);
    assert |results.Keys| == |results|;
    SmallerIsAll(results.Keys, ToSet(ips));
  }

  /** Once every query is answered, messages that answer no query twice change nothing. */
  lemma {:induction false} RestChangesNothing(ips: seq<string>, a: seq<seq<byte>>, b: seq<seq<byte>>)
    requires DistinctIPs(ips) && AnsweredOnce(Ids(ips), a + b) && |HandleAll(map[], Ids(ips), a)| >= |ips|
    ensures HandleAll(map[], Ids(ips), a + b) == HandleAll(map[], Ids(ips), a)
  {
    if b == [] {
      assert a + b == a;
    } else {
      var n := |b| - 1;
      var whole := a + b;
      assert whole[..|whole| - 1] == a + b[..n] && whole[|a| + n] == b[n];
      OnceInPrefix(Ids(ips), whole, |a| + n);
      RestChangesNothing(ips, a, b[..n]);
      var last := Answers(Ids(ips), b[n]);
      forall i | 0 <= i < |a| && Answers(Ids(ips), a[i]).Some? ensures Answers(Ids(ips), a[i]) != last {
        assert whole[i] == a[i];
      }
      IdsMean(ips);
      AllAnswered(ips, a);
      if last.Some? {
        var i := ResultFrom(Ids(ips), a, ips[last.value - 1]);
        assert false;
      }
    }
  }

  lemma OnceInPrefix(ids: map<nat, string>, messages: seq<seq<byte>>, k: nat)
    requires AnsweredOnce(ids, messages) && k <= |messages|
    ensures AnsweredOnce(ids, messages[..k])
  {
  }

  lemma {:induction false} FlattenSplit(chunks: seq<seq<byte>>, k: nat)
    requires k <= |chunks|
    ensures Flatten(chunks) == Flatten(chunks[..k]) + Flatten(chunks[k..])
  {
    if k == |chunks| {
      assert chunks[..k] == chunks;
    } else {
      var n := |chunks| - 1;
      FlattenSplit(chunks[..n], k);
      assert chunks[..n][..k] == chunks[..k] && chunks[..n][k..] == chunks[k..][..n - k];
      Regroup(Flatten(chunks[..k]), Flatten(chunks[k..][..n - k]), chunks[n]);
    }
  }

  /** The read loop over these chunks ends after k of them: every query has a result, or nothing more comes. */
  ghost predicate Stops(ips: seq<string>, chunks: seq<seq<byte>>, k: nat) {
    && k <= |chunks|
    && (k == |chunks| || |ReadResults(ips, chunks, k)| >= |ips|)
    && forall i :: 0 <= i < k ==> |ReadResults(ips, chunks, i)| < |ips|
  }

  /** Some way to cut the stream into chunks makes the loop return these results. */
  ghost predicate Returned(ips: seq<string>, stream: seq<byte>, results: map<string, DNSResponse>) {
    exists chunks, k :: Flatten(chunks) == stream && Stops(ips, chunks, k) && results == ReadResults(ips, chunks, k)
  }

  /** As soon as every query has a result, the messages behind change none. */
  ghost predicate Settles(ips: seq<string>, messages: seq<seq<byte>>) {
    forall j :: 0 <= j <= |messages| && |HandleAll(map[], Ids(ips), messages[..j])| >= |ips| ==>
                  HandleAll(map[], Ids(ips), messages[..j]) == HandleAll(map[], Ids(ips), messages)
  }

  lemma ReadIsHandled(ips: seq<string>, chunks: seq<seq<byte>>, k: nat)
    requires k <= |chunks| && (k == |chunks| || |ReadResults(ips, chunks, k)| >= |ips|)
    requires Settles(ips, DeframeAll(Flatten(chunks)).messages)
    ensures ReadResults(ips, chunks, k) == HandleAll(map[], Ids(ips), DeframeAll(Flatten(chunks)).messages)
  {
    if k == |chunks| {
      assert chunks[..k] == chunks;
    } else {
      FlattenSplit(chunks, k);
      var a, b := Flatten(chunks[..k]), Flatten(chunks[k..]);
      DeframeInParts(a, b);
      var ms := DeframeAll(a).messages;
      assert DeframeAll(a + b).messages[..|ms|] == ms;
    }
  }

  lemma FlattenOne(chunk: seq<byte>)
    ensures Flatten([chunk]) == chunk
  {
    var chunks: seq<seq<byte>> := [chunk];
    assert chunks[..0] == [] && [] + chunk == chunk;
  }

  lemma FlattenTwo(a: seq<byte>, b: seq<byte>)
    ensures Flatten([a, b]) == a + b
  {
    FlattenOne(a);
    assert [a, b][..1] == [a];
  }

  lemma CutBehind(stream: seq<byte>, j: nat) returns (first: seq<byte>, second: seq<byte>)
    requires j <= |DeframeAll(stream).messages|
    ensures Flatten([first, second]) == stream
    ensures DeframeAll(first) == Deframed(DeframeAll(stream).messages[..j], [])
  {
    var ms, rest := DeframeAll(stream).messages, DeframeAll(stream).rest;
    first, second := Frames(ms[..j]), Frames(ms[j..]) + rest;
    DeframeBuilds(stream);
    FramesSplit(ms, j);
    Regroup(first, Frames(ms[j..]), rest);
    FlattenTwo(first, second);
    FramesDeframe(ms[..j], []);
    assert first + [] == first;
  }

  /** The chunk boundary may fall behind any complete message. */
  lemma ReadUpTo(ips: seq<string>, stream: seq<byte>, j: nat)
    requires ips != [] && j <= |DeframeAll(stream).messages|
    requires j == |DeframeAll(stream).messages| || |HandleAll(map[], Ids(ips), DeframeAll(stream).messages[..j])| >= |ips|
    ensures Returned(ips, stream, HandleAll(map[], Ids(ips), DeframeAll(stream).messages[..j]))
  {
    var ms := DeframeAll(stream).messages;
    if j == |ms| {
      FlattenOne(stream);
      ReturnedAfterFirst(ips, [stream]);
      assert ms[..j] == ms;
    } else {
      var first, second := CutBehind(stream, j);
      ReturnedAfterFirst(ips, [first, second]);
    }
  }

  lemma ReturnedAfterFirst(ips: seq<string>, chunks: seq<seq<byte>>)
    requires ips != [] && chunks != []
    requires |chunks| == 1 || |HandleAll(map[], Ids(ips), DeframeAll(chunks[0]).messages)| >= |ips|
    ensures Returned(ips, Flatten(chunks), HandleAll(map[], Ids(ips), DeframeAll(chunks[0]).messages))
  {
    ReadFirstChunk(ips, chunks, DeframeAll(chunks[0]).messages);
    assert ReadResults(ips, chunks, 0) == map[];
    assert Stops(ips, chunks, 1);
  }

  lemma {:induction false} FramesSplit(messages: seq<seq<byte>>, j: nat)
    requires j <= |messages|
    ensures Frames(messages) == Frames(messages[..j]) + Frames(messages[j..])
  {
    if j > 0 {
      FramesSplit(messages[1..], j - 1);
      assert messages[..j][1..] == messages[1..][..j - 1] && messages[1..][j - 1..] == messages[j..];
      Regroup(Frame(messages[0]), Frames(messages[1..][..j - 1]), Frames(messages[j..]));
    } else {
      assert messages[j..] == messages;
    }
  }

  lemma {:induction false} NoQueries(messages: seq<seq<byte>>)
    ensures HandleAll(map[], Ids([]), messages) == map[]
  {
    if messages != [] {
      NoQueries(messages[..|messages| - 1]);
    }
  }

  /**
   * Main result: the loop returns the same results for every way the stream may be cut if and only if, as soon as every
   * query has a result, the messages behind change none.
   */
  lemma ChunksDoNotMatterIff(ips: seq<string>, stream: seq<byte>)
    ensures (forall r1, r2 :: Returned(ips, stream, r1) && Returned(ips, stream, r2) ==> r1 == r2)
            <==> Settles(ips, DeframeAll(stream).messages)
  {
    var ms := DeframeAll(stream).messages;
    if Settles(ips, ms) {
      forall r | Returned(ips, stream, r) ensures r == HandleAll(map[], Ids(ips), ms) {
        var chunks, k :| Flatten(chunks) == stream && Stops(ips, chunks, k) && r == ReadResults(ips, chunks, k);
        ReadIsHandled(ips, chunks, k);
      }
    }
    if ips == [] {
      NoQueries(ms);
      forall j | 0 <= j <= |ms| ensures HandleAll(map[], Ids(ips), ms[..j]) == map[] {
        NoQueries(ms[..j]);
      }
    } else if forall r1, r2 :: Returned(ips, stream, r1) && Returned(ips, stream, r2) ==> r1 == r2 {
      ReadUpTo(ips, stream, |ms|);
      assert ms[..|ms|] == ms;
      forall j | 0 <= j <= |ms| && |HandleAll(map[], Ids(ips), ms[..j])| >= |ips|
        ensures HandleAll(map[], Ids(ips), ms[..j]) == HandleAll(map[], Ids(ips), ms)
      {
        ReadUpTo(ips, stream, j);
      }
    }
  }

  lemma OnceSettles(ips: seq<string>, messages: seq<seq<byte>>)
    requires DistinctIPs(ips) && AnsweredOnce(Ids(ips), messages)
    ensures Settles(ips, messages)
  {
    forall j | 0 <= j <= |messages| && |HandleAll(map[], Ids(ips), messages[..j])| >= |ips|
      ensures HandleAll(map[], Ids(ips), messages[..j]) == HandleAll(map[], Ids(ips), messages)
    {
      assert messages[..j] + messages[j..] == messages;
      RestChangesNothing(ips, messages[..j], messages[j..]);
    }
  }

  /** If no query is answered twice, what the loop returns depends on the bytes alone, not on the chunks. */
  lemma ChunksDoNotMatter(ips: seq<string>, chunks: seq<seq<byte>>, k: nat)
    requires DistinctIPs(ips) && k <= |chunks|
    requires AnsweredOnce(Ids(ips), DeframeAll(Flatten(chunks)).messages)
    requires k == |chunks| || |ReadResults(ips, chunks, k)| >= |ips|
    ensures ReadResults(ips, chunks, k) == HandleAll(map[], Ids(ips), DeframeAll(Flatten(chunks)).messages)
  {
    OnceSettles(ips, DeframeAll(Flatten(chunks)).messages);
    ReadIsHandled(ips, chunks, k);
  }

  lemma DeframeOne(m: seq<byte>)
    requires |m| < 0x1_0000
    ensures DeframeAll(Frame(m)).messages == [m]
  {
    FramesFirst(m, []);
    FramesDeframe([m], []);
    assert Frame(m) == Frames([m]) + [];
  }

  lemma DeframeTwo(m1: seq<byte>, m2: seq<byte>)
    requires |m1| < 0x1_0000 && |m2| < 0x1_0000
    ensures DeframeAll(Frame(m1) + Frame(m2)).messages == [m1, m2]
  {
    FramesFirst(m1, [m2]);
    FramesFirst(m2, []);
    FramesDeframe([m1, m2], []);
    assert [m1] + [m2] == [m1, m2] && [m2] + [] == [m2];
    assert Frame(m1) + Frame(m2) == Frames([m1, m2]) + [];
  }

  lemma HandleTwo(ids: map<nat, string>, m1: seq<byte>, m2: seq<byte>, r1: DNSResponse, r2: DNSResponse)
    requires ParseMessage(m1) == Some(r1) && ParseMessage(m2) == Some(r2) && r1.id == r2.id == 1 && 1 in ids && ids[1] != ""
    ensures HandleAll(map[], ids, [m1]) == map[ids[1] := r1]
    ensures HandleAll(map[], ids, [m1, m2]) == map[ids[1] := r2]
  {
    assert [m1][..0] == [] && [m1, m2][..1] == [m1];
  }

  lemma ReadFirstChunk(ips: seq<string>, chunks: seq<seq<byte>>, messages: seq<seq<byte>>)
    requires chunks != [] && DeframeAll(chunks[0]).messages == messages
    ensures ReadResults(ips, chunks, 1) == HandleAll(map[], Ids(ips), messages)
  {
    FlattenOne(chunks[0]);
    assert chunks[..1] == [chunks[0]];
  }

  /** Two different answers to one query: read in one chunk the second wins, read in two chunks the loop stops at the first. */
  lemma RepeatedAnswersDependOnChunks(ip: string, m1: seq<byte>, m2: seq<byte>, r1: DNSResponse, r2: DNSResponse)
    requires |m1| < 0x1_0000 && |m2| < 0x1_0000 && ParseMessage(m1) == Some(r1) && ParseMessage(m2) == Some(r2)
    requires r1.id == r2.id == 1 && r1 != r2 && ip != ""
    ensures ReadResults([ip], [Frame(m1) + Frame(m2)], 1) == map[ip := r2]
    ensures ReadResults([ip], [Frame(m1), Frame(m2)], 1) == map[ip := r1]
  {
    IdsMean([ip]);
    DeframeOne(m1);
    DeframeTwo(m1, m2);
    HandleTwo(Ids([ip]), m1, m2, r1, r2);
    ReadFirstChunk([ip], [Frame(m1) + Frame(m2)], [m1, m2]);
    ReadFirstChunk([ip], [Frame(m1), Frame(m2)], [m1]);
  }

  // ---------- The rcode filter ----------

  /** NOERROR and NXDOMAIN are definitive; anything else is left for the next run. */
  function Cacheable(results: map<string, DNSResponse>): map<string, DNSResponse> {
    map ip | ip in results && (results[ip].rcode == 0 || results[ip].rcode == 3) :: results[ip]
  }

  /** A message that definitively answers query id. */
  ghost predicate Definitive(msg: seq<byte>, id: nat) {
    match ParseMessage(msg)
    case None => false
    case Some(parsed) => parsed.id == id && (parsed.rcode == 0 || parsed.rcode == 3)
  }

  lemma {:induction false} AnswerIsResult(ips: seq<string>, messages: seq<seq<byte>>, i: nat, id: nat)
    requires DistinctIPs(ips) && AnsweredOnce(Ids(ips), messages) && i < |messages| && Answers(Ids(ips), messages[i]) == Some(id)
    ensures 1 <= id <= |ips|
    ensures var results := HandleAll(map[], Ids(ips), messages);
            ips[id - 1] in results && results[ips[id - 1]] == ParseMessage(messages[i]).value
  {
    IdsMean(ips);
    var n := |messages| - 1;
    if i < n {
      OnceInPrefix(Ids(ips), messages, n);
      AnswerIsResult(ips, messages[..n], i, id);
      assert Answers(Ids(ips), messages[n]) != Some(id);
    }
  }

  /** An address is cached, with that answer, if and only if some message of the stream definitively answers its query. */
  lemma CachedIffDefinitive(ips: seq<string>, messages: seq<seq<byte>>, id: nat)
    requires DistinctIPs(ips) && AnsweredOnce(Ids(ips), messages) && 1 <= id <= |ips| && ips[id - 1] != ""
    ensures ips[id - 1] in Cacheable(HandleAll(map[], Ids(ips), messages)) <==>
            exists i :: 0 <= i < |messages| && Definitive(messages[i], id)
    ensures forall i :: 0 <= i < |messages| && Definitive(messages[i], id) ==>
              var cached := Cacheable(HandleAll(map[], Ids(ips), messages));
              ips[id - 1] in cached && ParseMessage(messages[i]) == Some(cached[ips[id - 1]])
  {
    forall i | 0 <= i < |messages| && Definitive(messages[i], id)
      ensures var cached := Cacheable(HandleAll(map[], Ids(ips), messages));
              ips[id - 1] in cached && ParseMessage(messages[i]) == Some(cached[ips[id - 1]])
    {
      DefinitiveIsCached(ips, messages, id, i);
    }
    if ips[id - 1] in Cacheable(HandleAll(map[], Ids(ips), messages)) {
      var i := CachedFrom(ips, messages, id);
    }
  }

  lemma CachedFrom(ips: seq<string>, messages: seq<seq<byte>>, id: nat) returns (i: nat)
    requires DistinctIPs(ips) && 1 <= id <= |ips| && ips[id - 1] in Cacheable(HandleAll(map[], Ids(ips), messages))
    ensures i < |messages| && Definitive(messages[i], id)
  {
    IdsMean(ips);
    i := ResultFrom(Ids(ips), messages, ips[id - 1]);
  }

  lemma DefinitiveIsCached(ips: seq<string>, messages: seq<seq<byte>>, id: nat, i: nat)
    requires DistinctIPs(ips) && AnsweredOnce(Ids(ips), messages) && 1 <= id <= |ips| && ips[id - 1] != ""
    requires i < |messages| && Definitive(messages[i], id)
    ensures var cached := Cacheable(HandleAll(map[], Ids(ips), messages));
            ips[id - 1] in cached && ParseMessage(messages[i]) == Some(cached[ips[id - 1]])
  {
    OwnId(ips, messages[i], id);
    AnswerIsResult(ips, messages, i, id);
    CachedEntry(HandleAll(map[], Ids(ips), messages), ips[id - 1]);
  }

  lemma OwnId(ips: seq<string>, msg: seq<byte>, id: nat)
    requires 1 <= id <= |ips| && ips[id - 1] != "" && Definitive(msg, id)
    ensures Answers(Ids(ips), msg) == Some(id)
  {
    IdsMean(ips);
  }

  lemma CachedEntry(results: map<string, DNSResponse>, ip: string)
    requires ip in results && (results[ip].rcode == 0 || results[ip].rcode == 3)
    ensures ip in Cacheable(results) && Cacheable(results)[ip] == results[ip]
  {
  }

  /** The read loop: it stops when every query is answered or no chunk comes before the deadline. */
  method PipelinePTRQueries(ips: seq<string>, chunks: seq<seq<byte>>) returns (results: map<string, DNSResponse>, read: nat)
    ensures Stops(ips, chunks, read) && results == ReadResults(ips, chunks, read)
    ensures Settles(ips, DeframeAll(Flatten(chunks)).messages) ==>
              results == HandleAll(map[], Ids(ips), DeframeAll(Flatten(chunks)).messages)
  {
    var c := new Connection(ips);
    read := 0;
    assert Flatten(chunks[..0]) == [];
    while |ips| > |c.results| && read < |chunks|
      invariant 0 <= read <= |chunks|
      invariant c.recvBuf == DeframeAll(Flatten(chunks[..read])).rest && c.results == ReadResults(ips, chunks, read)
      invariant forall k :: 0 <= k < read ==> |ReadResults(ips, chunks, k)| < |ips|
      decreases |chunks| - read
    {
      ReadOneMore(ips, chunks, read);
      c.Receive(chunks[read]);
      read := read + 1;
    }
    results := c.results;
    if Settles(ips, DeframeAll(Flatten(chunks)).messages) {
      ReadIsHandled(ips, chunks, read);
    }
  }
}
