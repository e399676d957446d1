/**
 * migrations/0011_normalize_ipv6.sql:10-88: the SQL that normalised stored IPv6 text, by substring search. It gives
 * the text normalizeIPAddress gives, for every text expandIPv6 accepts.
 */
module SqlNormalizer {
  import opened Prelude
  import opened Text
  import opened IpText
  import opened Canonical

  // ---------- SQLite text functions ----------

  predicate OccursAt(s: string, pattern: string, i: int) {
    0 <= i <= |s| - |pattern| && forall j :: 0 <= j < |pattern| ==> s[i + j] == pattern[j]
  }

  /** The first position from `from` on where pattern occurs, counted from 1, or 0. */
  function InstrFrom(s: string, pattern: string, from: nat): nat
    decreases |s| - from
  {
    if OccursAt(s, pattern, from) then from + 1
    else if from >= |s| then 0
    else InstrFrom(s, pattern, from + 1)
  }

  /** instr(s, pattern). */
  function Instr(s: string, pattern: string): nat {
    InstrFrom(s, pattern, 0)
  }

  lemma {:induction false} InstrMeans(s: string, pattern: string, from: nat)
    ensures var at := InstrFrom(s, pattern, from);
            && (at > 0 ==> from < at && OccursAt(s, pattern, at - 1) && forall i :: from <= i < at - 1 ==> !OccursAt(s, pattern, i))
            && (at == 0 ==> forall i :: from <= i ==> !OccursAt(s, pattern, i))
    decreases |s| - from
  {
    if !OccursAt(s, pattern, from) && from < |s| {
      InstrMeans(s, pattern, from + 1);
    }
  }

  /** substr(s, at, n) for at >= 1; a negative n takes the characters before position at. */
  function Substr(s: string, at: int, n: int): string
    requires at >= 1
  {
    var start := Min(at - 1, |s|);
    if n >= 0 then s[start..Min(at - 1 + n, |s|)] else s[Max(Min(at - 1 + n, |s|), 0)..start]
  }

  // ---------- The common table expressions ----------

  /** halves: the text before and after the first "::". */
  function Head(ip: string): string {
    var at := Instr(ip, "::");
    if at == 0 then ip else Substr(ip, 1, at - 1)
  }

  function Tail(ip: string): string {
    var at := Instr(ip, "::");
    if at == 0 then "" else Substr(ip, at + 2, |ip|)
  }

  /** expanded_groups: arrays holds the parts between colons as JSON arrays. */
  function RawGroup(ip: string, i: nat): string
    requires i < 8
  {
    GroupAt(Parts(Head(ip)), Parts(Tail(ip)), i)
  }

  function GroupAt(head: seq<string>, tail: seq<string>, i: nat): string
    requires i < 8
  {
    if i < |head| then head[i]
    else if i >= 8 - |tail| then tail[i - (8 - |tail|)]
    else "0"
  }

  /** normalized_groups: the parts that group_concat joins in order, and base. */
  function SqlParts(ip: string): seq<string> {
    seq(8, i requires 0 <= i < 8 => Strip(RawGroup(ip, i)))
  }

  function Base(ip: string): string {
    Join(SqlParts(ip), ':')
  }

  /** The pattern for k zero groups: ":0:0:". */
  function Pattern(k: nat): string {
    if k == 0 then ":" else ":0" + Pattern(k - 1)
  }

  /** The longest pattern of at most k and at least two groups that occurs in padded, "" if there is none. */
  function ChoosePattern(padded: string, k: nat): string {
    if k < 2 then "" else if Instr(padded, Pattern(k)) > 0 then Pattern(k) else ChoosePattern(padded, k - 1)
  }

  /** The text before a pattern found at position at, counted from 0. */
  function Front(padded: string, at: nat): string {
    if at + 1 == 1 then "" else Substr(padded, 2, at - 1)
  }

  /** The text behind a pattern whose last colon is at position end. */
  function Rest(padded: string, end: nat): string {
    if end + 2 > |padded| then "" else Substr(padded, end + 2, |padded| - end - 2)
  }

  /** The result columns; a chosen pattern always occurs, so at is 0 only when there is none. */
  function Cut(base: string, padded: string, pattern: string): string {
    var at := Instr(padded, pattern);
    if pattern == "" || at == 0 then base else Around(Front(padded, at - 1), Rest(padded, at - 1 + |pattern| - 1))
  }

  /** new_ip. */
  function SqlNormalize(ip: string): string {
    var base := Base(ip);
    var padded := ":" + base + ":";
    Cut(base, padded, ChoosePattern(padded, 8))
  }

  // ---------- The groups ----------

  lemma InstrDouble(ip: string)
    ensures Instr(ip, "::") == match IndexOfDouble(ip, 0) case None => 0 case Some(d) => d + 1
  {
    InstrMeans(ip, "::", 0);
    forall i ensures OccursAt(ip, "::", i) <==> DoubleAt(ip, i) {
      assert OccursAt(ip, "::", i) ==> ip[i + 0] == "::"[0] && ip[i + 1] == "::"[1];
    }
    assert forall d: nat :: IndexOfDouble(ip, 0) == Some(d) ==> DoubleAt(ip, d);
  }

  lemma Halves(ip: string)
    ensures
      match IndexOfDouble(ip, 0)
      case None => Head(ip) == ip && Tail(ip) == ""
      case Some(d) => Head(ip) == ip[..d] && Tail(ip) == ip[d + 2..]
  {
    InstrDouble(ip);
  }

  /** The raw groups are the groups expandIPv6 goes through. */
  lemma RawGroupsAre(ip: string, gs: seq<string>, i: nat)
    requires GroupTexts(ip) == Some(gs) && i < 8
    ensures RawGroup(ip, i) == gs[i]
  {
    var head, tail := HalfParts(ip);
    assert RawGroup(ip, i) == GroupAt(head, tail, i);
  }

  lemma HalfParts(ip: string) returns (head: seq<string>, tail: seq<string>)
    requires GroupTexts(ip).Some?
    ensures head == Parts(Head(ip)) && tail == Parts(Tail(ip))
    ensures GroupTexts(ip) == if |head| == 8 then Some(head) else Filled(head, tail)
    ensures |head| == 8 ==> tail == []
  {
    Halves(ip);
    match IndexOfDouble(ip, 0)
    case None => head, tail := Parts(ip), [];
    case Some(d) => head, tail := Parts(ip[..d]), Parts(ip[d + 2..]);
  }

  lemma PartIs(ip: string, gs: seq<string>, i: nat)
    requires GroupTexts(ip) == Some(gs) && (forall g <- gs :: IsGroup(g)) && i < 8
    ensures Strip(RawGroup(ip, i)) == ToTexts(Numbers(gs))[i]
  {
    RawGroupsAre(ip, gs, i);
    assert gs[i] in gs;
    StripIsMinimal(gs[i]);
  }

  /** base joins the groups normalizeIPAddress joins. */
  lemma PartsAre(ip: string, gs: seq<string>)
    requires GroupTexts(ip) == Some(gs) && forall g <- gs :: IsGroup(g)
    ensures SqlParts(ip) == ToTexts(Numbers(gs))
  {
    forall i | 0 <= i < 8 ensures SqlParts(ip)[i] == ToTexts(Numbers(gs))[i] {
      PartIs(ip, gs, i);
    }
  }

  // ---------- Padded text ----------

  /** Every group with a colon before it, and a colon at the end. */
  function Padded(gs: seq<string>): string {
    if gs == [] then ":" else ":" + gs[0] + Padded(gs[1..])
  }

  lemma {:induction false} PaddedJoin(gs: seq<string>)
    requires gs != []
    ensures Padded(gs) == ":" + Join(gs, ':') + ":"
  {
    if |gs| > 1 {
      PaddedJoin(gs[1..]);
    }
  }

  ghost predicate Numerals(gs: seq<string>) {
    forall g <- gs :: g != "" && ':' !in g
  }

  lemma NumeralsBehind(gs: seq<string>, a: nat)
    requires Numerals(gs) && a <= |gs|
    ensures Numerals(gs[a..])
  {
    assert forall g <- gs[a..] :: g in gs;
  }

  /** Where group a, or the end, has its colon. */
  function Offset(gs: seq<string>, a: nat): nat
    requires a <= |gs|
  {
    if a == 0 then 0 else 1 + |gs[0]| + Offset(gs[1..], a - 1)
  }

  lemma {:induction false} PaddedFrom(gs: seq<string>, a: nat)
    requires a <= |gs|
    ensures Offset(gs, a) <= |Padded(gs)|
    ensures Padded(gs)[Offset(gs, a)..] == Padded(gs[a..])
  {
    if a > 0 {
      PaddedFrom(gs[1..], a - 1);
      assert gs[1..][a - 1..] == gs[a..];
      assert Padded(gs)[1 + |gs[0]|..] == Padded(gs[1..]);
    }
  }

  /** Colons stand only at the offsets. */
  lemma {:induction false} ColonsAreOffsets(gs: seq<string>, i: nat) returns (a: nat)
    requires Numerals(gs) && i < |Padded(gs)| && Padded(gs)[i] == ':'
    ensures a <= |gs| && i == Offset(gs, a)
  {
    if i == 0 {
      a := 0;
    } else {
      forall j | 1 <= j <= |gs[0]| ensures Padded(gs)[j] != ':' {
        assert Padded(gs)[j] == gs[0][j - 1];
        assert gs[0][j - 1] in gs[0];
      }
      assert Padded(gs)[i] == Padded(gs[1..])[i - 1 - |gs[0]|];
      NumeralsBehind(gs, 1);
      a := ColonsAreOffsets(gs[1..], i - 1 - |gs[0]|);
      a := a + 1;
    }
  }

  lemma {:induction false} OffsetsGrow(gs: seq<string>, a: nat, b: nat)
    requires a < b <= |gs|
    ensures Offset(gs, a) < Offset(gs, b)
  {
    if a > 0 {
      OffsetsGrow(gs[1..], a - 1, b - 1);
    }
  }

  lemma {:induction false} PaddedLength(gs: seq<string>)
    ensures |Padded(gs)| == Offset(gs, |gs|) + 1
  {
    if gs != [] {
      PaddedLength(gs[1..]);
    }
  }

  // ---------- Patterns ----------

  /** Behind offset a the pattern of k groups follows exactly when k groups from a on are "0". */
  lemma {:induction false} PatternFits(gs: seq<string>, k: nat)
    requires Numerals(gs)
    ensures Pattern(k) <= Padded(gs) <==> k <= RunLength(gs, 0)
  {
    if k == 0 || gs == [] {
      PatternStarts(k);
    } else {
      PatternStarts(k - 1);
      NumeralsBehind(gs, 1);
      PatternFits(gs[1..], k - 1);
      RunOfRest(gs);
      assert gs[0] in gs;
      ZeroGroupFits(gs[0], Padded(gs[1..]), Pattern(k - 1));
    }
  }

  lemma PatternStarts(k: nat)
    ensures Pattern(k)[0] == ':' && |Pattern(k)| == 2 * k + 1
  {
  }

  lemma RunOfRest(gs: seq<string>)
    requires gs != []
    ensures RunLength(gs, 0) == if gs[0] == "0" then 1 + RunLength(gs[1..], 0) else 0
  {
    RunShift(gs, 1);
  }

  lemma {:induction false} RunShift(gs: seq<string>, i: nat)
    requires 0 < i <= |gs|
    ensures RunLength(gs, i) == RunLength(gs[1..], i - 1)
    decreases |gs| - i
  {
    if i < |gs| {
      RunShift(gs, i + 1);
    }
  }

  /** ":0" and a text that starts with a colon fit before a group exactly when the group is "0". */
  lemma ZeroGroupFits(g: string, rest: string, pattern: string)
    requires g != "" && ':' !in g && rest != "" && rest[0] == ':' && pattern != "" && pattern[0] == ':'
    ensures ":0" + pattern <= ":" + g + rest <==> g == "0" && pattern <= rest
  {
    var whole := ":" + g + rest;
    if g == "0" {
      assert whole[2..] == rest;
      assert whole == ":0" + rest;
      PrefixBehind(":0", pattern, rest);
    } else {
      assert |whole| > 2 ==> whole[2] == if |g| > 1 then g[1] else ':';
      assert |g| > 1 ==> g[1] in g;
      assert whole[1] == g[0];
      assert (":0" + pattern)[1] == '0' && (":0" + pattern)[2] == ':';
    }
  }

  lemma PrefixBehind(a: string, x: string, y: string)
    ensures a + x <= a + y <==> x <= y
  {
    if a + x <= a + y {
      assert (a + y)[..|a + x|][|a|..] == x;
    }
  }

  /** The pattern of k groups occurs at a position exactly when a run of k zero groups starts at that offset. */
  lemma PatternOccurs(gs: seq<string>, k: nat, a: nat)
    requires Numerals(gs) && a <= |gs|
    ensures OccursAt(Padded(gs), Pattern(k), Offset(gs, a)) <==> k <= RunLength(gs, a)
  {
    PaddedFrom(gs, a);
    NumeralsBehind(gs, a);
    PatternFits(gs[a..], k);
    RunAt(gs, a);
    var i, p := Offset(gs, a), Padded(gs);
    assert |p| - i == |Padded(gs[a..])|;
    assert forall j :: 0 <= j < |p| - i ==> p[i + j] == Padded(gs[a..])[j];
  }

  lemma {:induction false} RunAt(gs: seq<string>, a: nat)
    requires a <= |gs|
    ensures RunLength(gs[a..], 0) == RunLength(gs, a)
  {
    if a > 0 {
      RunAt(gs[1..], a - 1);
      assert gs[1..][a - 1..] == gs[a..];
      RunShift(gs, a);
    }
  }

  /** instr finds a run of at least k zero groups, */
  lemma InstrIsRun(gs: seq<string>, k: nat) returns (a: nat)
    requires Numerals(gs) && k > 0 && Instr(Padded(gs), Pattern(k)) > 0
    ensures a < |gs| && Instr(Padded(gs), Pattern(k)) - 1 == Offset(gs, a) && k <= RunLength(gs, a)
  {
    var p, at := Padded(gs), Instr(Padded(gs), Pattern(k));
    InstrMeans(p, Pattern(k), 0);
    PatternStarts(k);
    assert p[at - 1] == Pattern(k)[0];
    a := ColonsAreOffsets(gs, at - 1);
    PatternOccurs(gs, k, a);
  }

  /** and none further left. */
  lemma InstrIsLeftmost(gs: seq<string>, k: nat, b: nat)
    requires Numerals(gs) && k > 0 && b < |gs| && k <= RunLength(gs, b)
    ensures 0 < Instr(Padded(gs), Pattern(k)) <= Offset(gs, b) + 1
  {
    InstrMeans(Padded(gs), Pattern(k), 0);
    PatternOccurs(gs, k, b);
  }

  /** The pattern tried longest first is the pattern of the longest run. */
  lemma {:induction false} ChosenPattern(gs: seq<string>, k: nat)
    requires Numerals(gs) && LongestRun(gs, |gs|).length <= k
    ensures var n := LongestRun(gs, |gs|).length;
            ChoosePattern(Padded(gs), k) == if n < 2 then "" else Pattern(n)
  {
    if k >= 2 {
      var b := LongestRun(gs, |gs|);
      if b.length == k {
        LongestRunMeans(gs, |gs|, 0);
        InstrIsLeftmost(gs, k, b.start);
      } else {
        if Instr(Padded(gs), Pattern(k)) > 0 {
          var a := InstrIsRun(gs, k);
          LongestRunMeans(gs, |gs|, a);
          assert false;
        }
        ChosenPattern(gs, k - 1);
      }
    }
  }

  /** Its first occurrence is the leftmost longest run. */
  lemma ChosenPlace(gs: seq<string>, start: nat, n: nat)
    requires Numerals(gs) && n > 0 && LongestRun(gs, |gs|) == ZeroRun(start, n)
    ensures Instr(Padded(gs), Pattern(n)) == Offset(gs, start) + 1
  {
    LongestRunMeans(gs, |gs|, 0);
    InstrIsLeftmost(gs, n, start);
    var a := InstrIsRun(gs, n);
    assert start <= a by {
      LongestRunMeans(gs, |gs|, a);
    }
    if start < a {
      OffsetsGrow(gs, start, a);
    }
  }

  // ---------- Cutting ----------

  /** The text up to the colon of group a. */
  lemma {:induction false} PaddedUpTo(gs: seq<string>, a: nat)
    requires 0 < a <= |gs|
    ensures 1 <= Offset(gs, a) < |Padded(gs)|
    ensures Padded(gs)[1..Offset(gs, a)] == Join(gs[..a], ':')
  {
    var p := Padded(gs);
    if a == 1 {
      assert gs[..1] == [gs[0]];
    } else {
      PaddedUpTo(gs[1..], a - 1);
      assert gs[..a][1..] == gs[1..][..a - 1];
      var n := 1 + |gs[0]|;
      assert p[n..] == Padded(gs[1..]);
      assert p[1..Offset(gs, a)] == p[1..n] + p[n..Offset(gs, a)];
      assert p[n..Offset(gs, a)] == ":" + Padded(gs[1..])[1..Offset(gs[1..], a - 1)];
    }
  }

  /** The text behind the colon of group a, without the closing colon. */
  lemma PaddedAfter(gs: seq<string>, a: nat)
    requires a < |gs|
    ensures Offset(gs, a) + 1 < |Padded(gs)|
    ensures Padded(gs)[Offset(gs, a) + 1..|Padded(gs)| - 1] == Join(gs[a..], ':')
  {
    PaddedFrom(gs, a);
    PaddedJoin(gs[a..]);
    var p, i := Padded(gs), Offset(gs, a);
    assert p[i..][1..|p| - i - 1] == p[i + 1..|p| - 1];
  }

  lemma {:induction false} OffsetsOfRun(gs: seq<string>, a: nat, n: nat)
    requires a + n <= |gs| && n <= RunLength(gs, a)
    ensures Offset(gs, a + n) == Offset(gs, a) + 2 * n
  {
    if a > 0 {
      RunShift(gs, a);
      OffsetsOfRun(gs[1..], a - 1, n);
    } else if n > 0 {
      RunOfRest(gs);
      OffsetsOfRun(gs[1..], 0, n - 1);
    }
  }

  lemma FrontIs(gs: seq<string>, start: nat)
    requires start <= |gs|
    ensures Front(Padded(gs), Offset(gs, start)) == Join(gs[..start], ':')
  {
    if start > 0 {
      PaddedUpTo(gs, start);
    }
  }

  lemma RestIs(gs: seq<string>, end: nat)
    requires end <= |gs|
    ensures Rest(Padded(gs), Offset(gs, end)) == Join(gs[end..], ':')
  {
    PaddedLength(gs);
    if end < |gs| {
      OffsetsGrow(gs, end, |gs|);
      PaddedAfter(gs, end);
    }
  }

  lemma CutIs(base: string, p: string, k: nat, at: nat, end: nat)
    requires Instr(p, Pattern(k)) == at + 1 && end == at + 2 * k
    ensures Cut(base, p, Pattern(k)) == Around(Front(p, at), Rest(p, end))
  {
    PatternStarts(k);
    assert at + |Pattern(k)| - 1 == end;
  }

  lemma CompressRunIs(gs: seq<string>, start: nat, end: nat)
    requires start + 2 <= end <= |gs|
    ensures CompressRun(gs, ZeroRun(start, end - start)) == Around(Join(gs[..start], ':'), Join(gs[end..], ':'))
  {
    assert start + (end - start) == end;
  }

  lemma CutRun(gs: seq<string>, start: nat, end: nat)
    requires start + 2 <= end <= |gs| && end - start <= RunLength(gs, start)
    requires Instr(Padded(gs), Pattern(end - start)) == Offset(gs, start) + 1
    ensures Cut(Join(gs, ':'), Padded(gs), Pattern(end - start)) == CompressRun(gs, ZeroRun(start, end - start))
  {
    OffsetsOfRun(gs, start, end - start);
    CutIs(Join(gs, ':'), Padded(gs), end - start, Offset(gs, start), Offset(gs, end));
    FrontIs(gs, start);
    RestIs(gs, end);
    CompressRunIs(gs, start, end);
  }

  lemma CutLongest(gs: seq<string>, start: nat, end: nat)
    requires Numerals(gs) && start + 2 <= end && LongestRun(gs, |gs|) == ZeroRun(start, end - start)
    ensures Cut(Join(gs, ':'), Padded(gs), Pattern(end - start)) == Compress(gs)
  {
    ChosenPlace(gs, start, end - start);
    LongestRunMeans(gs, |gs|, 0);
    CutRun(gs, start, end);
  }

  lemma CutNothing(gs: seq<string>, p: string)
    requires LongestRun(gs, |gs|).length < 2
    ensures Cut(Join(gs, ':'), p, "") == Compress(gs)
  {
  }

  /** Cutting out the chosen pattern compresses. */
  lemma CutCompresses(gs: seq<string>)
    requires gs != [] && Numerals(gs)
    ensures Cut(Join(gs, ':'), Padded(gs), ChoosePattern(Padded(gs), |gs|)) == Compress(gs)
  {
    ChosenPattern(gs, |gs|);
    var b := LongestRun(gs, |gs|);
    if b.length < 2 {
      CutNothing(gs, Padded(gs));
    } else {
      assert b == ZeroRun(b.start, b.start + b.length - b.start);
      CutLongest(gs, b.start, b.start + b.length);
    }
  }

  // ---------- Main result ----------

  /** Longest pattern first and leftmost instr, or one scan from left to right: the same text. */
  lemma SqlAgrees(ip: string)
    requires ExpandIPv6(ip).Some?
    ensures NormalizeIPAddress(ip) == Some(SqlNormalize(ip))
  {
    var gs := GroupTexts(ip).value;
    var ws := Words(ExpandIPv6(ip).value);
    ExpandIsTheAddress(ip, ws);
    NormalizedText(ip, ws);
    WordsOfConcat(gs);
    PartsAre(ip, gs);
    var texts := ToTexts(ws);
    DenotedIsAddress(ip, ws);
    WordTexts(ws);
    forall g <- texts ensures g != "" && ':' !in g {
      GroupIsPlain(g);
    }
    PaddedJoin(texts);
    CutCompresses(texts);
  }
}
