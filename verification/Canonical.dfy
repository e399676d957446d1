/**
 * What src/ipAddr.ts:15-71 means: which texts denote which 128 bits (section 2.2 of RFC 4291), and that
 * normalizeIPAddress picks the one text per address that section 4 of RFC 5952 recommends.
 */
module Canonical {
  import opened Prelude
  import opened Text
  import opened IpText

  // ---------- Which text denotes which address ----------

  /** An address: eight words of sixteen bits. */
  ghost predicate IsAddress(ws: seq<nat>) {
    |ws| == 8 && forall w <- ws :: w < 0x1_0000
  }

  ghost predicate Means(gs: seq<string>, ws: seq<nat>) {
    |gs| == |ws| && forall i :: 0 <= i < |gs| ==> IsGroup(gs[i]) && HexNumber(gs[i]) == ws[i]
  }

  /** head::tail, where "::" stands for at least one zero word. */
  ghost predicate Abbreviates(s: string, ws: seq<nat>, hs: seq<string>, ts: seq<string>) {
    && |ws| == 8 && |hs| + |ts| < 8
    && s == Join(hs, ':') + "::" + Join(ts, ':')
    && Means(hs, ws[..|hs|]) && Means(ts, ws[8 - |ts|..])
    && forall i :: |hs| <= i < 8 - |ts| ==> ws[i] == 0
  }

  ghost predicate Spells(s: string, ws: seq<nat>, gs: seq<string>) {
    |ws| == 8 && s == Join(gs, ':') && Means(gs, ws)
  }

  ghost predicate Denotes(s: string, ws: seq<nat>) {
    (exists gs :: Spells(s, ws, gs)) || (exists hs, ts :: Abbreviates(s, ws, hs, ts))
  }

  // ---------- Texts made of groups ----------

  /** Neither touches nor contains "::", and has no zone. */
  ghost predicate Plain(s: string) {
    && (forall i :: !DoubleAt(s, i))
    && (s != "" ==> s[0] != ':' && s[|s| - 1] != ':')
    && '%' !in s
  }

  lemma GroupIsPlain(g: string)
    requires IsGroup(g)
    ensures Plain(g) && ':' !in g
  {
    forall i | 0 <= i < |g| ensures IsHexDigit(g[i]) {
      assert g[i] in g;
    }
  }

  lemma PlainConcat(g: string, r: string)
    requires g != "" && r != "" && Plain(g) && Plain(r)
    ensures Plain(g + [':'] + r)
  {
    var s := g + [':'] + r;
    forall i ensures !DoubleAt(s, i) {
      if 0 <= i < |s| - 1 {
        if i < |g| - 1 {
          assert !DoubleAt(g, i);
        } else if i > |g| {
          assert !DoubleAt(r, i - |g| - 1);
        }
      }
    }
  }

  lemma {:induction false} JoinIsPlain(gs: seq<string>)
    requires forall g <- gs :: IsGroup(g)
    ensures Plain(Join(gs, ':')) && (gs != [] <==> Join(gs, ':') != "")
  {
    if gs != [] {
      GroupIsPlain(gs[0]);
      if |gs| > 1 {
        JoinIsPlain(gs[1..]);
        PlainConcat(gs[0], Join(gs[1..], ':'));
      }
    }
  }

  lemma PartsOfJoin(gs: seq<string>)
    requires forall g <- gs :: IsGroup(g)
    ensures Parts(Join(gs, ':')) == gs
  {
    JoinIsPlain(gs);
    if gs != [] {
      forall g <- gs ensures ':' !in g {
        GroupIsPlain(g);
      }
      SplitJoin(gs, ':');
    }
  }

  /** The only "::" between two plain texts is the one put there. */
  lemma OneDouble(a: string, b: string, i: int)
    requires Plain(a) && Plain(b)
    ensures DoubleAt(a + "::" + b, i) <==> i == |a|
  {
    var s := a + "::" + b;
    if i < |a| - 1 {
      assert DoubleAt(s, i) ==> DoubleAt(a, i);
    } else if i > |a| + 1 {
      assert DoubleAt(s, i) ==> DoubleAt(b, i - |a| - 2);
    }
  }

  // ---------- expandIPv6 accepts what denotes an address ----------

  lemma SpelledGroups(gs: seq<string>)
    requires |gs| == 8 && forall g <- gs :: IsGroup(g)
    ensures GroupTexts(Join(gs, ':')) == Some(gs)
  {
    JoinIsPlain(gs);
    PartsOfJoin(gs);
  }

  lemma DoubleFound(a: string, b: string)
    requires Plain(a) && Plain(b)
    ensures
      var s := a + "::" + b;
      && IndexOfDouble(s, 0) == Some(|a|) && LastIndexOfDouble(s, |s|) == Some(|a|)
      && s[..|a|] == a && s[|a| + 2..] == b && '%' !in s
  {
    var s := a + "::" + b;
    forall i ensures DoubleAt(s, i) <==> i == |a| {
      OneDouble(a, b, i);
    }
    assert DoubleAt(s, |a|);
    assert IndexOfDouble(s, 0).Some? && LastIndexOfDouble(s, |s|).Some?;
  }

  lemma GroupTextsAround(a: string, b: string)
    requires Plain(a) && Plain(b)
    ensures GroupTexts(a + "::" + b) == Filled(Parts(a), Parts(b))
  {
    DoubleFound(a, b);
  }

  lemma AbbreviatedGroups(hs: seq<string>, ts: seq<string>)
    requires |hs| + |ts| < 8 && (forall g <- hs :: IsGroup(g)) && (forall g <- ts :: IsGroup(g))
    ensures GroupTexts(Join(hs, ':') + "::" + Join(ts, ':')) == Filled(hs, ts)
  {
    assert Plain(Join(hs, ':')) by { JoinIsPlain(hs); }
    assert Plain(Join(ts, ':')) by { JoinIsPlain(ts); }
    GroupTextsAround(Join(hs, ':'), Join(ts, ':'));
    PartsOfJoin(hs);
    PartsOfJoin(ts);
  }

  function Numbers(gs: seq<string>): seq<nat> {
    seq(|gs|, i requires 0 <= i < |gs| => HexNumber(gs[i]))
  }

  lemma GroupsMean(gs: seq<string>)
    requires forall g <- gs :: IsGroup(g)
    ensures Means(gs, Numbers(gs))
  {
  }

  lemma NumbersConcat(a: seq<string>, b: seq<string>)
    ensures Numbers(a + b) == Numbers(a) + Numbers(b)
  {
  }

  lemma ZeroGroups(n: nat)
    ensures Numbers(Repeat("0", n)) == seq(n, _ => 0)
  {
    assert HexNumber("0") == 0 by { assert "0"[..0] == ""; }
  }

  lemma GroupsAbbreviate(hs: seq<string>, ts: seq<string>)
    requires |hs| + |ts| < 8 && (forall g <- hs :: IsGroup(g)) && (forall g <- ts :: IsGroup(g))
    ensures Abbreviates(Join(hs, ':') + "::" + Join(ts, ':'), Numbers(hs + Repeat("0", 8 - |hs| - |ts|) + ts), hs, ts)
  {
    var zs := Repeat("0", 8 - |hs| - |ts|);
    NumbersConcat(hs + zs, ts);
    NumbersConcat(hs, zs);
    ZeroGroups(|zs|);
    var ws := Numbers(hs + zs + ts);
    assert ws == Numbers(hs) + seq(|zs|, _ => 0) + Numbers(ts);
    GroupsMean(hs);
    GroupsMean(ts);
    assert ws[..|hs|] == Numbers(hs) && ws[8 - |ts|..] == Numbers(ts);
  }

  lemma PartsJoin(s: string)
    ensures Join(Parts(s), ':') == s
  {
  }

  /** The two halves of an accepted text with "::". */
  lemma SplitAround(s: string) returns (hs: seq<string>, ts: seq<string>)
    requires GroupTexts(s).Some? && IndexOfDouble(s, 0).Some?
    ensures s == Join(hs, ':') + "::" + Join(ts, ':') && GroupTexts(s) == Filled(hs, ts)
  {
    var dbl := IndexOfDouble(s, 0).value;
    var head, tail := s[..dbl], s[dbl + 2..];
    CutAtDouble(s, dbl);
    hs, ts := Parts(head), Parts(tail);
    PartsJoin(head);
    PartsJoin(tail);
  }

  lemma CutAtDouble(s: string, dbl: nat)
    requires DoubleAt(s, dbl)
    ensures s == s[..dbl] + "::" + s[dbl + 2..]
  {
  }

  /** The groups of an accepted text denote the address the text denotes. */
  lemma GroupsDenote(s: string, gs: seq<string>)
    requires GroupTexts(s) == Some(gs) && forall g <- gs :: IsGroup(g)
    ensures Denotes(s, Numbers(gs))
  {
    match IndexOfDouble(s, 0)
    case None =>
      GroupsMean(gs);
      assert Spells(s, Numbers(gs), gs);
    case Some(_) =>
      var hs, ts := SplitAround(s);
      assert (forall g <- hs :: g in gs) && (forall g <- ts :: g in gs);
      GroupsAbbreviate(hs, ts);
  }

  lemma MeansGroups(gs: seq<string>, ws: seq<nat>)
    requires Means(gs, ws)
    ensures forall g <- gs :: IsGroup(g)
    ensures Numbers(gs) == ws
  {
  }

  /** A text that denotes ws expands to groups with these numbers. */
  lemma DenotesGroups(s: string, ws: seq<nat>) returns (gs: seq<string>)
    requires Denotes(s, ws)
    ensures GroupTexts(s) == Some(gs) && (forall g <- gs :: IsGroup(g)) && Numbers(gs) == ws
  {
    if spelled :| Spells(s, ws, spelled) {
      gs := spelled;
      MeansGroups(gs, ws);
      SpelledGroups(gs);
    } else {
      var hs, ts :| Abbreviates(s, ws, hs, ts);
      MeansGroups(hs, ws[..|hs|]);
      MeansGroups(ts, ws[8 - |ts|..]);
      AbbreviatedGroups(hs, ts);
      gs := hs + Repeat("0", 8 - |hs| - |ts|) + ts;
      assert HexNumber("0") == 0 by { assert "0"[..0] == ""; }
      forall i | 0 <= i < 8 ensures HexNumber(gs[i]) == ws[i] {
        if i < |hs| {
          assert HexNumber(gs[i]) == Numbers(hs)[i];
        } else if i >= 8 - |ts| {
          assert HexNumber(gs[i]) == Numbers(ts)[i - (8 - |ts|)];
        }
      }
    }
  }

  // ---------- The expansion is the address ----------

  lemma WordsOfConcat(gs: seq<string>)
    requires forall g <- gs :: IsGroup(g)
    ensures Words(Concat(gs)) == Numbers(gs)
  {
    ConcatSlices(gs);
    forall i | 0 <= i < |gs| ensures Words(Concat(gs))[i] == Numbers(gs)[i] {
      HexTextNumber(gs[i]);
    }
  }

  lemma NumbersSplit(gs: seq<string>)
    requires gs != []
    ensures var n := |gs| - 1; Numbers(gs)[..n] == Numbers(gs[..n]) && Numbers(gs)[n] == HexNumber(gs[n])
  {
  }

  lemma {:induction false} SameNumbersSameText(a: seq<string>, b: seq<string>)
    requires (forall g <- a :: IsGroup(g)) && (forall g <- b :: IsGroup(g)) && Numbers(a) == Numbers(b)
    ensures Concat(a) == Concat(b)
  {
    assert |a| == |Numbers(a)| == |b|;
    if a != [] {
      var n := |a| - 1;
      NumbersSplit(a);
      NumbersSplit(b);
      SameNumbersSameText(a[..n], b[..n]);
      HexTextFromNumber(a[n]);
      HexTextFromNumber(b[n]);
    }
  }

  /** expandIPv6 accepts exactly the texts that denote an address, and its answer is that address. */
  lemma ExpandIsTheAddress(s: string, ws: seq<nat>)
    ensures Denotes(s, ws) <==> ExpandIPv6(s).Some? && Words(ExpandIPv6(s).value) == ws
  {
    if Denotes(s, ws) {
      var gs := DenotesGroups(s, ws);
      WordsOfConcat(gs);
    }
    if ExpandIPv6(s).Some? && Words(ExpandIPv6(s).value) == ws {
      var gs := GroupTexts(s).value;
      GroupsDenote(s, gs);
      WordsOfConcat(gs);
    }
  }

  /** Two texts expand alike if and only if they denote the same 128 bits. */
  lemma ExpansionsAgree(a: string, wa: seq<nat>, b: string, wb: seq<nat>)
    requires Denotes(a, wa) && Denotes(b, wb)
    ensures ExpandIPv6(a).Some? && ExpandIPv6(b).Some?
    ensures ExpandIPv6(a) == ExpandIPv6(b) <==> wa == wb
  {
    var ga := DenotesGroups(a, wa);
    var gb := DenotesGroups(b, wb);
    ExpandIsTheAddress(a, wa);
    ExpandIsTheAddress(b, wb);
    if wa == wb {
      SameNumbersSameText(ga, gb);
    }
  }

  // ---------- normalizeIPAddress ----------

  lemma WordText(w: nat)
    requires w < 0x1_0000
    ensures IsGroup(ToHex(w)) && HexNumber(ToHex(w)) == w && Minimal(ToHex(w))
    ensures ToHex(w) == "0" <==> w == 0
  {
    assert Pow16(4) == 0x1_0000 by {
      assert Pow16(1) == 16 && Pow16(2) == 256 && Pow16(3) == 4096;
    }
    NumeralLength(w, 4);
    ToHexMeans(w);
    assert HexNumber("0") == 0 by { assert "0"[..0] == ""; }
  }

  lemma WordTexts(ws: seq<nat>)
    requires forall w <- ws :: w < 0x1_0000
    ensures Means(ToTexts(ws), ws)
    ensures forall i :: 0 <= i < |ws| ==> Minimal(ToTexts(ws)[i]) && (ToTexts(ws)[i] == "0" <==> ws[i] == 0)
  {
    forall i | 0 <= i < |ws|
      ensures IsGroup(ToTexts(ws)[i]) && HexNumber(ToTexts(ws)[i]) == ws[i] && Minimal(ToTexts(ws)[i])
      ensures ToTexts(ws)[i] == "0" <==> ws[i] == 0
    {
      assert ws[i] in ws;
      WordText(ws[i]);
    }
  }

  lemma DenotedIsAddress(s: string, ws: seq<nat>)
    requires Denotes(s, ws)
    ensures IsAddress(ws)
  {
    var gs := DenotesGroups(s, ws);
    forall w <- ws ensures w < 0x1_0000 {
      var i :| 0 <= i < |ws| && ws[i] == w;
      assert w == HexNumber(gs[i]) && IsGroup(gs[i]);
      HexNumberBound(gs[i]);
      Pow16Grows(|gs[i]|, 4);
      assert Pow16(4) == 0x1_0000 by {
        assert Pow16(1) == 16 && Pow16(2) == 256 && Pow16(3) == 4096;
      }
    }
  }

  lemma Pow16Grows(a: nat, b: nat)
    requires a <= b
    ensures Pow16(a) <= Pow16(b)
  {
  }

  lemma CompressedAbbreviates(ws: seq<nat>, gs: seq<string>, start: nat, n: nat)
    requires IsAddress(ws) && Means(gs, ws) && 0 < n && start + n <= 8
    requires forall i :: start <= i < start + n ==> ws[i] == 0
    ensures Abbreviates(Join(gs[..start], ':') + "::" + Join(gs[start + n..], ':'), ws, gs[..start], gs[start + n..])
  {
    var ts := gs[start + n..];
    assert Means(gs[..start], ws[..start]);
    forall i | 0 <= i < |ts| ensures IsGroup(ts[i]) && HexNumber(ts[i]) == ws[8 - |ts|..][i] {
      assert ts[i] == gs[start + n + i];
    }
  }

  lemma CompressDenotes(ws: seq<nat>, gs: seq<string>)
    requires IsAddress(ws) && Means(gs, ws) && forall i :: 0 <= i < 8 ==> gs[i] == "0" ==> ws[i] == 0
    ensures Denotes(Compress(gs), ws)
  {
    var b := LongestRun(gs, 8);
    if b.length < 2 {
      assert Spells(Join(gs, ':'), ws, gs);
    } else {
      LongestRunMeans(gs, 8, 0);
      RunLengthMeans(gs, b.start);
      CompressedAbbreviates(ws, gs, b.start, b.length);
    }
  }

  /** The compressed text of an address denotes it. */
  lemma CompressedDenotes(ws: seq<nat>)
    requires IsAddress(ws)
    ensures Denotes(Compress(ToTexts(ws)), ws)
  {
    WordTexts(ws);
    CompressDenotes(ws, ToTexts(ws));
  }

  lemma {:induction false} JoinChars(parts: seq<string>, c: char, d: char)
    requires c != d && forall p <- parts :: d !in p
    ensures d !in Join(parts, c)
  {
    if |parts| > 1 {
      JoinChars(parts[1..], c, d);
    }
  }

  lemma DottedHasNoColon(s: string)
    requires IsIPv4(s)
    ensures ':' !in s
  {
    var parts := Split(s, '.');
    forall p <- parts ensures ':' !in p {
      assert IsOctet(p);
    }
    JoinChars(parts, '.', ':');
  }

  lemma DenotesHasColon(s: string, ws: seq<nat>)
    requires Denotes(s, ws)
    ensures ':' in s && !IsIPv4(s)
  {
    if spelled :| Spells(s, ws, spelled) {
      assert s == spelled[0] + [':'] + Join(spelled[1..], ':');
      assert s[|spelled[0]|] == ':';
    } else {
      var hs, ts :| Abbreviates(s, ws, hs, ts);
      assert s[|Join(hs, ':')|] == ':';
    }
    if IsIPv4(s) {
      DottedHasNoColon(s);
    }
  }

  /** What normalizeIPAddress returns for an IPv6 text. */
  lemma NormalizedText(s: string, ws: seq<nat>)
    requires Denotes(s, ws)
    ensures NormalizeIPAddress(s) == Some(Compress(ToTexts(ws)))
  {
    DenotesHasColon(s, ws);
    ExpandIsTheAddress(s, ws);
  }

  // ---------- Main results ----------

  /** Normalising keeps the address: the result expands to what the input expands to. */
  lemma NormalizeKeepsAddress(s: string)
    requires ExpandIPv6(s).Some?
    ensures NormalizeIPAddress(s).Some? && ExpandIPv6(NormalizeIPAddress(s).value) == ExpandIPv6(s)
  {
    var ws := Words(ExpandIPv6(s).value);
    ExpandIsTheAddress(s, ws);
    NormalizedText(s, ws);
    DenotedIsAddress(s, ws);
    CompressedDenotes(ws);
    ExpansionsAgree(s, ws, Compress(ToTexts(ws)), ws);
  }

  /** Normalising is idempotent, on IPv4 text and on IPv6 text. */
  lemma NormalizeIdempotent(s: string)
    requires NormalizeIPAddress(s).Some?
    ensures NormalizeIPAddress(NormalizeIPAddress(s).value) == NormalizeIPAddress(s)
  {
    if !IsIPv4(s) {
      var ws := Words(ExpandIPv6(s).value);
      ExpandIsTheAddress(s, ws);
      DenotedIsAddress(s, ws);
      NormalizedText(s, ws);
      CompressedDenotes(ws);
      NormalizedText(Compress(ToTexts(ws)), ws);
    }
  }

  /** Two IPv6 texts normalise alike if and only if they denote the same 128 bits. */
  lemma NormalizeIsCanonical(a: string, wa: seq<nat>, b: string, wb: seq<nat>)
    requires Denotes(a, wa) && Denotes(b, wb)
    ensures NormalizeIPAddress(a) == NormalizeIPAddress(b) <==> wa == wb
  {
    NormalizedText(a, wa);
    NormalizedText(b, wb);
    if NormalizeIPAddress(a) == NormalizeIPAddress(b) {
      DenotedIsAddress(a, wa);
      DenotedIsAddress(b, wb);
      CompressedDenotes(wa);
      CompressedDenotes(wb);
      ExpansionsAgree(Compress(ToTexts(wa)), wa, Compress(ToTexts(wb)), wb);
    }
  }

  // ---------- RFC 5952 ----------

  ghost predicate ZeroWords(ws: seq<nat>, start: int, n: int) {
    0 <= start && 0 <= n && start + n <= |ws| && forall i :: start <= i < start + n ==> ws[i] == 0
  }

  /** Sections 4.2.1 to 4.2.3: the run "::" stands for is not one word, as long as possible, and the first such run. */
  ghost predicate RunToShorten(ws: seq<nat>, start: int, n: int) {
    && n >= 2 && ZeroWords(ws, start, n)
    && forall a, m :: ZeroWords(ws, a, m) ==> m < n || (m == n && start <= a)
  }

  ghost predicate ShortenedBy(text: string, ws: seq<nat>, gs: seq<string>, start: int, n: int) {
    && RunToShorten(ws, start, n) && |gs| == |ws|
    && text == Join(gs[..start], ':') + "::" + Join(gs[start + n..], ':')
  }

  /** Sections 4.1 and 4.3: lowercase groups without leading zeros; and section 4.2. */
  ghost predicate RecommendedBy(text: string, ws: seq<nat>, gs: seq<string>) {
    && Means(gs, ws) && (forall g <- gs :: Minimal(g))
    && ((text == Join(gs, ':') && forall a, m :: ZeroWords(ws, a, m) ==> m < 2)
        || exists start, n :: ShortenedBy(text, ws, gs, start, n))
  }

  ghost predicate Recommended(text: string, ws: seq<nat>) {
    IsAddress(ws) && exists gs :: RecommendedBy(text, ws, gs)
  }

  lemma ZeroWordsAreRuns(ws: seq<nat>, start: int, n: int)
    requires IsAddress(ws) && ZeroWords(ws, start, n) && start < 8
    ensures n <= RunLength(ToTexts(ws), start)
  {
    WordTexts(ws);
    var gs, m := ToTexts(ws), RunLength(ToTexts(ws), start);
    RunLengthMeans(gs, start);
    assert start + m < 8 ==> gs[start + m] != "0";
  }

  lemma NoLongerRun(ws: seq<nat>, a: int, m: int)
    requires IsAddress(ws) && ZeroWords(ws, a, m)
    ensures var b := LongestRun(ToTexts(ws), 8);
            m <= b.length && (m == b.length > 0 ==> b.start <= a)
  {
    if m > 0 {
      ZeroWordsAreRuns(ws, a, m);
      LongestRunMeans(ToTexts(ws), 8, a);
    }
  }

  lemma LongestIsZeroWords(ws: seq<nat>)
    requires IsAddress(ws) && LongestRun(ToTexts(ws), 8).length > 0
    ensures var b := LongestRun(ToTexts(ws), 8); ZeroWords(ws, b.start, b.length)
  {
    WordTexts(ws);
    LongestRunMeans(ToTexts(ws), 8, 0);
    RunLengthMeans(ToTexts(ws), LongestRun(ToTexts(ws), 8).start);
  }

  /** The run the loop finds is the run to shorten, if there is one. */
  lemma LongestIsToShorten(ws: seq<nat>)
    requires IsAddress(ws)
    ensures var b := LongestRun(ToTexts(ws), 8);
            && (b.length >= 2 ==> RunToShorten(ws, b.start, b.length))
            && (b.length < 2 ==> forall a, m :: ZeroWords(ws, a, m) ==> m < 2)
  {
    var b := LongestRun(ToTexts(ws), 8);
    if b.length > 0 {
      LongestIsZeroWords(ws);
    }
    forall a, m | ZeroWords(ws, a, m) ensures m <= b.length && (m == b.length > 0 ==> b.start <= a) {
      NoLongerRun(ws, a, m);
    }
  }

  lemma MinimalGroups(gs: seq<string>, ws: seq<nat>)
    requires IsAddress(ws) && Means(gs, ws) && forall g <- gs :: Minimal(g)
    ensures gs == ToTexts(ws)
  {
    forall i | 0 <= i < |gs| ensures gs[i] == ToTexts(ws)[i] {
      assert gs[i] in gs;
      MinimalUnique(gs[i]);
    }
  }

  lemma CompressedIsRecommended(ws: seq<nat>)
    requires IsAddress(ws)
    ensures Recommended(Compress(ToTexts(ws)), ws)
  {
    var gs, b := ToTexts(ws), LongestRun(ToTexts(ws), 8);
    WordTexts(ws);
    LongestIsToShorten(ws);
    if b.length >= 2 {
      assert ShortenedBy(Compress(gs), ws, gs, b.start, b.length);
    }
    assert RecommendedBy(Compress(gs), ws, gs);
  }

  lemma RecommendedIsCompressed(text: string, ws: seq<nat>)
    requires Recommended(text, ws)
    ensures text == Compress(ToTexts(ws))
  {
    var gs :| RecommendedBy(text, ws, gs);
    MinimalGroups(gs, ws);
    var b := LongestRun(gs, 8);
    LongestIsToShorten(ws);
    if b.length >= 2 {
      assert ZeroWords(ws, b.start, b.length);
      var start, n :| ShortenedBy(text, ws, gs, start, n);
      assert start == b.start && n == b.length;
    } else {
      assert forall start, n :: !ShortenedBy(text, ws, gs, start, n);
    }
  }

  /** Of every address exactly one text obeys section 4 of RFC 5952, and normalizeIPAddress returns it for every text. */
  lemma NormalizeIsRecommended(s: string, ws: seq<nat>, text: string)
    requires Denotes(s, ws)
    ensures NormalizeIPAddress(s) == Some(text) <==> Recommended(text, ws)
  {
    NormalizedText(s, ws);
    DenotedIsAddress(s, ws);
    CompressedIsRecommended(ws);
    if Recommended(text, ws) {
      RecommendedIsCompressed(text, ws);
    }
  }
}
