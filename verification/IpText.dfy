/** src/ipAddr.ts:4-71: recognising, expanding and normalising IP address text. */
module IpText {
  import opened Prelude
  import opened Text

  // ---------- isIPv4 ----------

  function Decimal(s: string): nat {
    if s == "" then 0 else 10 * Decimal(s[..|s| - 1]) + Digit(s[|s| - 1])
  }

  predicate IsOctet(p: string) {
    1 <= |p| <= 3 && (forall c <- p :: IsDigit(c)) && Decimal(p) <= 255
  }

  predicate IsIPv4(s: string) {
    var parts := Split(s, '.');
    |parts| == 4 && forall p <- parts :: IsOctet(p)
  }

  // ---------- expandIPv6 ----------

  predicate DoubleAt(s: string, i: int) {
    0 <= i < |s| - 1 && s[i] == ':' && s[i + 1] == ':'
  }

  /** s.indexOf("::", from). */
  function IndexOfDouble(s: string, from: nat): (r: Option<nat>)
    ensures r.Some? ==> from <= r.value && DoubleAt(s, r.value) && forall i :: from <= i < r.value ==> !DoubleAt(s, i)
    ensures r.None? ==> forall i :: from <= i ==> !DoubleAt(s, i)
    decreases |s| - from
  {
    if from >= |s| then None else if DoubleAt(s, from) then Some(from) else IndexOfDouble(s, from + 1)
  }

  /** s.lastIndexOf("::") among the positions below end. */
  function LastIndexOfDouble(s: string, end: nat): (r: Option<nat>)
    ensures r.Some? ==> r.value < end && DoubleAt(s, r.value) && forall i :: r.value < i < end ==> !DoubleAt(s, i)
    ensures r.None? ==> forall i :: 0 <= i < end ==> !DoubleAt(s, i)
  {
    if end == 0 then None else if DoubleAt(s, end - 1) then Some(end - 1) else LastIndexOfDouble(s, end - 1)
  }

  function Parts(s: string): seq<string> {
    if s == "" then [] else Split(s, ':')
  }

  function Repeat(g: string, n: nat): (r: seq<string>)
    ensures |r| == n && forall i :: 0 <= i < n ==> r[i] == g
  {
    seq(n, _ => g)
  }

  /** The groups around "::" and the zeros it stands for. */
  function Filled(head: seq<string>, tail: seq<string>): (r: Option<seq<string>>)
    ensures r.Some? ==> |r.value| == 8
  {
    if |head| + |tail| >= 8 then None else Some(head + Repeat("0", 8 - |head| - |tail|) + tail)
  }

  /** The eight group texts expandIPv6 goes through, before it looks into any of them. */
  function GroupTexts(ip: string): (r: Option<seq<string>>)
    ensures r.Some? ==> |r.value| == 8
  {
    if '%' in ip then None
    else
      match IndexOfDouble(ip, 0)
      case None => if |Parts(ip)| != 8 then None else Some(Parts(ip))
      case Some(dbl) =>
        if LastIndexOfDouble(ip, |ip|) != Some(dbl) then None
        else Filled(Parts(ip[..dbl]), Parts(ip[dbl + 2..]))
  }

  predicate IsGroup(g: string) {
    1 <= |g| <= 4 && IsHex(g)
  }

  /** One group as four lowercase digits. */
  function HexText(g: string): string {
    LowerAll(PadStart(g, 4))
  }

  function Concat(gs: seq<string>): string {
    if gs == [] then "" else Concat(gs[..|gs| - 1]) + HexText(gs[|gs| - 1])
  }

  function ExpandIPv6(ip: string): Option<string> {
    match GroupTexts(ip)
    case None => None
    case Some(gs) => if forall g <- gs :: IsGroup(g) then Some(Concat(gs)) else None
  }

  /** The loop over the groups. */
  method ConcatGroups(gs: seq<string>) returns (hex: Option<string>)
    ensures hex == if forall g <- gs :: IsGroup(g) then Some(Concat(gs)) else None
  {
    var text := "";
    for i := 0 to |gs|
      invariant text == Concat(gs[..i])
      invariant forall g <- gs[..i] :: IsGroup(g)
    {
      assert gs[..i + 1][..i] == gs[..i];
      if !IsGroup(gs[i]) {
        return None;
      }
      text := text + HexText(gs[i]);
    }
    assert gs[..|gs|] == gs;
    return Some(text);
  }

  /** Everything expandIPv6 does before its loop. */
  method SplitGroups(ip: string) returns (groups: Option<seq<string>>)
    ensures groups == GroupTexts(ip)
  {
    if '%' in ip {
      return None;
    }
    var dbl := IndexOfDouble(ip, 0);
    if dbl.None? {
      var parts := Parts(ip);
      return if |parts| != 8 then None else Some(parts);
    }
    if LastIndexOfDouble(ip, |ip|) != dbl {
      return None;
    }
    return Filled(Parts(ip[..dbl.value]), Parts(ip[dbl.value + 2..]));
  }

  method ComputeExpandIPv6(ip: string) returns (r: Option<string>)
    ensures r == ExpandIPv6(ip)
  {
    var groups := SplitGroups(ip);
    if groups.None? {
      return None;
    }
    r := ConcatGroups(groups.value);
  }

  // ---------- normalizeIPAddress ----------

  /** How many groups from i on are "0". */
  function RunLength(gs: seq<string>, i: nat): (n: nat)
    requires i <= |gs|
    ensures i + n <= |gs|
    decreases |gs| - i
  {
    if i < |gs| && gs[i] == "0" then 1 + RunLength(gs, i + 1) else 0
  }

  datatype ZeroRun = ZeroRun(start: int, length: nat)

  /** The leftmost of the longest runs that start before k. */
  function LongestRun(gs: seq<string>, k: nat): (b: ZeroRun)
    requires k <= |gs|
    ensures b.length > 0 ==> 0 <= b.start && b.start + b.length <= |gs|
  {
    if k == 0 then ZeroRun(-1, 0)
    else
      var b, n := LongestRun(gs, k - 1), RunLength(gs, k - 1);
      if n > b.length then ZeroRun(k - 1, n) else b
  }

  function Around(before: string, after: string): string {
    before + "::" + after
  }

  /** The groups with a run of at least two replaced by "::". */
  function CompressRun(gs: seq<string>, b: ZeroRun): string
    requires b.length > 0 ==> 0 <= b.start && b.start + b.length <= |gs|
  {
    if b.length < 2 then Join(gs, ':')
    else Around(Join(gs[..b.start], ':'), Join(gs[b.start + b.length..], ':'))
  }

  /** The text of eight groups. */
  function Compress(gs: seq<string>): string {
    CompressRun(gs, LongestRun(gs, |gs|))
  }

  /** The number of each group of four digits. */
  function Words(hex: string): seq<nat> {
    seq(|hex| / 4, i requires 0 <= i < |hex| / 4 => HexNumber(hex[4 * i..4 * i + 4]))
  }

  function ToTexts(ws: seq<nat>): seq<string> {
    seq(|ws|, i requires 0 <= i < |ws| => ToHex(ws[i]))
  }

  function NormalizeIPAddress(s: string): Option<string> {
    if IsIPv4(s) then Some(s)
    else
      match ExpandIPv6(s)
      case None => None
      case Some(hex) => Some(Compress(ToTexts(Words(hex))))
  }

  lemma {:induction false} RunLengthMeans(gs: seq<string>, i: nat)
    requires i <= |gs|
    ensures var n := RunLength(gs, i);
            (forall j :: i <= j < i + n ==> gs[j] == "0") && (i + n < |gs| ==> gs[i + n] != "0")
    decreases |gs| - i
  {
    if i < |gs| && gs[i] == "0" {
      RunLengthMeans(gs, i + 1);
    }
  }

  lemma {:induction false} RunIs(gs: seq<string>, i: nat, end: nat)
    requires i <= end <= |gs| && (forall j :: i <= j < end ==> gs[j] == "0") && (end < |gs| ==> gs[end] != "0")
    ensures RunLength(gs, i) == end - i
    decreases end - i
  {
    if i < end {
      RunIs(gs, i + 1, end);
    }
  }

  /** It is a run, none is longer, and none as long starts further left. */
  lemma {:induction false} LongestRunMeans(gs: seq<string>, k: nat, i: nat)
    requires i < k <= |gs|
    ensures
      var b := LongestRun(gs, k);
      && (b.length > 0 ==> b.start < k && RunLength(gs, b.start) == b.length)
      && RunLength(gs, i) <= b.length
      && (RunLength(gs, i) == b.length > 0 ==> b.start <= i)
  {
    if i < k - 1 {
      LongestRunMeans(gs, k - 1, i);
    } else if k > 1 {
      LongestRunMeans(gs, k - 1, 0);
    }
  }

  /** No position inside a run starts a longer one. */
  lemma {:induction false} SkipRun(gs: seq<string>, i: nat, j: nat)
    requires i < |gs| && i < j <= i + RunLength(gs, i)
    ensures LongestRun(gs, j) == LongestRun(gs, i + 1)
    decreases j - i
  {
    if j > i + 1 {
      SkipRun(gs, i, j - 1);
      RunLengthMeans(gs, i);
      RunIs(gs, j - 1, i + RunLength(gs, i));
      LongestRunMeans(gs, j - 1, i);
    }
  }

  /** The left-to-right run scan of normalizeIPAddress. */
  method ScanRuns(gs: seq<string>) returns (bestStart: int, bestLength: nat)
    ensures ZeroRun(bestStart, bestLength) == LongestRun(gs, |gs|)
  {
    bestStart, bestLength := -1, 0;
    var i := 0;
    while i < |gs|
      invariant 0 <= i <= |gs|
      invariant ZeroRun(bestStart, bestLength) == LongestRun(gs, i)
    {
      if gs[i] != "0" {
        i := i + 1;
        continue;
      }
      var end := i + 1;
      while end < |gs| && gs[end] == "0"
        invariant i < end <= |gs|
        invariant forall j :: i <= j < end ==> gs[j] == "0"
      {
        end := end + 1;
      }
      RunIs(gs, i, end);
      SkipRun(gs, i, end);
      if end - i > bestLength {
        bestStart, bestLength := i, end - i;
      }
      i := end;
    }
  }

  method GroupsOf(hex: string) returns (groups: seq<string>)
    requires |hex| % 4 == 0
    ensures groups == ToTexts(Words(hex))
  {
    groups := [];
    var i := 0;
    while i < |hex|
      invariant 0 <= i <= |hex| && i % 4 == 0 && |groups| == i / 4
      invariant forall j :: 0 <= j < |groups| ==> groups[j] == ToTexts(Words(hex))[j]
    {
      assert Words(hex)[i / 4] == HexNumber(hex[i..i + 4]);
      groups := groups + [ToHex(HexNumber(hex[i..i + 4]))];
      i := i + 4;
    }
  }

  method ComputeNormalizeIPAddress(s: string) returns (r: Option<string>)
    ensures r == NormalizeIPAddress(s)
  {
    if IsIPv4(s) {
      return Some(s);
    }
    var expanded := ComputeExpandIPv6(s);
    if expanded.None? {
      return None;
    }
    ExpandLength(s);
    var groups := GroupsOf(expanded.value);
    var bestStart, bestLength := ScanRuns(groups);
    if bestLength < 2 {
      return Some(Join(groups, ':'));
    }
    var before := Join(groups[..bestStart], ':');
    var after := Join(groups[bestStart + bestLength..], ':');
    return Some(before + "::" + after);
  }

  // ---------- The words of an expansion ----------

  lemma {:induction false} ConcatSlices(gs: seq<string>)
    requires forall g <- gs :: IsGroup(g)
    ensures |Concat(gs)| == 4 * |gs|
    ensures forall i :: 0 <= i < |gs| ==> Concat(gs)[4 * i..4 * i + 4] == HexText(gs[i])
  {
    if gs != [] {
      var n := |gs| - 1;
      var before := gs[..n];
      assert gs == before + [gs[n]];
      ConcatSlices(before);
      assert IsGroup(gs[n]) && |HexText(gs[n])| == 4;
      var c := Concat(before);
      forall i | 0 <= i < |gs| ensures Concat(gs)[4 * i..4 * i + 4] == HexText(gs[i]) {
        if i < n {
          assert gs[i] == before[i] && 4 * i + 4 <= |c|;
          assert Concat(gs)[4 * i..4 * i + 4] == c[4 * i..4 * i + 4];
        }
      }
    }
  }

  lemma ExpandLength(s: string)
    ensures ExpandIPv6(s).Some? ==> |ExpandIPv6(s).value| == 32
  {
    if ExpandIPv6(s).Some? {
      ConcatSlices(GroupTexts(s).value);
    }
  }

  lemma ZerosSum(a: nat, b: nat)
    ensures Zeros(a) + Zeros(b) == Zeros(a + b)
  {
  }

  lemma HexTextIs(g: string)
    requires IsGroup(g)
    ensures PadStart(g, 4) == Zeros(4 - |g|) + g
    ensures HexText(g) == Zeros(4 - |g|) + LowerAll(g)
  {
    assert Zeros(0) + g == g;
    LowerConcat(Zeros(4 - |g|), g);
    LowerZeros(4 - |g|);
  }

  lemma HexTextNumber(g: string)
    requires IsGroup(g)
    ensures HexNumber(HexText(g)) == HexNumber(g)
  {
    LowerNumber(PadStart(g, 4));
    HexTextIs(g);
    PaddedNumber(4 - |g|, g);
  }

  lemma HexTextFromNumber(g: string)
    requires IsGroup(g)
    ensures HexText(g) == PadStart(ToHex(HexNumber(g)), 4)
  {
    HexTextIs(g);
    StripIsMinimal(g);
    PadsMore(LowerAll(g), Strip(g), 4 - |g|, |g| - |Strip(g)|);
  }

  lemma PadsMore(l: string, m: string, a: nat, b: nat)
    requires l == Zeros(b) + m
    ensures Zeros(a) + l == PadStart(m, a + b + |m|)
  {
    ZerosSum(a, b);
    assert Zeros(a) + (Zeros(b) + m) == Zeros(a + b) + m;
    assert Zeros(0) + m == m;
  }
}
