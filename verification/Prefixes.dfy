/**
 * src/ipAddr.ts:77-120 and src/store.ts:713-773: CIDR prefixes stored as text ranges, and the longest-prefix lookup
 * that compares text.
 */
module Prefixes {
  import opened Prelude
  import opened Text
  import opened IpText
  import opened Canonical
  import opened Ranges

  // ---------- ipToHex ----------

  /** The octets folded left to right. */
  function OctetsNumber(octets: seq<string>): nat {
    if octets == [] then 0 else OctetsNumber(octets[..|octets| - 1]) * 256 + Decimal(octets[|octets| - 1])
  }

  function IpToHex(ip: string): Option<string> {
    if IsIPv4(ip) then Some(Hex32(OctetsNumber(Split(ip, '.')))) else ExpandIPv6(ip)
  }

  method ComputeIpToHex(ip: string) returns (hex: Option<string>)
    ensures hex == IpToHex(ip)
  {
    if IsIPv4(ip) {
      var octets := Split(ip, '.');
      var v := 0;
      for i := 0 to |octets|
        invariant v == OctetsNumber(octets[..i])
      {
        assert octets[..i + 1][..i] == octets[..i];
        v := v * 256 + Decimal(octets[i]);
      }
      assert octets[..|octets|] == octets;
      return Some(Hex32(v));
    }
    hex := ComputeExpandIPv6(ip);
  }

  function Width(ipv6: bool): nat {
    if ipv6 then 128 else 32
  }

  lemma {:induction false} OctetsBound(octets: seq<string>)
    requires forall o <- octets :: IsOctet(o)
    ensures OctetsNumber(octets) < Pow2(8 * |octets|)
  {
    if octets != [] {
      var n := |octets| - 1;
      OctetsBound(octets[..n]);
      assert IsOctet(octets[n]);
      EightMore(8 * n);
    }
  }

  lemma HexTextIsLower(g: string)
    requires IsGroup(g)
    ensures LowerHex(HexText(g)) && |HexText(g)| == 4
  {
    HexTextIs(g);
    forall i | 0 <= i < 4 ensures IsLowerDigit(HexText(g)[i]) {
      if i >= 4 - |g| {
        assert g[i - (4 - |g|)] in g;
        assert HexText(g)[i] == Lower(g[i - (4 - |g|)]);
      }
    }
  }

  lemma {:induction false} ConcatIsLower(gs: seq<string>)
    requires forall g <- gs :: IsGroup(g)
    ensures LowerHex(Concat(gs))
  {
    if gs != [] {
      ConcatIsLower(gs[..|gs| - 1]);
      HexTextIsLower(gs[|gs| - 1]);
    }
  }

  /** A point is 32 lowercase digits of a number of its family's width. */
  ghost predicate IsPoint(x: string) {
    |x| == 32 && LowerHex(x)
  }

  lemma PointMeans(ip: string)
    requires IpToHex(ip).Some?
    ensures IsPoint(IpToHex(ip).value) && HexNumber(IpToHex(ip).value) < Pow2(Width(!IsIPv4(ip)))
  {
    var hex := IpToHex(ip).value;
    if IsIPv4(ip) {
      OctetsBound(Split(ip, '.'));
      WidthFits(OctetsNumber(Split(ip, '.')), false);
      Hex32Means(OctetsNumber(Split(ip, '.')));
    } else {
      ConcatIsLower(GroupTexts(ip).value);
      ExpandLength(ip);
      HexNumberBound(hex);
      Pow16IsPow2(32);
    }
  }

  /** For a valid address, ip.includes(":") says which family it is. */
  lemma ColonMeansIPv6(ip: string)
    requires IpToHex(ip).Some?
    ensures ':' in ip <==> !IsIPv4(ip)
  {
    if IsIPv4(ip) {
      DottedHasNoColon(ip);
    } else {
      var ws := Words(ExpandIPv6(ip).value);
      ExpandIsTheAddress(ip, ws);
      DenotesHasColon(ip, ws);
    }
  }

  // ---------- prefixToRange ----------

  datatype IPRange = IPRange(start: string, end: string, prefixLen: nat, isIPv6: bool)

  /** prefix.lastIndexOf("/") below end. */
  function LastSlash(prefix: string, end: nat): (at: Option<nat>)
    requires end <= |prefix|
    ensures at.Some? ==> at.value < end && prefix[at.value] == '/' && '/' !in prefix[at.value + 1..end]
  {
    if end == 0 then None else if prefix[end - 1] == '/' then Some(end - 1) else LastSlash(prefix, end - 1)
  }

  /** The address text and the length text of a prefix. */
  function AddressPart(prefix: string): string {
    match LastSlash(prefix, |prefix|)
    case None => ""
    case Some(slash) => prefix[..slash]
  }

  /**
   * number is what Number() makes of the text behind the slash, None when that is not an integer. BlockStart and
   * BlockEnd are value & ~hostMask and value | hostMask.
   */
  function PrefixToRange(prefix: string, number: string -> Option<int>): Option<IPRange> {
    match LastSlash(prefix, |prefix|)
    case None => None
    case Some(slash) =>
      var addr, prefixLen := prefix[..slash], number(prefix[slash + 1..]);
      var isV6 := !IsIPv4(addr);
      if prefixLen.None? || prefixLen.value < 0 || prefixLen.value > Width(isV6) then None
      else
        match IpToHex(addr)
        case None => None
        case Some(hex) =>
          Some(RangeAround(HexNumber(hex), prefixLen.value, isV6))
  }

  function RangeAround(value: nat, prefixLen: nat, ipv6: bool): IPRange
    requires prefixLen <= Width(ipv6)
  {
    var h := Width(ipv6) - prefixLen;
    IPRange(Hex32(BlockStart(value, h)), Hex32(BlockEnd(value, h)), prefixLen, ipv6)
  }

  /** range_start <= x AND range_end >= x. */
  predicate Contains(r: IPRange, x: string) {
    TextLe(r.start, x) && TextLe(x, r.end)
  }

  /** The number of the prefix's own address. */
  function AddressNumber(prefix: string): nat {
    match IpToHex(AddressPart(prefix))
    case None => 0
    case Some(hex) => HexNumber(hex)
  }

  /** r is the block of its family's numbers that share their first prefixLen bits with value. */
  ghost predicate IsBlock(r: IPRange, value: nat) {
    && r.prefixLen <= Width(r.isIPv6) && value < Pow2(Width(r.isIPv6))
    && r == RangeAround(value, r.prefixLen, r.isIPv6)
  }

  function HostBits(r: IPRange): int {
    Width(r.isIPv6) - r.prefixLen
  }

  lemma WidthFits(v: nat, ipv6: bool)
    requires v < Pow2(Width(ipv6))
    ensures v < Pow2(128)
  {
    Pow2Grows(Width(ipv6), 128);
  }

  lemma RangeIsBlock(prefix: string, number: string -> Option<int>)
    requires PrefixToRange(prefix, number).Some?
    ensures IsBlock(PrefixToRange(prefix, number).value, AddressNumber(prefix))
  {
    PointMeans(AddressPart(prefix));
  }

  lemma HexIsPoint(v: nat, ipv6: bool)
    requires v < Pow2(Width(ipv6))
    ensures IsPoint(Hex32(v)) && HexNumber(Hex32(v)) == v
  {
    WidthFits(v, ipv6);
    Hex32Means(v);
  }

  lemma BoundsAreHex(r: IPRange, value: nat)
    requires IsBlock(r, value)
    ensures IsPoint(r.start) && HexNumber(r.start) == BlockStart(value, HostBits(r))
    ensures IsPoint(r.end) && HexNumber(r.end) == BlockEnd(value, HostBits(r))
  {
    var h := HostBits(r);
    BlockFits(value, h, Width(r.isIPv6));
    HexIsPoint(BlockStart(value, h), r.isIPv6);
    HexIsPoint(BlockEnd(value, h), r.isIPv6);
  }

  /** Text comparison finds the numbers of the block. */
  lemma ContainsIsBlock(r: IPRange, value: nat, x: string)
    requires IsBlock(r, value) && IsPoint(x)
    ensures Contains(r, x) <==> BlockStart(value, HostBits(r)) <= HexNumber(x) <= BlockEnd(value, HostBits(r))
  {
    BoundsAreHex(r, value);
    TextOrderIsNumeric(r.start, x);
    TextOrderIsNumeric(x, r.end);
  }

  lemma ContainsIsLeadingBits(r: IPRange, value: nat, x: string)
    requires IsBlock(r, value) && IsPoint(x) && HexNumber(x) < Pow2(Width(r.isIPv6))
    ensures Contains(r, x) <==> SameLeadingBits(HexNumber(x), value, HostBits(r), Width(r.isIPv6))
  {
    ContainsIsBlock(r, value, x);
    InBlock(HexNumber(x), value, HostBits(r));
    ShiftIsLeadingBits(HexNumber(x), value, HostBits(r), Width(r.isIPv6));
  }

  ghost predicate SameLeadingBits(v: nat, w: nat, h: int, width: nat) {
    0 <= h && forall k :: h <= k < width ==> Bit(v, k) == Bit(w, k)
  }

  /** Main result: an address lies in a stored range of its family if and only if its first prefixLen bits are the prefix's. */
  lemma InRangeIsPrefixMatch(prefix: string, number: string -> Option<int>, ip: string)
    requires PrefixToRange(prefix, number).Some? && IpToHex(ip).Some?
    requires PrefixToRange(prefix, number).value.isIPv6 == !IsIPv4(ip)
    ensures
      var r, x := PrefixToRange(prefix, number).value, IpToHex(ip).value;
      Contains(r, x) <==> SameLeadingBits(HexNumber(x), AddressNumber(prefix), Width(r.isIPv6) - r.prefixLen, Width(r.isIPv6))
  {
    RangeIsBlock(prefix, number);
    PointMeans(ip);
    ContainsIsLeadingBits(PrefixToRange(prefix, number).value, AddressNumber(prefix), IpToHex(ip).value);
  }

  ghost predicate Inside(r: IPRange, s: IPRange) {
    forall x :: IsPoint(x) && Contains(r, x) ==> Contains(s, x)
  }

  lemma MeetingBlocks(r: IPRange, v: nat, s: IPRange, w: nat, x: string, y: string)
    requires IsBlock(r, v) && IsBlock(s, w) && r.isIPv6 == s.isIPv6 && r.prefixLen >= s.prefixLen
    requires IsPoint(x) && Contains(r, x) && Contains(s, x)
    requires IsPoint(y) && Contains(r, y)
    ensures Contains(s, y)
  {
    ContainsIsBlock(r, v, x);
    ContainsIsBlock(s, w, x);
    ContainsIsBlock(r, v, y);
    ContainsIsBlock(s, w, y);
    NestedBlocks(HexNumber(x), HexNumber(y), v, HostBits(r), w, HostBits(s));
  }

  /** A range of a longer prefix that meets a range of a shorter one lies inside it. */
  lemma MeetingRanges(p: string, q: string, number: string -> Option<int>, x: string)
    requires PrefixToRange(p, number).Some? && PrefixToRange(q, number).Some?
    requires var r, s := PrefixToRange(p, number).value, PrefixToRange(q, number).value;
             r.isIPv6 == s.isIPv6 && r.prefixLen >= s.prefixLen && IsPoint(x) && Contains(r, x) && Contains(s, x)
    ensures Inside(PrefixToRange(p, number).value, PrefixToRange(q, number).value)
  {
    RangeIsBlock(p, number);
    RangeIsBlock(q, number);
    var r, s := PrefixToRange(p, number).value, PrefixToRange(q, number).value;
    forall y | IsPoint(y) && Contains(r, y) ensures Contains(s, y) {
      MeetingBlocks(r, AddressNumber(p), s, AddressNumber(q), x, y);
    }
  }

  /** Ranges of one family are nested or disjoint. */
  lemma NestedOrDisjoint(p: string, q: string, number: string -> Option<int>)
    requires PrefixToRange(p, number).Some? && PrefixToRange(q, number).Some?
    requires PrefixToRange(p, number).value.isIPv6 == PrefixToRange(q, number).value.isIPv6
    ensures
      var r, s := PrefixToRange(p, number).value, PrefixToRange(q, number).value;
      Inside(r, s) || Inside(s, r) || forall x :: IsPoint(x) ==> !(Contains(r, x) && Contains(s, x))
  {
    var r, s := PrefixToRange(p, number).value, PrefixToRange(q, number).value;
    if x :| IsPoint(x) && Contains(r, x) && Contains(s, x) {
      if r.prefixLen >= s.prefixLen {
        MeetingRanges(p, q, number, x);
      } else {
        MeetingRanges(q, p, number, x);
      }
    }
  }

  // ---------- The cache ----------

  datatype AsnInfo = AsnInfo(asn: nat, asName: string, country: string, lookupOk: bool, ttlSeconds: int, checkedAt: int)

  datatype AsnRow = AsnRow(range: IPRange, info: AsnInfo)

  /** saveASN: an invalid prefix is dropped; a known one keeps its range columns. */
  function Saved(rows: map<string, AsnRow>, prefix: string, info: AsnInfo, number: string -> Option<int>): map<string, AsnRow> {
    match PrefixToRange(prefix, number)
    case None => rows
    case Some(range) => rows[prefix := AsnRow(if prefix in rows then rows[prefix].range else range, info)]
  }

  /** Every row's range columns are those of its prefix. */
  ghost predicate RangesRight(rows: map<string, AsnRow>, number: string -> Option<int>) {
    forall p <- rows :: PrefixToRange(p, number) == Some(rows[p].range)
  }

  predicate Matches(row: AsnRow, ipv6: bool, point: string) {
    row.range.isIPv6 == ipv6 && Contains(row.range, point)
  }

  /** A row that ORDER BY prefix_len DESC LIMIT 1 may return. */
  ghost predicate IsLongest(rows: map<string, AsnRow>, ipv6: bool, point: string, p: string) {
    && p in rows && Matches(rows[p], ipv6, point)
    && forall q <- rows :: Matches(rows[q], ipv6, point) ==> rows[q].range.prefixLen <= rows[p].range.prefixLen
  }

  predicate Fresh(info: AsnInfo, now: int) {
    now - info.checkedAt <= info.ttlSeconds * 1000
  }

  datatype AsnAnswer = AsnAnswer(prefix: string, info: AsnInfo)

  /** What getASN may answer: nothing, or the longest match if it is fresh. An expired longest match hides shorter ones. */
  ghost predicate MayAnswer(rows: map<string, AsnRow>, ip: string, now: int, r: Option<AsnAnswer>) {
    match IpToHex(ip)
    case None => r == None
    case Some(point) =>
      || (r == None && forall q <- rows :: !Matches(rows[q], ':' in ip, point))
      || exists p ::
           && IsLongest(rows, ':' in ip, point, p)
           && r == if Fresh(rows[p].info, now) then Some(AsnAnswer(p, rows[p].info)) else None
  }

  class AsnCache {
    var rows: map<string, AsnRow>

    constructor ()
      ensures rows == map[]
    {
      rows := map[];
    }

    method SaveASN(prefix: string, info: AsnInfo, number: string -> Option<int>)
      modifies this
      ensures rows == Saved(old(rows), prefix, info, number)
      ensures RangesRight(old(rows), number) ==> RangesRight(rows, number)
    {
      var range := PrefixToRange(prefix, number);
      if range.None? {
        return;
      }
      if prefix in rows {
        rows := rows[prefix := rows[prefix].(info := info)];
      } else {
        rows := rows[prefix := AsnRow(range.value, info)];
      }
    }

    method GetASN(ip: string, now: int) returns (r: Option<AsnAnswer>)
      ensures MayAnswer(rows, ip, now, r)
    {
      var point := ComputeIpToHex(ip);
      if point.None? {
        return None;
      }
      var ipv6 := ':' in ip;
      var best: Option<string> := None;
      var todo := rows.Keys;
      while todo != {}
        invariant todo <= rows.Keys
        invariant best.None? ==> forall q <- rows :: q !in todo ==> !Matches(rows[q], ipv6, point.value)
        invariant best.Some? ==> best.value in rows && Matches(rows[best.value], ipv6, point.value)
        invariant best.Some? ==> forall q <- rows :: q !in todo && Matches(rows[q], ipv6, point.value) ==> rows[q].range.prefixLen <= rows[best.value].range.prefixLen
        decreases todo
      {
        var q :| q in todo;
        if Matches(rows[q], ipv6, point.value) && (best.None? || rows[q].range.prefixLen > rows[best.value].range.prefixLen) {
          best := Some(q);
        }
        todo := todo - {q};
      }
      if best.None? {
        return None;
      }
      assert IsLongest(rows, ipv6, point.value, best.value);
      if now - rows[best.value].info.checkedAt > rows[best.value].info.ttlSeconds * 1000 {
        return None;
      }
      return Some(AsnAnswer(best.value, rows[best.value].info));
    }
  }

  /** Main result: the range of the row getASN picks lies inside every stored range that contains the address. */
  lemma LongestIsSmallest(rows: map<string, AsnRow>, number: string -> Option<int>, ip: string, p: string, q: string)
    requires RangesRight(rows, number) && IpToHex(ip).Some?
    requires IsLongest(rows, ':' in ip, IpToHex(ip).value, p)
    requires q in rows && Matches(rows[q], ':' in ip, IpToHex(ip).value)
    ensures Inside(rows[p].range, rows[q].range)
  {
    PointMeans(ip);
    MeetingRanges(p, q, number, IpToHex(ip).value);
  }

  /** An answer is about a stored prefix of the address's own family whose first bits are the address's. */
  lemma AnswerMatchesPrefix(rows: map<string, AsnRow>, number: string -> Option<int>, ip: string, now: int, r: AsnAnswer)
    requires RangesRight(rows, number) && MayAnswer(rows, ip, now, Some(r))
    ensures IpToHex(ip).Some? && r.prefix in rows && rows[r.prefix].info == r.info && Fresh(r.info, now)
    ensures
      var range, x := rows[r.prefix].range, HexNumber(IpToHex(ip).value);
      && range.isIPv6 == !IsIPv4(ip)
      && SameLeadingBits(x, AddressNumber(r.prefix), Width(range.isIPv6) - range.prefixLen, Width(range.isIPv6))
  {
    ColonMeansIPv6(ip);
    InRangeIsPrefixMatch(r.prefix, number, ip);
  }
}
