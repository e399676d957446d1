/**
 * What one request leaves in the tables, read off the request itself (functions/ingest.ts:92-124 and
 * functions/check.ts:97-108): which rows are behind the earlier ones, and what each column of the pool row is.
 */
module Ingests {
  import opened Prelude
  import opened CheckRows
  import opened Store
  import opened PoolView
  import opened PoolAgreement
  import opened PoolRuns
  import opened Pruning
  import opened Retries
  import opened PoolTheorem

  // ---------- Ingests ----------

  /** rows are what was stored and, behind it, the new rows in this order. */
  ghost predicate StoredBehind(stored: seq<StoredCheck>, rows: seq<StoredCheck>, news: seq<CheckRow>) {
    && |rows| == |stored| + |news| && stored <= rows
    && forall i :: 0 <= i < |news| ==> rows[|stored| + i].row == news[i]
  }

  ghost predicate Succeeds(raw: seq<CheckRow>, ip: string) {
    exists k :: 0 <= k < |raw| && raw[k].ip == ip && raw[k].ok
  }

  /** The IP succeeded in the batch, or its pool row says ok, or failed before the cutoff. */
  ghost predicate GateOpen(db: Db, raw: seq<CheckRow>, cutoff: int, ip: string) {
    Succeeds(raw, ip) || (ip in db.pool && (db.pool[ip].lastCheckOk || db.pool[ip].lastCheckedAt < cutoff))
  }

  lemma EntryOf(raw: seq<CheckRow>, ip: string, j: int)
    requires IsNewestAt(raw, ip, false, j)
    ensures ip in Scan(raw).entries
    ensures Scan(raw).entries[ip].latest == raw[j]
    ensures Succeeds(raw, ip) <==> Scan(raw).entries[ip].latestSuccess.Some?
    ensures forall i :: IsNewestAt(raw, ip, true, i) ==> Scan(raw).entries[ip].latestSuccess == Some(raw[i])
  {
    EntryIsNewest(raw, ip);
    assert Occurs(raw, ip);
    var e := Scan(raw).entries[ip];
    var k :| IsNewestAt(raw, ip, false, k) && e.latest == raw[k];
    assert k == j;
  }

  lemma PartIsBehind(rows: seq<StoredCheck>, stored: seq<StoredCheck>, news: seq<CheckRow>)
    requires PartStored(rows, stored, news, |news|)
    ensures StoredBehind(stored, rows, news)
  {
    var added := rows[|stored|..];
    assert news[..|news|] == news;
    forall i | 0 <= i < |news| ensures rows[|stored| + i].row == news[i] {
      assert RowsIn(added)[i] == added[i].row;
    }
  }

  ghost predicate NewerThanAll(stored: seq<StoredCheck>, row: CheckRow) {
    forall c <- stored :: c.row.checkedAt < row.checkedAt
  }

  lemma OneInOrder(stored: seq<StoredCheck>, l: CheckRow)
    ensures InOrderRows(stored, [l]) <==> NewerThanAll(stored, l)
  {
  }

  lemma TwoInOrder(stored: seq<StoredCheck>, s: CheckRow, l: CheckRow)
    ensures InOrderRows(stored, [s, l]) <==> s.checkedAt < l.checkedAt && NewerThanAll(stored, s) && NewerThanAll(stored, l)
  {
    assert [s, l][0] == s && [s, l][1] == l;
  }

  /** The newest success is the newest row, or the entry emits both. */
  lemma EmittedRows(raw: seq<CheckRow>, ip: string, i: int, j: int)
    requires IsNewestAt(raw, ip, true, i) && IsNewestAt(raw, ip, false, j)
    ensures ip in Scan(raw).entries && EmitEntry(Scan(raw).entries[ip]) == if i == j then [raw[j]] else [raw[i], raw[j]]
  {
    EntryOf(raw, ip, j);
    assert raw[i] == raw[j] ==> IsNewestAt(raw, ip, true, j) && i == j;
  }

  lemma SameSuccess(raw: seq<CheckRow>, ip: string, i: int, k: int)
    requires IsNewestAt(raw, ip, true, i) && IsNewestAt(raw, ip, true, k)
    ensures i == k
  {
  }

  lemma SuccessAt(raw: seq<CheckRow>, ip: string, j: int) returns (i: int)
    requires IsNewestAt(raw, ip, false, j) && Succeeds(raw, ip)
    ensures IsNewestAt(raw, ip, true, i)
  {
    EntryOf(raw, ip, j);
    EntryIsNewest(raw, ip);
    i :| IsNewestAt(raw, ip, true, i) && Scan(raw).entries[ip].latestSuccess.value == raw[i];
  }

  /** What in-order arrival asks of the request's own rows of one IP; j is the newest. */
  lemma InOrderMeans(db: Db, raw: seq<CheckRow>, cutoff: int, ip: string, j: int)
    requires IsNewestAt(raw, ip, false, j)
    ensures InOrderAt(db, raw, cutoff, ip) <==>
            (GateOpen(db, raw, cutoff, ip) ==>
               && NewerThanAll(Of(db.checks, ip), raw[j])
               && forall i :: IsNewestAt(raw, ip, true, i) && i != j ==>
                    raw[i].checkedAt < raw[j].checkedAt && NewerThanAll(Of(db.checks, ip), raw[i]))
  {
    EntryOf(raw, ip, j);
    if Succeeds(raw, ip) {
      var i := SuccessAt(raw, ip, j);
      EmittedRows(raw, ip, i, j);
      OneInOrder(Of(db.checks, ip), raw[j]);
      TwoInOrder(Of(db.checks, ip), raw[i], raw[j]);
      forall k | IsNewestAt(raw, ip, true, k) ensures k == i {
        SameSuccess(raw, ip, i, k);
      }
    } else {
      OneInOrder(Of(db.checks, ip), raw[j]);
      assert forall i :: !IsNewestAt(raw, ip, true, i);
    }
  }

  /** The first statement of pruneCheckHistory has not run yet. */
  function Ingested(db: Db, raw: seq<CheckRow>, attempts: seq<Attempt>, cutoff: int, ips: seq<string>): Db {
    Handle(db, Ingest(raw, attempts, cutoff, ips, 0))
  }

  lemma IngestedCompletes(db: Db, raw: seq<CheckRow>, attempts: seq<Attempt>, cutoff: int, ips: seq<string>, ip: string, j: int)
    requires AgreesAt(db, ip) && InOrder(db, Ingest(raw, attempts, cutoff, ips, 0)) && IsNewestAt(raw, ip, false, j)
    ensures ip in Scan(raw).entries
    ensures CompleteAt(db, Ingested(db, raw, attempts, cutoff, ips), raw, cutoff, ip, !Reached(Coalesce(raw), attempts, ip))
    ensures GateOpen(db, raw, cutoff, ip) <==> Passes(RowIn(db.pool, ip), Scan(raw).entries[ip], cutoff)
  {
    EntryOf(raw, ip, j);
    RetriedCompletes(db, raw, attempts, cutoff, ip);
  }

  /**
   * An in-order ingest of an IP that succeeded: its newest success and its newest row, which may be the same, are stored
   * behind its earlier rows, and the pool row shows them. raw[i] and raw[j] are those rows of the request.
   */
  lemma IngestedSuccess(db: Db, raw: seq<CheckRow>, attempts: seq<Attempt>, cutoff: int, ips: seq<string>, ip: string, i: int, j: int)
    requires AgreesAt(db, ip) && InOrder(db, Ingest(raw, attempts, cutoff, ips, 0))
    requires IsNewestAt(raw, ip, true, i) && IsNewestAt(raw, ip, false, j)
    ensures
      var d, s, l := Handle(db, Ingest(raw, attempts, cutoff, ips, 0)), raw[i], raw[j];
      && StoredBehind(Of(db.checks, ip), Of(d.checks, ip), if i == j then [l] else [s, l])
      && ip in d.pool
      && var p := d.pool[ip];
      && p.isIPv6 == (':' in ip) && p.scanMode == s.scanMode
      && p.lastSeen == s.checkedAt && p.lastRttMs == s.rttMs.GetOr(0)
      && p.lastCheckedAt == l.checkedAt && p.lastCheckOk == l.ok
      && p.historyCount == |Of(d.checks, ip)|
      && (ip !in db.pool ==> p.firstSeen == s.checkedAt && p.ptrCheckedAt == None && p.timesSeen >= 1)
      && (ip in db.pool ==> p.firstSeen == db.pool[ip].firstSeen && p.ptrCheckedAt == db.pool[ip].ptrCheckedAt
                            && p.timesSeen >= db.pool[ip].timesSeen + 1)
      && (attempts == [] ==> p.timesSeen == (if ip in db.pool then db.pool[ip].timesSeen else 0) + 1)
  {
    var d := Ingested(db, raw, attempts, cutoff, ips);
    EntryOf(raw, ip, j);
    IngestedCompletes(db, raw, attempts, cutoff, ips, ip, j);
    PartIsBehind(Of(d.checks, ip), Of(db.checks, ip), EmitEntry(Scan(raw).entries[ip]));
    assert raw[i] == raw[j] ==> IsNewestAt(raw, ip, true, j) && i == j;
  }

  /** One that only failed, through an open gate: its newest row is stored, and the pool row says so and nothing else. */
  lemma IngestedFailure(db: Db, raw: seq<CheckRow>, attempts: seq<Attempt>, cutoff: int, ips: seq<string>, ip: string, j: int)
    requires AgreesAt(db, ip) && InOrder(db, Ingest(raw, attempts, cutoff, ips, 0))
    requires IsNewestAt(raw, ip, false, j) && !Succeeds(raw, ip) && GateOpen(db, raw, cutoff, ip)
    ensures
      var d := Handle(db, Ingest(raw, attempts, cutoff, ips, 0));
      && StoredBehind(Of(db.checks, ip), Of(d.checks, ip), [raw[j]])
      && ip in d.pool
      && d.pool[ip] == db.pool[ip].(lastCheckedAt := raw[j].checkedAt, lastCheckOk := false, revision := d.pool[ip].revision,
                                    historyCount := |Of(d.checks, ip)|)
  {
    var d := Ingested(db, raw, attempts, cutoff, ips);
    EntryOf(raw, ip, j);
    IngestedCompletes(db, raw, attempts, cutoff, ips, ip, j);
    PartIsBehind(Of(d.checks, ip), Of(db.checks, ip), EmitEntry(Scan(raw).entries[ip]));
    assert raw[j] in raw;
  }

  /** An IP that is gated out, or that the request does not name, is left alone. */
  lemma IngestedNothing(db: Db, raw: seq<CheckRow>, attempts: seq<Attempt>, cutoff: int, ips: seq<string>, ip: string)
    requires AgreesAt(db, ip) && InOrder(db, Ingest(raw, attempts, cutoff, ips, 0))
    requires Occurs(raw, ip) ==> !GateOpen(db, raw, cutoff, ip)
    ensures UntouchedAt(db, Handle(db, Ingest(raw, attempts, cutoff, ips, 0)), ip)
  {
    EntryIsNewest(raw, ip);
    if Occurs(raw, ip) {
      var j :| IsNewestAt(raw, ip, false, j) && Scan(raw).entries[ip].latest == raw[j];
      IngestedCompletes(db, raw, attempts, cutoff, ips, ip, j);
    } else {
      RetriedElsewhere(db, raw, attempts, cutoff, ip);
    }
  }

  // ---------- Pruning ----------

  /** A listed pool IP keeps its last 300 rows, and its place if one succeeded; the others keep everything. */
  ghost predicate PrunedAt(w: Db, d: Db, listed: bool, ip: string) {
    var all, left := Of(w.checks, ip), Of(d.checks, ip);
    if listed && ip in w.pool then
      && left == (if |all| > 300 then all[|all| - 300..] else all)
      && (ip in d.pool <==> exists c <- left :: c.row.ok)
      && (ip in d.pool ==> d.pool[ip] == w.pool[ip].(historyCount := |left|))
    else left == all && RowIn(d.pool, ip) == RowIn(w.pool, ip)
  }

  lemma PrunedToTheEnd(w: Db, ips: seq<string>, steps: nat, ip: string)
    requires AgreesAt(w, ip) && steps >= 2 * |ips|
    ensures PrunedAt(w, PrunePrefix(w, Distinct(ips), steps), ip in ips, ip)
  {
    DistinctMeans(ips);
    PrunePrefixAt(w, Distinct(ips), steps, ip);
  }

  lemma HandlePrunes(db: Db, r: Request)
    ensures Handle(db, r) == PrunePrefix(Handle(db, r.(pruneSteps := 0)), Distinct(PruneList(r)), r.pruneSteps)
  {
  }

  /** The pruning of an ingest, if it completes. */
  lemma IngestedAndPruned(db: Db, raw: seq<CheckRow>, attempts: seq<Attempt>, cutoff: int, ips: seq<string>, steps: nat, ip: string)
    requires AgreesAll(db) && InOrder(db, Ingest(raw, attempts, cutoff, ips, steps)) && steps >= 2 * |ips|
    ensures PrunedAt(Handle(db, Ingest(raw, attempts, cutoff, ips, 0)), Handle(db, Ingest(raw, attempts, cutoff, ips, steps)), ip in ips, ip)
  {
    HandlePrunes(db, Ingest(raw, attempts, cutoff, ips, steps));
    HandleKeepsAgreement(db, Ingest(raw, attempts, cutoff, ips, 0));
    PrunedToTheEnd(Handle(db, Ingest(raw, attempts, cutoff, ips, 0)), ips, steps, ip);
  }

  /** The pruning of a probe, if it completes. */
  lemma ProbedAndPruned(db: Db, p: Probe, steps: nat, ip: string)
    requires AgreesAll(db) && InOrder(db, OnDemand(p, steps)) && steps >= 2
    ensures PrunedAt(Handle(db, OnDemand(p, 0)), Handle(db, OnDemand(p, steps)), ip == p.ip, ip)
  {
    HandlePrunes(db, OnDemand(p, steps));
    HandleKeepsAgreement(db, OnDemand(p, 0));
    PrunedToTheEnd(Handle(db, OnDemand(p, 0)), [p.ip], steps, ip);
  }

  // ---------- On-demand probes ----------

  predicate HasPrefix(s: string, prefix: string) {
    |prefix| <= |s| && s[..|prefix|] == prefix
  }

  /** The row that a probe stores. */
  ghost predicate RowOfProbe(row: CheckRow, p: Probe) {
    && row.ip == p.ip && row.ok == p.ok && row.checkedAt == p.checkedAt && row.detail == p.detail && row.scanMode == p.scanMode
    && row.rttMs == (if p.ok then p.rttMs else None)
    && match (p.ok, p.reason)
       case (true, _) => row.reason == Some("recheck:ok")
       case (false, Some(r)) =>
         if r == "" then row.reason == Some("recheck:unknown")
         else if HasPrefix(r, "recheck:") || HasPrefix(r, "scan:") then row.reason == Some(r)
         else row.reason == Some("recheck:" + r)
       case (false, None) => row.reason == Some("recheck:unknown")
  }

  /**
   * A probe that succeeded, or of a pool IP: its row is stored unless its time is, and the pool row shows it. Any other
   * probe, and any other IP, changes nothing.
   */
  lemma ProbeStores(db: Db, p: Probe, ip: string)
    ensures
      var d, rows := Handle(db, OnDemand(p, 0)), Of(db.checks, ip);
      if ip == p.ip && (p.ok || ip in db.pool) then
        && (if HasTime(rows, p.checkedAt) then Of(d.checks, ip) == rows
            else |Of(d.checks, ip)| == |rows| + 1 && rows <= Of(d.checks, ip) && RowOfProbe(Of(d.checks, ip)[|rows|].row, p))
        && ip in d.pool
        && var q := d.pool[ip];
        && q.lastCheckedAt == p.checkedAt && q.lastCheckOk == p.ok
        && (p.ok ==> q.lastSeen == p.checkedAt && q.lastRttMs == p.rttMs.GetOr(0))
        && (ip in db.pool ==>
              var o := db.pool[ip];
              && q.firstSeen == o.firstSeen && q.scanMode == o.scanMode && q.ptrCheckedAt == o.ptrCheckedAt && q.isIPv6 == o.isIPv6
              && q.timesSeen == o.timesSeen + (if p.ok then 1 else 0)
              && (!p.ok ==> q.lastSeen == o.lastSeen && q.lastRttMs == o.lastRttMs))
        && (ip !in db.pool ==>
              && q.firstSeen == p.checkedAt && q.scanMode == p.scanMode && q.ptrCheckedAt == None && q.isIPv6 == (':' in ip)
              && q.timesSeen == 1 && q.historyCount == |Of(d.checks, ip)|)
      else UntouchedAt(db, d, ip)
  {
    if ip == p.ip && (p.ok || ip in db.pool) {
      OfAppendOne(db.checks, StoredCheck(MaxId(db.checks) + 1, ProbeRow(p)), ip);
      var version := ProbeEffect(db, p);
    } else {
      ProbeElsewhere(db, p, ip);
    }
  }
}
