/**
 * src/store.ts on values: the D1 tables, and what one statement or one db.batch() does to them.
 * Every function from Db to Db that is named "...Batch" is one atomic step.
 */
module Store {
  import opened Prelude
  import opened CheckRows

  const MAX_BATCH: nat := 500
  const POOL_UPSERT_CHUNK: nat := 400
  const PTR_BATCH_CHUNK: nat := 400
  const PRUNE_IP_CHUNK: nat := 99
  const CHECK_HISTORY_RETENTION: nat := 300

  /** A row of ip_checks. */
  datatype StoredCheck = StoredCheck(id: nat, row: CheckRow)

  /** A row of ip_pool, without its key. */
  datatype PoolRow = PoolRow(
    isIPv6: bool,
    scanMode: string,
    firstSeen: int,
    lastSeen: int,
    lastRttMs: int,
    timesSeen: nat,
    lastCheckedAt: int,
    lastCheckOk: bool,
    revision: nat,
    historyCount: nat,
    ptrCheckedAt: Option<int>)

  datatype PTREntry = PTREntry(ip: string, hostnames: string, lookupOk: bool, ttlSeconds: nat, checkedAt: int)

  datatype Db = Db(
    checks: seq<StoredCheck>,
    pool: map<string, PoolRow>,
    ptrCache: map<string, PTREntry>,
    version: nat,
    resetVersion: nat)

  // ---------- ip_checks ----------

  /** The rows of one IP, in table order. */
  function Of(checks: seq<StoredCheck>, ip: string): seq<StoredCheck> {
    if checks == [] then []
    else
      var rest := Of(checks[..|checks| - 1], ip);
      if checks[|checks| - 1].row.ip == ip then rest + [checks[|checks| - 1]] else rest
  }

  function MaxId(checks: seq<StoredCheck>): nat {
    if checks == [] then 0 else Max(MaxId(checks[..|checks| - 1]), checks[|checks| - 1].id)
  }

  /** Whether the unique index (ip, checked_at) already holds this key. */
  predicate HasTime(rows: seq<StoredCheck>, at: int) {
    exists c <- rows :: c.row.checkedAt == at
  }

  predicate HasOk(rows: seq<StoredCheck>) {
    exists c <- rows :: c.row.ok
  }

  function CountAfter(rows: seq<StoredCheck>, at: int): nat {
    if rows == [] then 0
    else CountAfter(rows[..|rows| - 1], at) + if rows[|rows| - 1].row.checkedAt > at then 1 else 0
  }

  /** INSERT INTO ip_checks ... ON CONFLICT(ip, checked_at) DO NOTHING. */
  function Append(checks: seq<StoredCheck>, row: CheckRow): seq<StoredCheck> {
    if HasTime(Of(checks, row.ip), row.checkedAt) then checks
    else checks + [StoredCheck(MaxId(checks) + 1, row)]
  }

  /** The order of ROW_NUMBER() OVER (PARTITION BY ip ORDER BY checked_at DESC, id DESC). */
  predicate Newer(a: StoredCheck, b: StoredCheck) {
    a.row.checkedAt > b.row.checkedAt || (a.row.checkedAt == b.row.checkedAt && a.id > b.id)
  }

  function CountNewer(rows: seq<StoredCheck>, c: StoredCheck): nat {
    if rows == [] then 0
    else CountNewer(rows[..|rows| - 1], c) + if Newer(rows[|rows| - 1], c) then 1 else 0
  }

  function RowNumber(rows: seq<StoredCheck>, c: StoredCheck): nat {
    1 + CountNewer(rows, c)
  }

  // ---------- The failure gate and the pool row ----------

  /** failureGateSQL on the pool row of ip. */
  predicate FailureGate(pool: map<string, PoolRow>, ip: string, cutoff: int) {
    ip in pool && (pool[ip].lastCheckOk || pool[ip].lastCheckedAt < cutoff)
  }

  /** insertCheckSQL for one row; alwaysRecord is its eighth parameter. */
  function InsertCheck(db: Db, row: CheckRow, alwaysRecord: bool, cutoff: int): Db {
    if alwaysRecord || FailureGate(db.pool, row.ip, cutoff) then db.(checks := Append(db.checks, row)) else db
  }

  function SuccessfulIPs(rows: seq<CheckRow>): set<string> {
    set row <- rows | row.ok :: row.ip
  }

  /** The statements of insertCheckRows for these rows, in order. */
  function InsertRows(db: Db, rows: seq<CheckRow>, successful: set<string>, cutoff: int): Db {
    if rows == [] then db
    else
      var row := rows[|rows| - 1];
      InsertCheck(InsertRows(db, rows[..|rows| - 1], successful, cutoff), row, row.ok || row.ip in successful, cutoff)
  }

  /** The insert of this row is not gated out. */
  predicate Admits(db: Db, row: CheckRow, successful: set<string>, cutoff: int) {
    row.ok || row.ip in successful || FailureGate(db.pool, row.ip, cutoff)
  }

  lemma {:induction false} InsertKeepsPool(db: Db, rows: seq<CheckRow>, successful: set<string>, cutoff: int)
    ensures InsertRows(db, rows, successful, cutoff) == db.(checks := InsertRows(db, rows, successful, cutoff).checks)
  {
    if rows != [] {
      InsertKeepsPool(db, rows[..|rows| - 1], successful, cutoff);
    }
  }

  predicate IsIPv6(ip: string) {
    ':' in ip
  }

  /** The statement of updatePoolBatch for one IP; checks are that IP's ip_checks rows. */
  function TouchRow(old_: Option<PoolRow>, e: Entry, checks: seq<StoredCheck>, version: nat, cutoff: int): Option<PoolRow> {
    match (old_, e.latestSuccess)
    case (None, Some(s)) =>
      Some(PoolRow(IsIPv6(e.latest.ip), s.scanMode, s.checkedAt, s.checkedAt, s.rttMs.GetOr(0), 1,
                   e.latest.checkedAt, e.latest.ok, version, |checks|, None))
    case (Some(p), Some(s)) =>
      Some(p.(scanMode := s.scanMode,
              lastSeen := s.checkedAt,
              lastRttMs := s.rttMs.GetOr(0),
              timesSeen := p.timesSeen + 1,
              lastCheckedAt := e.latest.checkedAt,
              lastCheckOk := e.latest.ok,
              revision := version,
              historyCount := p.historyCount + CountAfter(checks, p.lastCheckedAt)))
    case (Some(p), None) =>
      if p.lastCheckOk || p.lastCheckedAt < cutoff then
        Some(p.(lastCheckedAt := e.latest.checkedAt,
                lastCheckOk := false,
                revision := version,
                historyCount := p.historyCount + CountAfter(checks, p.lastCheckedAt)))
      else Some(p)
    case (None, None) => None
  }

  function RowIn(pool: map<string, PoolRow>, ip: string): Option<PoolRow> {
    if ip in pool then Some(pool[ip]) else None
  }

  function WithRow(pool: map<string, PoolRow>, ip: string, row: Option<PoolRow>): map<string, PoolRow> {
    match row
    case Some(p) => pool[ip := p]
    case None => pool - {ip}
  }

  function TouchPool(db: Db, e: Entry, cutoff: int): Db {
    var ip := e.latest.ip;
    db.(pool := WithRow(db.pool, ip, TouchRow(RowIn(db.pool, ip), e, Of(db.checks, ip), db.version, cutoff)))
  }

  function TouchAll(db: Db, es: seq<Entry>, cutoff: int): Db {
    if es == [] then db else TouchPool(TouchAll(db, es[..|es| - 1], cutoff), es[|es| - 1], cutoff)
  }

  /** One db.batch() of updatePoolBatch: bump the version, then one statement per IP. */
  function PoolBatch(db: Db, es: seq<Entry>, cutoff: int): Db {
    TouchAll(db.(version := db.version + 1), es, cutoff)
  }

  /** All batches of updatePoolBatch, POOL_UPSERT_CHUNK entries each. */
  function PoolBatches(db: Db, es: seq<Entry>, cutoff: int): Db
    decreases |es|
  {
    if es == [] then db
    else
      var k := Min(POOL_UPSERT_CHUNK, |es|);
      PoolBatches(PoolBatch(db, es[..k], cutoff), es[k..], cutoff)
  }

  function EntriesOf(t: Table): seq<Entry>
    requires forall ip <- t.order :: ip in t.entries
  {
    seq(|t.order|, i requires 0 <= i < |t.order| => t.entries[t.order[i]])
  }

  /** The uniqueRows of updatePoolBatch: one entry per IP, in order of first occurrence. */
  function Touches(rows: seq<CheckRow>): seq<Entry> {
    ScanValid(rows);
    EntriesOf(Scan(rows))
  }

  function UpdatePool(db: Db, rows: seq<CheckRow>, cutoff: int): Db {
    PoolBatches(db, Touches(rows), cutoff)
  }

  // ---------- Pruning ----------

  /** ip_checks without the rows of these IPs that rank beyond the retention limit in all. */
  function Retained(checks: seq<StoredCheck>, all: seq<StoredCheck>, ips: set<string>): seq<StoredCheck> {
    if checks == [] then []
    else
      var c := checks[|checks| - 1];
      Retained(checks[..|checks| - 1], all, ips) +
      if c.row.ip in ips && RowNumber(Of(all, c.row.ip), c) > CHECK_HISTORY_RETENTION then [] else [c]
  }

  function OverLimit(db: Db, ips: set<string>): set<string> {
    set ip <- ips | ip in db.pool && db.pool[ip].historyCount > CHECK_HISTORY_RETENTION
  }

  /** The first db.batch() of pruneCheckHistory: delete old rows, recount. */
  function DeleteBatch(db: Db, ips: set<string>): Db {
    var checks := Retained(db.checks, db.checks, ips);
    db.(checks := checks,
        pool := map ip | ip in db.pool :: if ip in ips then db.pool[ip].(historyCount := |Of(checks, ip)|) else db.pool[ip])
  }

  function DeadIPs(db: Db, ips: set<string>): set<string> {
    set ip <- ips | ip in db.pool && db.pool[ip].historyCount >= CHECK_HISTORY_RETENTION && !HasOk(Of(db.checks, ip))
  }

  /** The second db.batch() of pruneCheckHistory: bump, remember the reset, evict. */
  function EvictBatch(db: Db, ips: set<string>): Db {
    db.(version := db.version + 1,
        resetVersion := db.version + 1,
        pool := map ip | ip in db.pool && !(ip in ips && !HasOk(Of(db.checks, ip))) :: db.pool[ip])
  }

  /** The deleting half of one chunk: select, then the batch if anything was selected. */
  function PruneDelete(db: Db, ips: set<string>): Db {
    if OverLimit(db, ips) == {} then db else DeleteBatch(db, OverLimit(db, ips))
  }

  /** The evicting half of one chunk. */
  function PruneEvict(db: Db, ips: set<string>): Db {
    if DeadIPs(db, ips) == {} then db else EvictBatch(db, DeadIPs(db, ips))
  }

  /** The first `steps` halves of pruneCheckHistory over distinct ips; a crash stops after some half. */
  function PrunePrefix(db: Db, ips: seq<string>, steps: nat): Db
    decreases |ips|
  {
    if ips == [] || steps == 0 then db
    else
      var k := Min(PRUNE_IP_CHUNK, |ips|);
      var chunk := ToSet(ips[..k]);
      if steps == 1 then PruneDelete(db, chunk)
      else PrunePrefix(PruneEvict(PruneDelete(db, chunk), chunk), ips[k..], steps - 2)
  }

  function Distinct(ips: seq<string>): seq<string> {
    if ips == [] then []
    else
      var rest := Distinct(ips[..|ips| - 1]);
      if ips[|ips| - 1] in rest then rest else rest + [ips[|ips| - 1]]
  }

  /** pruneCheckHistory run to its end. */
  function Prune(db: Db, ips: seq<string>): Db {
    PrunePrefix(db, Distinct(ips), 2 * |ips|)
  }

  // ---------- PTR cache ----------

  function SavePTR(db: Db, e: PTREntry): Db {
    db.(ptrCache := db.ptrCache[e.ip := e],
        pool := if e.ip in db.pool then db.pool[e.ip := db.pool[e.ip].(ptrCheckedAt := Some(e.checkedAt), revision := db.version)] else db.pool)
  }

  function SavePTRs(db: Db, es: seq<PTREntry>): Db {
    if es == [] then db else SavePTR(SavePTRs(db, es[..|es| - 1]), es[|es| - 1])
  }

  /** savePTR, or one db.batch() of savePTRBatch. */
  function PTRBatch(db: Db, es: seq<PTREntry>): Db {
    SavePTRs(db.(version := db.version + 1), es)
  }

  // ---------- On-demand probes ----------

  datatype Probe = Probe(ip: string, ok: bool, rttMs: Option<int>, reason: Option<string>, detail: Option<string>, checkedAt: int, scanMode: string)

  predicate StartsWith(s: string, prefix: string) {
    prefix <= s
  }

  /** The ip_checks row saveRecheckResult writes for a probe. */
  function ProbeRow(p: Probe): CheckRow {
    if p.ok then CheckRow(p.ip, true, p.rttMs, Some("recheck:ok"), p.detail, p.checkedAt, p.scanMode)
    else
      var reason := match p.reason
        case Some(r) =>
          if r == "" then "recheck:unknown"
          else if StartsWith(r, "recheck:") || StartsWith(r, "scan:") then r
          else "recheck:" + r
        case None => "recheck:unknown";
      CheckRow(p.ip, false, None, Some(reason), p.detail, p.checkedAt, p.scanMode)
  }

  function SaveRecheckResult(db: Db, p: Probe): Db {
    if p.ok || p.ip in db.pool then db.(checks := Append(db.checks, ProbeRow(p))) else db
  }

  function ProbeUpdateRow(old_: PoolRow, p: Probe, checks: seq<StoredCheck>, version: nat): PoolRow {
    old_.(lastCheckedAt := p.checkedAt,
          lastCheckOk := p.ok,
          lastRttMs := if p.ok then p.rttMs.GetOr(0) else old_.lastRttMs,
          lastSeen := if p.ok then p.checkedAt else old_.lastSeen,
          timesSeen := if p.ok then old_.timesSeen + 1 else old_.timesSeen,
          historyCount := old_.historyCount + CountAfter(checks, old_.lastCheckedAt),
          revision := version)
  }

  /** The first db.batch() of updatePoolForCheck. */
  function ProbeUpdateBatch(db: Db, p: Probe): Db {
    db.(version := db.version + 1,
        pool := if p.ip in db.pool then db.pool[p.ip := ProbeUpdateRow(db.pool[p.ip], p, Of(db.checks, p.ip), db.version + 1)] else db.pool)
  }

  function ProbeInsertRow(old_: Option<PoolRow>, p: Probe, checks: seq<StoredCheck>, version: nat): PoolRow {
    match old_
    case None =>
      PoolRow(IsIPv6(p.ip), p.scanMode, p.checkedAt, p.checkedAt, p.rttMs.GetOr(0), 1, p.checkedAt, true, version, |checks|, None)
    case Some(row) =>
      row.(scanMode := p.scanMode, lastSeen := p.checkedAt, lastRttMs := p.rttMs.GetOr(0), timesSeen := row.timesSeen + 1,
           lastCheckedAt := p.checkedAt, lastCheckOk := true, revision := version, historyCount := |checks|)
  }

  /** The second db.batch() of updatePoolForCheck. */
  function ProbeInsertBatch(db: Db, p: Probe): Db {
    db.(version := db.version + 1,
        pool := db.pool[p.ip := ProbeInsertRow(RowIn(db.pool, p.ip), p, Of(db.checks, p.ip), db.version + 1)])
  }

  function UpdatePoolForCheck(db: Db, p: Probe): Db {
    var updated := ProbeUpdateBatch(db, p);
    if p.ip !in db.pool && p.ok then ProbeInsertBatch(updated, p) else updated
  }

  // ---------- Basic facts ----------

  lemma {:induction false} OfAppend(a: seq<StoredCheck>, b: seq<StoredCheck>, ip: string)
    ensures Of(a + b, ip) == Of(a, ip) + Of(b, ip)
  {
    if b == [] {
      assert a + b == a;
    } else {
      assert (a + b)[..|a + b| - 1] == a + b[..|b| - 1];
      OfAppend(a, b[..|b| - 1], ip);
    }
  }

  lemma OfAppendOne(checks: seq<StoredCheck>, c: StoredCheck, ip: string)
    ensures Of(checks + [c], ip) == Of(checks, ip) + if c.row.ip == ip then [c] else []
  {
    assert (checks + [c])[..|checks|] == checks;
  }

  lemma {:induction false} OfMembers(checks: seq<StoredCheck>, ip: string)
    ensures forall c <- Of(checks, ip) :: c.row.ip == ip && c in checks
    ensures forall c <- checks :: c.row.ip == ip ==> c in Of(checks, ip)
  {
    if checks != [] {
      OfMembers(checks[..|checks| - 1], ip);
      assert checks == checks[..|checks| - 1] + [checks[|checks| - 1]];
    }
  }

  lemma {:induction false} MaxIdBounds(checks: seq<StoredCheck>)
    ensures forall c <- checks :: c.id <= MaxId(checks)
    ensures checks != [] ==> exists c <- checks :: c.id == MaxId(checks)
  {
    if checks != [] {
      var n := |checks| - 1;
      MaxIdBounds(checks[..n]);
      assert checks == checks[..n] + [checks[n]];
      if checks[n].id < MaxId(checks[..n]) {
        var c :| c in checks[..n] && c.id == MaxId(checks[..n]);
        assert c in checks;
      } else {
        assert checks[n] in checks;
      }
    }
  }
}
