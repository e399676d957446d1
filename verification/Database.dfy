/**
 * The D1 tables and the functions of src/store.ts that write them, statement by statement, and the sequence of writes
 * of functions/ingest.ts and functions/check.ts.
 */
module Database {
  import opened Prelude
  import opened CheckRows
  import opened Store
  import opened Replay
  import PoolTheorem

  /** One step of the loop that builds byIP in updatePoolBatch. */
  function Regroup(t: Table, row: CheckRow): Table {
    if row.ip !in t.entries then Table(t.order + [row.ip], t.entries[row.ip := FirstEntry(row)])
    else t.(entries := t.entries[row.ip := Entry(row, if row.ok then Some(row) else t.entries[row.ip].latestSuccess)])
  }

  function RegroupFrom(t: Table, rows: seq<CheckRow>): Table {
    if rows == [] then t else Regroup(RegroupFrom(t, rows[..|rows| - 1]), rows[|rows| - 1])
  }

  lemma {:induction false} RegroupFromAppend(t: Table, a: seq<CheckRow>, b: seq<CheckRow>)
    ensures RegroupFrom(t, a + b) == RegroupFrom(RegroupFrom(t, a), b)
  {
    if b == [] {
      assert a + b == a;
    } else {
      assert (a + b)[..|a + b| - 1] == a + b[..|b| - 1];
      RegroupFromAppend(t, a, b[..|b| - 1]);
    }
  }

  lemma RegroupOfEntry(t: Table, ip: string, e: Entry)
    requires ValidEntry(ip, e) && ip !in t.entries
    ensures RegroupFrom(t, EmitEntry(e)) == Table(t.order + [ip], t.entries[ip := e])
  {
    if |EmitEntry(e)| == 2 {
      var s := e.latestSuccess.value;
      assert [s, e.latest][..1] == [s];
      assert RegroupFrom(t, [s]) == Regroup(t, s) by { assert [s][..0] == []; }
      assert t.entries[ip := FirstEntry(s)][ip := e] == t.entries[ip := e];
    } else {
      assert [e.latest][..0] == [];
      assert FirstEntry(e.latest) == e;
    }
  }

  lemma {:induction false} RegroupOfEmit(t: Table, k: nat)
    requires Valid(t) && k <= |t.order|
    ensures RegroupFrom(EMPTY_TABLE, Emit(t.order[..k], t.entries)) == Restrict(t, k)
  {
    if k > 0 {
      RegroupOfEmit(t, k - 1);
      RestrictNext(t, k);
      var ip := t.order[k - 1];
      RegroupFromAppend(EMPTY_TABLE, Emit(t.order[..k - 1], t.entries), EmitEntry(t.entries[ip]));
      RegroupOfEntry(Restrict(t, k - 1), ip, t.entries[ip]);
    }
  }

  /** Regrouping coalesced rows by IP, last row wins, rebuilds what coalesceCheckRows had in its own map. */
  lemma RegroupOfCoalesce(rows: seq<CheckRow>)
    ensures RegroupFrom(EMPTY_TABLE, Coalesce(rows)) == Scan(rows)
  {
    ScanValid(rows);
    var t := Scan(rows);
    RegroupOfEmit(t, |t.order|);
    assert t.order[..|t.order|] == t.order;
    assert Restrict(t, |t.order|).entries == t.entries;
  }

  // ---------- One chunk at a time ----------

  /** All batches of savePTRBatch. */
  function PTRBatches(db: Db, es: seq<PTREntry>): Db
    decreases |es|
  {
    if es == [] then db
    else
      var k := Min(PTR_BATCH_CHUNK, |es|);
      PTRBatches(PTRBatch(db, es[..k]), es[k..])
  }

  lemma NextPoolChunk(db: Db, es: seq<Entry>, i: nat, cutoff: int)
    requires i < |es|
    ensures var next := Min(i + POOL_UPSERT_CHUNK, |es|);
            PoolBatches(db, es[i..], cutoff) == PoolBatches(PoolBatch(db, es[i..next], cutoff), es[next..], cutoff)
  {
    var next := Min(i + POOL_UPSERT_CHUNK, |es|);
    assert es[i..][..next - i] == es[i..next] && es[i..][next - i..] == es[next..];
  }

  lemma NextPTRChunk(db: Db, es: seq<PTREntry>, i: nat)
    requires i < |es|
    ensures var next := Min(i + PTR_BATCH_CHUNK, |es|);
            PTRBatches(db, es[i..]) == PTRBatches(PTRBatch(db, es[i..next]), es[next..])
  {
    var next := Min(i + PTR_BATCH_CHUNK, |es|);
    assert es[i..][..next - i] == es[i..next] && es[i..][next - i..] == es[next..];
  }

  lemma NextPruneChunk(db: Db, ips: seq<string>, i: nat, steps: nat)
    requires i < |ips| && steps >= 2
    ensures var next := Min(i + PRUNE_IP_CHUNK, |ips|);
            var chunk := ToSet(ips[i..next]);
            PrunePrefix(db, ips[i..], steps) == PrunePrefix(PruneEvict(PruneDelete(db, chunk), chunk), ips[next..], steps - 2)
  {
    var next := Min(i + PRUNE_IP_CHUNK, |ips|);
    assert ips[i..][..next - i] == ips[i..next] && ips[i..][next - i..] == ips[next..];
  }

  function RowIPs(rows: seq<CheckRow>): seq<string> {
    seq(|rows|, i requires 0 <= i < |rows| => rows[i].ip)
  }

  /** The IPs of the coalesced rows are those of the request. */
  lemma RowIPsOfCoalesce(raw: seq<CheckRow>, ip: string)
    ensures ip in RowIPs(Coalesce(raw)) <==> exists row <- raw :: row.ip == ip
  {
    CoalescedRowsOf(raw, ip);
    RowsOfMembers(Coalesce(raw), ip);
    EntryIsNewest(raw, ip);
    assert Occurs(raw, ip) <==> exists row <- raw :: row.ip == ip;
    var rows := Coalesce(raw);
    if ip in RowIPs(rows) {
      var i :| 0 <= i < |rows| && RowIPs(rows)[i] == ip;
      assert rows[i] in rows;
    }
    if RowsOf(rows, ip) != [] {
      var row := RowsOf(rows, ip)[0];
      var i :| 0 <= i < |rows| && rows[i] == row;
      assert RowIPs(rows)[i] == ip;
    }
  }

  lemma {:induction false} RowsOfMembers(rows: seq<CheckRow>, ip: string)
    ensures forall row <- RowsOf(rows, ip) :: row.ip == ip && row in rows
    ensures forall row <- rows :: row.ip == ip ==> row in RowsOf(rows, ip)
  {
    if rows != [] {
      RowsOfMembers(rows[..|rows| - 1], ip);
      assert rows == rows[..|rows| - 1] + [rows[|rows| - 1]];
    }
  }

  class Database {
    var checks: seq<StoredCheck>
    var pool: map<string, PoolRow>
    var ptrCache: map<string, PTREntry>
    var version: nat
    var resetVersion: nat

    ghost function Tables(): Db
      reads this
    {
      Db(checks, pool, ptrCache, version, resetVersion)
    }

    constructor ()
      ensures Tables() == PoolTheorem.EMPTY
    {
      checks, pool, ptrCache, version, resetVersion := [], map[], map[], 0, 0;
    }

    // ---------- insertCheckRows ----------

    method InsertStatement(row: CheckRow)
      modifies this`checks
      ensures checks == Append(old(checks), row)
    {
      if !HasTime(Of(checks, row.ip), row.checkedAt) {
        checks := checks + [StoredCheck(MaxId(checks) + 1, row)];
      }
    }

    method InsertChunk(chunk: seq<CheckRow>, successful: set<string>, cutoff: int)
      modifies this`checks
      ensures Tables() == InsertRows(old(Tables()), chunk, successful, cutoff)
    {
      for i := 0 to |chunk|
        invariant Tables() == InsertRows(old(Tables()), chunk[..i], successful, cutoff)
      {
        assert chunk[..i + 1][..i] == chunk[..i];
        var row := chunk[i];
        if row.ok || row.ip in successful
           || (row.ip in pool && (pool[row.ip].lastCheckOk || pool[row.ip].lastCheckedAt < cutoff)) {
          InsertStatement(row);
        }
      }
      assert chunk[..|chunk|] == chunk;
    }

    method InsertCheckRows(rows: seq<CheckRow>, cutoff: int)
      modifies this`checks
      ensures Tables() == InsertRows(old(Tables()), rows, SuccessfulIPs(rows), cutoff)
    {
      var successful := SuccessfulIPs(rows);
      var i := 0;
      while i < |rows|
        invariant 0 <= i <= |rows|
        invariant Tables() == InsertRows(old(Tables()), rows[..i], successful, cutoff)
      {
        var next := Min(i + MAX_BATCH, |rows|);
        InsertChunk(rows[i..next], successful, cutoff);
        InsertRowsAppend(old(Tables()), rows[..i], rows[i..next], successful, cutoff);
        assert rows[..i] + rows[i..next] == rows[..next];
        i := next;
      }
      assert rows[..|rows|] == rows;
    }

    // ---------- updatePoolBatch ----------

    method UniqueRows(rows: seq<CheckRow>) returns (es: seq<Entry>)
      ensures es == Touches(rows)
    {
      var order: seq<string>, byIP: map<string, Entry> := [], map[];
      var coalesced := CoalesceCheckRows(rows);
      for i := 0 to |coalesced|
        invariant Table(order, byIP) == RegroupFrom(EMPTY_TABLE, coalesced[..i])
      {
        assert coalesced[..i + 1][..i] == coalesced[..i];
        var row := coalesced[i];
        if row.ip !in byIP {
          order := order + [row.ip];
          byIP := byIP[row.ip := Entry(row, if row.ok then Some(row) else None)];
        } else {
          var state := byIP[row.ip].(latest := row);
          if row.ok {
            state := state.(latestSuccess := Some(row));
          }
          byIP := byIP[row.ip := state];
        }
      }
      assert coalesced[..|coalesced|] == coalesced;
      RegroupOfCoalesce(rows);
      ScanValid(rows);
      es := EntriesOf(Table(order, byIP));
    }

    method SuccessStatement(latest: CheckRow, success: CheckRow)
      modifies this`pool
      ensures forall cutoff :: Tables() == TouchPool(old(Tables()), Entry(latest, Some(success)), cutoff)
    {
      var ip := latest.ip;
      if ip in pool {
        var p := pool[ip];
        var touched := p.(scanMode := success.scanMode,
                          lastSeen := success.checkedAt,
                          lastRttMs := success.rttMs.GetOr(0),
                          timesSeen := p.timesSeen + 1,
                          lastCheckedAt := latest.checkedAt,
                          lastCheckOk := latest.ok,
                          revision := version,
                          historyCount := p.historyCount + CountAfter(Of(checks, ip), p.lastCheckedAt));
        pool := pool[ip := touched];
      } else {
        var entered := PoolRow(IsIPv6(ip), success.scanMode, success.checkedAt, success.checkedAt, success.rttMs.GetOr(0), 1,
                               latest.checkedAt, latest.ok, version, |Of(checks, ip)|, None);
        pool := pool[ip := entered];
      }
    }

    method FailureStatement(latest: CheckRow, cutoff: int)
      modifies this`pool
      ensures Tables() == TouchPool(old(Tables()), Entry(latest, None), cutoff)
    {
      var ip := latest.ip;
      if ip in pool && (pool[ip].lastCheckOk || pool[ip].lastCheckedAt < cutoff) {
        var p := pool[ip];
        var touched := p.(lastCheckedAt := latest.checkedAt,
                          lastCheckOk := false,
                          revision := version,
                          historyCount := p.historyCount + CountAfter(Of(checks, ip), p.lastCheckedAt));
        pool := pool[ip := touched];
      }
      assert ip !in old(pool) ==> old(pool) - {ip} == old(pool);
      assert ip in old(pool) ==> old(pool)[ip := old(pool)[ip]] == old(pool);
    }

    method PoolChunk(chunk: seq<Entry>, cutoff: int)
      modifies this`pool, this`version
      ensures Tables() == PoolBatch(old(Tables()), chunk, cutoff)
    {
      version := version + 1;
      ghost var bumped := Tables();
      for i := 0 to |chunk|
        invariant Tables() == TouchAll(bumped, chunk[..i], cutoff)
      {
        assert chunk[..i + 1][..i] == chunk[..i];
        match chunk[i].latestSuccess
        case Some(success) => SuccessStatement(chunk[i].latest, success);
        case None => FailureStatement(chunk[i].latest, cutoff);
      }
      assert chunk[..|chunk|] == chunk;
    }

    method UpdatePoolBatch(rows: seq<CheckRow>, cutoff: int)
      modifies this`pool, this`version
      ensures Tables() == UpdatePool(old(Tables()), rows, cutoff)
    {
      var uniqueRows := UniqueRows(rows);
      var i := 0;
      while i < |uniqueRows|
        invariant 0 <= i <= |uniqueRows|
        invariant PoolBatches(Tables(), uniqueRows[i..], cutoff) == PoolBatches(old(Tables()), uniqueRows, cutoff)
      {
        var next := Min(i + POOL_UPSERT_CHUNK, |uniqueRows|);
        NextPoolChunk(Tables(), uniqueRows, i, cutoff);
        PoolChunk(uniqueRows[i..next], cutoff);
        i := next;
      }
    }

    // ---------- pruneCheckHistory ----------

    method PruneChunk(chunk: set<string>)
      modifies this`checks, this`pool, this`version, this`resetVersion
      ensures Tables() == PruneEvict(PruneDelete(old(Tables()), chunk), chunk)
    {
      var overLimit := set ip <- chunk | ip in pool && pool[ip].historyCount > CHECK_HISTORY_RETENTION;
      assert overLimit == OverLimit(old(Tables()), chunk);
      if overLimit != {} {
        checks := Retained(checks, checks, overLimit);
        pool := map ip | ip in pool :: if ip in overLimit then pool[ip].(historyCount := |Of(checks, ip)|) else pool[ip];
      }
      ghost var deleted := Tables();
      assert deleted == PruneDelete(old(Tables()), chunk);
      var dead := set ip <- chunk | ip in pool && pool[ip].historyCount >= CHECK_HISTORY_RETENTION && !HasOk(Of(checks, ip));
      assert dead == DeadIPs(deleted, chunk);
      if dead == {} {
        return;
      }
      version := version + 1;
      resetVersion := version;
      pool := map ip | ip in pool && !(ip in dead && !HasOk(Of(checks, ip))) :: pool[ip];
    }

    method UniqueIPs(ips: seq<string>) returns (unique: seq<string>)
      ensures unique == Distinct(ips) && |unique| <= |ips|
    {
      unique := [];
      for i := 0 to |ips|
        invariant unique == Distinct(ips[..i]) && |unique| <= i
      {
        assert ips[..i + 1][..i] == ips[..i];
        if ips[i] !in unique {
          unique := unique + [ips[i]];
        }
      }
      assert ips[..|ips|] == ips;
    }

    method PruneCheckHistory(ips: seq<string>)
      modifies this`checks, this`pool, this`version, this`resetVersion
      ensures Tables() == Prune(old(Tables()), ips)
    {
      var unique := UniqueIPs(ips);
      var i := 0;
      ghost var steps := 2 * |ips|;
      while i < |unique|
        invariant 0 <= i <= |unique| && steps >= 2 * (|unique| - i)
        invariant PrunePrefix(Tables(), unique[i..], steps) == PrunePrefix(old(Tables()), unique, 2 * |ips|)
      {
        var next := Min(i + PRUNE_IP_CHUNK, |unique|);
        NextPruneChunk(Tables(), unique, i, steps);
        PruneChunk(ToSet(unique[i..next]));
        i, steps := next, steps - 2;
      }
    }

    // ---------- savePTR and savePTRBatch ----------

    method SavePTRChunk(chunk: seq<PTREntry>)
      modifies this`pool, this`ptrCache, this`version
      ensures Tables() == PTRBatch(old(Tables()), chunk)
    {
      version := version + 1;
      ghost var bumped := Tables();
      for i := 0 to |chunk|
        invariant Tables() == SavePTRs(bumped, chunk[..i])
      {
        assert chunk[..i + 1][..i] == chunk[..i];
        var e := chunk[i];
        ptrCache := ptrCache[e.ip := e];
        if e.ip in pool {
          pool := pool[e.ip := pool[e.ip].(ptrCheckedAt := Some(e.checkedAt), revision := version)];
        }
      }
      assert chunk[..|chunk|] == chunk;
    }

    method SavePTRBatch(entries: seq<PTREntry>)
      modifies this`pool, this`ptrCache, this`version
      ensures Tables() == PTRBatches(old(Tables()), entries)
    {
      var i := 0;
      while i < |entries|
        invariant 0 <= i <= |entries|
        invariant PTRBatches(Tables(), entries[i..]) == PTRBatches(old(Tables()), entries)
      {
        var next := Min(i + PTR_BATCH_CHUNK, |entries|);
        NextPTRChunk(Tables(), entries, i);
        SavePTRChunk(entries[i..next]);
        i := next;
      }
    }

    // ---------- On-demand probes ----------

    method SaveRecheckResult(p: Probe)
      modifies this`checks
      ensures Tables() == Store.SaveRecheckResult(old(Tables()), p)
    {
      if !p.ok && p.ip !in pool {
        return;
      }
      InsertStatement(ProbeRow(p));
    }

    /** The UPDATE batch; changes is the row count D1 reports. */
    method UpdateProbed(p: Probe) returns (changes: nat)
      modifies this`pool, this`version
      ensures Tables() == ProbeUpdateBatch(old(Tables()), p)
      ensures changes == if p.ip in old(pool) then 1 else 0
    {
      version := version + 1;
      changes := 0;
      if p.ip in pool {
        pool := pool[p.ip := ProbeUpdateRow(pool[p.ip], p, Of(checks, p.ip), version)];
        changes := 1;
      }
    }

    /** The INSERT ... ON CONFLICT batch. */
    method InsertProbed(p: Probe)
      modifies this`pool, this`version
      ensures Tables() == ProbeInsertBatch(old(Tables()), p)
    {
      version := version + 1;
      var known := if p.ip in pool then Some(pool[p.ip]) else None;
      pool := pool[p.ip := ProbeInsertRow(known, p, Of(checks, p.ip), version)];
    }

    method UpdatePoolForCheck(p: Probe)
      modifies this`pool, this`version
      ensures Tables() == Store.UpdatePoolForCheck(old(Tables()), p)
    {
      var changes := UpdateProbed(p);
      if changes == 0 && p.ok {
        InsertProbed(p);
      }
    }

    // ---------- Requests ----------

    /** handleIngest for valid, normalised rows. A request without pruneIPs prunes the IPs it touched. */
    method HandleIngest(raw: seq<CheckRow>, cutoff: int, pruneIPs: Option<seq<string>>, maintenance: bool)
      modifies this
      ensures var pruned := pruneIPs.GetOr(RowIPs(Coalesce(raw)));
              Tables() == PoolTheorem.Handle(
                old(Tables()),
                PoolTheorem.Ingest(raw, [], cutoff, pruned, if pruneIPs.None? || maintenance then 2 * |pruned| else 0))
    {
      var rows := CoalesceCheckRows(raw);
      InsertCheckRows(rows, cutoff);
      UpdatePoolBatch(rows, cutoff);
      var touchedIPs := RowIPs(rows);
      var legacyPruneProtocol := pruneIPs.None?;
      if legacyPruneProtocol {
        PruneCheckHistory(touchedIPs);
      }
      if maintenance {
        if !legacyPruneProtocol {
          PruneCheckHistory(pruneIPs.value);
        }
      }
    }

    method HandleProbe(p: Probe)
      modifies this
      ensures Tables() == PoolTheorem.Handle(old(Tables()), PoolTheorem.OnDemand(p, 2))
    {
      SaveRecheckResult(p);
      UpdatePoolForCheck(p);
      PruneCheckHistory([p.ip]);
    }
  }

  /** The last entry for ip, which is the one that stays. */
  function LastEntry(es: seq<PTREntry>, ip: string): Option<PTREntry> {
    if es == [] then None
    else if es[|es| - 1].ip == ip then Some(es[|es| - 1])
    else LastEntry(es[..|es| - 1], ip)
  }

  /** d is db with this entry for ip in the cache, and the pool row of ip, if there is one, marked as checked at version v. */
  ghost predicate PTRSaved(db: Db, d: Db, ip: string, entry: Option<PTREntry>, v: nat) {
    && d.checks == db.checks && d.resetVersion == db.resetVersion && (ip in d.pool <==> ip in db.pool)
    && match entry
       case None => (ip in d.ptrCache <==> ip in db.ptrCache) && (ip in db.ptrCache ==> d.ptrCache[ip] == db.ptrCache[ip])
                    && (ip in db.pool ==> d.pool[ip] == db.pool[ip])
       case Some(e) => ip in d.ptrCache && d.ptrCache[ip] == e
                       && (ip in db.pool ==> d.pool[ip] == db.pool[ip].(ptrCheckedAt := Some(e.checkedAt), revision := v))
  }

  lemma {:induction false} SavePTRsAt(db: Db, es: seq<PTREntry>, ip: string)
    ensures PTRSaved(db, SavePTRs(db, es), ip, LastEntry(es, ip), db.version) && SavePTRs(db, es).version == db.version
  {
    if es != [] {
      SavePTRsAt(db, es[..|es| - 1], ip);
    }
  }

  lemma {:induction false} LastEntryAppend(a: seq<PTREntry>, b: seq<PTREntry>, ip: string)
    ensures LastEntry(a + b, ip) == if LastEntry(b, ip).Some? then LastEntry(b, ip) else LastEntry(a, ip)
  {
    if b == [] {
      assert a + b == a;
    } else {
      assert (a + b)[..|a + b| - 1] == a + b[..|b| - 1];
      LastEntryAppend(a, b[..|b| - 1], ip);
    }
  }

  /**
   * Whatever the batching, the last entry of an IP is cached and its pool row is stamped with the batch's version;
   * other IPs and all checks stay.
   */
  lemma {:induction false} PTRBatchesAt(db: Db, es: seq<PTREntry>, ip: string) returns (v: nat)
    ensures PTRSaved(db, PTRBatches(db, es), ip, LastEntry(es, ip), v)
    ensures LastEntry(es, ip).Some? ==> db.version < v <= PTRBatches(db, es).version
    ensures db.version <= PTRBatches(db, es).version
    decreases |es|
  {
    v := db.version;
    if es != [] {
      var k := Min(PTR_BATCH_CHUNK, |es|);
      var a, b := es[..k], es[k..];
      assert es == a + b;
      SavePTRsAt(db.(version := db.version + 1), a, ip);
      LastEntryAppend(a, b, ip);
      v := PTRBatchesAt(PTRBatch(db, a), b, ip);
      if LastEntry(b, ip).None? {
        v := db.version + 1;
      }
    }
  }
}
