/** Resubmitting an ingest whose first attempt committed only some of its batches. */
module Replay {
  import opened Prelude
  import opened CheckRows
  import opened Store
  import opened PoolView
  import opened PoolRuns
  import opened Retries
  import PoolAgreement

  // ---------- The insert statements ----------

  lemma {:induction false} InsertRowsAppend(db: Db, a: seq<CheckRow>, b: seq<CheckRow>, successful: set<string>, cutoff: int)
    ensures InsertRows(db, a + b, successful, cutoff) == InsertRows(InsertRows(db, a, successful, cutoff), b, successful, cutoff)
  {
    if b == [] {
      assert a + b == a;
    } else {
      assert (a + b)[..|a + b| - 1] == a + b[..|b| - 1];
      InsertRowsAppend(db, a, b[..|b| - 1], successful, cutoff);
    }
  }

  lemma AppendKeepsTimes(checks: seq<StoredCheck>, row: CheckRow, ip: string, at: int)
    ensures HasTime(Of(checks, ip), at) ==> HasTime(Of(Append(checks, row), ip), at)
    ensures HasTime(Of(Append(checks, row), row.ip), row.checkedAt)
  {
    var c := StoredCheck(MaxId(checks) + 1, row);
    OfAppendOne(checks, c, ip);
    OfAppendOne(checks, c, row.ip);
    if HasTime(Of(checks, ip), at) {
      var d :| d in Of(checks, ip) && d.row.checkedAt == at;
      assert d in Of(Append(checks, row), ip);
    }
    if !HasTime(Of(checks, row.ip), row.checkedAt) {
      assert c in Of(Append(checks, row), row.ip);
    }
  }

  /** A row whose insert was admitted is stored afterwards, by this statement or an earlier one. */
  lemma {:induction false} InsertedIsStored(db: Db, rows: seq<CheckRow>, successful: set<string>, cutoff: int, k: nat)
    requires k < |rows| && Admits(db, rows[k], successful, cutoff)
    ensures HasTime(Of(InsertRows(db, rows, successful, cutoff).checks, rows[k].ip), rows[k].checkedAt)
    ensures InsertRows(db, rows, successful, cutoff) == db.(checks := InsertRows(db, rows, successful, cutoff).checks)
  {
    var n := |rows| - 1;
    InsertKeepsPool(db, rows, successful, cutoff);
    InsertKeepsPool(db, rows[..n], successful, cutoff);
    AppendKeepsTimes(InsertRows(db, rows[..n], successful, cutoff).checks, rows[n], rows[k].ip, rows[k].checkedAt);
    if k < n {
      InsertedIsStored(db, rows[..n], successful, cutoff, k);
    }
  }

  /** Rows that are all stored already, or gated out, change nothing. */
  lemma {:induction false} ReinsertIsNoop(d: Db, rows: seq<CheckRow>, successful: set<string>, cutoff: int)
    requires forall k :: 0 <= k < |rows| && Admits(d, rows[k], successful, cutoff) ==> HasTime(Of(d.checks, rows[k].ip), rows[k].checkedAt)
    ensures InsertRows(d, rows, successful, cutoff) == d
  {
    if rows != [] {
      var n := |rows| - 1;
      forall k | 0 <= k < n && Admits(d, rows[..n][k], successful, cutoff)
        ensures HasTime(Of(d.checks, rows[..n][k].ip), rows[..n][k].checkedAt)
      {
        assert rows[..n][k] == rows[k];
      }
      ReinsertIsNoop(d, rows[..n], successful, cutoff);
    }
  }

  /** Inserting everything after a prefix of the inserts gives what inserting everything once gives. */
  lemma ReinsertAfterPrefix(db: Db, rows: seq<CheckRow>, successful: set<string>, cutoff: int, m: nat)
    requires m <= |rows|
    ensures InsertRows(InsertRows(db, rows[..m], successful, cutoff), rows, successful, cutoff) == InsertRows(db, rows, successful, cutoff)
  {
    var a, b := rows[..m], rows[m..];
    assert rows == a + b;
    var d := InsertRows(db, a, successful, cutoff);
    InsertKeepsPool(db, a, successful, cutoff);
    forall k | 0 <= k < |a| && Admits(d, a[k], successful, cutoff) ensures HasTime(Of(d.checks, a[k].ip), a[k].checkedAt) {
      InsertedIsStored(db, a, successful, cutoff, k);
    }
    ReinsertIsNoop(d, a, successful, cutoff);
    InsertRowsAppend(d, a, b, successful, cutoff);
    InsertRowsAppend(db, a, b, successful, cutoff);
  }

  // ---------- The pool statements ----------

  /** Touching a row that the same statement touched before: which columns move, and by how much. */
  lemma TouchTwice(old_: Option<PoolRow>, e: Entry, rows: seq<StoredCheck>, v0: nat, v1: nat, v2: nat, cutoff: int)
    ensures
      var once := TouchRow(old_, e, rows, v1, cutoff);
      var twice := TouchRow(TouchRow(old_, e, rows, v0, cutoff), e, rows, v2, cutoff);
      && once.Some? == twice.Some?
      && (once.Some? ==>
            && twice.value == once.value.(revision := twice.value.revision, timesSeen := twice.value.timesSeen,
                                          historyCount := twice.value.historyCount)
            && twice.value.timesSeen == once.value.timesSeen + (if e.latestSuccess.Some? then 1 else 0)
            && (twice.value.historyCount == once.value.historyCount
                || twice.value.historyCount == once.value.historyCount + CountAfter(rows, e.latest.checkedAt)))
  {
  }

  lemma ClosedGateRow(pool: map<string, PoolRow>, ip: string, e: Entry, rows: seq<StoredCheck>, version: nat, cutoff: int)
    requires !FailureGate(pool, ip, cutoff) && e.latestSuccess.None?
    ensures TouchRow(RowIn(pool, ip), e, rows, version, cutoff) == RowIn(pool, ip)
  {
  }

  lemma SameRowSameGate(a: map<string, PoolRow>, b: map<string, PoolRow>, ip: string, cutoff: int)
    requires RowIn(a, ip) == RowIn(b, ip)
    ensures FailureGate(a, ip, cutoff) == FailureGate(b, ip, cutoff)
  {
  }

  /** A gate that is closed stays closed when a failure is the only news. */
  lemma GateStaysClosed(db: Db, es: seq<Entry>, cutoff: int, ip: string)
    requires DistinctEntries(es)
    requires !FailureGate(db.pool, ip, cutoff)
    requires Find(es, ip).Some? ==> Find(es, ip).value.latestSuccess.None?
    ensures !FailureGate(PoolBatches(db, es, cutoff).pool, ip, cutoff)
  {
    var version := PoolBatchesRow(db, es, cutoff, ip);
    if Find(es, ip).Some? {
      ClosedGateRow(db.pool, ip, Find(es, ip).value, Of(db.checks, ip), version, cutoff);
    }
    SameRowSameGate(PoolBatches(db, es, cutoff).pool, db.pool, ip, cutoff);
  }

  /** After all inserts and any pool prefix, inserting again changes nothing. */
  lemma ReinsertAfterTouches(db: Db, raw: seq<CheckRow>, cutoff: int, j: nat)
    requires j <= |Touches(Coalesce(raw))|
    ensures
      var rows := Coalesce(raw);
      var d := PoolBatches(InsertRows(db, rows, SuccessfulIPs(rows), cutoff), Touches(rows)[..j], cutoff);
      InsertRows(d, rows, SuccessfulIPs(rows), cutoff) == d && d.checks == InsertRows(db, rows, SuccessfulIPs(rows), cutoff).checks
  {
    var rows := Coalesce(raw);
    var successful := SuccessfulIPs(rows);
    assert rows[..|rows|] == rows;
    var inserted := InsertRows(db, rows, successful, cutoff);
    var es := Touches(rows)[..j];
    var d := PoolBatches(inserted, es, cutoff);
    TouchesFind(rows, "");
    PrefixFind(Touches(rows), j, "");
    var _ := PoolBatchesRow(inserted, es, cutoff, "");
    InsertKeepsPool(db, rows, successful, cutoff);
    forall k | 0 <= k < |rows| && Admits(d, rows[k], successful, cutoff) ensures HasTime(Of(d.checks, rows[k].ip), rows[k].checkedAt) {
      if !Admits(db, rows[k], successful, cutoff) {
        var ip := rows[k].ip;
        TouchesFind(rows, ip);
        PrefixFind(Touches(rows), j, ip);
        ScanOfCoalesce(raw);
        SuccessfulMeans(raw, ip);
        GateStaysClosed(inserted, es, cutoff, ip);
        assert false;
      }
      InsertedIsStored(db, rows, successful, cutoff, k);
    }
    ReinsertIsNoop(d, rows, successful, cutoff);
  }

  /** The replayed pool row against the row of one clean submission. */
  ghost predicate SameButCounters(clean: Option<PoolRow>, replayed: Option<PoolRow>, again: nat, over: nat) {
    && clean.Some? == replayed.Some?
    && (clean.Some? ==>
          && replayed.value == clean.value.(revision := replayed.value.revision, timesSeen := clean.value.timesSeen + again,
                                            historyCount := replayed.value.historyCount)
          && clean.value.historyCount <= replayed.value.historyCount <= clean.value.historyCount + over)
  }

  lemma TouchedRows(inserted: Db, es: seq<Entry>, j: nat, cutoff: int, ip: string)
    requires DistinctEntries(es) && j <= |es|
    ensures
      var d := PoolBatches(inserted, es[..j], cutoff);
      SameButCounters(
        RowIn(PoolBatches(inserted, es, cutoff).pool, ip), RowIn(PoolBatches(d, es, cutoff).pool, ip),
        if Find(es[..j], ip).Some? && Find(es[..j], ip).value.latestSuccess.Some? then 1 else 0,
        if Find(es, ip).Some? then CountAfter(Of(inserted.checks, ip), Find(es, ip).value.latest.checkedAt) else 0)
  {
    PrefixFind(es, j, ip);
    var d := PoolBatches(inserted, es[..j], cutoff);
    var v0 := PoolBatchesRow(inserted, es[..j], cutoff, ip);
    var v1 := PoolBatchesRow(inserted, es, cutoff, ip);
    var v2 := PoolBatchesRow(d, es, cutoff, ip);
    if Find(es, ip).Some? {
      TouchTwice(RowIn(inserted.pool, ip), Find(es, ip).value, Of(inserted.checks, ip), v0, v1, v2, cutoff);
    }
  }

  /**
   * Main result. Resubmitting an ingest after an attempt that stopped anywhere stores the same ip_checks, ids included,
   * and the same pool rows as one clean submission, except that times_seen counts a success once more for the IPs that
   * attempt had reached, the revision differs, and history_count can only exceed by rows newer than the submission's.
   */
  lemma ReplayConverges(db: Db, raw: seq<CheckRow>, a: Attempt, ip: string)
    ensures
      var rows := Coalesce(raw);
      var clean, replayed := Write(db, rows, a.cutoff), Write(Attempted(db, rows, a), rows, a.cutoff);
      && replayed.checks == clean.checks
      && SameButCounters(RowIn(clean.pool, ip), RowIn(replayed.pool, ip), if CountedAgain(raw, [a], ip) then 1 else 0,
                         if ip in Scan(rows).entries then CountAfter(Of(clean.checks, ip), Scan(rows).entries[ip].latest.checkedAt) else 0)
  {
    var rows := Coalesce(raw);
    var successful, j := SuccessfulIPs(rows), if a.inserts < |rows| then 0 else Min(a.touches, |Touches(rows)|);
    var inserted := InsertRows(db, rows, successful, a.cutoff);
    var es := Touches(rows);
    TouchesFind(rows, ip);
    ScanOfCoalesce(raw);
    PrefixFind(es, j, ip);
    assert Reached(rows, [a], ip) <==> Reaches(rows, a, ip);
    var _ := PoolBatchesRow(inserted, es, a.cutoff, ip);
    TouchedRows(inserted, es, j, a.cutoff, ip);
    if a.inserts < |rows| {
      ReinsertAfterPrefix(db, rows, successful, a.cutoff, a.inserts);
      assert es[..0] == [];
    } else {
      ReinsertAfterTouches(db, raw, a.cutoff, j);
      var _ := PoolBatchesRow(PoolBatches(inserted, es[..j], a.cutoff), es, a.cutoff, ip);
      var _ := PoolBatchesRow(inserted, es[..j], a.cutoff, ip);
    }
  }

  /** With in-order arrival nothing stored is newer than the submission, so history_count is the same too. */
  lemma InOrderReplayKeepsCount(db: Db, raw: seq<CheckRow>, a: Attempt, ip: string)
    requires Sorted(Of(db.checks, ip)) && InOrderRows(Of(db.checks, ip), RowsOf(Coalesce(raw), ip))
    ensures
      var rows := Coalesce(raw);
      var clean, replayed := Write(db, rows, a.cutoff), Write(Attempted(db, rows, a), rows, a.cutoff);
      SameButCounters(RowIn(clean.pool, ip), RowIn(replayed.pool, ip), if CountedAgain(raw, [a], ip) then 1 else 0, 0)
  {
    ReplayConverges(db, raw, a, ip);
    if ip in Scan(Coalesce(raw)).entries {
      NothingNewer(db, raw, a.cutoff, ip);
    }
  }

  lemma NothingNewer(db: Db, raw: seq<CheckRow>, cutoff: int, ip: string)
    requires Sorted(Of(db.checks, ip)) && InOrderRows(Of(db.checks, ip), RowsOf(Coalesce(raw), ip))
    requires ip in Scan(Coalesce(raw)).entries
    ensures CountAfter(Of(Write(db, Coalesce(raw), cutoff).checks, ip), Scan(Coalesce(raw)).entries[ip].latest.checkedAt) == 0
  {
    var rows := Coalesce(raw);
    var added := InsertedRows(db, rows, SuccessfulIPs(rows), cutoff, ip);
    TouchesFind(rows, ip);
    var _ := PoolBatchesRow(InsertRows(db, rows, SuccessfulIPs(rows), cutoff), Touches(rows), cutoff, ip);
    ScanOfCoalesce(raw);
    CoalescedRowsOf(raw, ip);
    ScanValid(rows);
    NoneAfterLast(Of(db.checks, ip), added, RowsOf(rows, ip));
  }

  /** No stored or added row is newer than the last new row. */
  lemma NoneAfterLast(stored: seq<StoredCheck>, added: seq<StoredCheck>, rows: seq<CheckRow>)
    requires rows != [] && InOrderRows(stored, rows)
    requires PoolAgreement.RowsIn(added) == rows || PoolAgreement.RowsIn(added) == []
    ensures CountAfter(stored + added, rows[|rows| - 1].checkedAt) == 0
  {
    var last := rows[|rows| - 1];
    assert last in rows;
    assert |added| == |PoolAgreement.RowsIn(added)|;
    forall i | 0 <= i < |added| ensures added[i].row.checkedAt <= last.checkedAt {
      assert PoolAgreement.RowsIn(added)[i] == added[i].row;
    }
    CountAfterNone(stored + added, last.checkedAt);
  }
}
