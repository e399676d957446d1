/**
 * What src/store.ts and public/static/home.js rely on without defending it. For each reliance: the exact condition
 * under which one step keeps the pool in agreement, or an input on which it does not.
 */
module Hypotheses {
  import opened Prelude
  import opened CheckRows
  import opened Store
  import opened PoolView
  import opened PoolAgreement
  import opened PoolRuns
  import opened Pruning
  import opened PoolTheorem
  import opened Retries
  import LateDelta
  import Browser

  // ---------- Two cutoffs in one ingest ----------

  /** functions/ingest.ts:101-102 with the clock readings of src/store.ts:68 and src/store.ts:120 apart. */
  function WriteTwice(db: Db, coalesced: seq<CheckRow>, insertCutoff: int, updateCutoff: int): Db {
    UpdatePool(InsertRows(db, coalesced, SuccessfulIPs(coalesced), insertCutoff), coalesced, updateCutoff)
  }

  /** What WriteTwice does to an IP that only failed in the batch. */
  lemma FailureEffect(db: Db, rows: seq<CheckRow>, c1: int, c2: int, ip: string) returns (added: seq<StoredCheck>, version: nat)
    requires AgreesAt(db, ip) && InOrderRows(Of(db.checks, ip), RowsOf(Coalesce(rows), ip))
    requires ip in Scan(rows).entries && Scan(rows).entries[ip].latestSuccess.None?
    ensures
      var d, e := WriteTwice(db, Coalesce(rows), c1, c2), Scan(rows).entries[ip];
      && ValidEntry(ip, e)
      && Of(d.checks, ip) == Of(db.checks, ip) + added
      && Sorted(Of(d.checks, ip))
      && RowsIn(added) == (if FailureGate(db.pool, ip, c1) then [e.latest] else [])
      && RowIn(d.pool, ip) == TouchRow(RowIn(db.pool, ip), e, Of(d.checks, ip), version, c2)
  {
    var coalesced := Coalesce(rows);
    added := InsertedRows(db, coalesced, SuccessfulIPs(coalesced), c1, ip);
    var inserted := InsertRows(db, coalesced, SuccessfulIPs(coalesced), c1);
    TouchesFind(coalesced, ip);
    version := PoolBatchesRow(inserted, Touches(coalesced), c2, ip);
    ScanOfCoalesce(rows);
    CoalescedRowsOf(rows, ip);
    SuccessfulMeans(rows, ip);
    ScanValid(rows);
  }

  /** One failure of a pool row, gated by c1 at the insert and by c2 at the update. */
  lemma GatesAgree(ip: string, rows: seq<StoredCheck>, added: seq<StoredCheck>, p: Option<PoolRow>, e: Entry, version: nat, c1: int, c2: int)
    requires Agrees(ip, rows, p) && Sorted(rows + added) && ValidEntry(ip, e) && e.latestSuccess.None? && c1 <= c2
    requires forall c <- rows :: c.row.checkedAt < e.latest.checkedAt
    requires RowsIn(added) == if p.Some? && (p.value.lastCheckOk || p.value.lastCheckedAt < c1) then [e.latest] else []
    ensures Agrees(ip, rows + added, TouchRow(p, e, rows + added, version, c2))
            <==> !(p.Some? && !p.value.lastCheckOk && c1 <= p.value.lastCheckedAt < c2)
  {
    assert |added| == |RowsIn(added)|;
    if p.Some? && !p.value.lastCheckOk && c1 <= p.value.lastCheckedAt < c2 {
      assert rows + added == rows;
      NewestBounds(rows);
    } else {
      TouchFailure(ip, rows, added, p, e, version, c2);
    }
  }

  /**
   * With the insert's cutoff no later than the update's, an ingest that only saw ip fail keeps the pool in agreement
   * if and only if its last recorded failure does not fall between the two cutoffs.
   */
  lemma CutoffsMustAgree(db: Db, rows: seq<CheckRow>, c1: int, c2: int, ip: string)
    requires AgreesAt(db, ip) && InOrderRows(Of(db.checks, ip), RowsOf(Coalesce(rows), ip)) && c1 <= c2
    requires ip in Scan(rows).entries && Scan(rows).entries[ip].latestSuccess.None?
    ensures AgreesAt(WriteTwice(db, Coalesce(rows), c1, c2), ip)
            <==> !(ip in db.pool && !db.pool[ip].lastCheckOk && c1 <= db.pool[ip].lastCheckedAt < c2)
  {
    var added, version := FailureEffect(db, rows, c1, c2, ip);
    var e := Scan(rows).entries[ip];
    CoalescedRowsOf(rows, ip);
    assert e.latest in RowsOf(Coalesce(rows), ip);
    GatesAgree(ip, Of(db.checks, ip), added, RowIn(db.pool, ip), e, version, c1, c2);
  }

  // ---------- A late delta around an eviction ----------

  function CheckAt(ip: string, ok: bool, at: nat): StoredCheck {
    StoredCheck(at + 1, CheckRow(ip, ok, None, None, None, at, "sni"))
  }

  /** A success at 0 and then n failures. */
  function UpOnce(ip: string, n: nat): seq<StoredCheck> {
    if n == 0 then [CheckAt(ip, true, 0)] else UpOnce(ip, n - 1) + [CheckAt(ip, false, n)]
  }

  lemma {:induction false} UpOnceMeans(ip: string, n: nat)
    ensures
      var rows := UpOnce(ip, n);
      && |rows| == n + 1 && OkRows(rows) == [CheckAt(ip, true, 0)]
      && forall i :: 0 <= i <= n ==> rows[i] == CheckAt(ip, i == 0, i)
  {
    if n > 0 {
      UpOnceMeans(ip, n - 1);
      OkRowsAppendOne(UpOnce(ip, n - 1), CheckAt(ip, false, n));
    } else {
      assert [CheckAt(ip, true, 0)][..0] == [];
    }
  }

  lemma {:induction false} OfUpOnce(ip: string, n: nat, other: string)
    ensures Of(UpOnce(ip, n), other) == if other == ip then UpOnce(ip, n) else []
  {
    if n > 0 {
      OfUpOnce(ip, n - 1, other);
      OfAppendOne(UpOnce(ip, n - 1), CheckAt(ip, false, n), other);
    }
  }

  /** An IP that succeeded once and has one check more than pruning keeps. */
  function BeforePrune(ip: string): Db {
    var n := CHECK_HISTORY_RETENTION;
    Db(UpOnce(ip, n), map[ip := PoolRow(IsIPv6(ip), "sni", 0, 0, 0, 1, n, false, 1, n + 1, None)], map[], 1, 0)
  }

  lemma BeforePruneAgrees(ip: string)
    ensures AgreesAll(BeforePrune(ip))
  {
    var rows, n := UpOnce(ip, CHECK_HISTORY_RETENTION), CHECK_HISTORY_RETENTION;
    UpOnceMeans(ip, n);
    NewestOfSorted(rows);
    forall other ensures AgreesAt(BeforePrune(ip), other) {
      OfUpOnce(ip, n, other);
    }
  }

  /** The first half of its prune deletes the only success, so that the second half will evict it. */
  lemma HalfPruned(ip: string)
    ensures var db := PruneDelete(BeforePrune(ip), {ip});
            ip in DeadIPs(db, {ip}) && db.resetVersion <= db.version
  {
    var rows, n := UpOnce(ip, CHECK_HISTORY_RETENTION), CHECK_HISTORY_RETENTION;
    UpOnceMeans(ip, n);
    OfUpOnce(ip, n, ip);
    BeforePruneAgrees(ip);
    PruneDeleteAt(BeforePrune(ip), {ip}, ip);
  }

  /** One such run, from a pool that agrees with the view. */
  lemma LateDeltaRun(e: PTREntry)
    ensures AgreesAll(BeforePrune(e.ip))
    ensures
      var db := PruneDelete(BeforePrune(e.ip), {e.ip});
      var w := Browser.Live(Browser.Begin(db), LateDelta.Events(db, e));
      !Browser.CopyIsPool(w.server.history, w.cache)
  {
    BeforePruneAgrees(e.ip);
    HalfPruned(e.ip);
    LateDelta.LateDeltaRevives(PruneDelete(BeforePrune(e.ip), {e.ip}), e);
  }
}
