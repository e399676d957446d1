/**
 * functions/ingest.ts and functions/check.ts as sequences of requests: over every in-order run the maintained
 * ip_pool agrees with the view recomputed from ip_checks.
 */
module PoolRuns {
  import opened Prelude
  import opened CheckRows
  import opened Store
  import opened PoolView
  import opened PoolAgreement

  // ---------- Inserting the rows of one ingest ----------

  /** New rows of one IP that are newer than everything stored for it, in strictly increasing time. */
  ghost predicate InOrderRows(stored: seq<StoredCheck>, rows: seq<CheckRow>) {
    && (forall c <- stored, r <- rows :: c.row.checkedAt < r.checkedAt)
    && (forall i, j :: 0 <= i < j < |rows| ==> rows[i].checkedAt < rows[j].checkedAt)
  }

  lemma AppendOther(checks: seq<StoredCheck>, row: CheckRow, ip: string)
    requires row.ip != ip
    ensures Of(Append(checks, row), ip) == Of(checks, ip)
  {
    OfAppendOne(checks, StoredCheck(MaxId(checks) + 1, row), ip);
  }

  lemma AppendNewest(checks: seq<StoredCheck>, row: CheckRow)
    requires Sorted(Of(checks, row.ip))
    requires forall c <- Of(checks, row.ip) :: c.row.checkedAt < row.checkedAt
    ensures Of(Append(checks, row), row.ip) == Of(checks, row.ip) + [StoredCheck(MaxId(checks) + 1, row)]
    ensures Sorted(Of(Append(checks, row), row.ip))
  {
    OfAppendOne(checks, StoredCheck(MaxId(checks) + 1, row), row.ip);
    MaxIdBounds(checks);
    OfMembers(checks, row.ip);
    var rows := Of(checks, row.ip);
    forall i | 0 <= i < |rows| ensures rows[i].row.checkedAt < row.checkedAt && rows[i].id <= MaxId(checks) {
      assert rows[i] in rows;
    }
  }

  lemma RowsInAppend(cs: seq<StoredCheck>, c: StoredCheck)
    ensures RowsIn(cs + [c]) == RowsIn(cs) + [c.row]
  {
  }

  /** Whether the rows of ip pass insertCheckSQL: a success in the batch, or the failure gate. */
  predicate Recorded(db: Db, successful: set<string>, ip: string, cutoff: int) {
    ip in successful || FailureGate(db.pool, ip, cutoff)
  }

  /** d is db after recording these rows of ip, and possibly rows of other IPs. */
  ghost predicate Inserted(db: Db, d: Db, ip: string, added: seq<StoredCheck>, rows: seq<CheckRow>) {
    && d == db.(checks := d.checks)
    && Of(d.checks, ip) == Of(db.checks, ip) + added
    && Sorted(Of(d.checks, ip))
    && RowsIn(added) == rows
  }

  /** stored and the first n of the new rows of ip. */
  ghost predicate PartStored(rows: seq<StoredCheck>, stored: seq<StoredCheck>, news: seq<CheckRow>, n: nat) {
    && |rows| == |stored| + n && stored <= rows && Sorted(rows)
    && n <= |news| && RowsIn(rows[|stored|..]) == news[..n]
  }

  lemma PartLater(rows: seq<StoredCheck>, stored: seq<StoredCheck>, news: seq<CheckRow>, n: nat)
    requires n < |news| && InOrderRows(stored, news) && PartStored(rows, stored, news, n)
    ensures forall c <- rows :: c.row.checkedAt < news[n].checkedAt
  {
    var added := rows[|stored|..];
    forall i | 0 <= i < |rows| ensures rows[i].row.checkedAt < news[n].checkedAt {
      if i < |stored| {
        assert rows[i] in stored && news[n] in news;
      } else {
        assert RowsIn(added)[i - |stored|] == rows[i].row;
      }
    }
  }

  lemma PartPlus(rows: seq<StoredCheck>, stored: seq<StoredCheck>, news: seq<CheckRow>, n: nat, c: StoredCheck)
    requires n < |news| && PartStored(rows, stored, news, n) && Sorted(rows + [c]) && c.row == news[n]
    ensures PartStored(rows + [c], stored, news, n + 1)
  {
    var added := rows[|stored|..];
    assert (rows + [c])[|stored|..] == added + [c];
    RowsInAppend(added, c);
    assert news[..n + 1] == news[..n] + [news[n]];
  }

  /** The insert of the k-th new row, if n are stored. */
  lemma PartNext(checks: seq<StoredCheck>, stored: seq<StoredCheck>, news: seq<CheckRow>, n: nat, k: nat)
    requires k < |news| && k <= n && InOrderRows(stored, news)
    requires PartStored(Of(checks, news[k].ip), stored, news, n)
    ensures PartStored(Of(Append(checks, news[k]), news[k].ip), stored, news, if k < n then n else n + 1)
  {
    var rows := Of(checks, news[k].ip);
    if k < n {
      assert RowsIn(rows[|stored|..])[k] == rows[|stored| + k].row;
      assert rows[|stored| + k] in rows && rows[|stored| + k].row == news[k];
    } else {
      PartLater(rows, stored, news, n);
      AppendNewest(checks, news[k]);
      PartPlus(rows, stored, news, n, StoredCheck(MaxId(checks) + 1, news[k]));
    }
  }

  /** Inserting the first k new rows of ip, some of which may be stored already: more are stored afterwards, or none is new. */
  lemma {:induction false} InsertedAgain(db: Db, rows: seq<CheckRow>, successful: set<string>, cutoff: int, ip: string,
                                         stored: seq<StoredCheck>, news: seq<CheckRow>, n: nat)
    requires Recorded(db, successful, ip, cutoff) && (forall r <- rows :: r.ok ==> r.ip in successful)
    requires InOrderRows(stored, news) && RowsOf(rows, ip) <= news && PartStored(Of(db.checks, ip), stored, news, n)
    ensures PartStored(Of(InsertRows(db, rows, successful, cutoff).checks, ip), stored, news, Max(n, |RowsOf(rows, ip)|))
    ensures Of(db.checks, ip) <= Of(InsertRows(db, rows, successful, cutoff).checks, ip)
  {
    if rows != [] {
      var before, row := rows[..|rows| - 1], rows[|rows| - 1];
      assert row in rows && forall r <- before :: r in rows;
      RowsOfPrefix(rows, ip);
      InsertKeepsPool(db, before, successful, cutoff);
      InsertedAgain(db, before, successful, cutoff, ip, stored, news, n);
      var d, k := InsertRows(db, before, successful, cutoff), |RowsOf(before, ip)|;
      if row.ip != ip {
        AppendOther(d.checks, row, ip);
      } else {
        assert RowsOf(rows, ip)[k] == row && row == news[k];
        PartNext(d.checks, stored, news, Max(n, k), k);
        OfAppendOne(d.checks, StoredCheck(MaxId(d.checks) + 1, row), ip);
      }
    }
  }

  lemma {:induction false} NotInserted(db: Db, rows: seq<CheckRow>, successful: set<string>, cutoff: int, ip: string)
    requires !Recorded(db, successful, ip, cutoff) && forall r <- rows :: r.ok ==> r.ip in successful
    ensures Of(InsertRows(db, rows, successful, cutoff).checks, ip) == Of(db.checks, ip)
  {
    if rows != [] {
      var before, row := rows[..|rows| - 1], rows[|rows| - 1];
      assert row in rows && forall r <- before :: r in rows;
      InsertKeepsPool(db, before, successful, cutoff);
      NotInserted(db, before, successful, cutoff, ip);
      if row.ip != ip {
        AppendOther(InsertRows(db, before, successful, cutoff).checks, row, ip);
      }
    }
  }

  /** In-order rows of ip end up behind its stored rows, all of them or, if gated out, none. */
  lemma InsertedRows(db: Db, rows: seq<CheckRow>, successful: set<string>, cutoff: int, ip: string) returns (added: seq<StoredCheck>)
    requires Sorted(Of(db.checks, ip)) && (Recorded(db, successful, ip, cutoff) ==> InOrderRows(Of(db.checks, ip), RowsOf(rows, ip)))
    requires forall r <- rows :: r.ok ==> r.ip in successful
    ensures Inserted(db, InsertRows(db, rows, successful, cutoff), ip, added,
                     if Recorded(db, successful, ip, cutoff) then RowsOf(rows, ip) else [])
  {
    var stored, d := Of(db.checks, ip), InsertRows(db, rows, successful, cutoff);
    InsertKeepsPool(db, rows, successful, cutoff);
    if Recorded(db, successful, ip, cutoff) {
      InsertedAgain(db, rows, successful, cutoff, ip, stored, RowsOf(rows, ip), 0);
      added := Of(d.checks, ip)[|stored|..];
    } else {
      NotInserted(db, rows, successful, cutoff, ip);
      added := [];
    }
  }

  lemma RowsOfPrefix(rows: seq<CheckRow>, ip: string)
    requires rows != []
    ensures RowsOf(rows[..|rows| - 1], ip) <= RowsOf(rows, ip)
  {
  }

  // ---------- Updating the pool ----------

  function Find(es: seq<Entry>, ip: string): Option<Entry> {
    if es == [] then None
    else if es[|es| - 1].latest.ip == ip then Some(es[|es| - 1])
    else Find(es[..|es| - 1], ip)
  }

  ghost predicate DistinctEntries(es: seq<Entry>) {
    forall i, j :: 0 <= i < j < |es| ==> es[i].latest.ip != es[j].latest.ip
  }

  lemma {:induction false} FindNone(es: seq<Entry>, ip: string)
    requires forall i :: 0 <= i < |es| ==> es[i].latest.ip != ip
    ensures Find(es, ip) == None
  {
    if es != [] {
      FindNone(es[..|es| - 1], ip);
    }
  }

  lemma {:induction false} FindSome(es: seq<Entry>, k: nat, ip: string)
    requires DistinctEntries(es) && k < |es| && es[k].latest.ip == ip
    ensures Find(es, ip) == Some(es[k])
  {
    if k < |es| - 1 {
      FindSome(es[..|es| - 1], k, ip);
    }
  }

  lemma {:induction false} TouchAllRow(db: Db, es: seq<Entry>, cutoff: int, ip: string)
    requires DistinctEntries(es)
    ensures
      var d := TouchAll(db, es, cutoff);
      && d == db.(pool := d.pool)
      && RowIn(d.pool, ip) ==
           match Find(es, ip)
           case Some(e) => TouchRow(RowIn(db.pool, ip), e, Of(db.checks, ip), db.version, cutoff)
           case None => RowIn(db.pool, ip)
  {
    if es != [] {
      var n := |es| - 1;
      TouchAllRow(db, es[..n], cutoff, ip);
      if es[n].latest.ip == ip {
        FindNone(es[..n], ip);
      }
    }
  }

  lemma {:induction false} FindAppend(a: seq<Entry>, b: seq<Entry>, ip: string)
    ensures Find(a + b, ip) == if Find(b, ip).Some? then Find(b, ip) else Find(a, ip)
  {
    if b == [] {
      assert a + b == a;
    } else {
      assert (a + b)[..|a + b| - 1] == a + b[..|b| - 1];
      FindAppend(a, b[..|b| - 1], ip);
    }
  }

  lemma {:induction false} FindMember(es: seq<Entry>, ip: string)
    requires Find(es, ip).Some?
    ensures exists i :: 0 <= i < |es| && es[i] == Find(es, ip).value && es[i].latest.ip == ip
  {
    if es[|es| - 1].latest.ip != ip {
      FindMember(es[..|es| - 1], ip);
    }
  }

  lemma PrefixFind(es: seq<Entry>, j: nat, ip: string)
    requires DistinctEntries(es) && j <= |es|
    ensures DistinctEntries(es[..j])
    ensures Find(es[..j], ip).Some? ==> Find(es[..j], ip) == Find(es, ip)
  {
    if Find(es[..j], ip).Some? {
      FindMember(es[..j], ip);
      var i :| 0 <= i < j && es[i] == Find(es[..j], ip).value && es[i].latest.ip == ip;
      FindSome(es, i, ip);
    }
  }

  /** Each IP's pool row is touched at most once, at some version, whatever the batching. */
  lemma {:induction false} PoolBatchesRow(db: Db, es: seq<Entry>, cutoff: int, ip: string) returns (version: nat)
    requires DistinctEntries(es)
    ensures
      var d := PoolBatches(db, es, cutoff);
      && d.checks == db.checks
      && RowIn(d.pool, ip) ==
           match Find(es, ip)
           case Some(e) => TouchRow(RowIn(db.pool, ip), e, Of(db.checks, ip), version, cutoff)
           case None => RowIn(db.pool, ip)
    decreases |es|
  {
    version := 0;
    if es != [] {
      var k := Min(POOL_UPSERT_CHUNK, |es|);
      var a, b := es[..k], es[k..];
      assert es == a + b;
      TouchAllRow(db.(version := db.version + 1), a, cutoff, ip);
      FindAppend(a, b, ip);
      version := PoolBatchesRow(PoolBatch(db, a, cutoff), b, cutoff, ip);
      if Find(b, ip).Some? {
        FindMember(b, ip);
        FindNone(a, ip);
      } else {
        version := db.version + 1;
      }
    }
  }

  lemma TouchesFind(rows: seq<CheckRow>, ip: string)
    ensures DistinctEntries(Touches(rows))
    ensures Find(Touches(rows), ip) == if ip in Scan(rows).entries then Some(Scan(rows).entries[ip]) else None
  {
    ScanValid(rows);
    var t := Scan(rows);
    if ip in t.entries {
      var k :| 0 <= k < |t.order| && t.order[k] == ip;
      FindSome(Touches(rows), k, ip);
    } else {
      FindNone(Touches(rows), ip);
    }
  }
}
