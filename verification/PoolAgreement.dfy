/** When a maintained ip_pool row agrees with the view, and which single steps keep it so. */
module PoolAgreement {
  import opened Prelude
  import opened CheckRows
  import opened Store
  import opened PoolView

  /**
   * The columns of the pool row of ip against its ip_checks rows. first_seen and times_seen may only drift one way:
   * never later, never smaller than the view's. A row without a surviving success is one that a crash
   * inside pruning left behind, and its full history marks it for eviction.
   */
  ghost predicate Matches(ip: string, rows: seq<StoredCheck>, p: Option<PoolRow>) {
    && (HasOk(rows) ==> p.Some?)
    && (p.Some? ==>
          && rows != []
          && p.value.isIPv6 == IsIPv6(ip)
          && p.value.lastCheckedAt == Newest(rows).row.checkedAt
          && p.value.lastCheckOk == Newest(rows).row.ok
          && p.value.historyCount == |rows|
          && p.value.firstSeen <= p.value.lastCheckedAt
          && (HasOk(rows) || |rows| >= CHECK_HISTORY_RETENTION))
    && (p.Some? && HasOk(rows) ==>
          && OkRows(rows) != []
          && p.value.lastSeen == Newest(OkRows(rows)).row.checkedAt
          && p.value.lastRttMs == Newest(OkRows(rows)).row.rttMs.GetOr(0)
          && p.value.firstSeen <= Oldest(OkRows(rows)).row.checkedAt
          && p.value.timesSeen >= |OkRows(rows)|)
  }

  /** The same for rows that arrived in order. */
  ghost predicate Agrees(ip: string, rows: seq<StoredCheck>, p: Option<PoolRow>) {
    Sorted(rows) && Matches(ip, rows, p)
  }

  /** No drift at all. */
  ghost predicate Exact(rows: seq<StoredCheck>, p: Option<PoolRow>) {
    HasOk(rows) ==>
      && p.Some?
      && OkRows(rows) != []
      && p.value.firstSeen == Oldest(OkRows(rows)).row.checkedAt
      && p.value.timesSeen == |OkRows(rows)|
  }

  /** The pool row read as a row of the view. */
  function AsViewRow(p: PoolRow): ViewRow {
    ViewRow(p.isIPv6, p.firstSeen, p.lastSeen, p.lastRttMs, p.timesSeen, p.lastCheckedAt, p.lastCheckOk)
  }

  /** For an IP with a surviving success, agreement without drift is equality with the view's row. */
  lemma ExactAgreementIsEquality(ip: string, rows: seq<StoredCheck>, p: Option<PoolRow>)
    requires Agrees(ip, rows, p) && HasOk(rows)
    ensures p.Some? && ViewOf(ip, rows).Some?
    ensures Exact(rows, p) <==> ViewOf(ip, rows) == Some(AsViewRow(p.value))
  {
    OkRowsNonempty(rows);
  }

  function RowsIn(cs: seq<StoredCheck>): seq<CheckRow> {
    seq(|cs|, i requires 0 <= i < |cs| => cs[i].row)
  }

  /** The ok rows after one success was appended among `added`. */
  ghost predicate OneSuccess(rows: seq<StoredCheck>, added: seq<StoredCheck>, x: StoredCheck) {
    x.row.ok && OkRows(rows + added) == OkRows(rows) + [x]
  }

  lemma SuccessColumns(rows: seq<StoredCheck>, added: seq<StoredCheck>, x: StoredCheck)
    requires Sorted(rows + added) && OneSuccess(rows, added, x)
    ensures HasOk(rows + added)
    ensures Newest(OkRows(rows + added)) == x
    ensures OkRows(rows) != [] ==> Oldest(OkRows(rows + added)) == Oldest(OkRows(rows))
    ensures OkRows(rows) == [] ==> Oldest(OkRows(rows + added)) == x
  {
    OkRowsNonempty(rows + added);
    OkRowsSorted(rows + added);
    NewestOfSorted(OkRows(rows + added));
    if OkRows(rows) != [] {
      SortedPrefix(rows, added);
      OkRowsSorted(rows);
      NewestOfSorted(OkRows(rows));
    }
  }

  lemma SortedPrefix(rows: seq<StoredCheck>, added: seq<StoredCheck>)
    requires Sorted(rows + added)
    ensures Sorted(rows)
  {
    forall i, j | 0 <= i < j < |rows|
      ensures rows[i].row.checkedAt < rows[j].row.checkedAt && rows[i].id < rows[j].id
    {
      assert (rows + added)[i] == rows[i] && (rows + added)[j] == rows[j];
    }
  }

  lemma SortedParts(rows: seq<StoredCheck>, added: seq<StoredCheck>)
    requires Sorted(rows + added)
    ensures forall c <- rows, d <- added :: c.row.checkedAt < d.row.checkedAt
  {
    forall i, j | 0 <= i < |rows| && 0 <= j < |added| ensures rows[i].row.checkedAt < added[j].row.checkedAt {
      assert (rows + added)[i] == rows[i] && (rows + added)[|rows| + j] == added[j];
    }
  }

  lemma NewestBounds(rows: seq<StoredCheck>)
    requires Sorted(rows) && rows != []
    ensures Newest(rows) in rows && forall c <- rows :: c.row.checkedAt <= Newest(rows).row.checkedAt
  {
    NewestOfSorted(rows);
  }

  /** The incremental history count is exact when the new rows are newer than the row's last check. */
  lemma HistoryCountExact(ip: string, rows: seq<StoredCheck>, added: seq<StoredCheck>, p: PoolRow)
    requires Sorted(rows + added) && Agrees(ip, rows, Some(p))
    ensures p.historyCount + CountAfter(rows + added, p.lastCheckedAt) == |rows + added|
  {
    SortedParts(rows, added);
    NewestBounds(rows);
    CountAfterAppend(rows, added, p.lastCheckedAt);
  }

  /** What the recorded rows of one entry look like behind the earlier rows. */
  lemma EntryAppended(rows: seq<StoredCheck>, added: seq<StoredCheck>, e: Entry)
    requires ValidEntry(e.latest.ip, e) && RowsIn(added) == EmitEntry(e)
    ensures added != [] && added[|added| - 1].row == e.latest
    ensures e.latestSuccess.Some? ==> added[0].row == e.latestSuccess.value && OneSuccess(rows, added, added[0])
    ensures e.latestSuccess.None? ==> OkRows(rows + added) == OkRows(rows)
  {
    assert |added| == |RowsIn(added)|;
    assert forall i :: 0 <= i < |added| ==> RowsIn(added)[i] == added[i].row;
    OkRowsAppendOne(rows, added[0]);
    if |added| == 2 {
      OkRowsAppendOne(rows + [added[0]], added[1]);
      assert rows + added == rows + [added[0]] + [added[1]];
    } else {
      assert added == [added[0]];
    }
  }

  /** An ingest that records a success of ip. */
  lemma TouchSuccess(ip: string, rows: seq<StoredCheck>, added: seq<StoredCheck>, p: Option<PoolRow>, e: Entry, version: nat, cutoff: int)
    requires Agrees(ip, rows, p) && Sorted(rows + added)
    requires ValidEntry(ip, e) && e.latestSuccess.Some? && RowsIn(added) == EmitEntry(e)
    ensures Agrees(ip, rows + added, TouchRow(p, e, rows + added, version, cutoff))
    ensures Exact(rows, p) ==> p.None? || HasOk(rows) ==> Exact(rows + added, TouchRow(p, e, rows + added, version, cutoff))
  {
    var all := rows + added;
    EntryAppended(rows, added, e);
    SuccessColumns(rows, added, added[0]);
    NewestOfSorted(all);
    OkRowsNonempty(rows);
    if p.Some? {
      HistoryCountExact(ip, rows, added, p.value);
    }
    assert added[0] == all[|rows|];
    if rows != [] {
      NewestBounds(rows);
      SortedParts(rows, added);
    }
  }

  /** An ingest that records only a failure of ip, or gates it out: insert and update use one gate. */
  lemma TouchFailure(ip: string, rows: seq<StoredCheck>, added: seq<StoredCheck>, p: Option<PoolRow>, e: Entry, version: nat, cutoff: int)
    requires Agrees(ip, rows, p) && Sorted(rows + added)
    requires ValidEntry(ip, e) && e.latestSuccess.None?
    requires var gate := p.Some? && (p.value.lastCheckOk || p.value.lastCheckedAt < cutoff);
             RowsIn(added) == if gate then EmitEntry(e) else []
    ensures Agrees(ip, rows + added, TouchRow(p, e, rows + added, version, cutoff))
    ensures Exact(rows, p) ==> Exact(rows + added, TouchRow(p, e, rows + added, version, cutoff))
  {
    var all := rows + added;
    if p.Some? && (p.value.lastCheckOk || p.value.lastCheckedAt < cutoff) {
      EntryAppended(rows, added, e);
      NewestOfSorted(all);
      OkRowsNonempty(rows);
      OkRowsNonempty(all);
      HistoryCountExact(ip, rows, added, p.value);
    } else {
      assert |added| == |RowsIn(added)| == 0;
      assert all == rows;
    }
  }

  lemma ProbeKnownOk(ip: string, rows: seq<StoredCheck>, x: StoredCheck, p: PoolRow, probe: Probe, version: nat)
    requires Agrees(ip, rows, Some(p)) && Sorted(rows + [x])
    requires probe.ip == ip && x.row == ProbeRow(probe) && probe.ok
    ensures Agrees(ip, rows + [x], Some(ProbeUpdateRow(p, probe, rows + [x], version)))
    ensures Exact(rows, Some(p)) && HasOk(rows) ==> Exact(rows + [x], Some(ProbeUpdateRow(p, probe, rows + [x], version)))
  {
    OkRowsAppendOne(rows, x);
    SuccessColumns(rows, [x], x);
    NewestOfSorted(rows + [x]);
    OkRowsNonempty(rows);
    HistoryCountExact(ip, rows, [x], p);
    NewestBounds(rows);
    SortedParts(rows, [x]);
  }

  lemma ProbeKnownFail(ip: string, rows: seq<StoredCheck>, x: StoredCheck, p: PoolRow, probe: Probe, version: nat)
    requires Agrees(ip, rows, Some(p)) && Sorted(rows + [x])
    requires probe.ip == ip && x.row == ProbeRow(probe) && !probe.ok
    ensures Agrees(ip, rows + [x], Some(ProbeUpdateRow(p, probe, rows + [x], version)))
    ensures Exact(rows, Some(p)) ==> Exact(rows + [x], Some(ProbeUpdateRow(p, probe, rows + [x], version)))
  {
    OkRowsAppendOne(rows, x);
    assert OkRows(rows + [x]) == OkRows(rows);
    NewestOfSorted(rows + [x]);
    OkRowsNonempty(rows);
    OkRowsNonempty(rows + [x]);
    HistoryCountExact(ip, rows, [x], p);
    NewestBounds(rows);
    SortedParts(rows, [x]);
  }

  /** A successful probe of an IP outside the pool. */
  lemma ProbeNew(ip: string, rows: seq<StoredCheck>, x: StoredCheck, probe: Probe, version: nat)
    requires Agrees(ip, rows, None) && Sorted(rows + [x])
    requires probe.ip == ip && probe.ok && x.row == ProbeRow(probe)
    ensures
      var p := Some(ProbeInsertRow(None, probe, rows + [x], version));
      Agrees(ip, rows + [x], p) && Exact(rows + [x], p)
  {
    OkRowsAppendOne(rows, x);
    OkRowsNonempty(rows);
    NewestOfSorted(rows + [x]);
    SuccessColumns(rows, [x], x);
  }

  lemma {:induction false} OkRowsConcat(a: seq<StoredCheck>, b: seq<StoredCheck>)
    ensures OkRows(a + b) == OkRows(a) + OkRows(b)
  {
    if b == [] {
      assert a + b == a;
    } else {
      assert (a + b)[..|a + b| - 1] == a + b[..|b| - 1];
      OkRowsConcat(a, b[..|b| - 1]);
    }
  }

  /** The newest rows that pruning keeps. */
  function Kept(rows: seq<StoredCheck>): seq<StoredCheck> {
    if |rows| > CHECK_HISTORY_RETENTION then rows[|rows| - CHECK_HISTORY_RETENTION..] else rows
  }

  lemma KeptSorted(rows: seq<StoredCheck>)
    requires Sorted(rows)
    ensures Sorted(Kept(rows)) && (rows != [] ==> Kept(rows) != [] && Newest(Kept(rows)) == Newest(rows))
  {
    var d, kept := |rows| - |Kept(rows)|, Kept(rows);
    forall i, j | 0 <= i < j < |kept| ensures kept[i].row.checkedAt < kept[j].row.checkedAt && kept[i].id < kept[j].id {
      assert kept[i] == rows[d + i] && kept[j] == rows[d + j];
    }
    if rows != [] {
      NewestOfSorted(rows);
      NewestOfSorted(kept);
    }
  }

  lemma SuffixEnds(a: seq<StoredCheck>, b: seq<StoredCheck>)
    requires Sorted(a + b) && Sorted(b) && b != []
    ensures Newest(a + b) == Newest(b) && Oldest(a + b).row.checkedAt <= Oldest(b).row.checkedAt
  {
    NewestOfSorted(a + b);
    NewestOfSorted(b);
    assert (a + b)[|a|] == b[0];
  }

  lemma KeptOkRows(rows: seq<StoredCheck>)
    requires Sorted(rows) && HasOk(Kept(rows))
    ensures HasOk(rows) && OkRows(Kept(rows)) != [] && OkRows(rows) != []
    ensures Newest(OkRows(Kept(rows))) == Newest(OkRows(rows))
    ensures Oldest(OkRows(rows)).row.checkedAt <= Oldest(OkRows(Kept(rows))).row.checkedAt
    ensures |OkRows(Kept(rows))| <= |OkRows(rows)|
  {
    var dropped, kept := rows[..|rows| - |Kept(rows)|], Kept(rows);
    assert rows == dropped + kept;
    OkRowsConcat(dropped, kept);
    OkRowsNonempty(kept);
    OkRowsNonempty(rows);
    assert Sorted(OkRows(rows)) && Sorted(OkRows(kept)) by {
      KeptSorted(rows);
      OkRowsSorted(rows);
      OkRowsSorted(kept);
    }
    SuffixEnds(OkRows(dropped), OkRows(kept));
  }

  /** Deleting old rows and recounting. */
  lemma DeleteOldRows(ip: string, rows: seq<StoredCheck>, p: PoolRow)
    requires Agrees(ip, rows, Some(p))
    ensures Agrees(ip, Kept(rows), Some(p.(historyCount := |Kept(rows)|)))
  {
    KeptSorted(rows);
    if HasOk(Kept(rows)) {
      KeptOkRows(rows);
    } else {
      assert |rows| <= CHECK_HISTORY_RETENTION ==> Kept(rows) == rows;
    }
  }

  /** Retained in one partition, with the row numbers of the whole partition. */
  function RetainedRows(rows: seq<StoredCheck>, all: seq<StoredCheck>): seq<StoredCheck> {
    if rows == [] then []
    else
      var c := rows[|rows| - 1];
      RetainedRows(rows[..|rows| - 1], all) + if RowNumber(all, c) > CHECK_HISTORY_RETENTION then [] else [c]
  }

  lemma RetainedRowsNext(rows: seq<StoredCheck>, c: StoredCheck, all: seq<StoredCheck>)
    ensures RetainedRows(rows + [c], all) == RetainedRows(rows, all) + if RowNumber(all, c) > CHECK_HISTORY_RETENTION then [] else [c]
  {
    assert (rows + [c])[..|rows|] == rows;
  }

  lemma {:induction false} OfRetained(checks: seq<StoredCheck>, all: seq<StoredCheck>, ips: set<string>, ip: string)
    ensures Of(Retained(checks, all, ips), ip) == if ip in ips then RetainedRows(Of(checks, ip), Of(all, ip)) else Of(checks, ip)
  {
    if checks != [] {
      var before, c := checks[..|checks| - 1], checks[|checks| - 1];
      OfRetained(before, all, ips, ip);
      OfAppendOne(Retained(before, all, ips), c, ip);
      RetainedRowsNext(Of(before, ip), c, Of(all, ip));
      assert Retained(before, all, ips) + [] == Retained(before, all, ips);
    }
  }

  /** What is retained of the first k rows, when the rows from start on are. */
  function From(all: seq<StoredCheck>, start: nat, k: nat): seq<StoredCheck>
    requires k <= |all|
  {
    if start < k then all[start..k] else []
  }

  lemma FromNext(all: seq<StoredCheck>, start: nat, k: nat)
    requires 0 < k <= |all|
    ensures From(all, start, k) == From(all, start, k - 1) + if k - 1 < start then [] else [all[k - 1]]
  {
  }

  lemma RowNumberFromEnd(all: seq<StoredCheck>, i: nat)
    requires Sorted(all) && i < |all|
    ensures RowNumber(all, all[i]) == |all| - i
  {
    RowNumberOfSorted(all, |all|, i);
    assert all[..|all|] == all;
  }

  lemma {:induction false} RetainedOfSorted(all: seq<StoredCheck>, k: nat)
    requires Sorted(all) && k <= |all|
    ensures RetainedRows(all[..k], all) == From(all, Max(0, |all| - CHECK_HISTORY_RETENTION), k)
  {
    if k > 0 {
      RetainedOfSorted(all, k - 1);
      RowNumberFromEnd(all, k - 1);
      assert all[..k][..k - 1] == all[..k - 1] && all[..k][k - 1] == all[k - 1];
      FromNext(all, Max(0, |all| - CHECK_HISTORY_RETENTION), k);
    }
  }

  /** The DELETE keeps exactly the newest min(n, 300) rows of a pruned IP and touches no other IP. */
  lemma DeleteKeepsNewest(checks: seq<StoredCheck>, ips: set<string>, ip: string)
    requires Sorted(Of(checks, ip))
    ensures Of(Retained(checks, checks, ips), ip) == if ip in ips then Kept(Of(checks, ip)) else Of(checks, ip)
  {
    OfRetained(checks, checks, ips, ip);
    var all := Of(checks, ip);
    RetainedOfSorted(all, |all|);
    assert all[..|all|] == all;
  }
}
