/**
 * migrations/0001_init.sql:124-158: the ip_pool view that the maintained table replaced.
 * Facts about one IP's rows, in the order of the window functions.
 */
module PoolView {
  import opened Prelude
  import opened CheckRows
  import opened Store

  // ---------- The view ----------

  /** The row with ROW_NUMBER() 1 by (checked_at DESC, id DESC). */
  function Newest(rows: seq<StoredCheck>): StoredCheck
    requires rows != []
  {
    var c := rows[|rows| - 1];
    if |rows| == 1 then c
    else
      var m := Newest(rows[..|rows| - 1]);
      if Newer(c, m) then c else m
  }

  /** The row with ROW_NUMBER() 1 by (checked_at ASC, id ASC). */
  function Oldest(rows: seq<StoredCheck>): StoredCheck
    requires rows != []
  {
    var c := rows[|rows| - 1];
    if |rows| == 1 then c
    else
      var m := Oldest(rows[..|rows| - 1]);
      if Newer(m, c) then c else m
  }

  function OkRows(rows: seq<StoredCheck>): seq<StoredCheck> {
    if rows == [] then []
    else OkRows(rows[..|rows| - 1]) + if rows[|rows| - 1].row.ok then [rows[|rows| - 1]] else []
  }

  datatype ViewRow = ViewRow(
    isIPv6: bool, firstSeen: int, lastSeen: int, lastRttMs: int, timesSeen: nat, lastCheckedAt: int, lastCheckOk: bool)

  /** The view's row for the IP whose ip_checks rows these are; NULL rtt reads as 0, as rowToIPStatus does. */
  function ViewOf(ip: string, rows: seq<StoredCheck>): Option<ViewRow> {
    var ok := OkRows(rows);
    if ok == [] then None
    else
      OkRowsNonempty(rows);
      Some(ViewRow(IsIPv6(ip), Oldest(ok).row.checkedAt, Newest(ok).row.checkedAt, Newest(ok).row.rttMs.GetOr(0), |ok|,
                   Newest(rows).row.checkedAt, Newest(rows).row.ok))
  }

  function View(checks: seq<StoredCheck>, ip: string): Option<ViewRow> {
    ViewOf(ip, Of(checks, ip))
  }

  lemma {:induction false} OkRowsMembers(rows: seq<StoredCheck>)
    ensures forall c :: c in OkRows(rows) <==> c in rows && c.row.ok
  {
    if rows != [] {
      OkRowsMembers(rows[..|rows| - 1]);
      assert rows == rows[..|rows| - 1] + [rows[|rows| - 1]];
    }
  }

  lemma OkRowsNonempty(rows: seq<StoredCheck>)
    ensures OkRows(rows) != [] <==> HasOk(rows)
    ensures OkRows(rows) != [] ==> rows != []
  {
    OkRowsMembers(rows);
    if OkRows(rows) != [] {
      assert OkRows(rows)[0] in OkRows(rows);
    }
  }

  ghost predicate DistinctIds(rows: seq<StoredCheck>) {
    forall i, j :: 0 <= i < j < |rows| ==> rows[i].id != rows[j].id
  }

  lemma {:induction false} NewestIsMaximal(rows: seq<StoredCheck>)
    requires rows != [] && DistinctIds(rows)
    ensures Newest(rows) in rows
    ensures forall c <- rows :: c == Newest(rows) || Newer(Newest(rows), c)
  {
    if |rows| > 1 {
      NewestIsMaximal(rows[..|rows| - 1]);
      assert rows == rows[..|rows| - 1] + [rows[|rows| - 1]];
      var m, c := Newest(rows[..|rows| - 1]), rows[|rows| - 1];
      var i :| 0 <= i < |rows| - 1 && rows[i] == m;
      assert m.id != c.id;
    }
  }

  lemma {:induction false} NoneNewerCountsZero(rows: seq<StoredCheck>, c: StoredCheck)
    requires forall d <- rows :: !Newer(d, c)
    ensures CountNewer(rows, c) == 0
  {
    if rows != [] {
      assert rows == rows[..|rows| - 1] + [rows[|rows| - 1]];
      NoneNewerCountsZero(rows[..|rows| - 1], c);
    }
  }

  /** Newest picks the row the view's window function numbers 1. */
  lemma NewestHasRowNumberOne(rows: seq<StoredCheck>)
    requires rows != [] && DistinctIds(rows)
    ensures Newest(rows) in rows && RowNumber(rows, Newest(rows)) == 1
  {
    NewestIsMaximal(rows);
    NoneNewerCountsZero(rows, Newest(rows));
  }

  function CountOlder(rows: seq<StoredCheck>, c: StoredCheck): nat {
    if rows == [] then 0
    else CountOlder(rows[..|rows| - 1], c) + if Newer(c, rows[|rows| - 1]) then 1 else 0
  }

  lemma {:induction false} OldestIsMinimal(rows: seq<StoredCheck>)
    requires rows != [] && DistinctIds(rows)
    ensures Oldest(rows) in rows
    ensures forall c <- rows :: c == Oldest(rows) || Newer(c, Oldest(rows))
  {
    if |rows| > 1 {
      OldestIsMinimal(rows[..|rows| - 1]);
      assert rows == rows[..|rows| - 1] + [rows[|rows| - 1]];
      var m, c := Oldest(rows[..|rows| - 1]), rows[|rows| - 1];
      var i :| 0 <= i < |rows| - 1 && rows[i] == m;
      assert m.id != c.id;
    }
  }

  lemma {:induction false} NoneOlderCountsZero(rows: seq<StoredCheck>, c: StoredCheck)
    requires forall d <- rows :: !Newer(c, d)
    ensures CountOlder(rows, c) == 0
  {
    if rows != [] {
      assert rows == rows[..|rows| - 1] + [rows[|rows| - 1]];
      NoneOlderCountsZero(rows[..|rows| - 1], c);
    }
  }

  /** Oldest picks the row numbered 1 in ascending order, which gives first_seen. */
  lemma OldestHasRowNumberOne(rows: seq<StoredCheck>)
    requires rows != [] && DistinctIds(rows)
    ensures Oldest(rows) in rows && 1 + CountOlder(rows, Oldest(rows)) == 1
  {
    OldestIsMinimal(rows);
    NoneOlderCountsZero(rows, Oldest(rows));
  }

  // ---------- Rows that arrived in order ----------

  ghost predicate Sorted(rows: seq<StoredCheck>) {
    forall i, j :: 0 <= i < j < |rows| ==> rows[i].row.checkedAt < rows[j].row.checkedAt && rows[i].id < rows[j].id
  }

  lemma {:induction false} NewestOfSorted(rows: seq<StoredCheck>)
    requires rows != [] && Sorted(rows)
    ensures Newest(rows) == rows[|rows| - 1] && Oldest(rows) == rows[0]
  {
    if |rows| > 1 {
      NewestOfSorted(rows[..|rows| - 1]);
    }
  }

  lemma OkRowsAppendOne(rows: seq<StoredCheck>, c: StoredCheck)
    ensures OkRows(rows + [c]) == OkRows(rows) + if c.row.ok then [c] else []
  {
    assert (rows + [c])[..|rows|] == rows;
  }

  lemma {:induction false} OkRowsSorted(rows: seq<StoredCheck>)
    requires Sorted(rows)
    ensures Sorted(OkRows(rows))
  {
    if rows != [] {
      OkRowsSorted(rows[..|rows| - 1]);
      OkRowsMembers(rows[..|rows| - 1]);
    }
  }

  lemma {:induction false} CountAfterNone(rows: seq<StoredCheck>, at: int)
    requires forall c <- rows :: c.row.checkedAt <= at
    ensures CountAfter(rows, at) == 0
  {
    if rows != [] {
      assert rows == rows[..|rows| - 1] + [rows[|rows| - 1]];
      CountAfterNone(rows[..|rows| - 1], at);
    }
  }

  lemma {:induction false} CountAfterAppend(rows: seq<StoredCheck>, added: seq<StoredCheck>, at: int)
    requires forall c <- rows :: c.row.checkedAt <= at
    requires forall c <- added :: c.row.checkedAt > at
    ensures CountAfter(rows + added, at) == |added|
  {
    if added == [] {
      assert rows + added == rows;
      CountAfterNone(rows, at);
    } else {
      assert (rows + added)[..|rows + added| - 1] == rows + added[..|added| - 1];
      CountAfterAppend(rows, added[..|added| - 1], at);
    }
  }

  /** In sorted rows the row number counts from the end. */
  lemma {:induction false} RowNumberOfSorted(rows: seq<StoredCheck>, k: nat, i: nat)
    requires Sorted(rows) && i < |rows| && k <= |rows|
    ensures CountNewer(rows[..k], rows[i]) == if k <= i then 0 else k - i - 1
  {
    if k > 0 {
      RowNumberOfSorted(rows, k - 1, i);
      assert rows[..k][..k - 1] == rows[..k - 1];
    }
  }
}
