/**
 * The newest 300 checks of one IP, ORDER BY checked_at DESC, id DESC LIMIT 300 (src/store.ts:799-818), for checks that
 * were stored in any order, and what the DELETE of pruneCheckHistory leaves of them.
 */
module Pages {
  import opened Prelude
  import opened Store
  import opened PoolView
  import opened PoolAgreement

  /** page is what the query returns for these rows. */
  ghost predicate IsPage(rows: seq<StoredCheck>, page: seq<StoredCheck>) {
    && |page| == Min(|rows|, CHECK_HISTORY_RETENTION)
    && forall i :: 0 <= i < |page| ==> page[i] in rows && RowNumber(rows, page[i]) == i + 1
  }

  /** c at its place among rows that are ordered, newest first. */
  function Placed(page: seq<StoredCheck>, c: StoredCheck): seq<StoredCheck> {
    if page == [] || Newer(page[|page| - 1], c) then page + [c]
    else Placed(page[..|page| - 1], c) + [page[|page| - 1]]
  }

  function Ranked(rows: seq<StoredCheck>): seq<StoredCheck> {
    if rows == [] then [] else Placed(Ranked(rows[..|rows| - 1]), rows[|rows| - 1])
  }

  function NewestFirst(rows: seq<StoredCheck>): seq<StoredCheck> {
    if |Ranked(rows)| <= CHECK_HISTORY_RETENTION then Ranked(rows) else Ranked(rows)[..CHECK_HISTORY_RETENTION]
  }

  // ---------- Row numbers ----------

  lemma {:induction false} CountNewerBelow(rows: seq<StoredCheck>, c: StoredCheck)
    ensures CountNewer(rows, c) <= |rows| && (c in rows ==> CountNewer(rows, c) < |rows|)
  {
    if rows != [] {
      assert rows == rows[..|rows| - 1] + [rows[|rows| - 1]];
      CountNewerBelow(rows[..|rows| - 1], c);
    }
  }

  /** A newer row has a smaller row number. */
  lemma {:induction false} NewerRanksBefore(rows: seq<StoredCheck>, d: StoredCheck, c: StoredCheck)
    requires Newer(d, c)
    ensures CountNewer(rows, d) <= CountNewer(rows, c) && (d in rows ==> CountNewer(rows, d) < CountNewer(rows, c))
  {
    if rows != [] {
      assert rows == rows[..|rows| - 1] + [rows[|rows| - 1]];
      NewerRanksBefore(rows[..|rows| - 1], d, c);
    }
  }

  lemma SameRankSameRow(rows: seq<StoredCheck>, c: StoredCheck, d: StoredCheck)
    requires DistinctIds(rows) && c in rows && d in rows && RowNumber(rows, c) == RowNumber(rows, d)
    ensures c == d
  {
    if c != d {
      var i :| 0 <= i < |rows| && rows[i] == c;
      var j :| 0 <= j < |rows| && rows[j] == d;
      assert c.id != d.id;
      if Newer(c, d) {
        NewerRanksBefore(rows, c, d);
      } else {
        NewerRanksBefore(rows, d, c);
      }
    }
  }

  /** A row with a new id and a new time is behind exactly the rows that are later. */
  lemma {:induction false} CountNewerIsAfter(rows: seq<StoredCheck>, x: StoredCheck)
    requires !HasTime(rows, x.row.checkedAt)
    ensures CountNewer(rows, x) == CountAfter(rows, x.row.checkedAt)
  {
    if rows != [] {
      assert rows == rows[..|rows| - 1] + [rows[|rows| - 1]];
      assert rows[|rows| - 1] in rows;
      CountNewerIsAfter(rows[..|rows| - 1], x);
    }
  }

  // ---------- The page exists, and there is only one ----------

  ghost predicate Descending(page: seq<StoredCheck>) {
    forall i, j :: 0 <= i < j < |page| ==> Newer(page[i], page[j])
  }

  lemma {:induction false} PlacedMembers(page: seq<StoredCheck>, c: StoredCheck)
    ensures |Placed(page, c)| == |page| + 1
    ensures forall d :: d in Placed(page, c) <==> d in page || d == c
  {
    if page != [] && !Newer(page[|page| - 1], c) {
      PlacedMembers(page[..|page| - 1], c);
      assert page == page[..|page| - 1] + [page[|page| - 1]];
    }
  }

  lemma {:induction false} PlacedDescending(page: seq<StoredCheck>, c: StoredCheck)
    requires Descending(page) && forall d <- page :: d.id != c.id
    ensures Descending(Placed(page, c))
  {
    if page != [] && !Newer(page[|page| - 1], c) {
      var front, last := page[..|page| - 1], page[|page| - 1];
      assert last in page;
      PlacedDescending(front, c);
      PlacedMembers(front, c);
      forall i | 0 <= i < |Placed(front, c)| ensures Newer(Placed(front, c)[i], last) {
        assert Placed(front, c)[i] in Placed(front, c);
      }
    }
  }

  lemma {:induction false} CountPlaced(page: seq<StoredCheck>, c: StoredCheck, d: StoredCheck)
    ensures CountNewer(Placed(page, c), d) == CountNewer(page, d) + if Newer(c, d) then 1 else 0
  {
    if page != [] && !Newer(page[|page| - 1], c) {
      CountPlaced(page[..|page| - 1], c, d);
      var p := Placed(page[..|page| - 1], c);
      assert (p + [page[|page| - 1]])[..|p|] == p;
    } else {
      assert (page + [c])[..|page|] == page;
    }
  }

  lemma {:induction false} RankedMembers(rows: seq<StoredCheck>)
    ensures |Ranked(rows)| == |rows| && forall d :: d in Ranked(rows) <==> d in rows
  {
    if rows != [] {
      var n := |rows| - 1;
      assert rows == rows[..n] + [rows[n]];
      RankedMembers(rows[..n]);
      PlacedMembers(Ranked(rows[..n]), rows[n]);
    }
  }

  lemma {:induction false} RankedDescending(rows: seq<StoredCheck>)
    requires DistinctIds(rows)
    ensures Descending(Ranked(rows))
  {
    if rows != [] {
      var n := |rows| - 1;
      RankedDescending(rows[..n]);
      RankedMembers(rows[..n]);
      forall d <- Ranked(rows[..n]) ensures d.id != rows[n].id {
        var i :| 0 <= i < n && rows[..n][i] == d;
      }
      PlacedDescending(Ranked(rows[..n]), rows[n]);
    }
  }

  lemma {:induction false} CountRanked(rows: seq<StoredCheck>, d: StoredCheck)
    ensures CountNewer(Ranked(rows), d) == CountNewer(rows, d)
  {
    if rows != [] {
      CountRanked(rows[..|rows| - 1], d);
      CountPlaced(Ranked(rows[..|rows| - 1]), rows[|rows| - 1], d);
    }
  }

  lemma {:induction false} CountInDescending(page: seq<StoredCheck>, k: nat, i: nat)
    requires Descending(page) && i < |page| && k <= |page|
    ensures CountNewer(page[..k], page[i]) == Min(k, i)
  {
    if k > 0 {
      CountInDescending(page, k - 1, i);
      assert page[..k][..k - 1] == page[..k - 1];
      assert k - 1 < i ==> Newer(page[k - 1], page[i]);
      assert k - 1 > i ==> Newer(page[i], page[k - 1]);
    }
  }

  lemma PageExists(rows: seq<StoredCheck>)
    requires DistinctIds(rows)
    ensures IsPage(rows, NewestFirst(rows))
  {
    var all, page := Ranked(rows), NewestFirst(rows);
    RankedMembers(rows);
    RankedDescending(rows);
    forall i | 0 <= i < |page| ensures page[i] in rows && RowNumber(rows, page[i]) == i + 1 {
      assert page[i] == all[i] && all[i] in all;
      CountRanked(rows, all[i]);
      CountInDescending(all, |all|, i);
      assert all[..|all|] == all;
    }
  }

  /** Later, or equally late with a larger id. */
  ghost predicate Before(d: StoredCheck, c: StoredCheck) {
    d.row.checkedAt > c.row.checkedAt || (d.row.checkedAt == c.row.checkedAt && d.id > c.id)
  }

  /** All rows, or 300 of them, in descending order, and every other row is behind them. */
  ghost predicate ShowsNewest(rows: seq<StoredCheck>, page: seq<StoredCheck>) {
    && |page| == (if |rows| <= 300 then |rows| else 300)
    && (forall d <- page :: d in rows)
    && (forall i, j :: 0 <= i < j < |page| ==> Before(page[i], page[j]))
    && (forall c, d :: c in rows && c !in page && d in page ==> Before(d, c))
  }

  lemma PageShowsNewest(rows: seq<StoredCheck>)
    requires DistinctIds(rows)
    ensures ShowsNewest(rows, NewestFirst(rows))
  {
    var all, page := Ranked(rows), NewestFirst(rows);
    RankedMembers(rows);
    RankedDescending(rows);
    var k := if |all| <= 300 then |all| else 300;
    assert page == all[..k];
    FrontMembers(all, k);
    forall c, d | c in rows && c !in page && d in page ensures Before(d, c) {
      FrontBefore(all, k, c, d);
    }
    forall i, j | 0 <= i < j < k ensures Before(page[i], page[j]) {
      assert Newer(all[i], all[j]);
    }
  }

  lemma FrontMembers(all: seq<StoredCheck>, k: nat)
    requires k <= |all|
    ensures forall d <- all[..k] :: d in all
  {
  }

  lemma FrontBefore(all: seq<StoredCheck>, k: nat, c: StoredCheck, d: StoredCheck)
    requires Descending(all) && k <= |all| && d in all[..k] && c in all && c !in all[..k]
    ensures Before(d, c)
  {
    var i :| 0 <= i < k && all[..k][i] == d;
    var j :| 0 <= j < |all| && all[j] == c;
    InFront(all, k, j);
    assert Newer(all[i], all[j]);
  }

  lemma InFront(all: seq<StoredCheck>, k: nat, j: nat)
    requires j < |all| && k <= |all|
    ensures j < k ==> all[j] in all[..k]
  {
    if j < k {
      assert all[..k][j] == all[j];
    }
  }

  /** Rows with distinct ids have exactly one page. */
  lemma PageIsNewestFirst(rows: seq<StoredCheck>, page: seq<StoredCheck>)
    requires DistinctIds(rows)
    ensures IsPage(rows, page) <==> page == NewestFirst(rows)
  {
    PageExists(rows);
    if IsPage(rows, page) {
      forall i | 0 <= i < |page| ensures page[i] == NewestFirst(rows)[i] {
        SameRankSameRow(rows, page[i], NewestFirst(rows)[i]);
      }
    }
  }

  // ---------- What the DELETE leaves ----------

  lemma {:induction false} RetainedRowsMembers(rows: seq<StoredCheck>, all: seq<StoredCheck>)
    ensures forall c :: c in RetainedRows(rows, all) <==> c in rows && RowNumber(all, c) <= CHECK_HISTORY_RETENTION
  {
    if rows != [] {
      RetainedRowsMembers(rows[..|rows| - 1], all);
      assert rows == rows[..|rows| - 1] + [rows[|rows| - 1]];
    }
  }

  /** Ids grow in the order of insertion. */
  ghost predicate Climbs(rows: seq<StoredCheck>) {
    forall i, j :: 0 <= i < j < |rows| ==> rows[i].id < rows[j].id
  }

  lemma {:induction false} RetainedRowsClimb(rows: seq<StoredCheck>, all: seq<StoredCheck>)
    requires Climbs(rows)
    ensures Climbs(RetainedRows(rows, all))
  {
    if rows != [] {
      var before, c := rows[..|rows| - 1], rows[|rows| - 1];
      RetainedRowsClimb(before, all);
      RetainedRowsMembers(before, all);
      forall i | 0 <= i < |RetainedRows(before, all)| ensures RetainedRows(before, all)[i].id < c.id {
        assert RetainedRows(before, all)[i] in RetainedRows(before, all);
        var j :| 0 <= j < |before| && before[j] == RetainedRows(before, all)[i];
      }
    }
  }

  /** A row that stays keeps its row number: every newer row stays too. */
  lemma {:induction false} StayingKeepsRank(rows: seq<StoredCheck>, all: seq<StoredCheck>, c: StoredCheck)
    requires RowNumber(all, c) <= CHECK_HISTORY_RETENTION
    ensures CountNewer(RetainedRows(rows, all), c) == CountNewer(rows, c)
  {
    if rows != [] {
      var before, d := rows[..|rows| - 1], rows[|rows| - 1];
      StayingKeepsRank(before, all, c);
      if Newer(d, c) {
        NewerRanksBefore(all, d, c);
      }
      assert (RetainedRows(before, all) + [d])[..|RetainedRows(before, all)|] == RetainedRows(before, all);
      assert RetainedRows(before, all) + [] == RetainedRows(before, all);
    }
  }

  lemma {:induction false} MaxIdOfClimbing(rows: seq<StoredCheck>)
    requires Climbs(rows) && rows != []
    ensures MaxId(rows) == rows[|rows| - 1].id
  {
    if |rows| > 1 {
      MaxIdOfClimbing(rows[..|rows| - 1]);
    }
  }

  /** The row that came last is one of the newest 300, so MAX(id) is the id of a row that no DELETE takes. */
  ghost predicate LastRanks(rows: seq<StoredCheck>) {
    Climbs(rows) && (rows != [] ==> RowNumber(rows, rows[|rows| - 1]) <= CHECK_HISTORY_RETENTION)
  }

  lemma SortedRanks(rows: seq<StoredCheck>)
    requires Sorted(rows)
    ensures LastRanks(rows)
  {
    if rows != [] {
      RowNumberFromEnd(rows, |rows| - 1);
    }
  }

  lemma AppendRanks(rows: seq<StoredCheck>, x: StoredCheck)
    requires LastRanks(rows) && !HasTime(rows, x.row.checkedAt) && (forall c <- rows :: c.id < x.id)
    requires CountAfter(rows, x.row.checkedAt) < CHECK_HISTORY_RETENTION
    ensures LastRanks(rows + [x])
  {
    CountNewerIsAfter(rows, x);
    assert (rows + [x])[..|rows|] == rows;
    forall i | 0 <= i < |rows| ensures rows[i].id < x.id {
      assert rows[i] in rows;
    }
  }

  lemma DeleteKeepsLast(rows: seq<StoredCheck>)
    requires LastRanks(rows)
    ensures LastRanks(RetainedRows(rows, rows)) && MaxId(RetainedRows(rows, rows)) == MaxId(rows)
  {
    RetainedRowsClimb(rows, rows);
    if rows != [] {
      StayingKeepsRank(rows, rows, rows[|rows| - 1]);
      MaxIdOfClimbing(rows);
      MaxIdOfClimbing(RetainedRows(rows, rows));
    }
  }

  lemma DeleteKeepsPageLength(rows: seq<StoredCheck>)
    requires Climbs(rows)
    ensures |NewestFirst(RetainedRows(rows, rows))| == |NewestFirst(rows)|
  {
    var kept, p := RetainedRows(rows, rows), NewestFirst(rows);
    RetainedRowsMembers(rows, rows);
    RetainedRowsClimb(rows, rows);
    PageExists(rows);
    PageExists(kept);
    RetainedRowsShorter(rows, rows);
    if p != [] {
      var c := p[|p| - 1];
      StayingKeepsRank(rows, rows, c);
      CountNewerBelow(kept, c);
    }
  }

  lemma {:induction false} RetainedRowsShorter(rows: seq<StoredCheck>, all: seq<StoredCheck>)
    ensures |RetainedRows(rows, all)| <= |rows|
  {
    if rows != [] {
      RetainedRowsShorter(rows[..|rows| - 1], all);
    }
  }

  lemma DeleteKeepsPage(rows: seq<StoredCheck>)
    requires Climbs(rows)
    ensures NewestFirst(RetainedRows(rows, rows)) == NewestFirst(rows)
  {
    var p, q := NewestFirst(rows), NewestFirst(RetainedRows(rows, rows));
    RetainedRowsMembers(rows, rows);
    RetainedRowsClimb(rows, rows);
    DeleteKeepsPageLength(rows);
    PageExists(rows);
    PageExists(RetainedRows(rows, rows));
    forall i | 0 <= i < |p| ensures p[i] == q[i] {
      StayingKeepsRank(rows, rows, q[i]);
      SameRankSameRow(rows, p[i], q[i]);
    }
  }
}
