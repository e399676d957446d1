/** src/checkRows.ts: keep one latest result per IP, plus the latest success a later failure would erase. */
module CheckRows {
  import opened Prelude

  datatype CheckRow = CheckRow(
    ip: string,
    ok: bool,
    rttMs: Option<int>,
    reason: Option<string>,
    detail: Option<string>,
    checkedAt: int,
    scanMode: string)

  /** What the byIP map remembers for one address. */
  datatype Entry = Entry(latest: CheckRow, latestSuccess: Option<CheckRow>)

  /** A JavaScript Map: the entries, and the order in which their keys were first set. */
  datatype Table = Table(order: seq<string>, entries: map<string, Entry>)

  function FirstEntry(row: CheckRow): Entry {
    Entry(row, if row.ok then Some(row) else None)
  }

  function Merge(e: Entry, row: CheckRow): Entry {
    Entry(
      if row.checkedAt >= e.latest.checkedAt then row else e.latest,
      if row.ok && (e.latestSuccess.None? || row.checkedAt >= e.latestSuccess.value.checkedAt) then Some(row) else e.latestSuccess)
  }

  function Touch(t: Table, row: CheckRow): Table {
    if row.ip !in t.entries then
      Table(t.order + [row.ip], t.entries[row.ip := FirstEntry(row)])
    else
      t.(entries := t.entries[row.ip := Merge(t.entries[row.ip], row)])
  }

  function ScanFrom(t: Table, rows: seq<CheckRow>): Table {
    if rows == [] then t else Touch(ScanFrom(t, rows[..|rows| - 1]), rows[|rows| - 1])
  }

  const EMPTY_TABLE := Table([], map[])

  function Scan(rows: seq<CheckRow>): Table {
    ScanFrom(EMPTY_TABLE, rows)
  }

  function EmitEntry(e: Entry): seq<CheckRow> {
    if e.latestSuccess.Some? && e.latestSuccess.value != e.latest then [e.latestSuccess.value, e.latest] else [e.latest]
  }

  function Emit(order: seq<string>, entries: map<string, Entry>): seq<CheckRow>
    requires forall ip <- order :: ip in entries
  {
    if order == [] then []
    else Emit(order[..|order| - 1], entries) + EmitEntry(entries[order[|order| - 1]])
  }

  /** The rows coalesceCheckRows returns. */
  function Coalesce(rows: seq<CheckRow>): seq<CheckRow> {
    ScanValid(rows);
    Emit(Scan(rows).order, Scan(rows).entries)
  }

  // ---------- What every table built by the loop satisfies ----------

  ghost predicate ValidEntry(ip: string, e: Entry) {
    && e.latest.ip == ip
    && (e.latest.ok ==> e.latestSuccess == Some(e.latest))
    && (e.latestSuccess.Some? ==>
          && e.latestSuccess.value.ip == ip
          && e.latestSuccess.value.ok
          && e.latestSuccess.value.checkedAt <= e.latest.checkedAt)
  }

  ghost predicate Valid(t: Table) {
    && (forall ip <- t.order :: ip in t.entries)
    && (forall ip <- t.entries :: ip in t.order && ValidEntry(ip, t.entries[ip]))
    && (forall i, j :: 0 <= i < j < |t.order| ==> t.order[i] != t.order[j])
  }

  lemma ScanValid(rows: seq<CheckRow>)
    ensures Valid(Scan(rows))
  {
    if rows != [] {
      ScanValid(rows[..|rows| - 1]);
    }
  }

  /** The loop of coalesceCheckRows. */
  method CoalesceCheckRows(rows: seq<CheckRow>) returns (out: seq<CheckRow>)
    ensures out == Coalesce(rows)
  {
    var order: seq<string>, byIP: map<string, Entry> := [], map[];
    for i := 0 to |rows|
      invariant Table(order, byIP) == Scan(rows[..i])
    {
      assert rows[..i + 1][..i] == rows[..i];
      var row := rows[i];
      if row.ip !in byIP {
        order := order + [row.ip];
        byIP := byIP[row.ip := Entry(row, if row.ok then Some(row) else None)];
        continue;
      }
      var state := byIP[row.ip];
      if row.checkedAt >= state.latest.checkedAt {
        state := state.(latest := row);
      }
      if row.ok && (state.latestSuccess.None? || row.checkedAt >= state.latestSuccess.value.checkedAt) {
        state := state.(latestSuccess := Some(row));
      }
      byIP := byIP[row.ip := state];
    }
    assert rows[..|rows|] == rows;
    ScanValid(rows);
    out := [];
    for i := 0 to |order|
      invariant out == Emit(order[..i], byIP)
    {
      assert order[..i + 1][..i] == order[..i];
      var e := byIP[order[i]];
      if e.latestSuccess.Some? && e.latestSuccess.value != e.latest {
        out := out + [e.latestSuccess.value];
      }
      out := out + [e.latest];
    }
    assert order[..|order|] == order;
  }

  // ---------- Meaning of one entry ----------

  /** Row j is the newest of its IP satisfying ok-ness `onlyOk`; among equal times the last one wins. */
  ghost predicate IsNewestAt(rows: seq<CheckRow>, ip: string, onlyOk: bool, j: int) {
    && 0 <= j < |rows|
    && rows[j].ip == ip
    && (onlyOk ==> rows[j].ok)
    && (forall k :: 0 <= k < |rows| && rows[k].ip == ip && (onlyOk ==> rows[k].ok) ==>
          rows[k].checkedAt <= rows[j].checkedAt && (k > j ==> rows[k].checkedAt < rows[j].checkedAt))
  }

  lemma NewestAfterAppend(rows: seq<CheckRow>, ip: string, onlyOk: bool, j: int)
    requires rows != [] && IsNewestAt(rows[..|rows| - 1], ip, onlyOk, j)
    ensures
      var n := |rows| - 1;
      var newer := rows[n].ip == ip && (onlyOk ==> rows[n].ok) && rows[n].checkedAt >= rows[j].checkedAt;
      IsNewestAt(rows, ip, onlyOk, if newer then n else j)
  {
    var n := |rows| - 1;
    forall k | 0 <= k < n ensures rows[..n][k] == rows[k] {}
  }

  ghost predicate LatestMeans(rows: seq<CheckRow>, ip: string, latest: CheckRow) {
    exists j :: IsNewestAt(rows, ip, false, j) && latest == rows[j]
  }

  ghost predicate SuccessMeans(rows: seq<CheckRow>, ip: string, success: Option<CheckRow>) {
    match success
    case Some(s) => exists j :: IsNewestAt(rows, ip, true, j) && s == rows[j]
    case None => forall k :: 0 <= k < |rows| && rows[k].ip == ip ==> !rows[k].ok
  }

  /** An entry holds the newest row of its IP and its newest success, if it has one. */
  ghost predicate EntryMeans(rows: seq<CheckRow>, ip: string, e: Entry) {
    LatestMeans(rows, ip, e.latest) && SuccessMeans(rows, ip, e.latestSuccess)
  }

  lemma MergeLatestMeans(rows: seq<CheckRow>, ip: string, e: Entry)
    requires rows != [] && LatestMeans(rows[..|rows| - 1], ip, e.latest)
    ensures LatestMeans(rows, ip, if rows[|rows| - 1].ip == ip then Merge(e, rows[|rows| - 1]).latest else e.latest)
  {
    var n := |rows| - 1;
    var j :| IsNewestAt(rows[..n], ip, false, j) && e.latest == rows[..n][j];
    NewestAfterAppend(rows, ip, false, j);
  }

  lemma MergeSuccessMeans(rows: seq<CheckRow>, ip: string, e: Entry)
    requires rows != [] && SuccessMeans(rows[..|rows| - 1], ip, e.latestSuccess)
    ensures SuccessMeans(rows, ip, if rows[|rows| - 1].ip == ip then Merge(e, rows[|rows| - 1]).latestSuccess else e.latestSuccess)
  {
    var n := |rows| - 1;
    if e.latestSuccess.Some? {
      var i :| IsNewestAt(rows[..n], ip, true, i) && e.latestSuccess.value == rows[..n][i];
      NewestAfterAppend(rows, ip, true, i);
    } else {
      forall k | 0 <= k < n && rows[k].ip == ip ensures !rows[k].ok { assert rows[..n][k] == rows[k]; }
      if rows[n].ip == ip && rows[n].ok { assert IsNewestAt(rows, ip, true, n); }
    }
  }

  lemma FirstMeans(rows: seq<CheckRow>)
    requires rows != [] && forall k :: 0 <= k < |rows| - 1 ==> rows[k].ip != rows[|rows| - 1].ip
    ensures EntryMeans(rows, rows[|rows| - 1].ip, FirstEntry(rows[|rows| - 1]))
  {
    var n := |rows| - 1;
    assert IsNewestAt(rows, rows[n].ip, false, n);
    assert rows[n].ok ==> IsNewestAt(rows, rows[n].ip, true, n);
  }

  ghost predicate Occurs(rows: seq<CheckRow>, ip: string) {
    exists k :: 0 <= k < |rows| && rows[k].ip == ip
  }

  /** An IP has an entry iff it occurs, and its entry is its newest row and newest success. */
  lemma {:induction false} EntryIsNewest(rows: seq<CheckRow>, ip: string)
    ensures ip in Scan(rows).entries <==> Occurs(rows, ip)
    ensures ip in Scan(rows).entries ==> EntryMeans(rows, ip, Scan(rows).entries[ip])
  {
    if rows != [] {
      var n := |rows| - 1;
      var prev := rows[..n];
      EntryIsNewest(prev, ip);
      assert Occurs(prev, ip) ==> Occurs(rows, ip) by {
        if k :| 0 <= k < |prev| && prev[k].ip == ip { assert rows[k].ip == ip; }
      }
      assert Occurs(rows, ip) ==> Occurs(prev, ip) || rows[n].ip == ip by {
        if k :| 0 <= k < |rows| && rows[k].ip == ip { assert k < n ==> prev[k] == rows[k]; }
      }
      if ip in Scan(prev).entries {
        MergeLatestMeans(rows, ip, Scan(prev).entries[ip]);
        MergeSuccessMeans(rows, ip, Scan(prev).entries[ip]);
      } else if rows[n].ip == ip {
        forall k | 0 <= k < n ensures rows[k].ip != ip { assert prev[k] == rows[k]; }
        FirstMeans(rows);
      }
    }
  }

  // ---------- Insensitivity to batching ----------

  lemma {:induction false} ScanFromAppend(t: Table, a: seq<CheckRow>, b: seq<CheckRow>)
    ensures ScanFrom(t, a + b) == ScanFrom(ScanFrom(t, a), b)
  {
    if b == [] {
      assert a + b == a;
    } else {
      var n := |b| - 1;
      assert (a + b)[..|a + b| - 1] == a + b[..n];
      ScanFromAppend(t, a, b[..n]);
    }
  }

  function Restrict(t: Table, k: nat): Table
    requires k <= |t.order|
  {
    Table(t.order[..k], map ip | ip in t.entries && ip in t.order[..k] :: t.entries[ip])
  }

  lemma ScanOfEntry(t: Table, ip: string, e: Entry)
    requires ValidEntry(ip, e) && ip !in t.entries
    ensures ScanFrom(t, EmitEntry(e)) == Table(t.order + [ip], t.entries[ip := e])
  {
    if |EmitEntry(e)| == 2 {
      var s := e.latestSuccess.value;
      assert [s, e.latest][..1] == [s];
      assert ScanFrom(t, [s]) == Touch(t, s) by { assert [s][..0] == []; }
      assert Merge(FirstEntry(s), e.latest) == e;
      assert t.entries[ip := FirstEntry(s)][ip := e] == t.entries[ip := e];
    } else {
      assert [e.latest][..0] == [];
      assert FirstEntry(e.latest) == e;
    }
  }

  lemma RestrictNext(t: Table, k: nat)
    requires Valid(t) && 0 < k <= |t.order|
    ensures t.order[..k][..k - 1] == t.order[..k - 1]
    ensures t.order[k - 1] !in Restrict(t, k - 1).entries
    ensures var ip := t.order[k - 1];
            Restrict(t, k) == Table(t.order[..k - 1] + [ip], Restrict(t, k - 1).entries[ip := t.entries[ip]])
  {
    assert t.order[..k] == t.order[..k - 1] + [t.order[k - 1]];
  }

  /** Scanning what a valid table emits rebuilds that table. */
  lemma {:induction false} ScanOfEmit(t: Table, k: nat)
    requires Valid(t) && k <= |t.order|
    ensures Scan(Emit(t.order[..k], t.entries)) == Restrict(t, k)
  {
    if k > 0 {
      ScanOfEmit(t, k - 1);
      RestrictNext(t, k);
      var ip := t.order[k - 1];
      ScanFromAppend(EMPTY_TABLE, Emit(t.order[..k - 1], t.entries), EmitEntry(t.entries[ip]));
      ScanOfEntry(Restrict(t, k - 1), ip, t.entries[ip]);
    }
  }

  /** Coalescing keeps exactly what the loop remembers. */
  lemma ScanOfCoalesce(rows: seq<CheckRow>)
    ensures Scan(Coalesce(rows)) == Scan(rows)
  {
    ScanValid(rows);
    var t := Scan(rows);
    ScanOfEmit(t, |t.order|);
    assert t.order[..|t.order|] == t.order;
    assert Restrict(t, |t.order|).entries == t.entries;
  }

  /** Coalescing a prefix first changes nothing, order included. */
  lemma CoalesceBatching(a: seq<CheckRow>, b: seq<CheckRow>)
    ensures Coalesce(a + b) == Coalesce(Coalesce(a) + b)
  {
    ScanFromAppend(EMPTY_TABLE, a, b);
    ScanFromAppend(EMPTY_TABLE, Coalesce(a), b);
    ScanOfCoalesce(a);
  }

  /** updatePoolBatch coalesces rows that ingest has coalesced already. */
  lemma CoalesceIdempotent(rows: seq<CheckRow>)
    ensures Coalesce(Coalesce(rows)) == Coalesce(rows)
  {
    ScanOfCoalesce(rows);
  }

  // ---------- Rows per IP ----------

  function RowsOf(rows: seq<CheckRow>, ip: string): seq<CheckRow> {
    if rows == [] then []
    else
      var rest := RowsOf(rows[..|rows| - 1], ip);
      if rows[|rows| - 1].ip == ip then rest + [rows[|rows| - 1]] else rest
  }

  lemma {:induction false} RowsOfAppend(a: seq<CheckRow>, b: seq<CheckRow>, ip: string)
    ensures RowsOf(a + b, ip) == RowsOf(a, ip) + RowsOf(b, ip)
  {
    if b == [] {
      assert a + b == a;
    } else {
      var n := |b| - 1;
      assert (a + b)[..|a + b| - 1] == a + b[..n];
      RowsOfAppend(a, b[..n], ip);
    }
  }

  lemma RowsOfEntry(e: Entry, key: string, ip: string)
    requires ValidEntry(key, e)
    ensures RowsOf(EmitEntry(e), ip) == if ip == key then EmitEntry(e) else []
  {
    if |EmitEntry(e)| == 2 {
      var s := e.latestSuccess.value;
      assert [s, e.latest][..1] == [s];
      assert [s][..0] == [];
      assert RowsOf([s], ip) == if ip == key then [s] else [];
    } else {
      assert [e.latest][..0] == [];
    }
  }

  lemma EmitNext(t: Table, k: nat)
    requires Valid(t) && 0 < k <= |t.order|
    ensures t.order[..k] == t.order[..k - 1] + [t.order[k - 1]] && t.order[k - 1] !in t.order[..k - 1]
    ensures Emit(t.order[..k], t.entries) == Emit(t.order[..k - 1], t.entries) + EmitEntry(t.entries[t.order[k - 1]])
  {
    assert t.order[..k][..k - 1] == t.order[..k - 1];
  }

  lemma {:induction false} RowsOfEmit(t: Table, k: nat, ip: string)
    requires Valid(t) && k <= |t.order|
    ensures RowsOf(Emit(t.order[..k], t.entries), ip) == if ip in t.order[..k] then EmitEntry(t.entries[ip]) else []
  {
    if k > 0 {
      var key := t.order[k - 1];
      RowsOfEmit(t, k - 1, ip);
      EmitNext(t, k);
      RowsOfAppend(Emit(t.order[..k - 1], t.entries), EmitEntry(t.entries[key]), ip);
      RowsOfEntry(t.entries[key], key, ip);
    }
  }

  /** Each IP yields one row, or a success followed by a failure not older than it. */
  lemma CoalescedRowsOf(rows: seq<CheckRow>, ip: string)
    ensures
      var out := RowsOf(Coalesce(rows), ip);
      if ip !in Scan(rows).entries then out == []
      else
        && out == EmitEntry(Scan(rows).entries[ip])
        && (|out| == 1 || (|out| == 2 && out[0].ok && !out[1].ok && out[0].checkedAt <= out[1].checkedAt))
  {
    ScanValid(rows);
    var t := Scan(rows);
    RowsOfEmit(t, |t.order|, ip);
    assert t.order[..|t.order|] == t.order;
  }

  /** The same in terms of the rows alone: the newest success of the IP, unless it is the newest row itself, and the newest row. */
  lemma CoalescedMeans(rows: seq<CheckRow>, ip: string, j: int)
    requires IsNewestAt(rows, ip, false, j)
    ensures forall i :: IsNewestAt(rows, ip, true, i) ==> RowsOf(Coalesce(rows), ip) == if i == j then [rows[j]] else [rows[i], rows[j]]
    ensures (forall k :: 0 <= k < |rows| && rows[k].ip == ip ==> !rows[k].ok) ==> RowsOf(Coalesce(rows), ip) == [rows[j]]
  {
    assert Occurs(rows, ip);
    EntryIsNewest(rows, ip);
    CoalescedRowsOf(rows, ip);
    var e := Scan(rows).entries[ip];
    forall i | IsNewestAt(rows, ip, true, i) ensures e.latestSuccess == Some(rows[i]) && (rows[i] == rows[j] ==> i == j) {
      assert rows[i] == rows[j] ==> IsNewestAt(rows, ip, true, j);
    }
  }

  // ---------- Order ----------

  /** Row i is the first of its IP. */
  ghost predicate IsFirst(rows: seq<CheckRow>, i: int) {
    0 <= i < |rows| && forall k :: 0 <= k < i ==> rows[k].ip != rows[i].ip
  }

  lemma FirstLater(rows: seq<CheckRow>, i: int)
    requires rows != [] && IsFirst(rows[..|rows| - 1], i)
    ensures IsFirst(rows, i) && rows[i] == rows[..|rows| - 1][i]
  {
    var prev := rows[..|rows| - 1];
    forall k | 0 <= k < i ensures rows[k].ip != rows[i].ip {
      assert prev[k] == rows[k];
    }
  }

  lemma NewIsFirst(rows: seq<CheckRow>)
    requires rows != [] && rows[|rows| - 1].ip !in Scan(rows[..|rows| - 1]).entries
    ensures IsFirst(rows, |rows| - 1)
  {
    var prev := rows[..|rows| - 1];
    EntryIsNewest(prev, rows[|rows| - 1].ip);
    forall k | 0 <= k < |rows| - 1 ensures rows[k].ip != rows[|rows| - 1].ip {
      assert prev[k] == rows[k];
    }
  }

  lemma {:induction false} OrderFirst(rows: seq<CheckRow>, x: nat) returns (i: nat)
    requires x < |Scan(rows).order|
    ensures IsFirst(rows, i) && rows[i].ip == Scan(rows).order[x]
  {
    var n := |rows| - 1;
    if x < |Scan(rows[..n]).order| {
      i := OrderFirst(rows[..n], x);
      FirstLater(rows, i);
    } else {
      NewIsFirst(rows);
      i := n;
    }
  }

  lemma {:induction false} OrderOfFirst(rows: seq<CheckRow>, x: nat, y: nat) returns (i: nat, j: nat)
    requires x < y < |Scan(rows).order|
    ensures i < j && IsFirst(rows, i) && rows[i].ip == Scan(rows).order[x] && IsFirst(rows, j) && rows[j].ip == Scan(rows).order[y]
  {
    var n := |rows| - 1;
    if y < |Scan(rows[..n]).order| {
      i, j := OrderOfFirst(rows[..n], x, y);
      FirstLater(rows, i);
      FirstLater(rows, j);
    } else {
      i := OrderFirst(rows[..n], x);
      j := n;
      FirstLater(rows, i);
      NewIsFirst(rows);
    }
  }

  lemma EmittedIP(t: Table, m: nat, k: nat)
    requires Valid(t) && 0 < m <= |t.order| && k < |Emit(t.order[..m], t.entries)|
    ensures
      var before := Emit(t.order[..m - 1], t.entries);
      Emit(t.order[..m], t.entries)[k].ip == if k < |before| then before[k].ip else t.order[m - 1]
  {
    EmitNext(t, m);
    assert ValidEntry(t.order[m - 1], t.entries[t.order[m - 1]]);
  }

  /** The IPs of two emitted rows, in the table's order. */
  lemma {:induction false} EmitPlaces(t: Table, m: nat, k: nat, l: nat) returns (x: nat, y: nat)
    requires Valid(t) && m <= |t.order| && k <= l < |Emit(t.order[..m], t.entries)|
    ensures x <= y < m
    ensures var out := Emit(t.order[..m], t.entries); out[k].ip == t.order[x] && out[l].ip == t.order[y]
  {
    assert m > 0;
    EmittedIP(t, m, k);
    EmittedIP(t, m, l);
    var before := Emit(t.order[..m - 1], t.entries);
    if l < |before| {
      x, y := EmitPlaces(t, m - 1, k, l);
    } else if k < |before| {
      x, y := EmitPlaces(t, m - 1, k, k);
      y := m - 1;
    } else {
      x, y := m - 1, m - 1;
    }
  }

  /** The rows come in the order in which their IPs first occur. */
  lemma CoalescedInOrder(rows: seq<CheckRow>, k: nat, l: nat, i: int, j: int)
    requires k < l < |Coalesce(rows)|
    requires IsFirst(rows, i) && rows[i].ip == Coalesce(rows)[k].ip && IsFirst(rows, j) && rows[j].ip == Coalesce(rows)[l].ip
    ensures i <= j
  {
    ScanValid(rows);
    var t := Scan(rows);
    assert t.order[..|t.order|] == t.order;
    var x, y := EmitPlaces(t, |t.order|, k, l);
    if x < y {
      var a, b := OrderOfFirst(rows, x, y);
      assert a == i && b == j;
    }
  }
}
