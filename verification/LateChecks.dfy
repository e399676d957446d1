/**
 * Checks that arrive out of order (src/store.ts:56-179 and src/store.ts:880-982 have no MAX guard): for each writer the
 * exact condition under which the whole pool row still matches the view, and what becomes of the history version.
 */
module LateChecks {
  import opened Prelude
  import opened CheckRows
  import opened Store
  import opened PoolView
  import opened PoolAgreement
  import opened PoolRuns
  import opened Pruning
  import opened PoolTheorem
  import opened Retries
  import opened Pages
  import CheckHistory

  // ---------- What the columns depend on ----------

  /** The newest row, as the view sees it. */
  function NewestRow(rows: seq<StoredCheck>): Option<CheckRow> {
    if rows == [] then None else Some(Newest(rows).row)
  }

  function OldestTime(rows: seq<StoredCheck>): Option<int> {
    if rows == [] then None else Some(Oldest(rows).row.checkedAt)
  }

  /** Everything about the rows of one IP that a pool row shows. */
  datatype Digest = Digest(count: nat, newest: Option<CheckRow>, okCount: nat, okNewest: Option<CheckRow>, okOldest: Option<int>)

  function DigestOf(rows: seq<StoredCheck>): Digest {
    var ok := OkRows(rows);
    Digest(|rows|, NewestRow(rows), |ok|, NewestRow(ok), OldestTime(ok))
  }

  /** Matches, on the digest. */
  predicate Shows(ip: string, p: PoolRow, g: Digest) {
    && g.newest.Some?
    && p.isIPv6 == IsIPv6(ip)
    && p.lastCheckedAt == g.newest.value.checkedAt && p.lastCheckOk == g.newest.value.ok
    && p.historyCount == g.count
    && p.firstSeen <= p.lastCheckedAt
    && match (g.okNewest, g.okOldest)
       case (Some(newest), Some(oldest)) =>
         && p.lastSeen == newest.checkedAt && p.lastRttMs == newest.rttMs.GetOr(0)
         && p.firstSeen <= oldest && p.timesSeen >= g.okCount
       case _ => g.count >= CHECK_HISTORY_RETENTION
  }

  lemma MatchesIsShows(ip: string, rows: seq<StoredCheck>, p: PoolRow)
    ensures Matches(ip, rows, Some(p)) <==> Shows(ip, p, DigestOf(rows))
  {
    OkRowsNonempty(rows);
  }

  /** last_checked_at and last_check_ok alone. */
  predicate ShowsLastCheck(p: PoolRow, g: Digest) {
    g.newest.Some? && p.lastCheckedAt == g.newest.value.checkedAt && p.lastCheckOk == g.newest.value.ok
  }

  // ---------- One INSERT ----------

  function Later(newest: Option<CheckRow>, row: CheckRow): Option<CheckRow> {
    if newest.None? || row.checkedAt > newest.value.checkedAt then Some(row) else newest
  }

  function Earlier(oldest: Option<int>, at: int): Option<int> {
    if oldest.None? || at < oldest.value then Some(at) else oldest
  }

  function Plus(g: Digest, row: CheckRow): Digest {
    var h := g.(count := g.count + 1, newest := Later(g.newest, row));
    if row.ok then h.(okCount := g.okCount + 1, okNewest := Later(g.okNewest, row), okOldest := Earlier(g.okOldest, row.checkedAt)) else h
  }

  /** The rows of one IP after INSERT ... ON CONFLICT DO NOTHING. */
  ghost predicate StoredOnce(rows: seq<StoredCheck>, row: CheckRow, rows': seq<StoredCheck>) {
    if HasTime(rows, row.checkedAt) then rows' == rows
    else exists c :: rows' == rows + [c] && c.row == row
  }

  lemma {:induction false} Bounds(rows: seq<StoredCheck>)
    requires rows != []
    ensures Newest(rows) in rows && forall c <- rows :: c.row.checkedAt <= Newest(rows).row.checkedAt
    ensures Oldest(rows) in rows && forall c <- rows :: c.row.checkedAt >= Oldest(rows).row.checkedAt
  {
    if |rows| > 1 {
      Bounds(rows[..|rows| - 1]);
      assert rows == rows[..|rows| - 1] + [rows[|rows| - 1]];
    }
  }

  lemma PlusRow(rows: seq<StoredCheck>, c: StoredCheck)
    requires !HasTime(rows, c.row.checkedAt)
    ensures NewestRow(rows + [c]) == Later(NewestRow(rows), c.row)
    ensures OldestTime(rows + [c]) == Earlier(OldestTime(rows), c.row.checkedAt)
  {
    assert (rows + [c])[..|rows|] == rows;
    if rows != [] {
      Bounds(rows);
    }
  }

  lemma PlusDigest(rows: seq<StoredCheck>, c: StoredCheck)
    requires !HasTime(rows, c.row.checkedAt)
    ensures DigestOf(rows + [c]) == Plus(DigestOf(rows), c.row)
  {
    PlusRow(rows, c);
    OkRowsAppendOne(rows, c);
    OkRowsMembers(rows);
    if c.row.ok {
      PlusRow(OkRows(rows), c);
    } else {
      assert OkRows(rows) + [] == OkRows(rows);
    }
  }

  lemma CountAfterOne(rows: seq<StoredCheck>, x: StoredCheck, at: int)
    ensures CountAfter(rows + [x], at) == CountAfter(rows, at) + if x.row.checkedAt > at then 1 else 0
  {
    assert (rows + [x])[..|rows|] == rows;
  }

  lemma OnceDigest(rows: seq<StoredCheck>, row: CheckRow, rows': seq<StoredCheck>, at: int)
    requires StoredOnce(rows, row, rows')
    ensures DigestOf(rows') == if HasTime(rows, row.checkedAt) then DigestOf(rows) else Plus(DigestOf(rows), row)
    ensures CountAfter(rows', at) == CountAfter(rows, at) + if !HasTime(rows, row.checkedAt) && row.checkedAt > at then 1 else 0
  {
    if !HasTime(rows, row.checkedAt) {
      var c :| rows' == rows + [c] && c.row == row;
      PlusDigest(rows, c);
      CountAfterOne(rows, c, at);
    }
  }

  lemma OnceTimes(rows: seq<StoredCheck>, row: CheckRow, rows': seq<StoredCheck>, at: int)
    requires StoredOnce(rows, row, rows')
    ensures HasTime(rows', at) <==> HasTime(rows, at) || at == row.checkedAt
  {
    if !HasTime(rows, row.checkedAt) {
      var c :| rows' == rows + [c] && c.row == row;
      assert rows'[|rows|] == c;
    }
  }

  lemma AppendIsOnce(checks: seq<StoredCheck>, row: CheckRow)
    ensures StoredOnce(Of(checks, row.ip), row, Of(Append(checks, row), row.ip))
  {
    OfAppendOne(checks, StoredCheck(MaxId(checks) + 1, row), row.ip);
  }

  // ---------- What agreement says about the digest ----------

  /** The digest of rows that agree with the pool row q. */
  ghost predicate Known(ip: string, q: PoolRow, g: Digest) {
    && Shows(ip, q, g)
    && (g.okNewest.Some? <==> g.okOldest.Some?) && (g.okNewest.None? <==> g.okCount == 0)
    && (q.lastCheckOk ==> g.okNewest == g.newest)
    && (g.okNewest.Some? ==> g.okNewest.value.checkedAt <= q.lastCheckedAt)
    && (!q.lastCheckOk && g.okNewest.Some? ==> g.okNewest.value.checkedAt < q.lastCheckedAt)
  }

  /** What is known of a time that is stored or not. */
  ghost predicate KnownTime(q: PoolRow, g: Digest, at: int, stored: bool) {
    && (stored ==> at <= q.lastCheckedAt)
    && (at == q.lastCheckedAt ==> stored)
    && (g.okNewest.Some? && at == g.okNewest.value.checkedAt ==> stored)
  }

  lemma Agreed(ip: string, rows: seq<StoredCheck>, q: PoolRow)
    requires Agrees(ip, rows, Some(q))
    ensures Known(ip, q, DigestOf(rows)) && CountAfter(rows, q.lastCheckedAt) == 0 && (HasOk(rows) <==> DigestOf(rows).okNewest.Some?)
  {
    MatchesIsShows(ip, rows, q);
    Bounds(rows);
    CountAfterNone(rows, q.lastCheckedAt);
    OkRowsMembers(rows);
    OkRowsNonempty(rows);
    NewestOfSorted(rows);
    if HasOk(rows) {
      Bounds(OkRows(rows));
      OkRowsSorted(rows);
      NewestOfSorted(OkRows(rows));
    }
  }

  lemma AgreedTime(ip: string, rows: seq<StoredCheck>, q: PoolRow, at: int)
    requires Agrees(ip, rows, Some(q))
    ensures KnownTime(q, DigestOf(rows), at, HasTime(rows, at))
  {
    Bounds(rows);
    OkRowsMembers(rows);
    if OkRows(rows) != [] {
      Bounds(OkRows(rows));
    }
  }

  // ---------- On-demand probes ----------

  /** hs says whether the time of the row is stored. */
  lemma ProbeDigest(ip: string, q: PoolRow, g: Digest, row: CheckRow, hs: bool, d: PoolRow)
    requires Known(ip, q, g) && KnownTime(q, g, row.checkedAt, hs)
    requires d == q.(lastCheckedAt := row.checkedAt, lastCheckOk := row.ok, revision := d.revision,
                     lastRttMs := if row.ok then row.rttMs.GetOr(0) else q.lastRttMs,
                     lastSeen := if row.ok then row.checkedAt else q.lastSeen,
                     timesSeen := if row.ok then q.timesSeen + 1 else q.timesSeen,
                     historyCount := q.historyCount + (if !hs && row.checkedAt > q.lastCheckedAt then 1 else 0))
    ensures
      var h := if hs then g else Plus(g, row);
      && (ShowsLastCheck(d, h) <==> row.checkedAt > q.lastCheckedAt || (row.checkedAt == q.lastCheckedAt && row.ok == q.lastCheckOk))
      && (Shows(ip, d, h) <==>
          || row.checkedAt > q.lastCheckedAt
          || (row.checkedAt == q.lastCheckedAt && row.ok == q.lastCheckOk && (row.ok ==> row.rttMs.GetOr(0) == q.lastRttMs)))
  {
  }

  lemma ProbeTouched(q: PoolRow, p: Probe, rows: seq<StoredCheck>, version: nat)
    ensures var row := ProbeRow(p);
            && row.ip == p.ip && row.checkedAt == p.checkedAt && row.ok == p.ok && (p.ok ==> row.rttMs == p.rttMs)
            && ProbeUpdateRow(q, p, rows, version) ==
               q.(lastCheckedAt := row.checkedAt, lastCheckOk := row.ok, revision := version,
                  lastRttMs := if row.ok then row.rttMs.GetOr(0) else q.lastRttMs,
                  lastSeen := if row.ok then row.checkedAt else q.lastSeen,
                  timesSeen := if row.ok then q.timesSeen + 1 else q.timesSeen,
                  historyCount := q.historyCount + CountAfter(rows, q.lastCheckedAt))
  {
  }

  lemma ProbeShows(ip: string, rows: seq<StoredCheck>, q: PoolRow, row: CheckRow, rows': seq<StoredCheck>, d: PoolRow)
    requires Agrees(ip, rows, Some(q)) && StoredOnce(rows, row, rows')
    requires d == q.(lastCheckedAt := row.checkedAt, lastCheckOk := row.ok, revision := d.revision,
                     lastRttMs := if row.ok then row.rttMs.GetOr(0) else q.lastRttMs,
                     lastSeen := if row.ok then row.checkedAt else q.lastSeen,
                     timesSeen := if row.ok then q.timesSeen + 1 else q.timesSeen,
                     historyCount := q.historyCount + CountAfter(rows', q.lastCheckedAt))
    ensures
      && (ShowsLastCheck(d, DigestOf(rows')) <==> row.checkedAt > q.lastCheckedAt || (row.checkedAt == q.lastCheckedAt && row.ok == q.lastCheckOk))
      && (Shows(ip, d, DigestOf(rows')) <==>
          || row.checkedAt > q.lastCheckedAt
          || (row.checkedAt == q.lastCheckedAt && row.ok == q.lastCheckOk && (row.ok ==> row.rttMs.GetOr(0) == q.lastRttMs)))
  {
    Agreed(ip, rows, q);
    AgreedTime(ip, rows, q, row.checkedAt);
    OnceDigest(rows, row, rows', q.lastCheckedAt);
    ProbeDigest(ip, q, DigestOf(rows), row, HasTime(rows, row.checkedAt), d);
  }

  /**
   * An on-demand probe of a pool IP (src/store.ts:936-954) leaves the pool row matching the view if and only if it is
   * newer than the row's last check, or ties with it and says the same: same outcome, and same rtt if it succeeded. The
   * last-check columns alone need only the outcome.
   */
  lemma ProbeNeedsOrder(db: Db, p: Probe)
    requires AgreesAt(db, p.ip) && p.ip in db.pool
    ensures
      var d, q := UpdatePoolForCheck(SaveRecheckResult(db, p), p), db.pool[p.ip];
      var newer, tied := p.checkedAt > q.lastCheckedAt, p.checkedAt == q.lastCheckedAt && p.ok == q.lastCheckOk;
      && p.ip in d.pool
      && (ShowsLastCheck(d.pool[p.ip], DigestOf(Of(d.checks, p.ip))) <==> newer || tied)
      && (Matches(p.ip, Of(d.checks, p.ip), RowIn(d.pool, p.ip)) <==> newer || (tied && (p.ok ==> p.rttMs.GetOr(0) == q.lastRttMs)))
  {
    var version := ProbeEffect(db, p);
    var d, rows := UpdatePoolForCheck(SaveRecheckResult(db, p), p), Of(db.checks, p.ip);
    AppendIsOnce(db.checks, ProbeRow(p));
    ProbeTouched(db.pool[p.ip], p, Of(d.checks, p.ip), version);
    ProbeShows(p.ip, rows, db.pool[p.ip], ProbeRow(p), Of(d.checks, p.ip), d.pool[p.ip]);
    MatchesIsShows(p.ip, Of(d.checks, p.ip), d.pool[p.ip]);
  }

  lemma ProbeEntryShows(rows: seq<StoredCheck>, p: Probe, rows': seq<StoredCheck>, version: nat)
    requires !HasOk(rows) && StoredOnce(rows, ProbeRow(p), rows') && p.ok
    ensures Shows(p.ip, ProbeInsertRow(None, p, rows', version), DigestOf(rows')) <==> forall c <- rows :: c.row.checkedAt < p.checkedAt
  {
    OnceDigest(rows, ProbeRow(p), rows', 0);
    OkRowsNonempty(rows);
    if rows != [] {
      Bounds(rows);
    }
  }

  /** A successful probe of an IP outside the pool: if and only if it is newer than everything stored for the IP. */
  lemma ProbeEntryNeedsOrder(db: Db, p: Probe)
    requires AgreesAt(db, p.ip) && p.ip !in db.pool && p.ok
    ensures
      var d := UpdatePoolForCheck(SaveRecheckResult(db, p), p);
      && p.ip in d.pool
      && (Matches(p.ip, Of(d.checks, p.ip), RowIn(d.pool, p.ip)) <==> forall c <- Of(db.checks, p.ip) :: c.row.checkedAt < p.checkedAt)
  {
    var version := ProbeEffect(db, p);
    var d, rows := UpdatePoolForCheck(SaveRecheckResult(db, p), p), Of(db.checks, p.ip);
    AppendIsOnce(db.checks, ProbeRow(p));
    ProbeEntryShows(rows, p, Of(d.checks, p.ip), version);
    MatchesIsShows(p.ip, Of(d.checks, p.ip), d.pool[p.ip]);
  }

  function ProbeAt(ok: bool, at: int): Probe {
    Probe("8.8.8.8", ok, if ok then Some(7) else None, None, None, at, "sni")
  }

  /** The tables after a success at 1 and a failure at 9. */
  function UpThenDown(): Db {
    Handle(Handle(EMPTY, OnDemand(ProbeAt(true, 1), 0)), OnDemand(ProbeAt(false, 9), 0))
  }

  lemma UpThenDownIs()
    ensures
      var d := UpThenDown();
      && d.checks == [StoredCheck(1, ProbeRow(ProbeAt(true, 1))), StoredCheck(2, ProbeRow(ProbeAt(false, 9)))]
      && "8.8.8.8" in d.pool
      && InOrder(EMPTY, OnDemand(ProbeAt(true, 1), 0))
      && InOrder(Handle(EMPTY, OnDemand(ProbeAt(true, 1), 0)), OnDemand(ProbeAt(false, 9), 0))
  {
    var r1, r2 := StoredCheck(1, ProbeRow(ProbeAt(true, 1))), StoredCheck(2, ProbeRow(ProbeAt(false, 9)));
    assert Of(EMPTY.checks, "8.8.8.8") == [];
    var d1 := Handle(EMPTY, OnDemand(ProbeAt(true, 1), 0));
    assert d1.checks == [r1] && "8.8.8.8" in d1.pool;
    assert [r1][..0] == [];
    assert Of([r1], "8.8.8.8") == [r1];
  }

  /** A probe at 5 after a failure at 9: the pool says reachable at 5, the view says failed at 9. */
  lemma LateProbeMisleads()
    ensures
      var d := Handle(UpThenDown(), OnDemand(ProbeAt(true, 5), 0));
      && "8.8.8.8" in d.pool && d.pool["8.8.8.8"].lastCheckOk && d.pool["8.8.8.8"].lastCheckedAt == 5
      && View(d.checks, "8.8.8.8").Some?
      && !View(d.checks, "8.8.8.8").value.lastCheckOk && View(d.checks, "8.8.8.8").value.lastCheckedAt == 9
  {
    UpThenDownIs();
    LateProbeOn(UpThenDown());
  }

  lemma LateProbeOn(db: Db)
    requires db.checks == [StoredCheck(1, ProbeRow(ProbeAt(true, 1))), StoredCheck(2, ProbeRow(ProbeAt(false, 9)))]
    requires "8.8.8.8" in db.pool
    ensures
      var d := Handle(db, OnDemand(ProbeAt(true, 5), 0));
      && "8.8.8.8" in d.pool && d.pool["8.8.8.8"].lastCheckOk && d.pool["8.8.8.8"].lastCheckedAt == 5
      && View(d.checks, "8.8.8.8").Some?
      && !View(d.checks, "8.8.8.8").value.lastCheckOk && View(d.checks, "8.8.8.8").value.lastCheckedAt == 9
  {
    var ip := "8.8.8.8";
    var r1, r2, r3 := db.checks[0], db.checks[1], StoredCheck(3, ProbeRow(ProbeAt(true, 5)));
    assert db.checks == [r1, r2] && [r1][..0] == [] && [r1, r2][..1] == [r1];
    assert Of([r1], ip) == [r1] && Of([r1, r2], ip) == [r1, r2];
    var d := Handle(db, OnDemand(ProbeAt(true, 5), 0));
    assert MaxId([r1]) == 1 && MaxId([r1, r2]) == 2;
    assert d.checks == [r1, r2, r3];
    ThreeRows(r1, r2, r3);
  }

  lemma ThreeRows(r1: StoredCheck, r2: StoredCheck, r3: StoredCheck)
    requires r1.row.ip == r2.row.ip == r3.row.ip && r1.row.ok && r3.row.ok && !r2.row.ok
    requires r1.row.checkedAt < r3.row.checkedAt < r2.row.checkedAt
    ensures var v := View([r1, r2, r3], r1.row.ip);
            v.Some? && v.value.lastCheckedAt == r2.row.checkedAt && !v.value.lastCheckOk
  {
    var ip := r1.row.ip;
    assert [r1][..0] == [] && [r1, r2][..1] == [r1] && [r1, r2, r3][..2] == [r1, r2];
    assert Of([r1], ip) == [r1] && Of([r1, r2], ip) == [r1, r2] && Of([r1, r2, r3], ip) == [r1, r2, r3];
    assert OkRows([r1]) == [r1] && OkRows([r1, r2]) == [r1] && OkRows([r1, r2, r3]) == [r1, r3];
    assert Newest([r1, r2]) == r2 && Newest([r1, r2, r3]) == r2;
  }

  // ---------- Ingests ----------

  /** The rows of an IP before and after each of these inserts. */
  ghost predicate Chain(states: seq<seq<StoredCheck>>, news: seq<CheckRow>) {
    |states| == |news| + 1 && forall i :: 0 <= i < |news| ==> StoredOnce(states[i], news[i], states[i + 1])
  }

  lemma ChainNext(states: seq<seq<StoredCheck>>, news: seq<CheckRow>, row: CheckRow, next: seq<StoredCheck>)
    requires Chain(states, news) && StoredOnce(states[|states| - 1], row, next)
    ensures Chain(states + [next], news + [row])
  {
  }

  lemma {:induction false} InsertStates(db: Db, rows: seq<CheckRow>, successful: set<string>, cutoff: int, ip: string)
      returns (states: seq<seq<StoredCheck>>)
    requires Recorded(db, successful, ip, cutoff) && forall r <- rows :: r.ok ==> r.ip in successful
    ensures Chain(states, RowsOf(rows, ip))
    ensures states[0] == Of(db.checks, ip) && states[|states| - 1] == Of(InsertRows(db, rows, successful, cutoff).checks, ip)
  {
    states := [Of(db.checks, ip)];
    if rows != [] {
      var before, row := rows[..|rows| - 1], rows[|rows| - 1];
      assert row in rows && forall r <- before :: r in rows;
      states := InsertStates(db, before, successful, cutoff, ip);
      InsertKeepsPool(db, before, successful, cutoff);
      var d := InsertRows(db, before, successful, cutoff);
      if row.ip == ip {
        AppendIsOnce(d.checks, row);
        ChainNext(states, RowsOf(before, ip), row, Of(Append(d.checks, row), ip));
        states := states + [Of(Append(d.checks, row), ip)];
      } else {
        AppendOther(d.checks, row, ip);
      }
    }
  }

  /** The rows of an IP after the one or two inserts of its entry; mid is between them. */
  ghost predicate EntryStored(rows: seq<StoredCheck>, e: Entry, mid: seq<StoredCheck>, rows': seq<StoredCheck>) {
    && (if e.latestSuccess.Some? then StoredOnce(rows, e.latestSuccess.value, mid) else mid == rows)
    && StoredOnce(mid, e.latest, rows')
  }

  lemma StatesOfEntry(e: Entry, states: seq<seq<StoredCheck>>) returns (mid: seq<StoredCheck>)
    requires Chain(states, EmitEntry(e))
    ensures EntryStored(states[0], e, mid, states[|states| - 1])
  {
    mid := if e.latestSuccess.Some? then states[1] else states[0];
    if |EmitEntry(e)| == 1 && e.latestSuccess.Some? {
      OnceTimes(states[0], e.latest, states[1], e.latest.checkedAt);
    }
  }

  /** What one ingest does to the rows and to the pool row of an IP it names. */
  lemma IngestEffect(db: Db, raw: seq<CheckRow>, cutoff: int, ip: string) returns (mid: seq<StoredCheck>, version: nat)
    requires ip in Scan(raw).entries
    ensures
      var e, d, rows := Scan(raw).entries[ip], Write(db, Coalesce(raw), cutoff), Of(db.checks, ip);
      && ValidEntry(ip, e)
      && (if Passes(RowIn(db.pool, ip), e, cutoff) then EntryStored(rows, e, mid, Of(d.checks, ip)) else Of(d.checks, ip) == rows)
      && RowIn(d.pool, ip) == TouchRow(RowIn(db.pool, ip), e, Of(d.checks, ip), version, cutoff)
  {
    var coalesced, e := Coalesce(raw), Scan(raw).entries[ip];
    var inserted := InsertRows(db, coalesced, SuccessfulIPs(coalesced), cutoff);
    InsertKeepsPool(db, coalesced, SuccessfulIPs(coalesced), cutoff);
    CoalescedRowsOf(raw, ip);
    PassesIsRecorded(db, raw, cutoff, ip);
    mid := [];
    if Recorded(db, SuccessfulIPs(coalesced), ip, cutoff) {
      var states := InsertStates(db, coalesced, SuccessfulIPs(coalesced), cutoff, ip);
      mid := StatesOfEntry(e, states);
    } else {
      NotInserted(db, coalesced, SuccessfulIPs(coalesced), cutoff, ip);
    }
    TouchesFind(coalesced, ip);
    version := PoolBatchesRow(inserted, Touches(coalesced), cutoff, ip);
    ScanOfCoalesce(raw);
    ScanValid(raw);
  }

  /** No success of the entry has the time of its failure. */
  predicate Untied(e: Entry) {
    e.latest.ok || e.latestSuccess.None? || e.latestSuccess.value.checkedAt < e.latest.checkedAt
  }

  /** The latest result ties with the row and has the same outcome, or is newer than the row and no success ties with it. */
  predicate LastCheckFits(q: PoolRow, e: Entry) {
    || (e.latest.checkedAt == q.lastCheckedAt && e.latest.ok == q.lastCheckOk)
    || (e.latest.checkedAt > q.lastCheckedAt && Untied(e))
  }

  /** The success is newer than the row's last check, or it is the last success again; without one, its time is stored. */
  ghost predicate SuccessFits(q: PoolRow, e: Entry, rows: seq<StoredCheck>) {
    match e.latestSuccess
    case None => true
    case Some(s) =>
      || s.checkedAt > q.lastCheckedAt
      || (if HasOk(rows) then s.checkedAt == q.lastSeen && s.rttMs.GetOr(0) == q.lastRttMs else HasTime(rows, s.checkedAt))
  }

  /** The entry s, l with its success: hs and hl say which of the two times are stored. */
  lemma SuccessShows(ip: string, q: PoolRow, g: Digest, s: CheckRow, l: CheckRow, hs: bool, hl: bool, d: PoolRow)
    requires Known(ip, q, g) && KnownTime(q, g, s.checkedAt, hs) && KnownTime(q, g, l.checkedAt, hl)
    requires s.ok && s.checkedAt <= l.checkedAt && (l.ok ==> s == l)
    requires var at, again := q.lastCheckedAt, hl || l.checkedAt == s.checkedAt;
             d == q.(scanMode := s.scanMode, lastSeen := s.checkedAt, lastRttMs := s.rttMs.GetOr(0), timesSeen := q.timesSeen + 1,
                     lastCheckedAt := l.checkedAt, lastCheckOk := l.ok, revision := d.revision,
                     historyCount := q.historyCount + (if !hs && s.checkedAt > at then 1 else 0) + (if !again && l.checkedAt > at then 1 else 0))
    ensures
      var g1 := if hs then g else Plus(g, s);
      var g2 := if hl || l.checkedAt == s.checkedAt then g1 else Plus(g1, l);
      var fits := (l.checkedAt == q.lastCheckedAt && l.ok == q.lastCheckOk) || (l.checkedAt > q.lastCheckedAt && (l.ok || s.checkedAt < l.checkedAt));
      var same := if g.okNewest.Some? then s.checkedAt == q.lastSeen && s.rttMs.GetOr(0) == q.lastRttMs else hs;
      && (ShowsLastCheck(d, g2) <==> fits)
      && (Shows(ip, d, g2) <==> fits && (s.checkedAt > q.lastCheckedAt || same))
  {
    var g1 := if hs then g else Plus(g, s);
    var g2 := if hl || l.checkedAt == s.checkedAt then g1 else Plus(g1, l);
    assert g1.newest.Some? && g2.newest.Some?;
    if s.checkedAt > q.lastCheckedAt {
      assert g2.okNewest == Some(s);
    } else if hs {
      assert g1 == g;
      assert g2.okNewest == g.okNewest;
    } else {
      assert d.historyCount != g2.count;
    }
  }

  lemma FailureShows(ip: string, q: PoolRow, g: Digest, l: CheckRow, hl: bool, d: PoolRow)
    requires Known(ip, q, g) && KnownTime(q, g, l.checkedAt, hl) && !l.ok
    requires d == q.(lastCheckedAt := l.checkedAt, lastCheckOk := false, revision := d.revision,
                     historyCount := q.historyCount + (if !hl && l.checkedAt > q.lastCheckedAt then 1 else 0))
    ensures
      var g1 := if hl then g else Plus(g, l);
      var fits := (l.checkedAt == q.lastCheckedAt && l.ok == q.lastCheckOk) || l.checkedAt > q.lastCheckedAt;
      (ShowsLastCheck(d, g1) <==> fits) && (Shows(ip, d, g1) <==> fits)
  {
  }

  lemma IngestShowsFailure(ip: string, rows: seq<StoredCheck>, q: PoolRow, e: Entry, rows': seq<StoredCheck>, version: nat, cutoff: int)
    requires Agrees(ip, rows, Some(q)) && ValidEntry(ip, e) && Passes(Some(q), e, cutoff)
    requires e.latestSuccess.None? && StoredOnce(rows, e.latest, rows')
    ensures
      var d, g := TouchRow(Some(q), e, rows', version, cutoff).value, DigestOf(rows');
      (ShowsLastCheck(d, g) <==> LastCheckFits(q, e)) && (Shows(ip, d, g) <==> LastCheckFits(q, e))
  {
    Agreed(ip, rows, q);
    AgreedTime(ip, rows, q, e.latest.checkedAt);
    OnceDigest(rows, e.latest, rows', q.lastCheckedAt);
    FailureShows(ip, q, DigestOf(rows), e.latest, HasTime(rows, e.latest.checkedAt), TouchRow(Some(q), e, rows', version, cutoff).value);
  }

  lemma TwiceRows(rows: seq<StoredCheck>, s: CheckRow, l: CheckRow, mid: seq<StoredCheck>, rows': seq<StoredCheck>)
    requires StoredOnce(rows, s, mid) && StoredOnce(mid, l, rows')
    ensures
      var again := HasTime(rows, l.checkedAt) || l.checkedAt == s.checkedAt;
      var g1 := if HasTime(rows, s.checkedAt) then DigestOf(rows) else Plus(DigestOf(rows), s);
      DigestOf(rows') == if again then g1 else Plus(g1, l)
  {
    OnceDigest(rows, s, mid, 0);
    OnceTimes(rows, s, mid, l.checkedAt);
    OnceDigest(mid, l, rows', 0);
  }

  /** The digest and the count of new rows after a success s and a latest result l. */
  lemma TwiceDigest(rows: seq<StoredCheck>, s: CheckRow, l: CheckRow, mid: seq<StoredCheck>, rows': seq<StoredCheck>, at: int)
    requires StoredOnce(rows, s, mid) && StoredOnce(mid, l, rows') && CountAfter(rows, at) == 0
    ensures
      var hs, again := HasTime(rows, s.checkedAt), HasTime(rows, l.checkedAt) || l.checkedAt == s.checkedAt;
      var g1 := if hs then DigestOf(rows) else Plus(DigestOf(rows), s);
      && DigestOf(rows') == (if again then g1 else Plus(g1, l))
      && CountAfter(rows', at) == (if !hs && s.checkedAt > at then 1 else 0) + (if !again && l.checkedAt > at then 1 else 0)
  {
    OnceDigest(rows, s, mid, at);
    OnceTimes(rows, s, mid, l.checkedAt);
    OnceDigest(mid, l, rows', at);
  }

  lemma SuccessTouched(q: PoolRow, e: Entry, rows: seq<StoredCheck>, version: nat, cutoff: int)
    requires e.latestSuccess.Some?
    ensures var s, l := e.latestSuccess.value, e.latest;
            TouchRow(Some(q), e, rows, version, cutoff) ==
            Some(q.(scanMode := s.scanMode, lastSeen := s.checkedAt, lastRttMs := s.rttMs.GetOr(0), timesSeen := q.timesSeen + 1,
                    lastCheckedAt := l.checkedAt, lastCheckOk := l.ok, revision := version,
                    historyCount := q.historyCount + CountAfter(rows, q.lastCheckedAt)))
  {
  }

  lemma IngestShowsSuccess(ip: string, rows: seq<StoredCheck>, q: PoolRow, e: Entry, mid: seq<StoredCheck>, rows': seq<StoredCheck>,
                           d: PoolRow, version: nat, cutoff: int)
    requires Agrees(ip, rows, Some(q)) && ValidEntry(ip, e) && e.latestSuccess.Some? && EntryStored(rows, e, mid, rows')
    requires Some(d) == TouchRow(Some(q), e, rows', version, cutoff)
    ensures ShowsLastCheck(d, DigestOf(rows')) <==> LastCheckFits(q, e)
    ensures Shows(ip, d, DigestOf(rows')) <==> LastCheckFits(q, e) && SuccessFits(q, e, rows)
  {
    var s, l, at := e.latestSuccess.value, e.latest, q.lastCheckedAt;
    Agreed(ip, rows, q);
    AgreedTime(ip, rows, q, s.checkedAt);
    AgreedTime(ip, rows, q, l.checkedAt);
    TwiceDigest(rows, s, l, mid, rows', at);
    SuccessTouched(q, e, rows', version, cutoff);
    SuccessShows(ip, q, DigestOf(rows), s, l, HasTime(rows, s.checkedAt), HasTime(rows, l.checkedAt), d);
  }

  /**
   * An ingest of a pool IP, whatever the order of arrival, leaves the pool row matching the view if and only if the
   * batch only failed and was gated out, or its latest result fits the row's last check (src/store.ts:143-176) and it
   * has no success that is out of date. The last-check columns alone need only the former.
   */
  lemma IngestNeedsOrder(db: Db, raw: seq<CheckRow>, cutoff: int, ip: string)
    requires AgreesAt(db, ip) && ip in db.pool && ip in Scan(raw).entries
    ensures
      var d, q, e := Write(db, Coalesce(raw), cutoff), db.pool[ip], Scan(raw).entries[ip];
      var gated := !Passes(RowIn(db.pool, ip), e, cutoff);
      && ip in d.pool
      && (ShowsLastCheck(d.pool[ip], DigestOf(Of(d.checks, ip))) <==> gated || LastCheckFits(q, e))
      && (Matches(ip, Of(d.checks, ip), RowIn(d.pool, ip)) <==> gated || (LastCheckFits(q, e) && SuccessFits(q, e, Of(db.checks, ip))))
  {
    var d, rows, q, e := Write(db, Coalesce(raw), cutoff), Of(db.checks, ip), db.pool[ip], Scan(raw).entries[ip];
    var mid, version := IngestEffect(db, raw, cutoff, ip);
    if !Passes(RowIn(db.pool, ip), e, cutoff) {
      Agreed(ip, rows, q);
    } else if e.latestSuccess.Some? {
      IngestShowsSuccess(ip, rows, q, e, mid, Of(d.checks, ip), d.pool[ip], version, cutoff);
    } else {
      IngestShowsFailure(ip, rows, q, e, Of(d.checks, ip), version, cutoff);
    }
    MatchesIsShows(ip, Of(d.checks, ip), d.pool[ip]);
  }

  /** The digest g holds only failures, and d is the new pool row for s and l. */
  lemma EntryShows(ip: string, g: Digest, s: CheckRow, l: CheckRow, hs: bool, hl: bool, d: PoolRow)
    requires g.okCount == 0 && g.okNewest.None? && g.okOldest.None? && (g.newest.None? ==> !hs && !hl) && (g.newest.Some? ==> !g.newest.value.ok)
    requires g.newest.Some? ==> (hs ==> s.checkedAt <= g.newest.value.checkedAt) && (s.checkedAt == g.newest.value.checkedAt ==> hs)
    requires g.newest.Some? ==> (hl ==> l.checkedAt <= g.newest.value.checkedAt) && (l.checkedAt == g.newest.value.checkedAt ==> hl)
    requires s.ok && s.checkedAt <= l.checkedAt && (l.ok ==> s == l)
    requires var again := hl || l.checkedAt == s.checkedAt;
             var count := g.count + (if hs then 0 else 1) + (if again then 0 else 1);
             d == PoolRow(IsIPv6(ip), s.scanMode, s.checkedAt, s.checkedAt, s.rttMs.GetOr(0), 1, l.checkedAt, l.ok, d.revision, count, None)
    ensures
      var g1 := if hs then g else Plus(g, s);
      var g2 := if hl || l.checkedAt == s.checkedAt then g1 else Plus(g1, l);
      var tied := g.newest.Some? && l.checkedAt == g.newest.value.checkedAt && !l.ok;
      var newer := (g.newest.None? || l.checkedAt > g.newest.value.checkedAt) && (l.ok || s.checkedAt < l.checkedAt);
      && (ShowsLastCheck(d, g2) <==> tied || newer)
      && (Shows(ip, d, g2) <==> (tied || newer) && (!hs || g.count + (if hl then 0 else 1) >= CHECK_HISTORY_RETENTION))
  {
  }

  /** A time among rows that all failed. */
  lemma FailedTime(rows: seq<StoredCheck>, at: int)
    requires !HasOk(rows)
    ensures
      var g := DigestOf(rows);
      && g.okCount == 0 && g.okNewest.None? && g.okOldest.None?
      && (g.newest.None? ==> !HasTime(rows, at))
      && (g.newest.Some? ==>
            && !g.newest.value.ok
            && (HasTime(rows, at) ==> at <= g.newest.value.checkedAt) && (at == g.newest.value.checkedAt ==> HasTime(rows, at)))
  {
    OkRowsNonempty(rows);
    if rows != [] {
      Bounds(rows);
    }
  }

  /**
   * The same for an IP that enters the pool with the batch: its history, if it has one, holds only failures. A success
   * whose time one of them has taken is not stored, which is right only for a full history that awaits eviction.
   */
  lemma EntryNeedsOrder(db: Db, raw: seq<CheckRow>, cutoff: int, ip: string)
    requires AgreesAt(db, ip) && ip !in db.pool && ip in Scan(raw).entries && Scan(raw).entries[ip].latestSuccess.Some?
    ensures
      var d, e, rows := Write(db, Coalesce(raw), cutoff), Scan(raw).entries[ip], Of(db.checks, ip);
      var newest, s, l := NewestRow(rows), e.latestSuccess.value, e.latest;
      var fits := || (newest.Some? && l.checkedAt == newest.value.checkedAt && !l.ok)
                  || ((newest.None? || l.checkedAt > newest.value.checkedAt) && Untied(e));
      var stored := !HasTime(rows, s.checkedAt) || |rows| + (if HasTime(rows, l.checkedAt) then 0 else 1) >= CHECK_HISTORY_RETENTION;
      && ip in d.pool
      && (ShowsLastCheck(d.pool[ip], DigestOf(Of(d.checks, ip))) <==> fits)
      && (Matches(ip, Of(d.checks, ip), RowIn(d.pool, ip)) <==> fits && stored)
  {
    var d, rows, e := Write(db, Coalesce(raw), cutoff), Of(db.checks, ip), Scan(raw).entries[ip];
    var mid, version := IngestEffect(db, raw, cutoff, ip);
    var s, l := e.latestSuccess.value, e.latest;
    FailedTime(rows, s.checkedAt);
    FailedTime(rows, l.checkedAt);
    TwiceRows(rows, s, l, mid, Of(d.checks, ip));
    EntryShows(ip, DigestOf(rows), s, l, HasTime(rows, s.checkedAt), HasTime(rows, l.checkedAt), d.pool[ip]);
    MatchesIsShows(ip, Of(d.checks, ip), d.pool[ip]);
  }

  /**
   * coalesceCheckRows may emit a success and then a failure of the same time; the unique index keeps only the success
   * while the pool row takes the failure. With everything stored older, agreement holds if and only if the two times
   * differ.
   */
  lemma TiedOutcomes(db: Db, rows: seq<CheckRow>, cutoff: int, ip: string)
    requires AgreesAt(db, ip) && ip in Scan(rows).entries
    requires var e := Scan(rows).entries[ip]; e.latestSuccess.Some? && !e.latest.ok
    requires forall c <- Of(db.checks, ip) :: c.row.checkedAt < Scan(rows).entries[ip].latestSuccess.value.checkedAt
    ensures AgreesAt(Write(db, Coalesce(rows), cutoff), ip) <==> Untied(Scan(rows).entries[ip])
  {
    var e := Scan(rows).entries[ip];
    ScanValid(rows);
    if Untied(e) {
      CoalescedRowsOf(rows, ip);
      WriteAt(db, rows, cutoff, ip);
    } else {
      if Of(db.checks, ip) != [] {
        Bounds(Of(db.checks, ip));
      }
      if ip in db.pool {
        IngestNeedsOrder(db, rows, cutoff, ip);
      } else {
        EntryNeedsOrder(db, rows, cutoff, ip);
      }
    }
  }

  // ---------- A late check and the history version ----------

  lemma {:induction false} RetainedMembers(checks: seq<StoredCheck>, all: seq<StoredCheck>, ips: set<string>)
    ensures forall c :: c in Retained(checks, all, ips) <==>
                        c in checks && !(c.row.ip in ips && RowNumber(Of(all, c.row.ip), c) > CHECK_HISTORY_RETENTION)
  {
    if checks != [] {
      var n := |checks| - 1;
      RetainedMembers(checks[..n], all, ips);
      assert checks == checks[..n] + [checks[n]];
    }
  }

  /** Whether the deletion takes the row that came last. */
  lemma LateRowKept(checks: seq<StoredCheck>, x: StoredCheck)
    requires !HasTime(Of(checks, x.row.ip), x.row.checkedAt)
    ensures
      var kept := Retained(checks + [x], checks + [x], {x.row.ip});
      && (x in kept <==> CountAfter(Of(checks, x.row.ip), x.row.checkedAt) < CHECK_HISTORY_RETENTION)
      && forall c <- kept :: c in checks + [x]
  {
    var rows := Of(checks, x.row.ip);
    OfAppendOne(checks, x, x.row.ip);
    CountNewerIsAfter(rows, x);
    assert (rows + [x])[..|rows|] == rows;
    RetainedMembers(checks + [x], checks + [x], {x.row.ip});
  }

  /** Among these rows only x can have the id of x, and no id is larger. */
  ghost predicate LastId(checks: seq<StoredCheck>, x: StoredCheck) {
    forall c <- checks :: c.id < x.id || c == x
  }

  lemma MaxIdWith(checks: seq<StoredCheck>, x: StoredCheck)
    requires LastId(checks, x) && x.id > 0
    ensures if x in checks then MaxId(checks) == x.id else MaxId(checks) < x.id
  {
    MaxIdBounds(checks);
  }

  lemma MaxIdOf(checks: seq<StoredCheck>, x: StoredCheck)
    requires LastId(checks, x) && x.id > 0
    ensures if x in checks then MaxId(checks) == MaxId(Of(checks, x.row.ip)) == x.id
            else MaxId(checks) < x.id && MaxId(Of(checks, x.row.ip)) < x.id
  {
    OfMembers(checks, x.row.ip);
    MaxIdWith(checks, x);
    MaxIdWith(Of(checks, x.row.ip), x);
  }

  /** The deletion takes the row that came last, and its id is free again, if and only if 300 stored rows are newer. */
  lemma DeletionTakesLast(checks: seq<StoredCheck>, x: StoredCheck)
    requires !HasTime(Of(checks, x.row.ip), x.row.checkedAt) && x.id == MaxId(checks) + 1
    ensures
      var ip, all := x.row.ip, checks + [x];
      var kept, full := Retained(all, all, {ip}), CountAfter(Of(checks, ip), x.row.checkedAt) >= CHECK_HISTORY_RETENTION;
      && MaxId(Of(checks, ip)) < MaxId(Of(all, ip)) == MaxId(all) == x.id
      && (MaxId(Of(kept, ip)) < x.id <==> full)
      && (MaxId(kept) < x.id <==> full)
  {
    var all := checks + [x];
    MaxIdBounds(checks);
    LateRowKept(checks, x);
    MaxIdOf(checks, x);
    MaxIdOf(all, x);
    MaxIdOf(Retained(all, all, {x.row.ip}), x);
  }

  /** What the pruning of one on-demand request leaves of ip_checks. */
  lemma PrunedChecks(db: Db, ip: string)
    ensures PrunePrefix(db, Distinct([ip]), 2).checks ==
            if ip in db.pool && db.pool[ip].historyCount > CHECK_HISTORY_RETENTION then Retained(db.checks, db.checks, {ip}) else db.checks
  {
    assert [ip][..0] == [] && Distinct([ip]) == [ip] && [ip][..1] == [ip] && [ip][1..] == [];
    assert ToSet([ip]) == {ip};
    assert ip in OverLimit(db, {ip}) ==> OverLimit(db, {ip}) == {ip};
    assert PrunePrefix(db, [ip], 2) == PruneEvict(PruneDelete(db, {ip}), {ip});
  }

  /** A new row is counted only if it is newer than the last check. */
  lemma NewRowCounted(ip: string, rows: seq<StoredCheck>, q: PoolRow, x: StoredCheck)
    requires Agrees(ip, rows, Some(q))
    ensures q.historyCount + CountAfter(rows + [x], q.lastCheckedAt) == |rows| + (if x.row.checkedAt > q.lastCheckedAt then 1 else 0)
    ensures x.row.checkedAt > q.lastCheckedAt ==> CountAfter(rows, x.row.checkedAt) == 0
  {
    NewestBounds(rows);
    CountAfterNone(rows, q.lastCheckedAt);
    CountAfterOne(rows, x, q.lastCheckedAt);
    if x.row.checkedAt > q.lastCheckedAt {
      CountAfterNone(rows, x.row.checkedAt);
    }
  }

  lemma ProbeChecks(db: Db, p: Probe)
    requires p.ip in db.pool && !HasTime(Of(db.checks, p.ip), p.checkedAt)
    ensures UpdatePoolForCheck(SaveRecheckResult(db, p), p).checks == db.checks + [StoredCheck(MaxId(db.checks) + 1, ProbeRow(p))]
  {
  }

  /** The history_count that decides whether the pruning of a probe's request deletes. */
  lemma ProbeCount(db: Db, p: Probe)
    requires p.ip in db.pool && !HasTime(Of(db.checks, p.ip), p.checkedAt)
    ensures
      var w, x := UpdatePoolForCheck(SaveRecheckResult(db, p), p), StoredCheck(MaxId(db.checks) + 1, ProbeRow(p));
      && p.ip in w.pool
      && w.pool[p.ip].historyCount == db.pool[p.ip].historyCount + CountAfter(Of(db.checks, p.ip) + [x], db.pool[p.ip].lastCheckedAt)
  {
    OfAppendOne(db.checks, StoredCheck(MaxId(db.checks) + 1, ProbeRow(p)), p.ip);
    ProbeChecks(db, p);
    var version := ProbeEffect(db, p);
  }

  /** After an insert of x, and a deletion if there is one. */
  lemma VersionGivenBack(checks: seq<StoredCheck>, x: StoredCheck, inserted: seq<StoredCheck>, left: seq<StoredCheck>, deletes: bool)
    requires !HasTime(Of(checks, x.row.ip), x.row.checkedAt) && x.id == MaxId(checks) + 1
    requires inserted == checks + [x] && left == if deletes then Retained(inserted, inserted, {x.row.ip}) else inserted
    ensures
      var back := deletes && CountAfter(Of(checks, x.row.ip), x.row.checkedAt) >= CHECK_HISTORY_RETENTION;
      && MaxId(Of(checks, x.row.ip)) < MaxId(Of(inserted, x.row.ip))
      && (MaxId(Of(left, x.row.ip)) < MaxId(Of(inserted, x.row.ip)) <==> back)
      && (MaxId(left) < MaxId(inserted) <==> back)
  {
    DeletionTakesLast(checks, x);
  }

  /** Whether that pruning deletes. */
  lemma ProbeDeletes(db: Db, p: Probe)
    requires AgreesAt(db, p.ip) && p.ip in db.pool && !HasTime(Of(db.checks, p.ip), p.checkedAt)
    ensures
      var w, rows := UpdatePoolForCheck(SaveRecheckResult(db, p), p), Of(db.checks, p.ip);
      && p.ip in w.pool
      && (w.pool[p.ip].historyCount > CHECK_HISTORY_RETENTION && CountAfter(rows, p.checkedAt) >= CHECK_HISTORY_RETENTION <==>
          |rows| > CHECK_HISTORY_RETENTION && CountAfter(rows, p.checkedAt) >= CHECK_HISTORY_RETENTION)
  {
    ProbeCount(db, p);
    NewRowCounted(p.ip, Of(db.checks, p.ip), db.pool[p.ip], StoredCheck(MaxId(db.checks) + 1, ProbeRow(p)));
  }

  /** The tables w after the writes of a probe, and d after its pruning. */
  ghost predicate ProbePruned(db: Db, w: Db, d: Db, p: Probe) {
    && w.checks == db.checks + [StoredCheck(MaxId(db.checks) + 1, ProbeRow(p))]
    && p.ip in w.pool
    && d.checks == if w.pool[p.ip].historyCount > CHECK_HISTORY_RETENTION then Retained(w.checks, w.checks, {p.ip}) else w.checks
  }

  lemma RequestPrunes(db: Db, p: Probe)
    requires p.ip in db.pool && !HasTime(Of(db.checks, p.ip), p.checkedAt)
    ensures Written(db, OnDemand(p, 2)) == UpdatePoolForCheck(SaveRecheckResult(db, p), p)
    ensures ProbePruned(db, Written(db, OnDemand(p, 2)), Handle(db, OnDemand(p, 2)), p)
  {
    ProbeChecks(db, p);
    ProbeCount(db, p);
    PrunedChecks(Written(db, OnDemand(p, 2)), p.ip);
  }

  lemma PrunedGivesBack(db: Db, w: Db, d: Db, p: Probe, back: bool)
    requires ProbePruned(db, w, d, p) && !HasTime(Of(db.checks, p.ip), p.checkedAt)
    requires back <==> w.pool[p.ip].historyCount > CHECK_HISTORY_RETENTION && CountAfter(Of(db.checks, p.ip), p.checkedAt) >= CHECK_HISTORY_RETENTION
    ensures CheckHistory.HistoryVersion(db, p.ip) < CheckHistory.HistoryVersion(w, p.ip)
    ensures CheckHistory.HistoryVersion(d, p.ip) < CheckHistory.HistoryVersion(w, p.ip) <==> back
    ensures MaxId(d.checks) < MaxId(w.checks) <==> back
  {
    var x := StoredCheck(MaxId(db.checks) + 1, ProbeRow(p));
    VersionGivenBack(db.checks, x, w.checks, d.checks, w.pool[p.ip].historyCount > CHECK_HISTORY_RETENTION);
  }

  /**
   * MAX(id) is no version without in-order arrival (src/store.ts:194-258): a probe of a pool IP gets a new id, and the
   * pruning of the same request takes that very row, so that the history version falls back and the id is given out
   * again, if and only if more than 300 rows of the IP are stored and 300 of them are newer.
   */
  lemma IdGivenBack(db: Db, p: Probe)
    requires AgreesAt(db, p.ip) && p.ip in db.pool && !HasTime(Of(db.checks, p.ip), p.checkedAt)
    ensures
      var w, d, rows := Written(db, OnDemand(p, 2)), Handle(db, OnDemand(p, 2)), Of(db.checks, p.ip);
      var back := |rows| > CHECK_HISTORY_RETENTION && CountAfter(rows, p.checkedAt) >= CHECK_HISTORY_RETENTION;
      && CheckHistory.HistoryVersion(db, p.ip) < CheckHistory.HistoryVersion(w, p.ip)
      && (CheckHistory.HistoryVersion(d, p.ip) < CheckHistory.HistoryVersion(w, p.ip) <==> back)
      && (MaxId(d.checks) < MaxId(w.checks) <==> back)
  {
    var rows := Of(db.checks, p.ip);
    var back := |rows| > CHECK_HISTORY_RETENTION && CountAfter(rows, p.checkedAt) >= CHECK_HISTORY_RETENTION;
    RequestPrunes(db, p);
    ProbeDeletes(db, p);
    PrunedGivesBack(db, Written(db, OnDemand(p, 2)), Handle(db, OnDemand(p, 2)), p, back);
  }

  /**
   * The same for every writer: a pruning makes the history version of ip fall back if and only if it deletes rows of
   * ip and the row that came last is not among the newest 300.
   */
  lemma VersionFallsBack(db: Db, ips: set<string>, ip: string)
    requires var rows := Of(db.checks, ip); Climbs(rows) && rows != [] && rows[|rows| - 1].id > 0
    ensures
      var rows := Of(db.checks, ip);
      CheckHistory.HistoryVersion(PruneDelete(db, ips), ip) < CheckHistory.HistoryVersion(db, ip) <==>
      ip in OverLimit(db, ips) && RowNumber(rows, rows[|rows| - 1]) > CHECK_HISTORY_RETENTION
  {
    var rows := Of(db.checks, ip);
    OfRetained(db.checks, db.checks, OverLimit(db, ips), ip);
    MaxIdOfClimbing(rows);
    if ip in OverLimit(db, ips) {
      RetainedRowsMembers(rows, rows);
      MaxIdWith(RetainedRows(rows, rows), rows[|rows| - 1]);
    }
  }
}
