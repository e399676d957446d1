/**
 * One ingest, submitted until it succeeds: attempts that stop after any committed prefix, and the one that completes
 * (functions/ingest.ts:92-102, internal/scan/flush.go:171-206). For each IP, what the attempts together leave.
 */
module Retries {
  import opened Prelude
  import opened CheckRows
  import opened Store
  import opened PoolView
  import opened PoolAgreement
  import opened PoolRuns

  /** functions/ingest.ts:92-102 for rows that coalesce has already reduced. */
  function Write(db: Db, coalesced: seq<CheckRow>, cutoff: int): Db {
    UpdatePool(InsertRows(db, coalesced, SuccessfulIPs(coalesced), cutoff), coalesced, cutoff)
  }

  /** An attempt that stopped: its clock reading, the insert statements and the pool statements it committed. */
  datatype Attempt = Attempt(cutoff: int, inserts: nat, touches: nat)

  /** Pool statements come after all inserts. Batch boundaries are the special case of chunk borders. */
  function Attempted(db: Db, coalesced: seq<CheckRow>, a: Attempt): Db {
    if a.inserts < |coalesced| then InsertRows(db, coalesced[..a.inserts], SuccessfulIPs(coalesced), a.cutoff)
    else
      PoolBatches(InsertRows(db, coalesced, SuccessfulIPs(coalesced), a.cutoff),
                  Touches(coalesced)[..Min(a.touches, |Touches(coalesced)|)], a.cutoff)
  }

  function AttemptAll(db: Db, coalesced: seq<CheckRow>, attempts: seq<Attempt>): Db {
    if attempts == [] then db
    else Attempted(AttemptAll(db, coalesced, attempts[..|attempts| - 1]), coalesced, attempts[|attempts| - 1])
  }

  /** The server's clock does not go back from one attempt to the next. */
  ghost predicate Forward(attempts: seq<Attempt>, cutoff: int) {
    attempts != [] ==>
      var last := attempts[|attempts| - 1];
      last.cutoff <= cutoff && Forward(attempts[..|attempts| - 1], last.cutoff)
  }

  /** The attempt committed the pool statement of ip. */
  predicate Reaches(coalesced: seq<CheckRow>, a: Attempt, ip: string) {
    a.inserts >= |coalesced| && Find(Touches(coalesced)[..Min(a.touches, |Touches(coalesced)|)], ip).Some?
  }

  predicate Reached(coalesced: seq<CheckRow>, attempts: seq<Attempt>, ip: string) {
    exists a <- attempts :: Reaches(coalesced, a, ip)
  }

  /** An earlier attempt has already counted the success of ip in times_seen. */
  predicate CountedAgain(raw: seq<CheckRow>, attempts: seq<Attempt>, ip: string) {
    ip in Scan(raw).entries && Scan(raw).entries[ip].latestSuccess.Some? && Reached(Coalesce(raw), attempts, ip)
  }

  // ---------- One IP ----------

  lemma {:induction false} RowsOfMembers(rows: seq<CheckRow>, ip: string)
    ensures forall r :: r in RowsOf(rows, ip) <==> r in rows && r.ip == ip
  {
    if rows != [] {
      RowsOfMembers(rows[..|rows| - 1], ip);
      assert rows == rows[..|rows| - 1] + [rows[|rows| - 1]];
    }
  }

  lemma SuccessfulMeans(rows: seq<CheckRow>, ip: string)
    ensures ip in SuccessfulIPs(Coalesce(rows)) <==> ip in Scan(rows).entries && Scan(rows).entries[ip].latestSuccess.Some?
  {
    CoalescedRowsOf(rows, ip);
    RowsOfMembers(Coalesce(rows), ip);
    ScanValid(rows);
    if ip in Scan(rows).entries {
      var e := Scan(rows).entries[ip];
      if e.latestSuccess.Some? {
        assert EmitEntry(e)[0] in EmitEntry(e);
      }
    }
  }

  ghost predicate MembersHaveSuccess(rows: seq<StoredCheck>, p: Option<PoolRow>) {
    p.Some? ==> HasOk(rows)
  }

  /** A step on the rows and the pool row of ip keeps agreement, membership by success, and, if once, freedom from drift. */
  ghost predicate Keeps(ip: string, rows: seq<StoredCheck>, p: Option<PoolRow>, rows': seq<StoredCheck>, p': Option<PoolRow>, once: bool) {
    && Agrees(ip, rows', p')
    && (MembersHaveSuccess(rows, p) ==> MembersHaveSuccess(rows', p'))
    && (once && MembersHaveSuccess(rows, p) && Exact(rows, p) ==> Exact(rows', p'))
  }

  ghost predicate KeepsAt(db: Db, d: Db, ip: string, once: bool) {
    Keeps(ip, Of(db.checks, ip), RowIn(db.pool, ip), Of(d.checks, ip), RowIn(d.pool, ip), once)
  }

  lemma HasOkStays(rows: seq<StoredCheck>, added: seq<StoredCheck>)
    ensures HasOk(rows) ==> HasOk(rows + added)
  {
    if HasOk(rows) {
      var c :| c in rows && c.row.ok;
      assert c in rows + added;
    }
  }

  /** Whether the rows and the pool statement of this entry pass the gate. */
  predicate Passes(old_: Option<PoolRow>, e: Entry, cutoff: int) {
    e.latestSuccess.Some? || (old_.Some? && (old_.value.lastCheckOk || old_.value.lastCheckedAt < cutoff))
  }

  lemma PassesIsRecorded(d: Db, raw: seq<CheckRow>, cutoff: int, ip: string)
    requires ip in Scan(raw).entries
    ensures Recorded(d, SuccessfulIPs(Coalesce(raw)), ip, cutoff) <==> Passes(RowIn(d.pool, ip), Scan(raw).entries[ip], cutoff)
  {
    SuccessfulMeans(raw, ip);
  }

  /** No pool statement of the IP has run. Some of its new rows may be stored. */
  ghost predicate Waiting(stored: seq<StoredCheck>, old_: Option<PoolRow>, rows: seq<StoredCheck>, p: Option<PoolRow>, e: Entry, cutoff: int) {
    && p == old_
    && stored <= rows && PartStored(rows, stored, EmitEntry(e), |rows| - |stored|)
    && (rows != stored ==> Passes(old_, e, cutoff))
  }

  /** The pool row p that old_ became by the rows of an entry; times_seen may have counted a success again unless once. */
  ghost predicate Taken(old_: Option<PoolRow>, p: PoolRow, e: Entry, once: bool) {
    && p.lastCheckedAt == e.latest.checkedAt && p.lastCheckOk == e.latest.ok
    && match e.latestSuccess
       case Some(s) =>
         && p.scanMode == s.scanMode && p.lastSeen == s.checkedAt && p.lastRttMs == s.rttMs.GetOr(0)
         && (match old_
             case Some(q) => p.firstSeen == q.firstSeen && p.ptrCheckedAt == q.ptrCheckedAt && p.timesSeen > q.timesSeen
             case None => p.firstSeen == s.checkedAt && p.ptrCheckedAt == None && p.timesSeen > 0)
         && (once ==> p.timesSeen == 1 + match old_ case Some(q) => q.timesSeen case None => 0)
       case None =>
         old_.Some? && p == old_.value.(lastCheckedAt := p.lastCheckedAt, lastCheckOk := p.lastCheckOk, revision := p.revision,
                                        historyCount := p.historyCount)
  }

  /** All new rows are stored, and the pool row agrees. Only a repeated success may have counted twice. */
  ghost predicate Done(ip: string, stored: seq<StoredCheck>, old_: Option<PoolRow>, rows: seq<StoredCheck>, p: Option<PoolRow>, e: Entry, once: bool) {
    && PartStored(rows, stored, EmitEntry(e), |EmitEntry(e)|)
    && p.Some? && Taken(old_, p.value, e, once)
    && Keeps(ip, stored, old_, rows, p, once || e.latestSuccess.None?)
  }

  /** The first pool statement of the IP. */
  lemma FirstTouch(ip: string, stored: seq<StoredCheck>, old_: Option<PoolRow>, rows: seq<StoredCheck>, e: Entry, version: nat, cutoff: int)
    requires Agrees(ip, stored, old_) && ValidEntry(ip, e) && Passes(old_, e, cutoff)
    requires PartStored(rows, stored, EmitEntry(e), |EmitEntry(e)|)
    ensures Done(ip, stored, old_, rows, TouchRow(old_, e, rows, version, cutoff), e, true)
  {
    var added := rows[|stored|..];
    assert rows == stored + added && EmitEntry(e)[..|EmitEntry(e)|] == EmitEntry(e);
    HasOkStays(stored, added);
    if e.latestSuccess.Some? {
      TouchSuccess(ip, stored, added, old_, e, version, cutoff);
      EntryAppended(stored, added, e);
      OkRowsNonempty(rows);
    } else {
      TouchFailure(ip, stored, added, old_, e, version, cutoff);
    }
  }

  /** The newest rows of an IP whose new rows are all stored. */
  lemma DoneNewest(ip: string, stored: seq<StoredCheck>, rows: seq<StoredCheck>, e: Entry)
    requires PartStored(rows, stored, EmitEntry(e), |EmitEntry(e)|) && ValidEntry(ip, e)
    ensures rows != [] && Newest(rows).row == e.latest && CountAfter(rows, e.latest.checkedAt) == 0
    ensures e.latestSuccess.Some? ==> HasOk(rows) && OkRows(rows) != [] && Newest(OkRows(rows)).row == e.latestSuccess.value
  {
    var added := rows[|stored|..];
    assert rows == stored + added && EmitEntry(e)[..|EmitEntry(e)|] == EmitEntry(e);
    EntryAppended(stored, added, e);
    NewestOfSorted(rows);
    NewestBounds(rows);
    CountAfterNone(rows, e.latest.checkedAt);
    if e.latestSuccess.Some? {
      SuccessColumns(stored, added, added[0]);
      OkRowsNonempty(rows);
    }
  }

  /** Every further one changes the revision and, for a success, times_seen. */
  lemma TouchAgain(ip: string, stored: seq<StoredCheck>, old_: Option<PoolRow>, rows: seq<StoredCheck>, p: Option<PoolRow>, e: Entry,
                   once: bool, version: nat, cutoff: int)
    requires ValidEntry(ip, e) && Done(ip, stored, old_, rows, p, e, once)
    ensures Done(ip, stored, old_, rows, TouchRow(p, e, rows, version, cutoff), e, false)
  {
    DoneNewest(ip, stored, rows, e);
    if e.latestSuccess.Some? {
      SuccessAgain(ip, rows, p, e, version, cutoff);
    } else {
      FailureAgain(ip, rows, p, e, version, cutoff);
    }
  }

  lemma SuccessAgain(ip: string, rows: seq<StoredCheck>, p: Option<PoolRow>, e: Entry, version: nat, cutoff: int)
    requires Agrees(ip, rows, p) && p.Some? && e.latestSuccess.Some? && rows != []
    requires p.value.lastCheckedAt == e.latest.checkedAt && p.value.lastCheckOk == e.latest.ok && CountAfter(rows, e.latest.checkedAt) == 0
    requires var s := e.latestSuccess.value;
             p.value.scanMode == s.scanMode && p.value.lastSeen == s.checkedAt && p.value.lastRttMs == s.rttMs.GetOr(0)
    ensures TouchRow(p, e, rows, version, cutoff) == Some(p.value.(timesSeen := p.value.timesSeen + 1, revision := version))
    ensures Agrees(ip, rows, TouchRow(p, e, rows, version, cutoff))
  {
  }

  lemma FailureAgain(ip: string, rows: seq<StoredCheck>, p: Option<PoolRow>, e: Entry, version: nat, cutoff: int)
    requires Agrees(ip, rows, p) && p.Some? && e.latestSuccess.None? && ValidEntry(ip, e)
    requires p.value.lastCheckedAt == e.latest.checkedAt && p.value.lastCheckOk == e.latest.ok && CountAfter(rows, e.latest.checkedAt) == 0
    ensures var q := TouchRow(p, e, rows, version, cutoff); q == p || q == Some(p.value.(revision := version))
    ensures Agrees(ip, rows, TouchRow(p, e, rows, version, cutoff))
  {
  }

  /** What one attempt does to ip: it stores at least the first k new rows, and runs the pool statement if it touches. */
  ghost predicate StepOf(rows: seq<StoredCheck>, p: Option<PoolRow>, rows': seq<StoredCheck>, p': Option<PoolRow>,
                         stored: seq<StoredCheck>, e: Entry, k: nat, touches: bool, version: nat, cutoff: int) {
    && rows <= rows'
    && (Passes(p, e, cutoff) ==> PartStored(rows', stored, EmitEntry(e), Max(|rows| - |stored|, k)))
    && (!Passes(p, e, cutoff) ==> rows' == rows)
    && (touches ==> k == |EmitEntry(e)|)
    && p' == if touches then TouchRow(p, e, rows', version, cutoff) else p
  }

  lemma StepWaiting(ip: string, stored: seq<StoredCheck>, old_: Option<PoolRow>, rows: seq<StoredCheck>, p: Option<PoolRow>, e: Entry, before: int,
                    rows': seq<StoredCheck>, p': Option<PoolRow>, k: nat, touches: bool, version: nat, cutoff: int)
    requires Agrees(ip, stored, old_) && ValidEntry(ip, e) && before <= cutoff
    requires Waiting(stored, old_, rows, p, e, before) && StepOf(rows, p, rows', p', stored, e, k, touches, version, cutoff)
    ensures
      || (Waiting(stored, old_, rows', p', e, cutoff) && (touches ==> rows' == stored && !Passes(old_, e, cutoff)))
      || (touches && Passes(old_, e, cutoff) && Done(ip, stored, old_, rows', p', e, true))
  {
    if Passes(old_, e, cutoff) && touches {
      FirstTouch(ip, stored, old_, rows', e, version, cutoff);
    }
  }

  lemma StepDone(ip: string, stored: seq<StoredCheck>, old_: Option<PoolRow>, rows: seq<StoredCheck>, p: Option<PoolRow>, e: Entry,
                 rows': seq<StoredCheck>, p': Option<PoolRow>, k: nat, touches: bool, version: nat, cutoff: int)
    requires ValidEntry(ip, e) && k <= |EmitEntry(e)|
    requires Done(ip, stored, old_, rows, p, e, false) && StepOf(rows, p, rows', p', stored, e, k, touches, version, cutoff)
    ensures Done(ip, stored, old_, rows', p', e, false)
  {
    assert rows' == rows;
    if touches {
      TouchAgain(ip, stored, old_, rows, p, e, false, version, cutoff);
    }
  }

  // ---------- The tables ----------

  lemma RowsOfTake(rows: seq<CheckRow>, m: nat, ip: string)
    requires m <= |rows|
    ensures RowsOf(rows[..m], ip) <= RowsOf(rows, ip)
  {
    RowsOfAppend(rows[..m], rows[m..], ip);
    assert rows == rows[..m] + rows[m..];
  }

  /** What one attempt does to the rows and the pool row of one IP of the batch. */
  lemma AttemptStep(d: Db, raw: seq<CheckRow>, a: Attempt, ip: string, stored: seq<StoredCheck>) returns (k: nat, version: nat)
    requires ip in Scan(raw).entries
    requires var e := Scan(raw).entries[ip];
             && |stored| <= |Of(d.checks, ip)|
             && (Passes(RowIn(d.pool, ip), e, a.cutoff) ==>
                   InOrderRows(stored, EmitEntry(e)) && PartStored(Of(d.checks, ip), stored, EmitEntry(e), |Of(d.checks, ip)| - |stored|))
    ensures
      var e, u := Scan(raw).entries[ip], Attempted(d, Coalesce(raw), a);
      && k <= |EmitEntry(e)|
      && StepOf(Of(d.checks, ip), RowIn(d.pool, ip), Of(u.checks, ip), RowIn(u.pool, ip), stored, e, k,
                Reaches(Coalesce(raw), a, ip), version, a.cutoff)
  {
    var coalesced := Coalesce(raw);
    var taken := if a.inserts < |coalesced| then coalesced[..a.inserts] else coalesced;
    var inserted := InsertRows(d, taken, SuccessfulIPs(coalesced), a.cutoff);
    CoalescedRowsOf(raw, ip);
    ScanOfCoalesce(raw);
    RowsOfTake(coalesced, |taken|, ip);
    assert coalesced[..|coalesced|] == coalesced;
    k := |RowsOf(taken, ip)|;
    PassesIsRecorded(d, raw, a.cutoff, ip);
    InsertKeepsPool(d, taken, SuccessfulIPs(coalesced), a.cutoff);
    if Recorded(d, SuccessfulIPs(coalesced), ip, a.cutoff) {
      InsertedAgain(d, taken, SuccessfulIPs(coalesced), a.cutoff, ip, stored, EmitEntry(Scan(raw).entries[ip]), |Of(d.checks, ip)| - |stored|);
    } else {
      NotInserted(d, taken, SuccessfulIPs(coalesced), a.cutoff, ip);
    }
    version := 0;
    if a.inserts >= |coalesced| {
      var j := Min(a.touches, |Touches(coalesced)|);
      TouchesFind(coalesced, ip);
      PrefixFind(Touches(coalesced), j, ip);
      version := PoolBatchesRow(inserted, Touches(coalesced)[..j], a.cutoff, ip);
    }
  }

  lemma DoneInOrder(rows: seq<StoredCheck>, stored: seq<StoredCheck>, news: seq<CheckRow>)
    requires PartStored(rows, stored, news, |news|)
    ensures InOrderRows(stored, news)
  {
    var added := rows[|stored|..];
    assert news[..|news|] == news;
    assert forall i :: 0 <= i < |news| ==> news[i] == rows[|stored| + i].row by {
      assert forall i :: 0 <= i < |news| ==> RowsIn(added)[i] == added[i].row;
    }
  }

  ghost predicate Stage(ip: string, stored: seq<StoredCheck>, old_: Option<PoolRow>, rows: seq<StoredCheck>, p: Option<PoolRow>, e: Entry,
                        cutoff: int, reached: bool) {
    || Waiting(stored, old_, rows, p, e, cutoff)
    || (reached && Passes(old_, e, cutoff) && Done(ip, stored, old_, rows, p, e, false))
  }

  ghost predicate Complete(ip: string, stored: seq<StoredCheck>, old_: Option<PoolRow>, rows: seq<StoredCheck>, p: Option<PoolRow>, e: Entry,
                           cutoff: int, once: bool) {
    if Passes(old_, e, cutoff) then Done(ip, stored, old_, rows, p, e, once) else rows == stored && p == old_
  }

  lemma StageStored(ip: string, stored: seq<StoredCheck>, old_: Option<PoolRow>, rows: seq<StoredCheck>, p: Option<PoolRow>, e: Entry,
                    before: int, cutoff: int, reached: bool)
    requires Stage(ip, stored, old_, rows, p, e, before, reached) && before <= cutoff
    requires Passes(old_, e, cutoff) ==> InOrderRows(stored, EmitEntry(e))
    ensures |stored| <= |rows|
    ensures Passes(p, e, cutoff) ==> InOrderRows(stored, EmitEntry(e)) && PartStored(rows, stored, EmitEntry(e), |rows| - |stored|)
  {
    if Done(ip, stored, old_, rows, p, e, false) {
      DoneInOrder(rows, stored, EmitEntry(e));
    }
  }

  lemma StageMoves(ip: string, stored: seq<StoredCheck>, old_: Option<PoolRow>, rows: seq<StoredCheck>, p: Option<PoolRow>, e: Entry, before: int,
                   rows': seq<StoredCheck>, p': Option<PoolRow>, k: nat, touches: bool, version: nat, cutoff: int, reached: bool)
    requires Agrees(ip, stored, old_) && ValidEntry(ip, e) && before <= cutoff && k <= |EmitEntry(e)|
    requires Stage(ip, stored, old_, rows, p, e, before, reached)
    requires StepOf(rows, p, rows', p', stored, e, k, touches, version, cutoff)
    ensures Stage(ip, stored, old_, rows', p', e, cutoff, reached || touches)
    ensures touches ==> Complete(ip, stored, old_, rows', p', e, cutoff, !reached)
  {
    if Waiting(stored, old_, rows, p, e, before) {
      StepWaiting(ip, stored, old_, rows, p, e, before, rows', p', k, touches, version, cutoff);
    } else {
      StepDone(ip, stored, old_, rows, p, e, rows', p', k, touches, version, cutoff);
    }
  }

  lemma AttemptStage(db: Db, d: Db, raw: seq<CheckRow>, a: Attempt, before: int, ip: string, reached: bool)
    requires Agrees(ip, Of(db.checks, ip), RowIn(db.pool, ip)) && ip in Scan(raw).entries && before <= a.cutoff
    requires Passes(RowIn(db.pool, ip), Scan(raw).entries[ip], a.cutoff) ==> InOrderRows(Of(db.checks, ip), EmitEntry(Scan(raw).entries[ip]))
    requires StageAt(db, d, raw, before, ip, reached)
    ensures StageAt(db, Attempted(d, Coalesce(raw), a), raw, a.cutoff, ip, reached || Reaches(Coalesce(raw), a, ip))
    ensures Reaches(Coalesce(raw), a, ip) ==> CompleteAt(db, Attempted(d, Coalesce(raw), a), raw, a.cutoff, ip, !reached)
  {
    var stored, old_, e, u := Of(db.checks, ip), RowIn(db.pool, ip), Scan(raw).entries[ip], Attempted(d, Coalesce(raw), a);
    var rows, p := Of(d.checks, ip), RowIn(d.pool, ip);
    ScanValid(raw);
    StageStored(ip, stored, old_, rows, p, e, before, a.cutoff, reached);
    var k, version := AttemptStep(d, raw, a, ip, stored);
    StageMoves(ip, stored, old_, rows, p, e, before, Of(u.checks, ip), RowIn(u.pool, ip), k, Reaches(Coalesce(raw), a, ip), version, a.cutoff, reached);
  }

  /** Where the attempts so far have brought ip. */
  ghost predicate StageAt(db: Db, d: Db, raw: seq<CheckRow>, cutoff: int, ip: string, reached: bool)
    requires ip in Scan(raw).entries
  {
    Stage(ip, Of(db.checks, ip), RowIn(db.pool, ip), Of(d.checks, ip), RowIn(d.pool, ip), Scan(raw).entries[ip], cutoff, reached)
  }

  /** An attempt that reached ip has recorded it, or gated it out; no earlier one did if once. */
  ghost predicate CompleteAt(db: Db, d: Db, raw: seq<CheckRow>, cutoff: int, ip: string, once: bool)
    requires ip in Scan(raw).entries
  {
    Complete(ip, Of(db.checks, ip), RowIn(db.pool, ip), Of(d.checks, ip), RowIn(d.pool, ip), Scan(raw).entries[ip], cutoff, once)
  }

  /** What the source demands of the rows of ip: those that pass the gate of the last attempt are newer than what is stored. */
  ghost predicate InOrderAt(db: Db, raw: seq<CheckRow>, cutoff: int, ip: string) {
    ip in Scan(raw).entries && Passes(RowIn(db.pool, ip), Scan(raw).entries[ip], cutoff) ==>
      InOrderRows(Of(db.checks, ip), EmitEntry(Scan(raw).entries[ip]))
  }

  lemma {:induction false} AttemptsStage(db: Db, raw: seq<CheckRow>, attempts: seq<Attempt>, cutoff: int, ip: string)
    requires Agrees(ip, Of(db.checks, ip), RowIn(db.pool, ip)) && ip in Scan(raw).entries && Forward(attempts, cutoff)
    requires InOrderAt(db, raw, cutoff, ip)
    ensures StageAt(db, AttemptAll(db, Coalesce(raw), attempts), raw, cutoff, ip, Reached(Coalesce(raw), attempts, ip))
  {
    if attempts == [] {
      assert EmitEntry(Scan(raw).entries[ip])[..0] == [];
      assert Of(db.checks, ip)[|Of(db.checks, ip)|..] == [];
    } else {
      var n := |attempts| - 1;
      assert attempts == attempts[..n] + [attempts[n]];
      AttemptsStage(db, raw, attempts[..n], attempts[n].cutoff, ip);
      AttemptStage(db, AttemptAll(db, Coalesce(raw), attempts[..n]), raw, attempts[n], attempts[n].cutoff, ip,
                   Reached(Coalesce(raw), attempts[..n], ip));
    }
  }

  /** The attempt that completes. */
  lemma WriteIsAttempt(d: Db, raw: seq<CheckRow>, cutoff: int, ip: string) returns (a: Attempt)
    ensures a.cutoff == cutoff && Write(d, Coalesce(raw), cutoff) == Attempted(d, Coalesce(raw), a)
    ensures ip in Scan(raw).entries ==> Reaches(Coalesce(raw), a, ip)
  {
    var coalesced := Coalesce(raw);
    a := Attempt(cutoff, |coalesced|, |Touches(coalesced)|);
    assert Touches(coalesced)[..|Touches(coalesced)|] == Touches(coalesced);
    TouchesFind(coalesced, ip);
    ScanOfCoalesce(raw);
  }

  lemma CompleteKeeps(db: Db, d: Db, raw: seq<CheckRow>, cutoff: int, ip: string, once: bool)
    requires Agrees(ip, Of(db.checks, ip), RowIn(db.pool, ip)) && ip in Scan(raw).entries && CompleteAt(db, d, raw, cutoff, ip, once)
    ensures KeepsAt(db, d, ip, once || Scan(raw).entries[ip].latestSuccess.None?)
  {
  }

  /** IPs that the batch does not name. */
  lemma AttemptElsewhere(d: Db, raw: seq<CheckRow>, a: Attempt, ip: string)
    requires ip !in Scan(raw).entries
    ensures var u := Attempted(d, Coalesce(raw), a); Of(u.checks, ip) == Of(d.checks, ip) && RowIn(u.pool, ip) == RowIn(d.pool, ip)
  {
    var coalesced := Coalesce(raw);
    var taken := if a.inserts < |coalesced| then coalesced[..a.inserts] else coalesced;
    CoalescedRowsOf(raw, ip);
    ScanOfCoalesce(raw);
    RowsOfTake(coalesced, |taken|, ip);
    assert coalesced[..|coalesced|] == coalesced;
    InsertElsewhere(d, taken, SuccessfulIPs(coalesced), a.cutoff, ip);
    InsertKeepsPool(d, taken, SuccessfulIPs(coalesced), a.cutoff);
    if a.inserts >= |coalesced| {
      var j := Min(a.touches, |Touches(coalesced)|);
      TouchesFind(coalesced, ip);
      PrefixFind(Touches(coalesced), j, ip);
      var version := PoolBatchesRow(InsertRows(d, taken, SuccessfulIPs(coalesced), a.cutoff), Touches(coalesced)[..j], a.cutoff, ip);
    }
  }

  lemma {:induction false} InsertElsewhere(db: Db, rows: seq<CheckRow>, successful: set<string>, cutoff: int, ip: string)
    requires RowsOf(rows, ip) == []
    ensures Of(InsertRows(db, rows, successful, cutoff).checks, ip) == Of(db.checks, ip)
  {
    if rows != [] {
      InsertElsewhere(db, rows[..|rows| - 1], successful, cutoff, ip);
      AppendOther(InsertRows(db, rows[..|rows| - 1], successful, cutoff).checks, rows[|rows| - 1], ip);
    }
  }

  lemma {:induction false} AttemptsElsewhere(db: Db, raw: seq<CheckRow>, attempts: seq<Attempt>, ip: string)
    requires ip !in Scan(raw).entries
    ensures var d := AttemptAll(db, Coalesce(raw), attempts); Of(d.checks, ip) == Of(db.checks, ip) && RowIn(d.pool, ip) == RowIn(db.pool, ip)
  {
    if attempts != [] {
      AttemptsElsewhere(db, raw, attempts[..|attempts| - 1], ip);
      AttemptElsewhere(AttemptAll(db, Coalesce(raw), attempts[..|attempts| - 1]), raw, attempts[|attempts| - 1], ip);
    }
  }

  /** What the attempts and the submission that completes leave of an IP that the batch names. */
  lemma RetriedCompletes(db: Db, raw: seq<CheckRow>, attempts: seq<Attempt>, cutoff: int, ip: string)
    requires Agrees(ip, Of(db.checks, ip), RowIn(db.pool, ip)) && Forward(attempts, cutoff) && InOrderAt(db, raw, cutoff, ip)
    requires ip in Scan(raw).entries
    ensures CompleteAt(db, Write(AttemptAll(db, Coalesce(raw), attempts), Coalesce(raw), cutoff), raw, cutoff, ip, !Reached(Coalesce(raw), attempts, ip))
  {
    var d := AttemptAll(db, Coalesce(raw), attempts);
    var a := WriteIsAttempt(d, raw, cutoff, ip);
    AttemptsStage(db, raw, attempts, cutoff, ip);
    AttemptStage(db, d, raw, a, cutoff, ip, Reached(Coalesce(raw), attempts, ip));
  }

  /** and of any other IP. */
  lemma RetriedElsewhere(db: Db, raw: seq<CheckRow>, attempts: seq<Attempt>, cutoff: int, ip: string)
    requires ip !in Scan(raw).entries
    ensures var d := Write(AttemptAll(db, Coalesce(raw), attempts), Coalesce(raw), cutoff);
            Of(d.checks, ip) == Of(db.checks, ip) && RowIn(d.pool, ip) == RowIn(db.pool, ip)
  {
    var d := AttemptAll(db, Coalesce(raw), attempts);
    var a := WriteIsAttempt(d, raw, cutoff, ip);
    AttemptsElsewhere(db, raw, attempts, ip);
    AttemptElsewhere(d, raw, a, ip);
  }

  /**
   * Main result. An ingest that is resubmitted until it completes keeps each IP in agreement with the view, wherever
   * its earlier attempts stopped; and it adds no drift for an IP unless they reached the pool statement of its success.
   */
  lemma RetriedKeeps(db: Db, raw: seq<CheckRow>, attempts: seq<Attempt>, cutoff: int, ip: string)
    requires Agrees(ip, Of(db.checks, ip), RowIn(db.pool, ip)) && Forward(attempts, cutoff) && InOrderAt(db, raw, cutoff, ip)
    ensures KeepsAt(db, Write(AttemptAll(db, Coalesce(raw), attempts), Coalesce(raw), cutoff), ip, !CountedAgain(raw, attempts, ip))
  {
    if ip in Scan(raw).entries {
      RetriedCompletes(db, raw, attempts, cutoff, ip);
      CompleteKeeps(db, Write(AttemptAll(db, Coalesce(raw), attempts), Coalesce(raw), cutoff), raw, cutoff, ip,
                    !Reached(Coalesce(raw), attempts, ip));
    } else {
      RetriedElsewhere(db, raw, attempts, cutoff, ip);
    }
  }
}
