/**
 * One IP's check history and its version, MAX(id) (src/store.ts:786-818), and functions/api/history.ts, which
 * stamps a snapshot of the newest 300 checks with that version.
 */
module CheckHistory {
  import opened Prelude
  import opened CheckRows
  import opened Store
  import opened PoolView
  import opened PoolAgreement
  import opened PoolHistory
  import opened Pages

  /** ipHistoryVersion. */
  function HistoryVersion(db: Db, ip: string): nat {
    MaxId(Of(db.checks, ip))
  }

  // ---------- What one batch does to one IP's history ----------

  /** An insert that passes the gate brings one of the newest 300 checks of its IP, or one that is stored already (a retry). */
  ghost predicate Arrives(checks: seq<StoredCheck>, row: CheckRow) {
    HasTime(Of(checks, row.ip), row.checkedAt) || CountAfter(Of(checks, row.ip), row.checkedAt) < CHECK_HISTORY_RETENTION
  }

  ghost predicate ArriveInTime(db: Db, rows: seq<CheckRow>, successful: set<string>, cutoff: int) {
    rows != [] ==>
      && ArriveInTime(db, rows[..|rows| - 1], successful, cutoff)
      && (Admits(db, rows[|rows| - 1], successful, cutoff) ==>
            Arrives(InsertRows(db, rows[..|rows| - 1], successful, cutoff).checks, rows[|rows| - 1]))
  }

  ghost predicate TimelyBatch(db: Db, b: Batch) {
    match b
    case InsertChunk(rows, successful, cutoff) => ArriveInTime(db, rows, successful, cutoff)
    case SaveProbe(p) => Arrives(db.checks, ProbeRow(p))
    case _ => true
  }

  ghost predicate AllRanked(checks: seq<StoredCheck>) {
    forall ip :: LastRanks(Of(checks, ip))
  }

  lemma SortedAreRanked(checks: seq<StoredCheck>)
    requires forall ip :: Sorted(Of(checks, ip))
    ensures AllRanked(checks)
  {
    forall ip ensures LastRanks(Of(checks, ip)) {
      SortedRanks(Of(checks, ip));
    }
  }

  /** The history of ip either kept its newest 300 rows and its version, or got a larger version. */
  ghost predicate Advances(a: seq<StoredCheck>, b: seq<StoredCheck>, ip: string) {
    || MaxId(Of(a, ip)) < MaxId(Of(b, ip))
    || (MaxId(Of(a, ip)) == MaxId(Of(b, ip)) && NewestFirst(Of(a, ip)) == NewestFirst(Of(b, ip)))
  }

  lemma AppendAdvances(checks: seq<StoredCheck>, row: CheckRow, ip: string)
    requires AllRanked(checks) && Arrives(checks, row)
    ensures LastRanks(Of(Append(checks, row), ip)) && Advances(checks, Append(checks, row), ip)
    ensures Append(checks, row) != checks ==> MaxId(Of(checks, row.ip)) < MaxId(Of(Append(checks, row), row.ip))
    ensures MaxId(checks) <= MaxId(Append(checks, row))
  {
    if !HasTime(Of(checks, row.ip), row.checkedAt) {
      var rows, c := Of(checks, row.ip), StoredCheck(MaxId(checks) + 1, row);
      OfAppendOne(checks, c, ip);
      OfAppendOne(checks, c, row.ip);
      MaxIdBounds(checks);
      OfMembers(checks, row.ip);
      AppendRanks(rows, c);
      assert (checks + [c])[..|checks|] == checks && (rows + [c])[..|rows|] == rows;
      OfMaxId(checks, row.ip);
    }
  }

  lemma OfMaxId(checks: seq<StoredCheck>, ip: string)
    ensures MaxId(Of(checks, ip)) <= MaxId(checks)
  {
    MaxIdBounds(checks);
    MaxIdBounds(Of(checks, ip));
    OfMembers(checks, ip);
    if Of(checks, ip) != [] {
      var c :| c in Of(checks, ip) && c.id == MaxId(Of(checks, ip));
      assert c in checks;
    }
  }

  lemma AdvancesTransitive(a: seq<StoredCheck>, b: seq<StoredCheck>, c: seq<StoredCheck>, ip: string)
    requires Advances(a, b, ip) && Advances(b, c, ip)
    ensures Advances(a, c, ip)
  {
  }

  lemma {:induction false} InsertAdvances(db: Db, rows: seq<CheckRow>, successful: set<string>, cutoff: int)
    requires AllRanked(db.checks) && ArriveInTime(db, rows, successful, cutoff)
    ensures
      var d := InsertRows(db, rows, successful, cutoff);
      AllRanked(d.checks) && (forall ip :: Advances(db.checks, d.checks, ip)) && MaxId(db.checks) <= MaxId(d.checks)
  {
    if rows != [] {
      var n := |rows| - 1;
      InsertAdvances(db, rows[..n], successful, cutoff);
      InsertKeepsPool(db, rows[..n], successful, cutoff);
      var mid := InsertRows(db, rows[..n], successful, cutoff);
      var d := InsertRows(db, rows, successful, cutoff);
      assert !Admits(db, rows[n], successful, cutoff) ==> d == mid;
      forall ip ensures LastRanks(Of(d.checks, ip)) && Advances(db.checks, d.checks, ip) && MaxId(db.checks) <= MaxId(d.checks) {
        if Admits(db, rows[n], successful, cutoff) {
          AppendAdvances(mid.checks, rows[n], ip);
        }
        AdvancesTransitive(db.checks, mid.checks, d.checks, ip);
      }
    }
  }

  /** Pruning takes no row of the newest page, so it changes no version and no page. */
  lemma DeleteAdvances(checks: seq<StoredCheck>, ips: set<string>, ip: string)
    requires AllRanked(checks)
    ensures
      var d := Retained(checks, checks, ips);
      && LastRanks(Of(d, ip))
      && MaxId(Of(checks, ip)) == MaxId(Of(d, ip))
      && NewestFirst(Of(checks, ip)) == NewestFirst(Of(d, ip))
  {
    OfRetained(checks, checks, ips, ip);
    DeleteKeepsLast(Of(checks, ip));
    DeleteKeepsPage(Of(checks, ip));
  }

  /** The largest id of the table survives pruning, so no id is given out twice. */
  lemma DeleteKeepsMaxId(checks: seq<StoredCheck>, ips: set<string>)
    requires AllRanked(checks)
    ensures MaxId(checks) <= MaxId(Retained(checks, checks, ips))
  {
    if checks != [] {
      MaxIdBounds(checks);
      var c :| c in checks && c.id == MaxId(checks);
      OfMembers(checks, c.row.ip);
      MaxIdBounds(Of(checks, c.row.ip));
      DeleteAdvances(checks, ips, c.row.ip);
      OfMaxId(Retained(checks, checks, ips), c.row.ip);
    }
  }

  lemma {:induction false} TouchAllKeepsChecks(db: Db, es: seq<Entry>, cutoff: int)
    ensures TouchAll(db, es, cutoff).checks == db.checks
  {
    if es != [] {
      TouchAllKeepsChecks(db, es[..|es| - 1], cutoff);
    }
  }

  lemma {:induction false} PTRsKeepChecks(db: Db, es: seq<PTREntry>)
    ensures SavePTRs(db, es).checks == db.checks
  {
    if es != [] {
      PTRsKeepChecks(db, es[..|es| - 1]);
    }
  }

  /** One batch of any writer. */
  lemma BatchAdvances(db: Db, b: Batch)
    requires AllRanked(db.checks) && TimelyBatch(db, b)
    ensures
      var d := Apply(db, b);
      AllRanked(d.checks) && (forall ip :: Advances(db.checks, d.checks, ip)) && MaxId(db.checks) <= MaxId(d.checks)
  {
    var d := Apply(db, b);
    match b
    case InsertChunk(rows, successful, cutoff) => InsertAdvances(db, rows, successful, cutoff);
    case SaveProbe(p) =>
      forall ip ensures LastRanks(Of(d.checks, ip)) && Advances(db.checks, d.checks, ip) && MaxId(db.checks) <= MaxId(d.checks) {
        AppendAdvances(db.checks, ProbeRow(p), ip);
      }
    case DeleteOld(ips) =>
      DeleteKeepsMaxId(db.checks, ips);
      forall ip ensures LastRanks(Of(d.checks, ip)) && Advances(db.checks, d.checks, ip) {
        DeleteAdvances(db.checks, ips, ip);
      }
    case PoolChunk(es, cutoff) => TouchAllKeepsChecks(db.(version := db.version + 1), es, cutoff);
    case SavePTRChunk(es) => PTRsKeepChecks(db.(version := db.version + 1), es);
    case _ =>
  }

  // ---------- Runs of batches ----------

  ghost predicate Follows(a: seq<StoredCheck>, b: seq<StoredCheck>) {
    MaxId(a) <= MaxId(b) && forall ip :: Advances(a, b, ip)
  }

  /** The states of the database, oldest first: no history ever goes back. */
  ghost predicate Trace(dbs: seq<Db>) {
    && dbs != []
    && (forall k :: 0 <= k < |dbs| ==> AllRanked(dbs[k].checks))
    && (forall k :: 0 < k < |dbs| ==> Follows(dbs[k - 1].checks, dbs[k].checks))
  }

  lemma TraceExtends(dbs: seq<Db>, b: Batch)
    requires Trace(dbs) && TimelyBatch(dbs[|dbs| - 1], b)
    ensures Trace(dbs + [Apply(dbs[|dbs| - 1], b)])
  {
    BatchAdvances(dbs[|dbs| - 1], b);
    assert Follows(dbs[|dbs| - 1].checks, Apply(dbs[|dbs| - 1], b).checks);
  }

  lemma {:induction false} TraceAdvances(dbs: seq<Db>, i: nat, j: nat, ip: string)
    requires Trace(dbs) && i <= j < |dbs|
    ensures Advances(dbs[i].checks, dbs[j].checks, ip) && MaxId(dbs[i].checks) <= MaxId(dbs[j].checks)
    decreases j - i
  {
    if i < j {
      assert Follows(dbs[j - 1].checks, dbs[j].checks);
      TraceAdvances(dbs, i, j - 1, ip);
      AdvancesTransitive(dbs[i].checks, dbs[j - 1].checks, dbs[j].checks, ip);
    }
  }

  // ---------- functions/api/history.ts ----------

  datatype Progress =
    | Arrived(ip: string, since: Option<nat>)
    | Versioned(ip: string, reset: bool, version: nat)
    | Loaded(ip: string, reset: bool, version: nat, page: seq<StoredCheck>)

  datatype Answer =
    | Unchanged(ip: string, version: nat)
    | Page(ip: string, version: nat, reset: bool, page: seq<StoredCheck>)

  /** The states the database went through, and the readers. Cached pages always carry reset = false. */
  datatype Server = Server(
    dbs: seq<Db>,
    cache: map<(string, nat), seq<StoredCheck>>,
    requests: map<nat, Progress>,
    answers: set<Answer>)

  datatype Action = Write(batch: Batch) | Arrive(id: nat, ip: string, since: Option<nat>) | Advance(id: nat, hit: bool)

  function Now(s: Server): Db
    requires s.dbs != []
  {
    s.dbs[|s.dbs| - 1]
  }

  function Respond(s: Server, id: nat, a: Answer): Server {
    s.(requests := s.requests - {id}, answers := s.answers + {a})
  }

  function Continue(s: Server, id: nat, hit: bool): Server
    requires s.dbs != [] && id in s.requests
  {
    match s.requests[id]
    case Arrived(ip, since) =>
      var version := HistoryVersion(Now(s), ip);
      if since == Some(version) then Respond(s, id, Unchanged(ip, version))
      else s.(requests := s.requests[id := Versioned(ip, since.Some? && since.value > version, version)])
    case Versioned(ip, reset, version) =>
      if !reset && hit && (ip, version) in s.cache then Respond(s, id, Page(ip, version, false, s.cache[(ip, version)]))
      else s.(requests := s.requests[id := Loaded(ip, reset, version, NewestFirst(Of(Now(s).checks, ip)))])
    case Loaded(ip, reset, version, page) =>
      if HistoryVersion(Now(s), ip) != version then s.(requests := s.requests - {id})
      else if reset then Respond(s, id, Page(ip, version, reset, page))
      else Respond(s.(cache := s.cache[(ip, version) := page]), id, Page(ip, version, reset, page))
  }

  /** A write of a check that would not be among the newest 300 of its IP takes no step. */
  ghost function Step(s: Server, a: Action): Server
    requires s.dbs != []
  {
    match a
    case Write(b) => if TimelyBatch(Now(s), b) then s.(dbs := s.dbs + [Apply(Now(s), b)]) else s
    case Arrive(id, ip, since) => if id in s.requests then s else s.(requests := s.requests[id := Arrived(ip, since)])
    case Advance(id, hit) => if id in s.requests then Continue(s, id, hit) else s
  }

  /** Some state of the run had this version of ip, and this was its page. */
  ghost predicate GoodPage(dbs: seq<Db>, ip: string, version: nat, page: seq<StoredCheck>) {
    exists k :: 0 <= k < |dbs| && HistoryVersion(dbs[k], ip) == version && page == NewestFirst(Of(dbs[k].checks, ip))
  }

  ghost predicate GoodProgress(dbs: seq<Db>, p: Progress) {
    match p
    case Arrived(_, _) => true
    case Versioned(ip, _, version) => exists k :: 0 <= k < |dbs| && HistoryVersion(dbs[k], ip) == version
    case Loaded(ip, _, version, page) =>
      exists k :: 0 <= k < |dbs| && version <= HistoryVersion(dbs[k], ip) && page == NewestFirst(Of(dbs[k].checks, ip))
  }

  ghost predicate GoodAnswer(dbs: seq<Db>, a: Answer) {
    match a
    case Unchanged(ip, version) => exists k :: 0 <= k < |dbs| && HistoryVersion(dbs[k], ip) == version
    case Page(ip, version, _, page) => GoodPage(dbs, ip, version, page)
  }

  ghost predicate Coherent(s: Server) {
    && Trace(s.dbs)
    && (forall k <- s.cache :: GoodPage(s.dbs, k.0, k.1, s.cache[k]))
    && (forall id <- s.requests :: GoodProgress(s.dbs, s.requests[id]))
    && (forall a <- s.answers :: GoodAnswer(s.dbs, a))
  }

  lemma PageStable(dbs: seq<Db>, more: Db, ip: string, version: nat, page: seq<StoredCheck>)
    requires GoodPage(dbs, ip, version, page)
    ensures GoodPage(dbs + [more], ip, version, page)
  {
    var k :| 0 <= k < |dbs| && HistoryVersion(dbs[k], ip) == version && page == NewestFirst(Of(dbs[k].checks, ip));
    assert (dbs + [more])[k] == dbs[k];
  }

  lemma ProgressStable(dbs: seq<Db>, more: Db, p: Progress)
    requires GoodProgress(dbs, p)
    ensures GoodProgress(dbs + [more], p)
  {
    match p
    case Arrived(_, _) =>
    case Versioned(ip, _, version) =>
      var k :| 0 <= k < |dbs| && HistoryVersion(dbs[k], ip) == version;
      assert (dbs + [more])[k] == dbs[k];
    case Loaded(ip, _, version, page) =>
      var k :| 0 <= k < |dbs| && version <= HistoryVersion(dbs[k], ip) && page == NewestFirst(Of(dbs[k].checks, ip));
      assert (dbs + [more])[k] == dbs[k];
  }

  lemma AnswerStable(dbs: seq<Db>, more: Db, a: Answer)
    requires GoodAnswer(dbs, a)
    ensures GoodAnswer(dbs + [more], a)
  {
    match a
    case Unchanged(ip, version) =>
      var k :| 0 <= k < |dbs| && HistoryVersion(dbs[k], ip) == version;
      assert (dbs + [more])[k] == dbs[k];
    case Page(ip, version, _, page) => PageStable(dbs, more, ip, version, page);
  }

  lemma WriteCoherent(s: Server, b: Batch)
    requires Coherent(s)
    ensures Coherent(Step(s, Write(b)))
  {
    if TimelyBatch(Now(s), b) {
      var d := Apply(Now(s), b);
      TraceExtends(s.dbs, b);
      forall k | k in s.cache ensures GoodPage(s.dbs + [d], k.0, k.1, s.cache[k]) { PageStable(s.dbs, d, k.0, k.1, s.cache[k]); }
      forall id | id in s.requests ensures GoodProgress(s.dbs + [d], s.requests[id]) { ProgressStable(s.dbs, d, s.requests[id]); }
      forall a | a in s.answers ensures GoodAnswer(s.dbs + [d], a) { AnswerStable(s.dbs, d, a); }
    }
  }

  /** A version read before and confirmed after the load was the version at the load. */
  lemma ConfirmedPage(dbs: seq<Db>, ip: string, reset: bool, version: nat, page: seq<StoredCheck>)
    requires Trace(dbs) && GoodProgress(dbs, Loaded(ip, reset, version, page))
    requires HistoryVersion(dbs[|dbs| - 1], ip) == version
    ensures GoodPage(dbs, ip, version, page)
  {
    var k :| 0 <= k < |dbs| && version <= HistoryVersion(dbs[k], ip) && page == NewestFirst(Of(dbs[k].checks, ip));
    TraceAdvances(dbs, k, |dbs| - 1, ip);
  }

  lemma NowIn(s: Server, ip: string)
    requires s.dbs != []
    ensures exists k :: 0 <= k < |s.dbs| && HistoryVersion(s.dbs[k], ip) == HistoryVersion(Now(s), ip)
  {
    assert s.dbs[|s.dbs| - 1] == Now(s);
  }

  lemma LoadedNow(s: Server, ip: string, reset: bool, version: nat)
    requires Coherent(s) && GoodProgress(s.dbs, Versioned(ip, reset, version))
    ensures GoodProgress(s.dbs, Loaded(ip, reset, version, NewestFirst(Of(Now(s).checks, ip))))
  {
    var k :| 0 <= k < |s.dbs| && HistoryVersion(s.dbs[k], ip) == version;
    TraceAdvances(s.dbs, k, |s.dbs| - 1, ip);
    assert s.dbs[|s.dbs| - 1] == Now(s);
  }

  lemma RespondCoherent(s: Server, id: nat, a: Answer)
    requires Coherent(s) && GoodAnswer(s.dbs, a)
    ensures Coherent(Respond(s, id, a))
  {
  }

  lemma BecomeCoherent(s: Server, id: nat, p: Progress)
    requires Coherent(s) && GoodProgress(s.dbs, p)
    ensures Coherent(s.(requests := s.requests[id := p]))
  {
  }

  lemma CacheCoherent(s: Server, ip: string, version: nat, page: seq<StoredCheck>)
    requires Coherent(s) && GoodPage(s.dbs, ip, version, page)
    ensures Coherent(s.(cache := s.cache[(ip, version) := page]))
  {
  }

  lemma ConfirmCoherent(s: Server, id: nat, hit: bool)
    requires Coherent(s) && id in s.requests && s.requests[id].Loaded?
    ensures Coherent(Continue(s, id, hit))
  {
    var p := s.requests[id];
    assert GoodProgress(s.dbs, p);
    if HistoryVersion(Now(s), p.ip) == p.version {
      ConfirmedPage(s.dbs, p.ip, p.reset, p.version, p.page);
      CacheCoherent(s, p.ip, p.version, p.page);
      var cached := if p.reset then s else s.(cache := s.cache[(p.ip, p.version) := p.page]);
      RespondCoherent(cached, id, Page(p.ip, p.version, p.reset, p.page));
    }
  }

  lemma LoadCoherent(s: Server, id: nat, hit: bool)
    requires Coherent(s) && id in s.requests && s.requests[id].Versioned?
    ensures Coherent(Continue(s, id, hit))
  {
    var p := s.requests[id];
    assert GoodProgress(s.dbs, p);
    if !p.reset && hit && (p.ip, p.version) in s.cache {
      RespondCoherent(s, id, Page(p.ip, p.version, false, s.cache[(p.ip, p.version)]));
    } else {
      LoadedNow(s, p.ip, p.reset, p.version);
      BecomeCoherent(s, id, Loaded(p.ip, p.reset, p.version, NewestFirst(Of(Now(s).checks, p.ip))));
    }
  }

  lemma ContinueCoherent(s: Server, id: nat, hit: bool)
    requires Coherent(s) && id in s.requests
    ensures Coherent(Continue(s, id, hit))
  {
    match s.requests[id]
    case Arrived(ip, since) =>
      var version := HistoryVersion(Now(s), ip);
      NowIn(s, ip);
      if since == Some(version) {
        RespondCoherent(s, id, Unchanged(ip, version));
      } else {
        BecomeCoherent(s, id, Versioned(ip, since.Some? && since.value > version, version));
      }
    case Versioned(_, _, _) => LoadCoherent(s, id, hit);
    case Loaded(_, _, _, _) => ConfirmCoherent(s, id, hit);
  }

  ghost function Run(db: Db, actions: seq<Action>): (s: Server)
    ensures s.dbs != []
  {
    if actions == [] then Server([db], map[], map[], {})
    else Step(Run(db, actions[..|actions| - 1]), actions[|actions| - 1])
  }

  lemma {:induction false} RunCoherent(db: Db, actions: seq<Action>)
    requires AllRanked(db.checks)
    ensures Coherent(Run(db, actions))
  {
    if actions != [] {
      var s := Run(db, actions[..|actions| - 1]);
      RunCoherent(db, actions[..|actions| - 1]);
      match actions[|actions| - 1]
      case Write(b) => WriteCoherent(s, b);
      case Arrive(_, _, _) =>
      case Advance(id, hit) =>
        if id in s.requests {
          ContinueCoherent(s, id, hit);
        }
    }
  }

  /** Two states of a run with the same history version of ip have the same newest 300 checks of it. */
  lemma SameVersionSamePage(db: Db, actions: seq<Action>, i: nat, j: nat, ip: string, page: seq<StoredCheck>)
    requires AllRanked(db.checks) && i < |Run(db, actions).dbs| && j < |Run(db, actions).dbs|
    requires var dbs := Run(db, actions).dbs; HistoryVersion(dbs[i], ip) == HistoryVersion(dbs[j], ip)
    ensures var dbs := Run(db, actions).dbs; IsPage(Of(dbs[i].checks, ip), page) <==> IsPage(Of(dbs[j].checks, ip), page)
  {
    RunCoherent(db, actions);
    var dbs := Run(db, actions).dbs;
    PageIsNewestFirst(Of(dbs[i].checks, ip), page);
    PageIsNewestFirst(Of(dbs[j].checks, ip), page);
    TraceAdvances(dbs, Min(i, j), Max(i, j), ip);
  }

  lemma NewIdIsLarger(dbs: seq<Db>, row: CheckRow, i: nat, c: StoredCheck)
    requires Trace(dbs) && i < |dbs| && c in dbs[i].checks
    requires Append(dbs[|dbs| - 1].checks, row) != dbs[|dbs| - 1].checks
    ensures
      var now := Append(dbs[|dbs| - 1].checks, row);
      now[|now| - 1].row == row && c.id < now[|now| - 1].id
  {
    TraceAdvances(dbs, i, |dbs| - 1, "");
    MaxIdBounds(dbs[i].checks);
  }

  /** The id an insert assigns is larger than every id any earlier state of the run held, pruned rows included. */
  lemma IdsAreFresh(db: Db, actions: seq<Action>, row: CheckRow, i: nat, c: StoredCheck)
    requires AllRanked(db.checks) && i < |Run(db, actions).dbs| && c in Run(db, actions).dbs[i].checks
    requires Append(Now(Run(db, actions)).checks, row) != Now(Run(db, actions)).checks
    ensures
      var now := Append(Now(Run(db, actions)).checks, row);
      now[|now| - 1].row == row && c.id < now[|now| - 1].id
  {
    RunCoherent(db, actions);
    NewIdIsLarger(Run(db, actions).dbs, row, i, c);
  }

  /**
   * Main result. In every interleaving of readers with writers whose checks are among the newest 300 of their IP when
   * they are inserted, a page answered for version v, live or cached, is the newest 300 checks of the IP in every state
   * of the run, past or present, whose version is v.
   */
  lemma HistoryAnswersAreExact(db: Db, actions: seq<Action>, ip: string, version: nat, reset: bool, page: seq<StoredCheck>, j: nat)
    requires AllRanked(db.checks)
    requires Page(ip, version, reset, page) in Run(db, actions).answers
    requires j < |Run(db, actions).dbs| && HistoryVersion(Run(db, actions).dbs[j], ip) == version
    ensures IsPage(Of(Run(db, actions).dbs[j].checks, ip), page)
  {
    RunCoherent(db, actions);
    var dbs := Run(db, actions).dbs;
    assert GoodAnswer(dbs, Page(ip, version, reset, page));
    var k :| 0 <= k < |dbs| && HistoryVersion(dbs[k], ip) == version && page == NewestFirst(Of(dbs[k].checks, ip));
    TraceAdvances(dbs, Min(k, j), Max(k, j), ip);
    PageExists(Of(dbs[j].checks, ip));
  }
}
