/** The maintained pool against the view, over every in-order run of ingests and on-demand probes. */
module PoolTheorem {
  import opened Prelude
  import opened CheckRows
  import opened Store
  import opened PoolView
  import opened PoolAgreement
  import opened PoolRuns
  import opened Pruning
  import opened Retries

  /**
   * One request. An ingest is submitted again after every attempt that stopped, until one completes. pruneSteps counts
   * the halves of pruneCheckHistory that commit; a crash makes it small or odd.
   */
  datatype Request =
    | Ingest(rows: seq<CheckRow>, attempts: seq<Attempt>, cutoff: int, pruneIPs: seq<string>, pruneSteps: nat)
    | OnDemand(probe: Probe, pruneSteps: nat)

  /** The table writes of a request before it prunes. */
  function Written(db: Db, r: Request): Db {
    match r
    case Ingest(rows, attempts, cutoff, _, _) => Write(AttemptAll(db, Coalesce(rows), attempts), Coalesce(rows), cutoff)
    case OnDemand(p, _) => UpdatePoolForCheck(SaveRecheckResult(db, p), p)
  }

  function PruneList(r: Request): seq<string> {
    match r
    case Ingest(_, _, _, ips, _) => ips
    case OnDemand(p, _) => [p.ip]
  }

  function Handle(db: Db, r: Request): Db {
    PrunePrefix(Written(db, r), Distinct(PruneList(r)), r.pruneSteps)
  }

  function Run(db: Db, rs: seq<Request>): Db {
    if rs == [] then db else Handle(Run(db, rs[..|rs| - 1]), rs[|rs| - 1])
  }

  /**
   * The checks that the request stores are newer than everything stored for their IPs, and the clock does not go back
   * between its attempts. Gated-out failures, and failed probes of IPs outside the pool, may come in any order.
   */
  ghost predicate InOrder(db: Db, r: Request) {
    match r
    case Ingest(rows, attempts, cutoff, _, _) => Forward(attempts, cutoff) && forall ip :: InOrderAt(db, rows, cutoff, ip)
    case OnDemand(p, _) => p.ok || p.ip in db.pool ==> forall c <- Of(db.checks, p.ip) :: c.row.checkedAt < p.checkedAt
  }

  /** No earlier attempt of the request counted a success of ip. */
  ghost predicate CountsOnce(r: Request, ip: string) {
    r.Ingest? ==> !CountedAgain(r.rows, r.attempts, ip)
  }

  ghost predicate InOrderRun(db: Db, rs: seq<Request>) {
    rs != [] ==> InOrderRun(db, rs[..|rs| - 1]) && InOrder(Run(db, rs[..|rs| - 1]), rs[|rs| - 1])
  }

  const EMPTY := Db([], map[], map[], 0, 0)

  // ---------- One request ----------

  /** A single submission. */
  lemma WriteAt(db: Db, rows: seq<CheckRow>, cutoff: int, ip: string)
    requires AgreesAt(db, ip) && InOrderAt(db, rows, cutoff, ip)
    ensures KeepsAt(db, Write(db, Coalesce(rows), cutoff), ip, true)
  {
    RetriedKeeps(db, rows, [], cutoff, ip);
  }

  lemma ProbeStep(ip: string, rows: seq<StoredCheck>, x: StoredCheck, old_: Option<PoolRow>, p: Probe, version: nat)
    requires Agrees(ip, rows, old_) && Sorted(rows + [x]) && p.ip == ip && x.row == ProbeRow(p)
    requires old_.Some? || p.ok
    ensures Keeps(ip, rows, old_, rows + [x],
                  Some(match old_
                       case Some(q) => ProbeUpdateRow(q, p, rows + [x], version)
                       case None => ProbeInsertRow(None, p, rows + [x], version)), true)
  {
    HasOkStays(rows, [x]);
    assert x in rows + [x];
    match old_
    case None => ProbeNew(ip, rows, x, p, version);
    case Some(q) =>
      if p.ok {
        ProbeKnownOk(ip, rows, x, q, p, version);
      } else {
        ProbeKnownFail(ip, rows, x, q, p, version);
      }
  }

  /** d holds the rows and the pool row of the probed IP after both functions ran on db. */
  ghost predicate Probed(db: Db, d: Db, p: Probe, version: nat) {
    var rows := Of(Append(db.checks, ProbeRow(p)), p.ip);
    && Of(d.checks, p.ip) == rows
    && RowIn(d.pool, p.ip) == Some(match RowIn(db.pool, p.ip)
                                   case Some(q) => ProbeUpdateRow(q, p, rows, version)
                                   case None => ProbeInsertRow(None, p, rows, version))
  }

  lemma ProbeEffect(db: Db, p: Probe) returns (version: nat)
    requires p.ok || p.ip in db.pool
    ensures Probed(db, UpdatePoolForCheck(SaveRecheckResult(db, p), p), p, version)
  {
    version := if p.ip in db.pool then db.version + 1 else db.version + 2;
  }

  lemma ProbedKeeps(db: Db, d: Db, p: Probe, version: nat)
    requires AgreesAt(db, p.ip) && Probed(db, d, p, version) && (p.ok || p.ip in db.pool)
    requires forall c <- Of(db.checks, p.ip) :: c.row.checkedAt < p.checkedAt
    ensures KeepsAt(db, d, p.ip, true)
  {
    AppendNewest(db.checks, ProbeRow(p));
    ProbeStep(p.ip, Of(db.checks, p.ip), StoredCheck(MaxId(db.checks) + 1, ProbeRow(p)), RowIn(db.pool, p.ip), p, version);
  }

  /** Probes of other IPs, and failed probes of IPs outside the pool, leave ip alone. */
  lemma ProbeElsewhere(db: Db, p: Probe, ip: string)
    requires ip != p.ip || (!p.ok && p.ip !in db.pool)
    ensures UntouchedAt(db, UpdatePoolForCheck(SaveRecheckResult(db, p), p), ip)
  {
    if ip != p.ip {
      AppendOther(db.checks, ProbeRow(p), ip);
    }
  }

  lemma ProbeAt(db: Db, p: Probe, ip: string)
    requires AgreesAt(db, ip)
    requires p.ok || p.ip in db.pool ==> forall c <- Of(db.checks, p.ip) :: c.row.checkedAt < p.checkedAt
    ensures KeepsAt(db, UpdatePoolForCheck(SaveRecheckResult(db, p), p), ip, true)
  {
    if ip != p.ip || (!p.ok && p.ip !in db.pool) {
      ProbeElsewhere(db, p, ip);
    } else {
      var version := ProbeEffect(db, p);
      ProbedKeeps(db, UpdatePoolForCheck(SaveRecheckResult(db, p), p), p, version);
    }
  }

  lemma WrittenKeeps(db: Db, r: Request, ip: string)
    requires AgreesAll(db) && InOrder(db, r)
    ensures KeepsAt(db, Written(db, r), ip, CountsOnce(r, ip))
  {
    match r
    case Ingest(rows, attempts, cutoff, _, _) => RetriedKeeps(db, rows, attempts, cutoff, ip);
    case OnDemand(p, _) => ProbeAt(db, p, ip);
  }

  /** Every in-order request, crashed inside pruning or not, keeps the pool in agreement with the view. */
  lemma HandleKeepsAgreement(db: Db, r: Request)
    requires AgreesAll(db) && InOrder(db, r)
    ensures AgreesAll(Handle(db, r))
  {
    DistinctMeans(PruneList(r));
    forall ip ensures AgreesAt(Handle(db, r), ip) {
      WrittenKeeps(db, r, ip);
      PrunePrefixAt(Written(db, r), Distinct(PruneList(r)), r.pruneSteps, ip);
    }
  }

  // ---------- Runs ----------

  lemma {:induction false} RunAgrees(db: Db, rs: seq<Request>)
    requires AgreesAll(db) && InOrderRun(db, rs)
    ensures AgreesAll(Run(db, rs))
  {
    if rs != [] {
      RunAgrees(db, rs[..|rs| - 1]);
      HandleKeepsAgreement(Run(db, rs[..|rs| - 1]), rs[|rs| - 1]);
    }
  }

  /** No request of the run crashed between deleting old rows and evicting. */
  ghost predicate PrunesComplete(rs: seq<Request>) {
    forall r <- rs :: r.pruneSteps % 2 == 0
  }

  /** No ingest of the run counted a success of ip more than once. */
  ghost predicate CountedOnce(rs: seq<Request>, ip: string) {
    forall r <- rs :: CountsOnce(r, ip)
  }

  /** No pruning of the run removed a row of ip. */
  ghost predicate NeverPruned(db: Db, rs: seq<Request>, ip: string) {
    rs != [] ==>
      && NeverPruned(db, rs[..|rs| - 1], ip)
      && Of(Run(db, rs).checks, ip) == Of(Written(Run(db, rs[..|rs| - 1]), rs[|rs| - 1]).checks, ip)
  }

  /** In runs whose prunings complete, an IP is in the pool only while it has a success. */
  lemma {:induction false} RunMembers(rs: seq<Request>, ip: string)
    requires InOrderRun(EMPTY, rs) && PrunesComplete(rs)
    ensures MembersHaveSuccess(Of(Run(EMPTY, rs).checks, ip), RowIn(Run(EMPTY, rs).pool, ip))
  {
    if rs != [] {
      var before, r := rs[..|rs| - 1], rs[|rs| - 1];
      assert r in rs && forall q <- before :: q in rs;
      RunMembers(before, ip);
      EmptyAgrees();
      RunAgrees(EMPTY, before);
      var db := Run(EMPTY, before);
      WrittenKeeps(db, r, ip);
      DistinctMeans(PruneList(r));
      PrunePrefixAt(Written(db, r), Distinct(PruneList(r)), r.pruneSteps, ip);
    }
  }

  /** An IP from which nothing was pruned, and whose successes were counted once, never drifts, whether prunings crash or not. */
  lemma {:induction false} RunExact(rs: seq<Request>, ip: string)
    requires InOrderRun(EMPTY, rs) && NeverPruned(EMPTY, rs, ip) && CountedOnce(rs, ip)
    ensures MembersHaveSuccess(Of(Run(EMPTY, rs).checks, ip), RowIn(Run(EMPTY, rs).pool, ip))
    ensures Exact(Of(Run(EMPTY, rs).checks, ip), RowIn(Run(EMPTY, rs).pool, ip))
  {
    if rs != [] {
      var before, r := rs[..|rs| - 1], rs[|rs| - 1];
      assert r in rs && forall q <- before :: q in rs;
      RunExact(before, ip);
      EmptyAgrees();
      RunAgrees(EMPTY, before);
      var db := Run(EMPTY, before);
      WrittenKeeps(db, r, ip);
      DistinctMeans(PruneList(r));
      PrunePrefixAt(Written(db, r), Distinct(PruneList(r)), r.pruneSteps, ip);
    }
  }

  lemma EmptyAgrees()
    ensures AgreesAll(EMPTY)
  {
    forall ip ensures AgreesAt(EMPTY, ip) {
      assert Of(EMPTY.checks, ip) == [];
    }
  }

  /**
   * Main result. From empty tables, after any in-order requests whose prunings complete, ingests that stopped anywhere
   * and were submitted again included, ip_pool and the view have the same IPs and agree in every column but first_seen
   * and times_seen, which drift one way only.
   */
  lemma PoolMatchesView(rs: seq<Request>, ip: string)
    requires InOrderRun(EMPTY, rs) && PrunesComplete(rs)
    ensures
      var db := Run(EMPTY, rs);
      var v := View(db.checks, ip);
      && (ip in db.pool <==> v.Some?)
      && (v.Some? ==>
            var p := AsViewRow(db.pool[ip]);
            && p == v.value.(firstSeen := p.firstSeen, timesSeen := p.timesSeen)
            && p.firstSeen <= v.value.firstSeen
            && p.timesSeen >= v.value.timesSeen
            && db.pool[ip].historyCount == |Of(db.checks, ip)|)
  {
    EmptyAgrees();
    RunAgrees(EMPTY, rs);
    RunMembers(rs, ip);
    var db := Run(EMPTY, rs);
    assert AgreesAt(db, ip);
    OkRowsNonempty(Of(db.checks, ip));
  }

  /**
   * An IP from which no pruning of the run removed a row, and whose successes no resubmitted ingest counted again, has
   * exactly the view's row, in every column, even if requests crash inside pruning.
   */
  lemma PoolEqualsView(rs: seq<Request>, ip: string)
    requires InOrderRun(EMPTY, rs) && NeverPruned(EMPTY, rs, ip) && CountedOnce(rs, ip)
    ensures
      var db := Run(EMPTY, rs);
      View(db.checks, ip) == match RowIn(db.pool, ip)
                             case Some(p) => Some(AsViewRow(p))
                             case None => None
  {
    EmptyAgrees();
    RunAgrees(EMPTY, rs);
    RunExact(rs, ip);
    var db := Run(EMPTY, rs);
    var rows := Of(db.checks, ip);
    assert AgreesAt(db, ip);
    OkRowsNonempty(rows);
    if HasOk(rows) {
      ExactAgreementIsEquality(ip, rows, RowIn(db.pool, ip));
    }
  }

  /**
   * Even when requests crash inside pruning, at every request boundary no success is untracked, and every pool row is
   * accountable: history_count is exact, the last check is the newest stored one, and unless the row awaits eviction
   * with a full history of failures, it agrees with the view like the row of a run that never crashed.
   */
  lemma CrashedRunsStayAccountable(rs: seq<Request>, ip: string)
    requires InOrderRun(EMPTY, rs)
    ensures
      var db := Run(EMPTY, rs);
      var rows, v := Of(db.checks, ip), View(db.checks, ip);
      && (v.Some? ==> ip in db.pool)
      && (ip in db.pool ==>
            var p := AsViewRow(db.pool[ip]);
            && db.pool[ip].historyCount == |rows|
            && rows != [] && p.lastCheckedAt == Newest(rows).row.checkedAt && p.lastCheckOk == Newest(rows).row.ok
            && (v.None? ==> |rows| >= CHECK_HISTORY_RETENTION)
            && (v.Some? ==>
                  && p == v.value.(firstSeen := p.firstSeen, timesSeen := p.timesSeen)
                  && p.firstSeen <= v.value.firstSeen
                  && p.timesSeen >= v.value.timesSeen))
  {
    EmptyAgrees();
    RunAgrees(EMPTY, rs);
    assert AgreesAt(Run(EMPTY, rs), ip);
    OkRowsNonempty(Of(Run(EMPTY, rs).checks, ip));
  }
}
