/**
 * functions/api/pool.ts and functions/api/pool/changes.ts as a state machine: requests take one read of the shared
 * state at a time, writers commit batches in between, and answers may come from an edge cache keyed by version.
 */
module DeltaSync {
  import opened Prelude
  import opened Store
  import opened PoolHistory

  /** The family filter of /api/pool: absent, or IPv6 yes or no. */
  type Family = Option<bool>

  function OfFamily(rows: map<string, ApiRow>, family: Family): map<string, ApiRow> {
    map ip | ip in rows && (family.None? || family.value == IsIPv6(ip)) :: rows[ip]
  }

  /** Where a request stands: what it has read so far. */
  datatype Progress =
    | ChangesArrived(since: nat)
    | ChangesVersioned(since: nat, version: nat)
    | ChangesChecked(since: nat, version: nat)
    | ChangesLoaded(since: nat, version: nat, rows: map<string, ApiRow>)
    | PoolArrived(family: Family)
    | PoolVersioned(family: Family, version: nat)
    | PoolLoaded(family: Family, version: nat, rows: map<string, ApiRow>)

  /** A 200 answer. */
  datatype Answer =
    | Reset(since: nat, version: nat)
    | Delta(since: nat, version: nat, rows: map<string, ApiRow>)
    | Full(family: Family, version: nat, rows: map<string, ApiRow>)

  datatype Server = Server(
    db: Db,
    history: History,
    changesCache: map<(nat, nat), map<string, ApiRow>>,
    poolCache: map<(Family, nat), map<string, ApiRow>>,
    requests: map<nat, Progress>,
    answers: set<Answer>)

  datatype Action =
    | Write(batch: Batch)
    | Arrive(id: nat, start: Progress)
    | Advance(id: nat, hit: bool)

  function Become(s: Server, id: nat, p: Progress): Server {
    s.(requests := s.requests[id := p])
  }

  function Finish(s: Server, id: nat): Server {
    s.(requests := s.requests - {id})
  }

  function Respond(s: Server, id: nat, a: Answer): Server {
    Finish(s, id).(answers := s.answers + {a})
  }

  /**
   * The next step of one request. hit says whether the edge cache of the request's location still holds an entry:
   * a miss is always possible, a hit only for an entry that some request put there.
   */
  function Continue(s: Server, id: nat, hit: bool): Server
    requires id in s.requests
  {
    match s.requests[id]
    case ChangesArrived(since) =>
      if since > s.db.version then Respond(s, id, Reset(since, s.db.version))
      else Become(s, id, ChangesVersioned(since, s.db.version))
    case ChangesVersioned(since, version) =>
      if since < s.db.resetVersion then Respond(s, id, Reset(since, version))
      else if since == version then Respond(s, id, Delta(since, version, map[]))
      else Become(s, id, ChangesChecked(since, version))
    case ChangesChecked(since, version) =>
      if hit && (since, version) in s.changesCache then Respond(s, id, Delta(since, version, s.changesCache[(since, version)]))
      else Become(s, id, ChangesLoaded(since, version, Changed(Visible(s.db), since, version)))
    case ChangesLoaded(since, version, rows) =>
      if s.db.version != version then Finish(s, id)
      else Respond(s.(changesCache := s.changesCache[(since, version) := rows]), id, Delta(since, version, rows))
    case PoolArrived(family) => Become(s, id, PoolVersioned(family, s.db.version))
    case PoolVersioned(family, version) =>
      if hit && (family, version) in s.poolCache then Respond(s, id, Full(family, version, s.poolCache[(family, version)]))
      else Become(s, id, PoolLoaded(family, version, OfFamily(Visible(s.db), family)))
    case PoolLoaded(family, version, rows) =>
      if s.db.version != version then Finish(s, id)
      else Respond(s.(poolCache := s.poolCache[(family, version) := rows]), id, Full(family, version, rows))
  }

  function Step(s: Server, a: Action): Server {
    match a
    case Write(b) => var d := Apply(s.db, b); s.(db := d, history := Record(s.history, d))
    case Arrive(id, start) => if id !in s.requests && (start.ChangesArrived? || start.PoolArrived?) then Become(s, id, start) else s
    case Advance(id, hit) => if id in s.requests then Continue(s, id, hit) else s
  }

  function Run(s: Server, actions: seq<Action>): Server {
    if actions == [] then s else Step(Run(s, actions[..|actions| - 1]), actions[|actions| - 1])
  }

  function Start(db: Db): Server {
    Server(db, History(db.version, [Snap(db)]), map[], map[], map[], {})
  }

  // ---------- The invariant ----------

  /** The changes from since to version, with nothing evicted in between that since should have seen. */
  ghost predicate GoodDelta(h: History, since: nat, version: nat, rows: map<string, ApiRow>) {
    && h.Has(version) && since <= version
    && h.AtVersion(version).reset <= since
    && rows == Changed(h.Rows(version), since, version)
  }

  ghost predicate GoodFull(h: History, family: Family, version: nat, rows: map<string, ApiRow>) {
    h.Has(version) && rows == OfFamily(h.Rows(version), family)
  }

  /** The client is ahead of the version read, or something was evicted after the version it has. */
  ghost predicate GoodReset(h: History, since: nat, version: nat) {
    h.Has(version) && (since > version || exists v: nat :: h.Has(v) && since < h.AtVersion(v).reset)
  }

  ghost predicate GoodAnswer(h: History, a: Answer) {
    match a
    case Reset(_, _) => GoodReset(h, a.since, a.version)
    case Delta(since, version, rows) => GoodDelta(h, since, version, rows)
    case Full(family, version, rows) => GoodFull(h, family, version, rows)
  }

  /** What a request has read is true of its version for as long as that version is current. */
  ghost predicate GoodProgress(h: History, p: Progress) {
    match p
    case ChangesArrived(_) => true
    case ChangesVersioned(since, version) => h.Has(version) && since <= version
    case ChangesChecked(since, version) => h.Has(version) && since < version && h.AtVersion(version).reset <= since
    case ChangesLoaded(since, version, rows) =>
      && h.Has(version) && since < version && h.AtVersion(version).reset <= since
      && (version == h.Last() ==> GoodDelta(h, since, version, rows))
    case PoolArrived(_) => true
    case PoolVersioned(_, version) => h.Has(version)
    case PoolLoaded(family, version, rows) => h.Has(version) && (version == h.Last() ==> GoodFull(h, family, version, rows))
  }

  ghost predicate Current(s: Server) {
    && ValidHistory(s.history)
    && s.history.Last() == s.db.version
    && s.history.AtVersion(s.db.version) == Snap(s.db)
  }

  ghost predicate Coherent(s: Server) {
    && Current(s)
    && (forall k <- s.changesCache :: GoodDelta(s.history, k.0, k.1, s.changesCache[k]))
    && (forall k <- s.poolCache :: GoodFull(s.history, k.0, k.1, s.poolCache[k]))
    && (forall id <- s.requests :: GoodProgress(s.history, s.requests[id]))
    && (forall a <- s.answers :: GoodAnswer(s.history, a))
  }

  lemma StartCoherent(db: Db)
    requires Bounded(Snap(db), db.version)
    ensures Coherent(Start(db))
  {
  }

  // ---------- Stability under later versions ----------

  ghost predicate Extends(h: History, g: History) {
    h.base == g.base && h.snaps <= g.snaps && h.snaps != []
  }

  lemma DeltaStable(h: History, g: History, since: nat, version: nat, rows: map<string, ApiRow>)
    requires Extends(h, g) && GoodDelta(h, since, version, rows)
    ensures GoodDelta(g, since, version, rows)
  {
    assert g.AtVersion(version) == h.AtVersion(version);
  }

  lemma FullStable(h: History, g: History, family: Family, version: nat, rows: map<string, ApiRow>)
    requires Extends(h, g) && GoodFull(h, family, version, rows)
    ensures GoodFull(g, family, version, rows)
  {
    assert g.AtVersion(version) == h.AtVersion(version);
  }

  lemma ResetStable(h: History, g: History, since: nat, version: nat)
    requires Extends(h, g) && GoodReset(h, since, version)
    ensures GoodReset(g, since, version)
  {
    if since <= version {
      var v: nat :| h.Has(v) && since < h.AtVersion(v).reset;
      assert g.AtVersion(v) == h.AtVersion(v);
    }
  }

  lemma AnswerStable(h: History, g: History, a: Answer)
    requires Extends(h, g) && GoodAnswer(h, a)
    ensures GoodAnswer(g, a)
  {
    match a
    case Reset(since, version) => ResetStable(h, g, since, version);
    case Delta(since, version, rows) => DeltaStable(h, g, since, version, rows);
    case Full(family, version, rows) => FullStable(h, g, family, version, rows);
  }

  lemma ProgressStable(h: History, g: History, p: Progress)
    requires Extends(h, g) && GoodProgress(h, p)
    ensures GoodProgress(g, p)
  {
    match p
    case ChangesArrived(_) =>
    case PoolArrived(_) =>
    case ChangesVersioned(_, version) => assert g.AtVersion(version) == h.AtVersion(version);
    case ChangesChecked(_, version) => assert g.AtVersion(version) == h.AtVersion(version);
    case ChangesLoaded(_, version, _) => assert g.AtVersion(version) == h.AtVersion(version);
    case PoolVersioned(_, version) => assert g.AtVersion(version) == h.AtVersion(version);
    case PoolLoaded(_, version, _) => assert g.AtVersion(version) == h.AtVersion(version);
  }

  lemma WriteCoherent(s: Server, b: Batch)
    requires Coherent(s)
    ensures Coherent(Step(s, Write(b))) && Extends(s.history, Step(s, Write(b)).history)
  {
    var t := Step(s, Write(b));
    RecordValid(s.history, s.db, b);
    forall k | k in s.changesCache ensures GoodDelta(t.history, k.0, k.1, t.changesCache[k]) {
      DeltaStable(s.history, t.history, k.0, k.1, s.changesCache[k]);
    }
    forall k | k in s.poolCache ensures GoodFull(t.history, k.0, k.1, t.poolCache[k]) {
      FullStable(s.history, t.history, k.0, k.1, s.poolCache[k]);
    }
    forall id | id in s.requests ensures GoodProgress(t.history, t.requests[id]) {
      ProgressStable(s.history, t.history, s.requests[id]);
    }
    forall a | a in s.answers ensures GoodAnswer(t.history, a) {
      AnswerStable(s.history, t.history, a);
    }
  }

  // ---------- The steps of a request ----------

  lemma ResetOnlyGrows(s: Server, version: nat)
    requires Current(s) && s.history.Has(version)
    ensures s.history.AtVersion(version).reset <= s.db.resetVersion
  {
    RowsSince(s.history, version, s.db.version, "");
  }

  lemma NothingNewer(h: History, version: nat)
    requires ValidHistory(h) && h.Has(version)
    ensures Changed(h.Rows(version), version, version) == map[]
  {
    var rows := Changed(h.Rows(version), version, version);
    forall ip ensures ip !in rows {}
  }

  lemma RespondCoherent(s: Server, id: nat, a: Answer)
    requires Coherent(s) && GoodAnswer(s.history, a)
    ensures Coherent(Respond(s, id, a))
  {
  }

  lemma BecomeCoherent(s: Server, id: nat, p: Progress)
    requires Coherent(s) && GoodProgress(s.history, p)
    ensures Coherent(Become(s, id, p))
  {
  }

  lemma CheckedCoherent(s: Server, id: nat, since: nat, version: nat)
    requires Coherent(s) && id in s.requests && s.requests[id] == ChangesVersioned(since, version)
    ensures Coherent(Continue(s, id, false)) && Continue(s, id, true) == Continue(s, id, false)
  {
    ResetOnlyGrows(s, version);
    assert GoodProgress(s.history, ChangesVersioned(since, version));
    if since < s.db.resetVersion {
      assert s.history.AtVersion(s.db.version).reset == s.db.resetVersion;
      RespondCoherent(s, id, Reset(since, version));
    } else if since == version {
      NothingNewer(s.history, version);
      RespondCoherent(s, id, Delta(since, version, map[]));
    } else {
      BecomeCoherent(s, id, ChangesChecked(since, version));
    }
  }

  lemma LoadCoherent(s: Server, id: nat, hit: bool, since: nat, version: nat)
    requires Coherent(s) && id in s.requests && s.requests[id] == ChangesChecked(since, version)
    ensures Coherent(Continue(s, id, hit))
  {
    assert GoodProgress(s.history, ChangesChecked(since, version));
    if hit && (since, version) in s.changesCache {
      RespondCoherent(s, id, Delta(since, version, s.changesCache[(since, version)]));
    } else {
      BecomeCoherent(s, id, ChangesLoaded(since, version, Changed(Visible(s.db), since, version)));
    }
  }

  lemma ContinueChanges(s: Server, id: nat, hit: bool)
    requires Coherent(s) && id in s.requests
    requires var p := s.requests[id]; p.ChangesArrived? || p.ChangesVersioned? || p.ChangesChecked? || p.ChangesLoaded?
    ensures Coherent(Continue(s, id, hit))
  {
    match s.requests[id]
    case ChangesArrived(since) =>
      if since <= s.db.version {
        BecomeCoherent(s, id, ChangesVersioned(since, s.db.version));
      } else {
        RespondCoherent(s, id, Reset(since, s.db.version));
      }
    case ChangesVersioned(since, version) => CheckedCoherent(s, id, since, version);
    case ChangesChecked(since, version) => LoadCoherent(s, id, hit, since, version);
    case ChangesLoaded(since, version, rows) =>
      if s.db.version == version {
        assert GoodProgress(s.history, s.requests[id]);
        var t := s.(changesCache := s.changesCache[(since, version) := rows]);
        assert Coherent(t);
        RespondCoherent(t, id, Delta(since, version, rows));
      }
  }

  lemma ContinuePool(s: Server, id: nat, hit: bool)
    requires Coherent(s) && id in s.requests
    requires var p := s.requests[id]; p.PoolArrived? || p.PoolVersioned? || p.PoolLoaded?
    ensures Coherent(Continue(s, id, hit))
  {
  }

  lemma ArriveCoherent(s: Server, id: nat, start: Progress)
    requires Coherent(s) && (start.ChangesArrived? || start.PoolArrived?)
    ensures Coherent(Become(s, id, start))
  {
  }

  lemma ContinueCoherent(s: Server, id: nat, hit: bool)
    requires Coherent(s) && id in s.requests
    ensures Coherent(Continue(s, id, hit))
  {
    var p := s.requests[id];
    if p.PoolArrived? || p.PoolVersioned? || p.PoolLoaded? {
      ContinuePool(s, id, hit);
    } else {
      ContinueChanges(s, id, hit);
    }
  }

  lemma ReadersKeepHistory(s: Server, id: nat, hit: bool)
    requires id in s.requests
    ensures Continue(s, id, hit).history == s.history && Continue(s, id, hit).db == s.db
  {
  }

  lemma StepCoherent(s: Server, a: Action)
    requires Coherent(s)
    ensures Coherent(Step(s, a)) && Extends(s.history, Step(s, a).history)
  {
    match a
    case Write(b) => WriteCoherent(s, b);
    case Arrive(id, start) =>
      if start.ChangesArrived? || start.PoolArrived? {
        ArriveCoherent(s, id, start);
      }
    case Advance(id, hit) =>
      if id in s.requests {
        ContinueCoherent(s, id, hit);
        ReadersKeepHistory(s, id, hit);
      }
  }

  lemma {:induction false} RunCoherent(db: Db, actions: seq<Action>)
    requires Bounded(Snap(db), db.version)
    ensures Coherent(Run(Start(db), actions))
  {
    if actions == [] {
      StartCoherent(db);
    } else {
      RunCoherent(db, actions[..|actions| - 1]);
      StepCoherent(Run(Start(db), actions[..|actions| - 1]), actions[|actions| - 1]);
    }
  }

  // ---------- Evictions ----------

  lemma OnlyEvictResets(db: Db, b: Batch)
    ensures Apply(db, b).resetVersion == if b.Evict? then db.version + 1 else db.resetVersion
    ensures b.Evict? ==> Apply(db, b).version == db.version + 1
  {
    match b
    case InsertChunk(rows, successful, cutoff) => InsertKeepsPool(db, rows, successful, cutoff);
    case PoolChunk(entries, cutoff) => TouchesStamp(db.(version := db.version + 1), entries, cutoff);
    case SavePTRChunk(ptrs) => PTRsStamp(db.(version := db.version + 1), ptrs);
    case _ =>
  }

  /** The k-th action evicted something, and made a version after since. */
  ghost predicate EvictsAfter(db: Db, actions: seq<Action>, k: int, since: nat) {
    && 0 <= k < |actions| && actions[k].Write? && actions[k].batch.Evict?
    && since < Run(Start(db), actions[..k + 1]).db.version
  }

  /** After since an IP was evicted: before the run, or by an action of it. */
  ghost predicate EvictedSince(db: Db, actions: seq<Action>, since: nat) {
    since < db.resetVersion || exists k :: EvictsAfter(db, actions, k, since)
  }

  lemma EvictedBefore(db: Db, actions: seq<Action>, since: nat)
    requires actions != [] && EvictedSince(db, actions[..|actions| - 1], since)
    ensures EvictedSince(db, actions, since)
  {
    if since >= db.resetVersion {
      var k :| EvictsAfter(db, actions[..|actions| - 1], k, since);
      assert actions[..|actions| - 1][..k + 1] == actions[..k + 1];
      assert EvictsAfter(db, actions, k, since);
    }
  }

  /** A version that an action makes carries the reset version of before, unless it evicts. */
  lemma NewVersionReset(s: Server, a: Action, v: nat)
    requires Coherent(s) && Step(s, a).history.Has(v) && !s.history.Has(v)
    ensures v == Step(s, a).db.version && a.Write?
    ensures Step(s, a).history.AtVersion(v).reset == if a.batch.Evict? then v else s.db.resetVersion
  {
    StepCoherent(s, a);
    match a
    case Write(b) =>
      OnlyEvictResets(s.db, b);
      HistoryBounded(s.history, s.db.version);
      BatchEvolves(s.db, b);
    case Advance(id, hit) =>
      if id in s.requests {
        ReadersKeepHistory(s, id, hit);
      }
    case _ =>
  }

  lemma EvictsNow(db: Db, actions: seq<Action>, since: nat)
    requires actions != [] && actions[|actions| - 1].Write? && actions[|actions| - 1].batch.Evict?
    requires since < Run(Start(db), actions).db.version
    ensures EvictedSince(db, actions, since)
  {
    assert actions[..|actions| - 1 + 1] == actions;
    assert EvictsAfter(db, actions, |actions| - 1, since);
  }

  /** The reset version of v is that of an earlier version, or the action evicts and makes v. */
  lemma OlderReset(s: Server, a: Action, v: nat) returns (u: nat)
    requires Coherent(s) && Step(s, a).history.Has(v)
    ensures
      || (s.history.Has(u) && s.history.AtVersion(u).reset == Step(s, a).history.AtVersion(v).reset)
      || (a.Write? && a.batch.Evict? && Step(s, a).history.AtVersion(v).reset == v == Step(s, a).db.version)
  {
    StepCoherent(s, a);
    u := if s.history.Has(v) then v else s.db.version;
    if s.history.Has(v) {
      StillAtVersion(s.history, Step(s, a).history, v);
    } else {
      NewVersionReset(s, a, v);
      CurrentReset(s);
    }
  }

  lemma StillAtVersion(h: History, g: History, v: nat)
    requires Extends(h, g) && h.Has(v)
    ensures g.Has(v) && g.AtVersion(v) == h.AtVersion(v)
  {
  }

  lemma CurrentReset(s: Server)
    requires Coherent(s)
    ensures s.history.Has(s.db.version) && s.history.AtVersion(s.db.version).reset == s.db.resetVersion
  {
  }

  /** The reset version of every version of a run is that of an eviction. */
  lemma {:induction false} ResetsAreEvictions(db: Db, actions: seq<Action>, since: nat, v: nat)
    requires Bounded(Snap(db), db.version)
    requires var h := Run(Start(db), actions).history; h.Has(v) && since < h.AtVersion(v).reset
    ensures EvictedSince(db, actions, since)
    decreases |actions|
  {
    if actions != [] {
      var n := |actions| - 1;
      var s := Run(Start(db), actions[..n]);
      RunCoherent(db, actions[..n]);
      var u := OlderReset(s, actions[n], v);
      if s.history.Has(u) && s.history.AtVersion(u).reset == Step(s, actions[n]).history.AtVersion(v).reset {
        ResetsAreEvictions(db, actions[..n], since, u);
        EvictedBefore(db, actions, since);
      } else {
        EvictsNow(db, actions, since);
      }
    }
  }

  /**
   * Main result. In every interleaving of readers and writer batches, /api/pool/changes asks for a reset only if the
   * client is ahead or something was evicted after its version; every other answer of it, live or cached, holds exactly
   * the rows of the pool at its version v with since < revision <= v, and overlaying them on the pool at since gives the
   * pool at v; every answer of /api/pool is exactly the pool at its version.
   */
  lemma AnswersAreExact(db: Db, actions: seq<Action>, a: Answer)
    requires Bounded(Snap(db), db.version) && a in Run(Start(db), actions).answers
    ensures
      var h := Run(Start(db), actions).history;
      match a
      case Reset(_, _) => a.since > a.version || EvictedSince(db, actions, a.since)
      case Delta(since, version, rows) =>
        && h.Has(version) && since <= version
        && (forall ip :: ip in rows <==> ip in h.Rows(version) && since < h.Rows(version)[ip].revision <= version)
        && (forall ip <- rows :: rows[ip] == h.Rows(version)[ip])
        && (h.Has(since) ==> h.Rows(since) + rows == h.Rows(version))
      case Full(family, version, rows) =>
        h.Has(version) && rows == OfFamily(h.Rows(version), family)
  {
    RunCoherent(db, actions);
    var h := Run(Start(db), actions).history;
    assert GoodAnswer(h, a);
    if a.Reset? && a.since <= a.version {
      var v: nat :| h.Has(v) && a.since < h.AtVersion(v).reset;
      ResetsAreEvictions(db, actions, a.since, v);
    }
    if a.Delta? && h.Has(a.since) {
      OverlayGivesVersion(h, a.since, a.version);
    }
  }
}
