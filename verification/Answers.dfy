/**
 * What the answers of functions/api/pool.ts and functions/api/pool/changes.ts hold, in terms of the tables, and when
 * a request gets one.
 */
module Answers {
  import opened Prelude
  import opened Store
  import opened PoolHistory
  import opened DeltaSync

  // ---------- Rows ----------

  /** A row of an answer about ip, column by column. */
  ghost predicate ShowsRow(db: Db, ip: string, row: ApiRow)
    requires ip in db.pool
  {
    var p := db.pool[ip];
    && row.revision == p.revision && row.reachable == p.lastCheckOk
    && row.firstSeen == p.firstSeen && row.lastSeen == p.lastSeen && row.lastRttMs == p.lastRttMs
    && row.ptrHostnames == (if ip in db.ptrCache then db.ptrCache[ip].hostnames else "")
  }

  /** Exactly the pool rows that changed after since. */
  ghost predicate ShowsChanges(db: Db, since: nat, rows: map<string, ApiRow>) {
    && (forall ip :: ip in rows <==> ip in db.pool && since < db.pool[ip].revision)
    && (forall ip :: ip in rows && ip in db.pool ==> ShowsRow(db, ip, rows[ip]))
  }

  /** family=6 asks for the addresses with a colon, family=4 for those without. */
  ghost predicate ShowsFamily(db: Db, family: Family, rows: map<string, ApiRow>) {
    && (forall ip :: ip in rows <==> ip in db.pool && (family == Some(true) ==> ':' in ip) && (family == Some(false) ==> ':' !in ip))
    && (forall ip :: ip in rows && ip in db.pool ==> ShowsRow(db, ip, rows[ip]))
  }

  lemma ChangesShown(db: Db, since: nat)
    requires Bounded(Snap(db), db.version)
    ensures ShowsChanges(db, since, Changed(Visible(db), since, db.version))
  {
    forall ip | ip in db.pool ensures db.pool[ip].revision <= db.version {
      assert ip in Snap(db).rows;
    }
  }

  lemma FamilyShown(db: Db, family: Family)
    ensures ShowsFamily(db, family, OfFamily(Visible(db), family))
  {
  }

  // ---------- The state behind an answer ----------

  /** Every version of a run is what the tables held after some of its actions. */
  lemma {:induction false} VersionIsState(db: Db, actions: seq<Action>, v: nat) returns (k: nat)
    requires Bounded(Snap(db), db.version) && Run(Start(db), actions).history.Has(v)
    ensures k <= |actions|
    ensures var d := Run(Start(db), actions[..k]).db; d.version == v && Run(Start(db), actions).history.AtVersion(v) == Snap(d) && Bounded(Snap(d), v)
    decreases |actions|
  {
    RunCoherent(db, actions);
    var s := Run(Start(db), actions);
    if v == s.db.version {
      k := |actions|;
      assert actions[..k] == actions;
      HistoryBounded(s.history, v);
    } else {
      var n := |actions| - 1;
      RunCoherent(db, actions[..n]);
      EarlierVersion(Run(Start(db), actions[..n]), actions[n], v);
      k := VersionIsState(db, actions[..n], v);
      assert actions[..n][..k] == actions[..k];
    }
  }

  lemma EarlierVersion(s: Server, a: Action, v: nat)
    requires Coherent(s) && Step(s, a).history.Has(v) && v != Step(s, a).db.version
    ensures s.history.Has(v) && Step(s, a).history.AtVersion(v) == s.history.AtVersion(v)
  {
    StepCoherent(s, a);
    if s.history.Has(v) {
      StillAtVersion(s.history, Step(s, a).history, v);
    } else {
      NewVersionReset(s, a, v);
    }
  }

  /**
   * Main result. Every answer of every run, live or cached, shows the tables as they were after some of its actions, at
   * the version the answer carries: all changed rows, or all rows of the family, column by column.
   */
  lemma AnswersShowTheTables(db: Db, actions: seq<Action>, a: Answer) returns (k: nat)
    requires Bounded(Snap(db), db.version) && a in Run(Start(db), actions).answers && !a.Reset?
    ensures k <= |actions|
    ensures
      var d := Run(Start(db), actions[..k]).db;
      && d.version == a.version
      && (a.Delta? ==> a.since <= a.version && ShowsChanges(d, a.since, a.rows))
      && (a.Full? ==> ShowsFamily(d, a.family, a.rows))
  {
    RunCoherent(db, actions);
    var h := Run(Start(db), actions).history;
    assert GoodAnswer(h, a);
    k := VersionIsState(db, actions, a.version);
    var d := Run(Start(db), actions[..k]).db;
    assert h.Rows(a.version) == Visible(d);
    if a.Delta? {
      ChangesShown(d, a.since);
    } else {
      FamilyShown(d, a.family);
    }
  }

  // ---------- When a request is answered ----------

  /** The answer that /api/pool/changes owes while nothing is written. */
  ghost predicate RightChanges(db: Db, since: nat, a: Answer) {
    if db.resetVersion <= since <= db.version then a.Delta? && a.since == since && a.version == db.version && ShowsChanges(db, since, a.rows)
    else a == Reset(since, db.version)
  }

  ghost predicate RightFull(db: Db, family: Family, a: Answer) {
    a.Full? && a.family == family && a.version == db.version && ShowsFamily(db, family, a.rows)
  }

  /** The request is so many steps from its answer, at most. */
  ghost predicate ChangesOnWay(db: Db, since: nat, p: Progress, left: nat) {
    match p
    case ChangesArrived(_) => p.since == since && left >= 4
    case ChangesVersioned(_, _) => p.since == since <= p.version == db.version && left >= 3
    case ChangesChecked(_, _) => p.since == since < p.version == db.version && db.resetVersion <= since && left >= 2
    case ChangesLoaded(_, _, _) =>
      p.since == since < p.version == db.version && db.resetVersion <= since && p.rows == Changed(Visible(db), since, db.version) && left >= 1
    case _ => false
  }

  ghost predicate FullOnWay(db: Db, family: Family, p: Progress, left: nat) {
    match p
    case PoolArrived(_) => p.family == family && left >= 3
    case PoolVersioned(_, _) => p.family == family && p.version == db.version && left >= 2
    case PoolLoaded(_, _, _) => p.family == family && p.version == db.version && p.rows == OfFamily(Visible(db), family) && left >= 1
    case _ => false
  }

  ghost predicate ChangesCourse(s: Server, id: nat, since: nat, left: nat) {
    || (exists a <- s.answers :: RightChanges(s.db, since, a))
    || (id in s.requests && ChangesOnWay(s.db, since, s.requests[id], left))
  }

  ghost predicate FullCourse(s: Server, id: nat, family: Family, left: nat) {
    || (exists a <- s.answers :: RightFull(s.db, family, a))
    || (id in s.requests && FullOnWay(s.db, family, s.requests[id], left))
  }

  lemma CurrentBounded(s: Server)
    requires Coherent(s)
    ensures Bounded(Snap(s.db), s.db.version)
  {
    HistoryBounded(s.history, s.db.version);
  }

  lemma AnswersStay(s: Server, a: Action)
    requires !a.Write?
    ensures s.answers <= Step(s, a).answers && Step(s, a).db == s.db
  {
  }

  lemma ChangesMoveOn(s: Server, id: nat, since: nat, left: nat, hit: bool)
    requires Coherent(s) && id in s.requests && ChangesOnWay(s.db, since, s.requests[id], left)
    ensures left > 0 && ChangesCourse(Continue(s, id, hit), id, since, left - 1)
  {
    CurrentBounded(s);
    ChangesShown(s.db, since);
    var p, u := s.requests[id], Continue(s, id, hit);
    match p
    case ChangesArrived(_) =>
      if since > s.db.version {
        assert Reset(since, s.db.version) in u.answers;
      }
    case ChangesVersioned(_, _) =>
      if since < s.db.resetVersion {
        assert Reset(since, s.db.version) in u.answers;
      } else if since == s.db.version {
        assert Delta(since, since, map[]) in u.answers;
        NothingNewer(s.history, since);
      }
    case ChangesChecked(_, _) =>
      if hit && (since, p.version) in s.changesCache {
        assert GoodDelta(s.history, since, p.version, s.changesCache[(since, p.version)]);
        assert Delta(since, p.version, s.changesCache[(since, p.version)]) in u.answers;
      }
    case ChangesLoaded(_, _, _) =>
      assert Delta(since, p.version, p.rows) in u.answers;
  }

  lemma FullMovesOn(s: Server, id: nat, family: Family, left: nat, hit: bool)
    requires Coherent(s) && id in s.requests && FullOnWay(s.db, family, s.requests[id], left)
    ensures left > 0 && FullCourse(Continue(s, id, hit), id, family, left - 1)
  {
    FamilyShown(s.db, family);
    var p, u := s.requests[id], Continue(s, id, hit);
    match p
    case PoolArrived(_) =>
    case PoolVersioned(_, _) =>
      if hit && (family, p.version) in s.poolCache {
        assert GoodFull(s.history, family, p.version, s.poolCache[(family, p.version)]);
        assert Full(family, p.version, s.poolCache[(family, p.version)]) in u.answers;
      }
    case PoolLoaded(_, _, _) =>
      assert Full(family, p.version, p.rows) in u.answers;
  }

  /** Another request's step changes nothing about this one. */
  lemma OthersKeepRequest(s: Server, a: Action, id: nat)
    requires !a.Write? && id in s.requests && !(a.Advance? && a.id == id)
    ensures id in Step(s, a).requests && Step(s, a).requests[id] == s.requests[id]
  {
    if a.Advance? && a.id in s.requests {
      OthersContinue(s, a.id, a.hit, id);
    }
  }

  lemma OthersContinue(s: Server, other: nat, hit: bool, id: nat)
    requires other in s.requests && id in s.requests && id != other
    ensures id in Continue(s, other, hit).requests && Continue(s, other, hit).requests[id] == s.requests[id]
  {
  }

  function Steps(actions: seq<Action>, id: nat): nat {
    if actions == [] then 0
    else
      var a := actions[|actions| - 1];
      Steps(actions[..|actions| - 1], id) + if a.Advance? && a.id == id then 1 else 0
  }

  function Less(left: nat, steps: nat): nat {
    if steps <= left then left - steps else 0
  }

  lemma ChangesStep(s: Server, a: Action, id: nat, since: nat, left: nat)
    requires Coherent(s) && !a.Write? && ChangesCourse(s, id, since, left)
    ensures ChangesCourse(Step(s, a), id, since, if a.Advance? && a.id == id then Less(left, 1) else left)
  {
    AnswersStay(s, a);
    if b :| b in s.answers && RightChanges(s.db, since, b) {
      assert b in Step(s, a).answers;
    } else if a.Advance? && a.id == id {
      ChangesMoveOn(s, id, since, left, a.hit);
    } else {
      OthersKeepRequest(s, a, id);
    }
  }

  lemma FullStep(s: Server, a: Action, id: nat, family: Family, left: nat)
    requires Coherent(s) && !a.Write? && FullCourse(s, id, family, left)
    ensures FullCourse(Step(s, a), id, family, if a.Advance? && a.id == id then Less(left, 1) else left)
  {
    AnswersStay(s, a);
    if b :| b in s.answers && RightFull(s.db, family, b) {
      assert b in Step(s, a).answers;
    } else if a.Advance? && a.id == id {
      FullMovesOn(s, id, family, left, a.hit);
    } else {
      OthersKeepRequest(s, a, id);
    }
  }

  /** Nothing is written: the actions are steps of requests. */
  ghost predicate ReadersOnly(actions: seq<Action>) {
    forall a <- actions :: !a.Write?
  }

  lemma {:induction false} ReadersCoherent(s: Server, actions: seq<Action>)
    requires Coherent(s) && ReadersOnly(actions)
    ensures Coherent(Run(s, actions)) && Run(s, actions).db == s.db
  {
    if actions != [] {
      var n := |actions| - 1;
      assert actions == actions[..n] + [actions[n]];
      ReadersCoherent(s, actions[..n]);
      StepCoherent(Run(s, actions[..n]), actions[n]);
      AnswersStay(Run(s, actions[..n]), actions[n]);
    }
  }

  lemma {:induction false} ChangesRun(s: Server, actions: seq<Action>, id: nat, since: nat)
    requires Coherent(s) && ReadersOnly(actions) && id in s.requests && s.requests[id] == ChangesArrived(since)
    ensures ChangesCourse(Run(s, actions), id, since, Less(4, Steps(actions, id)))
  {
    if actions != [] {
      var n := |actions| - 1;
      assert actions == actions[..n] + [actions[n]];
      ReadersCoherent(s, actions[..n]);
      ChangesRun(s, actions[..n], id, since);
      ChangesStep(Run(s, actions[..n]), actions[n], id, since, Less(4, Steps(actions[..n], id)));
    }
  }

  lemma {:induction false} FullRun(s: Server, actions: seq<Action>, id: nat, family: Family)
    requires Coherent(s) && ReadersOnly(actions) && id in s.requests && s.requests[id] == PoolArrived(family)
    ensures FullCourse(Run(s, actions), id, family, Less(3, Steps(actions, id)))
  {
    if actions != [] {
      var n := |actions| - 1;
      assert actions == actions[..n] + [actions[n]];
      ReadersCoherent(s, actions[..n]);
      FullRun(s, actions[..n], id, family);
      FullStep(Run(s, actions[..n]), actions[n], id, family, Less(3, Steps(actions[..n], id)));
    }
  }

  /**
   * Main result. While no writer comes between, a request for the changes since a version gets its answer within four
   * steps, whatever the other requests do and whatever the caches hold: a delta with exactly the changed rows if
   * reset_version <= since <= version, both ends included, and a reset otherwise.
   */
  lemma ChangesAreAnswered(s: Server, actions: seq<Action>, id: nat, since: nat) returns (a: Answer)
    requires Coherent(s) && ReadersOnly(actions) && id in s.requests && s.requests[id] == ChangesArrived(since) && Steps(actions, id) >= 4
    ensures a in Run(s, actions).answers
    ensures
      if s.db.resetVersion <= since <= s.db.version then a.Delta? && a.since == since && a.version == s.db.version && ShowsChanges(s.db, since, a.rows)
      else a == Reset(since, s.db.version)
  {
    ReadersCoherent(s, actions);
    ChangesRun(s, actions, id, since);
    a :| a in Run(s, actions).answers && RightChanges(s.db, since, a);
  }

  /** The same for /api/pool, within three steps. */
  lemma PoolIsAnswered(s: Server, actions: seq<Action>, id: nat, family: Family) returns (a: Answer)
    requires Coherent(s) && ReadersOnly(actions) && id in s.requests && s.requests[id] == PoolArrived(family) && Steps(actions, id) >= 3
    ensures a in Run(s, actions).answers && a.Full? && a.family == family && a.version == s.db.version && ShowsFamily(s.db, family, a.rows)
  {
    ReadersCoherent(s, actions);
    FullRun(s, actions, id, family);
    a :| a in Run(s, actions).answers && RightFull(s.db, family, a);
  }

  // ---------- Evictions are real ----------

  /** The second half of pruneCheckHistory makes a version if and only if an IP leaves the pool; then it resets. */
  lemma EvictionIsReal(db: Db, ips: set<string>)
    ensures
      var d := PruneEvict(db, ips);
      && (d.version != db.version <==> exists ip :: ip in db.pool && ip !in d.pool)
      && (d.version != db.version ==> d.version == db.version + 1 && d.resetVersion == d.version)
      && (d.version == db.version ==> d == db)
  {
    var d := PruneEvict(db, ips);
    if DeadIPs(db, ips) != {} {
      var ip :| ip in DeadIPs(db, ips);
      assert ip in db.pool && ip !in d.pool;
    }
  }
}
