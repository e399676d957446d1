/** When a request of functions/api/history.ts is answered, and with what. */
module HistoryRequests {
  import opened Prelude
  import opened Store
  import opened Pages
  import opened CheckHistory

  /** v is the largest id of the rows, 0 if there are none. */
  ghost predicate IsVersion(rows: seq<StoredCheck>, v: nat) {
    (forall c <- rows :: c.id <= v) && if rows == [] then v == 0 else exists c <- rows :: c.id == v
  }

  /**
   * The answer that a request owes while nothing is written: nothing new if it has the current version, otherwise the
   * newest 300 checks, with a reset if it is ahead.
   */
  ghost predicate RightHistory(db: Db, ip: string, since: Option<nat>, a: Answer) {
    && a.ip == ip && IsVersion(Of(db.checks, ip), a.version)
    && (if since == Some(a.version) then a.Unchanged?
        else a.Page? && (a.reset <==> since.Some? && since.value > a.version) && ShowsNewest(Of(db.checks, ip), a.page))
  }

  /** The request is so many steps from its answer, at most. */
  ghost predicate OnWay(db: Db, ip: string, since: Option<nat>, p: Progress, left: nat) {
    match p
    case Arrived(_, _) => p.ip == ip && p.since == since && left >= 3
    case Versioned(_, _, _) =>
      && p.ip == ip && p.version == HistoryVersion(db, ip) && since != Some(p.version) && left >= 2
      && (p.reset <==> since.Some? && since.value > p.version)
    case Loaded(_, _, _, _) =>
      && p.ip == ip && p.version == HistoryVersion(db, ip) && since != Some(p.version) && left >= 1
      && (p.reset <==> since.Some? && since.value > p.version)
      && p.page == NewestFirst(Of(db.checks, ip))
  }

  ghost predicate Course(s: Server, id: nat, ip: string, since: Option<nat>, left: nat)
    requires s.dbs != []
  {
    || (exists a <- s.answers :: RightHistory(Now(s), ip, since, a))
    || (id in s.requests && OnWay(Now(s), ip, since, s.requests[id], left))
  }

  lemma CurrentPage(s: Server, ip: string)
    requires Coherent(s)
    ensures ShowsNewest(Of(Now(s).checks, ip), NewestFirst(Of(Now(s).checks, ip)))
    ensures IsVersion(Of(Now(s).checks, ip), HistoryVersion(Now(s), ip))
  {
    assert s.dbs[|s.dbs| - 1] == Now(s);
    PageShowsNewest(Of(Now(s).checks, ip));
    MaxIdBounds(Of(Now(s).checks, ip));
  }

  /** A cached page of the current version is the current page. */
  lemma CachedPage(s: Server, ip: string, page: seq<StoredCheck>)
    requires Coherent(s) && GoodPage(s.dbs, ip, HistoryVersion(Now(s), ip), page)
    ensures page == NewestFirst(Of(Now(s).checks, ip))
  {
    var k :| 0 <= k < |s.dbs| && HistoryVersion(s.dbs[k], ip) == HistoryVersion(Now(s), ip) && page == NewestFirst(Of(s.dbs[k].checks, ip));
    TraceAdvances(s.dbs, k, |s.dbs| - 1, ip);
  }

  lemma AnsweredNow(s: Server, u: Server, id: nat, ip: string, since: Option<nat>, left: nat, a: Answer)
    requires u.dbs == s.dbs != [] && a in u.answers && RightHistory(Now(s), ip, since, a)
    ensures Course(u, id, ip, since, left)
  {
  }

  lemma ArrivedMovesOn(s: Server, id: nat, ip: string, since: Option<nat>, left: nat, hit: bool)
    requires Coherent(s) && id in s.requests && OnWay(Now(s), ip, since, s.requests[id], left) && s.requests[id].Arrived?
    ensures Course(Continue(s, id, hit), id, ip, since, left - 1)
  {
    var version := HistoryVersion(Now(s), ip);
    CurrentPage(s, ip);
    if since == Some(version) {
      AnsweredNow(s, Continue(s, id, hit), id, ip, since, left - 1, Unchanged(ip, version));
    }
  }

  lemma VersionedMovesOn(s: Server, id: nat, ip: string, since: Option<nat>, left: nat, hit: bool)
    requires Coherent(s) && id in s.requests && OnWay(Now(s), ip, since, s.requests[id], left) && s.requests[id].Versioned?
    ensures Course(Continue(s, id, hit), id, ip, since, left - 1)
  {
    if !s.requests[id].reset && hit && (ip, s.requests[id].version) in s.cache {
      CacheAnswers(s, id, ip, since, left);
    } else {
      MissLoads(s, id, ip, since, left, hit);
    }
  }

  lemma CacheAnswers(s: Server, id: nat, ip: string, since: Option<nat>, left: nat)
    requires Coherent(s) && id in s.requests && OnWay(Now(s), ip, since, s.requests[id], left) && s.requests[id].Versioned?
    requires !s.requests[id].reset && (ip, s.requests[id].version) in s.cache
    ensures Course(Continue(s, id, true), id, ip, since, left - 1)
  {
    var version := HistoryVersion(Now(s), ip);
    CurrentPage(s, ip);
    CachedPage(s, ip, s.cache[(ip, version)]);
    AnsweredNow(s, Continue(s, id, true), id, ip, since, left - 1, Page(ip, version, false, s.cache[(ip, version)]));
  }

  lemma MissLoads(s: Server, id: nat, ip: string, since: Option<nat>, left: nat, hit: bool)
    requires Coherent(s) && id in s.requests && OnWay(Now(s), ip, since, s.requests[id], left) && s.requests[id].Versioned?
    requires s.requests[id].reset || !hit || (ip, s.requests[id].version) !in s.cache
    ensures Course(Continue(s, id, hit), id, ip, since, left - 1)
  {
    var p, u := s.requests[id], Continue(s, id, hit);
    assert u.requests[id] == Loaded(ip, p.reset, p.version, NewestFirst(Of(Now(s).checks, ip)));
    assert OnWay(Now(u), ip, since, u.requests[id], left - 1);
  }

  lemma LoadedMovesOn(s: Server, id: nat, ip: string, since: Option<nat>, left: nat, hit: bool)
    requires Coherent(s) && id in s.requests && OnWay(Now(s), ip, since, s.requests[id], left) && s.requests[id].Loaded?
    ensures Course(Continue(s, id, hit), id, ip, since, left - 1)
  {
    var p, version := s.requests[id], HistoryVersion(Now(s), ip);
    CurrentPage(s, ip);
    AnsweredNow(s, Continue(s, id, hit), id, ip, since, left - 1, Page(ip, version, p.reset, p.page));
  }

  lemma MoveOn(s: Server, id: nat, ip: string, since: Option<nat>, left: nat, hit: bool)
    requires Coherent(s) && id in s.requests && OnWay(Now(s), ip, since, s.requests[id], left)
    ensures left > 0 && Course(Continue(s, id, hit), id, ip, since, left - 1)
  {
    match s.requests[id]
    case Arrived(_, _) => ArrivedMovesOn(s, id, ip, since, left, hit);
    case Versioned(_, _, _) => VersionedMovesOn(s, id, ip, since, left, hit);
    case Loaded(_, _, _, _) => LoadedMovesOn(s, id, ip, since, left, hit);
  }

  lemma OthersKeep(s: Server, a: Action, id: nat)
    requires s.dbs != [] && !a.Write?
    ensures s.answers <= Step(s, a).answers && Step(s, a).dbs == s.dbs
    ensures id in s.requests && !(a.Advance? && a.id == id) ==> id in Step(s, a).requests && Step(s, a).requests[id] == s.requests[id]
  {
  }

  function Steps(actions: seq<Action>, id: nat): nat {
    if actions == [] then 0
    else
      var a := actions[|actions| - 1];
      Steps(actions[..|actions| - 1], id) + if a.Advance? && a.id == id then 1 else 0
  }

  function Less(left: nat, steps: nat): nat {
    if steps <= left then left - steps else 0
  }

  lemma StepCourse(s: Server, a: Action, id: nat, ip: string, since: Option<nat>, left: nat)
    requires Coherent(s) && !a.Write? && Course(s, id, ip, since, left)
    ensures Step(s, a).dbs == s.dbs
    ensures Course(Step(s, a), id, ip, since, if a.Advance? && a.id == id then Less(left, 1) else left)
  {
    OthersKeep(s, a, id);
    if b :| b in s.answers && RightHistory(Now(s), ip, since, b) {
      assert b in Step(s, a).answers;
    } else if a.Advance? && a.id == id {
      MoveOn(s, id, ip, since, left, a.hit);
    }
  }

  lemma StepCoherent(s: Server, a: Action)
    requires Coherent(s) && !a.Write?
    ensures Coherent(Step(s, a))
  {
    if a.Advance? && a.id in s.requests {
      ContinueCoherent(s, a.id, a.hit);
    }
  }

  /** The steps of the requests, one after the other. */
  ghost function Serve(s: Server, actions: seq<Action>): (t: Server)
    requires s.dbs != []
    ensures t.dbs != []
  {
    if actions == [] then s else Step(Serve(s, actions[..|actions| - 1]), actions[|actions| - 1])
  }

  lemma {:induction false} CourseOf(s: Server, actions: seq<Action>, id: nat, ip: string, since: Option<nat>)
    requires Coherent(s) && (forall a <- actions :: !a.Write?) && id in s.requests && s.requests[id] == Arrived(ip, since)
    ensures var t := Serve(s, actions); Coherent(t) && t.dbs == s.dbs && Course(t, id, ip, since, Less(3, Steps(actions, id)))
  {
    if actions != [] {
      var n := |actions| - 1;
      assert actions == actions[..n] + [actions[n]];
      CourseOf(s, actions[..n], id, ip, since);
      StepCourse(Serve(s, actions[..n]), actions[n], id, ip, since, Less(3, Steps(actions[..n], id)));
      StepCoherent(Serve(s, actions[..n]), actions[n]);
    }
  }

  /**
   * Main result. While no writer comes between, a request gets its answer within three steps, whatever the other requests
   * do and whatever the cache holds: nothing new if and only if it has the current version, otherwise the newest 300
   * checks of the IP, with a reset if and only if it is ahead.
   */
  lemma HistoryIsAnswered(s: Server, actions: seq<Action>, id: nat, ip: string, since: Option<nat>) returns (a: Answer)
    requires Coherent(s) && (forall b <- actions :: !b.Write?) && id in s.requests && s.requests[id] == Arrived(ip, since)
    requires Steps(actions, id) >= 3
    ensures a in Serve(s, actions).answers && RightHistory(Now(s), ip, since, a)
  {
    CourseOf(s, actions, id, ip, since);
    a :| a in Serve(s, actions).answers && RightHistory(Now(s), ip, since, a);
  }
}
