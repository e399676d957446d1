/**
 * What one visit to the page does (public/static/home.js:421-485): the tab asks for the changes since its copy's
 * version, takes the answer, and downloads the pool if it is told to.
 */
module Visits {
  import opened Prelude
  import opened Store
  import opened PoolHistory
  import opened DeltaSync
  import opened Answers
  import opened Browser

  // ---------- Taking an answer ----------

  /** A full answer replaces the copy unless the copy is newer; the tab is done. */
  lemma FullIsTaken(w: World, t: nat, version: nat, rows: map<string, ApiRow>)
    requires Synced(w) && t in w.tabs && w.tabs[t] == AwaitFull && Full(None, version, rows) in w.server.answers
    ensures
      var u := Happen(w, Receive(t, Full(None, version, rows)));
      && u.server == w.server && u.tabs == w.tabs - {t}
      && u.cache == if w.cache.version.Some? && w.cache.version.value > version then w.cache
                    else Cache(w.server.history.Rows(version), Some(version))
  {
    assert GoodAnswer(w.server.history, Full(None, version, rows));
    assert OfFamily(w.server.history.Rows(version), None) == w.server.history.Rows(version);
  }

  /** A delta that is not older than the copy makes it the pool at the delta's version. */
  lemma DeltaIsTaken(w: World, t: nat, since: nat, version: nat, rows: map<string, ApiRow>)
    requires Synced(w) && t in w.tabs && w.tabs[t] == AwaitDelta(since) && Delta(since, version, rows) in w.server.answers
    requires w.cache.version.value <= version
    ensures
      var u := Happen(w, Receive(t, Delta(since, version, rows)));
      && u.server == w.server && u.tabs == w.tabs - {t}
      && u.cache == Cache(w.server.history.Rows(version), Some(version))
  {
    assert GoodAnswer(w.server.history, Delta(since, version, rows));
    if since != version {
      TimelyDelta(w.server.history, since, version, rows, w.cache.version.value);
    }
  }

  /** A reset makes the tab ask for everything, and changes nothing else. */
  lemma ResetIsFollowed(w: World, t: nat, since: nat, version: nat)
    requires t in w.tabs && w.tabs[t] == AwaitDelta(since) && Reset(since, version) in w.server.answers
    ensures Happen(w, Receive(t, Reset(since, version))) == w.(tabs := w.tabs[t := AwaitFull])
  {
  }

  // ---------- The server's part ----------

  function Serves(actions: seq<Action>): seq<Event> {
    seq(|actions|, i requires 0 <= i < |actions| => Serve(actions[i]))
  }

  lemma {:induction false} LiveAppend(w: World, a: seq<Event>, b: seq<Event>)
    ensures Live(w, a + b) == Live(Live(w, a), b)
  {
    if b == [] {
      assert a + b == a;
    } else {
      assert (a + b)[..|a + b| - 1] == a + b[..|b| - 1];
      LiveAppend(w, a, b[..|b| - 1]);
    }
  }

  lemma LiveOne(w: World, e: Event)
    ensures Live(w, [e]) == Happen(w, e)
  {
    assert [e][..0] == [];
  }

  /** The server's actions change the server only, as they would without any tab. */
  lemma {:induction false} ServesRun(w: World, actions: seq<Action>)
    requires Synced(w)
    ensures Live(w, Serves(actions)) == w.(server := Run(w.server, actions)) && Synced(Live(w, Serves(actions)))
  {
    if actions != [] {
      var n := |actions| - 1;
      ServesRun(w, actions[..n]);
      assert Serves(actions)[..n] == Serves(actions[..n]);
      ServeSynced(Live(w, Serves(actions[..n])), actions[n]);
    }
  }

  function Turns(id: nat, n: nat): seq<Action> {
    seq(n, _ => Advance(id, false))
  }

  lemma {:induction false} TurnsAreSteps(id: nat, n: nat)
    ensures Steps(Turns(id, n), id) == n && ReadersOnly(Turns(id, n))
  {
    if n > 0 {
      TurnsAreSteps(id, n - 1);
      assert Turns(id, n)[..n - 1] == Turns(id, n - 1);
    }
  }

  lemma {:induction false} RunAppend(s: Server, a: seq<Action>, b: seq<Action>)
    ensures Run(s, a + b) == Run(Run(s, a), b)
  {
    if b == [] {
      assert a + b == a;
    } else {
      assert (a + b)[..|a + b| - 1] == a + b[..|b| - 1];
      RunAppend(s, a, b[..|b| - 1]);
    }
  }

  /** A request of this kind arrives and takes n steps while nothing is written. */
  function Asked(id: nat, start: Progress, n: nat): seq<Action> {
    [Arrive(id, start)] + Turns(id, n)
  }

  lemma AskedRun(s: Server, id: nat, start: Progress, n: nat)
    requires Coherent(s) && id !in s.requests && (start.ChangesArrived? || start.PoolArrived?)
    ensures Run(s, Asked(id, start, n)) == Run(Become(s, id, start), Turns(id, n))
    ensures Coherent(Become(s, id, start)) && ReadersOnly(Turns(id, n)) && Steps(Turns(id, n), id) == n
    ensures Run(s, Asked(id, start, n)).db == s.db
  {
    RunAppend(s, [Arrive(id, start)], Turns(id, n));
    assert [Arrive(id, start)][..0] == [];
    assert Run(s, [Arrive(id, start)]) == Become(s, id, start);
    ArriveCoherent(s, id, start);
    TurnsAreSteps(id, n);
    ReadersCoherent(Become(s, id, start), Turns(id, n));
  }

  // ---------- A visit ----------

  /** The copy is the pool of now. */
  ghost predicate UpToDate(w: World) {
    w.cache == Cache(Visible(w.server.db), Some(w.server.db.version))
  }

  lemma CopyNotAhead(w: World)
    requires Synced(w)
    ensures w.cache.version.Some? ==> w.cache.version.value <= w.server.db.version
    ensures w.server.history.Rows(w.server.db.version) == Visible(w.server.db)
  {
  }

  /** Downloading the pool. */
  lemma FullVisit(w: World, t: nat, id: nat) returns (es: seq<Event>)
    requires Synced(w) && t in w.tabs && w.tabs[t] == AwaitFull && id !in w.server.requests
    ensures var u := Live(w, es); u.server.db == w.server.db && UpToDate(u) && u.tabs == w.tabs - {t}
    ensures forall e <- es :: !(e.Serve? && e.action.Write?)
  {
    var actions := Asked(id, PoolArrived(None), 3);
    AskedRun(w.server, id, PoolArrived(None), 3);
    ServesRun(w, actions);
    var mid := Live(w, Serves(actions));
    var a := PoolIsAnswered(Become(w.server, id, PoolArrived(None)), Turns(id, 3), id, None);
    es := Serves(actions) + [Receive(t, a)];
    LiveAppend(w, Serves(actions), [Receive(t, a)]);
    LiveOne(mid, Receive(t, a));
    CopyNotAhead(mid);
    FullIsTaken(mid, t, a.version, a.rows);
  }

  /** Asking for the changes: the copy is up to date, or the tab was told to download the pool. */
  lemma DeltaVisit(w: World, t: nat, since: nat, id: nat) returns (es: seq<Event>)
    requires Synced(w) && t in w.tabs && w.tabs[t] == AwaitDelta(since) && id !in w.server.requests
    ensures
      var u := Live(w, es);
      && u.server.db == w.server.db && Synced(u) && u.server == Run(w.server, Asked(id, ChangesArrived(since), 4))
      && if w.server.db.resetVersion <= since then UpToDate(u) && u.tabs == w.tabs - {t}
         else u.tabs == w.tabs[t := AwaitFull] && u.cache == w.cache
    ensures forall e <- es :: !(e.Serve? && e.action.Write?)
  {
    var actions := Asked(id, ChangesArrived(since), 4);
    AskedRun(w.server, id, ChangesArrived(since), 4);
    ServesRun(w, actions);
    var mid := Live(w, Serves(actions));
    var a := ChangesAreAnswered(Become(w.server, id, ChangesArrived(since)), Turns(id, 4), id, since);
    es := Serves(actions) + [Receive(t, a)];
    LiveAppend(w, Serves(actions), [Receive(t, a)]);
    LiveOne(mid, Receive(t, a));
    CopyNotAhead(mid);
    if w.server.db.resetVersion <= since {
      DeltaIsTaken(mid, t, since, a.version, a.rows);
    } else {
      ResetIsFollowed(mid, t, since, w.server.db.version);
    }
    HappenSynced(mid, Receive(t, a));
  }

  lemma {:induction false} TurnsTouch(s: Server, id: nat, n: nat)
    ensures Run(s, Turns(id, n)).requests.Keys <= s.requests.Keys
  {
    if n > 0 {
      TurnsTouch(s, id, n - 1);
      assert Turns(id, n)[..n - 1] == Turns(id, n - 1);
      TurnTouches(Run(s, Turns(id, n - 1)), id);
    }
  }

  lemma TurnTouches(s: Server, id: nat)
    ensures Step(s, Advance(id, false)).requests.Keys <= s.requests.Keys
  {
    if id in s.requests {
      ContinueTouches(s, id);
    }
  }

  lemma ContinueTouches(s: Server, id: nat)
    requires id in s.requests
    ensures Continue(s, id, false).requests.Keys <= s.requests.Keys
  {
  }

  /**
   * Main result. From every state in which the copies are right, with whatever requests, caches and other tabs there are,
   * a visit while nothing is written leaves the copy equal to the pool of now: it asks for the changes since its version,
   * downloads the pool if it has none or is told to, and is done.
   */
  lemma VisitCatchesUp(w: World, t: nat, id: nat, other: nat) returns (es: seq<Event>)
    requires Synced(w) && t !in w.tabs && id !in w.server.requests && other !in w.server.requests && id != other
    ensures var u := Live(w, [Load(t)] + es); u.server.db == w.server.db && UpToDate(u) && u.tabs == w.tabs
    ensures forall e <- es :: !(e.Serve? && e.action.Write?)
  {
    var loaded := Happen(w, Load(t));
    HappenSynced(w, Load(t));
    LiveOne(w, Load(t));
    assert loaded.tabs - {t} == w.tabs;
    if w.cache.version.None? {
      es := FullVisit(loaded, t, id);
    } else {
      var since := w.cache.version.value;
      es := DeltaVisit(loaded, t, since, id);
      if w.server.db.resetVersion > since {
        var reset := Live(loaded, es);
        AskedRun(loaded.server, id, ChangesArrived(since), 4);
        TurnsTouch(Become(loaded.server, id, ChangesArrived(since)), id, 4);
        var more := FullVisit(reset, t, other);
        LiveAppend(loaded, es, more);
        assert reset.tabs - {t} == w.tabs;
        es := es + more;
      }
    }
    LiveAppend(w, [Load(t)], es);
  }
}
