/**
 * public/static/home.js:446-485 with two tabs and an eviction: a whole run of the server and both tabs in which a delta
 * that comes late brings an evicted IP back into the shared copy.
 */
module LateDelta {
  import opened Prelude
  import opened Store
  import opened PoolHistory
  import opened DeltaSync
  import opened Browser

  // ---------- Requests that nothing interrupts ----------

  lemma {:induction false} LiveAppend(w: World, a: seq<Event>, b: seq<Event>)
    ensures Live(w, a + b) == Live(Live(w, a), b)
  {
    if b == [] {
      assert a + b == a;
    } else {
      assert (a + b)[..|a + b| - 1] == a + b[..|b| - 1];
      LiveAppend(w, a, b[..|b| - 1]);
    }
  }

  lemma LiveFirst(w: World, e: Event, more: seq<Event>)
    ensures Live(w, [e] + more) == Live(Happen(w, e), more)
  {
    LiveAppend(w, [e], more);
    assert [e][..0] == [];
    assert Live(w, [e]) == Happen(Live(w, []), e);
  }

  function Advances(id: nat, steps: nat): seq<Event> {
    if steps == 0 then [] else [Serve(Advance(id, false))] + Advances(id, steps - 1)
  }

  function Request(id: nat, start: Progress, steps: nat): seq<Event> {
    [Serve(Arrive(id, start))] + Advances(id, steps)
  }

  function Proceed(s: Server, id: nat, steps: nat): Server
    decreases steps
  {
    if steps == 0 then s else Proceed(Step(s, Advance(id, false)), id, steps - 1)
  }

  lemma {:induction false} AdvancesProceed(w: World, id: nat, steps: nat)
    ensures Live(w, Advances(id, steps)) == w.(server := Proceed(w.server, id, steps))
    decreases steps
  {
    if steps > 0 {
      LiveFirst(w, Serve(Advance(id, false)), Advances(id, steps - 1));
      AdvancesProceed(Happen(w, Serve(Advance(id, false))), id, steps - 1);
    }
  }

  lemma RequestProceeds(w: World, id: nat, start: Progress, steps: nat)
    ensures Live(w, Request(id, start, steps)) == w.(server := Proceed(Step(w.server, Arrive(id, start)), id, steps))
  {
    LiveFirst(w, Serve(Arrive(id, start)), Advances(id, steps));
    AdvancesProceed(Happen(w, Serve(Arrive(id, start))), id, steps);
  }

  /** One answer more, and nothing else a browser or a writer can see. */
  ghost predicate Answered(w: World, u: World, a: Answer) {
    && u.cache == w.cache && u.tabs == w.tabs
    && u.server.db == w.server.db && u.server.history == w.server.history && u.server.requests == map[]
    && u.server.answers == w.server.answers + {a}
  }

  lemma ProceedThree(s: Server, id: nat)
    ensures var a := Advance(id, false); Proceed(s, id, 3) == Step(Step(Step(s, a), a), a)
  {
    var a := Advance(id, false);
    assert Proceed(s, id, 3) == Proceed(Step(s, a), id, 2) == Proceed(Step(Step(s, a), a), id, 1);
    assert Proceed(Step(Step(s, a), a), id, 1) == Proceed(Step(Step(Step(s, a), a), a), id, 0);
  }

  lemma FullLoaded(s: Server, id: nat)
    requires s.requests == map[]
    ensures var t := Step(Step(Step(s, Arrive(id, PoolArrived(None))), Advance(id, false)), Advance(id, false));
            t == s.(requests := map[id := PoolLoaded(None, s.db.version, Visible(s.db))])
  {
    assert OfFamily(Visible(s.db), None) == Visible(s.db);
  }

  lemma FullAnswered(s: Server, id: nat)
    requires s.requests == map[id := PoolLoaded(None, s.db.version, Visible(s.db))]
    ensures var t, rows := Step(s, Advance(id, false)), Visible(s.db);
            t == s.(requests := map[], poolCache := s.poolCache[(None, s.db.version) := rows],
                    answers := s.answers + {Full(None, s.db.version, rows)})
  {
    assert s.requests - {id} == map[];
  }

  lemma FullServed(w: World, id: nat)
    requires w.server.requests == map[]
    ensures Answered(w, Live(w, Request(id, PoolArrived(None), 3)), Full(None, w.server.db.version, Visible(w.server.db)))
  {
    RequestProceeds(w, id, PoolArrived(None), 3);
    ProceedThree(Step(w.server, Arrive(id, PoolArrived(None))), id);
    FullLoaded(w.server, id);
    FullAnswered(w.server.(requests := map[id := PoolLoaded(None, w.server.db.version, Visible(w.server.db))]), id);
  }

  lemma ChangesAreLoaded(s: Server, id: nat, since: nat)
    requires s.requests == map[] && s.db.resetVersion <= since < s.db.version
    ensures var a := Advance(id, false);
            Step(Step(Step(Step(s, Arrive(id, ChangesArrived(since))), a), a), a) ==
            s.(requests := map[id := ChangesLoaded(since, s.db.version, Changed(Visible(s.db), since, s.db.version))])
  {
  }

  lemma DeltaAnswered(s: Server, id: nat, since: nat, rows: map<string, ApiRow>)
    requires s.requests == map[id := ChangesLoaded(since, s.db.version, rows)]
    ensures Step(s, Advance(id, false)) ==
            s.(requests := map[], changesCache := s.changesCache[(since, s.db.version) := rows],
               answers := s.answers + {Delta(since, s.db.version, rows)})
  {
    assert s.requests - {id} == map[];
  }

  lemma DeltaServed(w: World, id: nat, since: nat)
    requires w.server.requests == map[] && w.server.db.resetVersion <= since < w.server.db.version
    ensures
      var version := w.server.db.version;
      Answered(w, Live(w, Request(id, ChangesArrived(since), 4)), Delta(since, version, Changed(Visible(w.server.db), since, version)))
  {
    var s, s1 := w.server, Step(w.server, Arrive(id, ChangesArrived(since)));
    var rows := Changed(Visible(s.db), since, s.db.version);
    RequestProceeds(w, id, ChangesArrived(since), 4);
    assert Proceed(s1, id, 4) == Proceed(Step(s1, Advance(id, false)), id, 3);
    ProceedThree(Step(s1, Advance(id, false)), id);
    ChangesAreLoaded(s, id, since);
    DeltaAnswered(s.(requests := map[id := ChangesLoaded(since, s.db.version, rows)]), id, since, rows);
  }

  lemma ResetAnswered(s: Server, id: nat, since: nat)
    requires s.requests == map[] && since < s.db.resetVersion && since <= s.db.version
    ensures var a := Advance(id, false);
            Step(Step(Step(s, Arrive(id, ChangesArrived(since))), a), a) == s.(answers := s.answers + {Reset(since, s.db.version)})
  {
    assert (map[id := ChangesVersioned(since, s.db.version)]) - {id} == map[];
  }

  lemma ResetServed(w: World, id: nat, since: nat)
    requires w.server.requests == map[] && since < w.server.db.resetVersion && since <= w.server.db.version
    ensures Answered(w, Live(w, Request(id, ChangesArrived(since), 2)), Reset(since, w.server.db.version))
  {
    var a, s1 := Advance(id, false), Step(w.server, Arrive(id, ChangesArrived(since)));
    RequestProceeds(w, id, ChangesArrived(since), 2);
    assert Proceed(s1, id, 2) == Proceed(Step(s1, a), id, 1) == Proceed(Step(Step(s1, a), a), id, 0);
    ResetAnswered(w.server, id, since);
  }

  // ---------- The run ----------

  /** The PTR refresh touches the row of e.ip, and then the second half of pruneCheckHistory evicts it. */
  function Named(db: Db, e: PTREntry): Db {
    Apply(db, SavePTRChunk([e]))
  }

  function Gone(db: Db, e: PTREntry): Db {
    Apply(Named(db, e), Evict({e.ip}))
  }

  function Changes(db: Db, e: PTREntry): map<string, ApiRow> {
    Changed(Visible(Named(db, e)), db.version, db.version + 1)
  }

  /** Tab 1 fills the copy; both tabs then load it and ask for the changes since. */
  function BothLoad(db: Db): seq<Event> {
    [Load(1)] + (Request(1, PoolArrived(None), 3) + ([Receive(1, Full(None, db.version, Visible(db)))] + ([Load(1)] + [Load(2)])))
  }

  /** The server answers tab 1 before the eviction, */
  function FirstAsks(db: Db, e: PTREntry): seq<Event> {
    [Serve(Write(SavePTRChunk([e])))] + Request(1, ChangesArrived(db.version), 4)
  }

  /** and tab 2 after it, so that tab 2 fetches the whole pool. */
  function SecondResets(since: nat): seq<Event> {
    Request(2, ChangesArrived(since), 2) + [Receive(2, Reset(since, since + 2))]
  }

  function SecondFetches(db: Db, since: nat): seq<Event> {
    Request(2, PoolArrived(None), 3) + [Receive(2, Full(None, since + 2, Visible(db)))]
  }

  /** Tab 1 gets its answer last. */
  function AfterEviction(gone: Db, since: nat, changes: map<string, ApiRow>): seq<Event> {
    SecondResets(since) + (SecondFetches(gone, since) + [Receive(1, Delta(since, since + 1, changes))])
  }

  function UpToEviction(db: Db, e: PTREntry): seq<Event> {
    BothLoad(db) + (FirstAsks(db, e) + [Serve(Write(Evict({e.ip})))])
  }

  function Events(db: Db, e: PTREntry): seq<Event> {
    UpToEviction(db, e) + AfterEviction(Gone(db, e), db.version, Changes(db, e))
  }

  ghost predicate Between(w: World, db: Db, h: History, cache: Cache, tabs: map<nat, Tab>) {
    && w.server.db == db && w.server.history == h && w.server.requests == map[]
    && w.cache == cache && w.tabs == tabs
  }

  lemma LiveOne(w: World, e: Event)
    ensures Live(w, [e]) == Happen(w, e)
  {
    LiveFirst(w, e, []);
    assert [e] + [] == [e];
  }

  lemma BothLoaded(db: Db)
    ensures Between(Live(Begin(db), BothLoad(db)), db, History(db.version, [Snap(db)]), Cache(Visible(db), Some(db.version)),
                    map[1 := AwaitDelta(db.version), 2 := AwaitDelta(db.version)])
  {
    var w0, full := Begin(db), Full(None, db.version, Visible(db));
    var w1 := Happen(w0, Load(1));
    var w2 := Live(w1, Request(1, PoolArrived(None), 3));
    LiveFirst(w0, Load(1), Request(1, PoolArrived(None), 3) + ([Receive(1, full)] + ([Load(1)] + [Load(2)])));
    LiveAppend(w1, Request(1, PoolArrived(None), 3), [Receive(1, full)] + ([Load(1)] + [Load(2)]));
    FullServed(w1, 1);
    LiveFirst(w2, Receive(1, full), [Load(1)] + [Load(2)]);
    var w3 := Happen(w2, Receive(1, full));
    assert w3.tabs == map[];
    LiveFirst(w3, Load(1), [Load(2)]);
    LiveOne(Happen(w3, Load(1)), Load(2));
  }

  lemma NamedIs(db: Db, e: PTREntry)
    ensures Named(db, e).version == db.version + 1 && Named(db, e).resetVersion == db.resetVersion && Named(db, e).checks == db.checks
    ensures e.ip in db.pool ==> Named(db, e).pool == db.pool[e.ip := db.pool[e.ip].(ptrCheckedAt := Some(e.checkedAt), revision := db.version + 1)]
  {
    assert [e][..0] == [];
    assert SavePTRs(db.(version := db.version + 1), []) == db.(version := db.version + 1);
  }

  lemma NamedServed(w: World, db: Db, e: PTREntry, h: History, cache: Cache, tabs: map<nat, Tab>)
    requires h.Last() == db.version && Between(w, db, h, cache, tabs)
    ensures Between(Happen(w, Serve(Write(SavePTRChunk([e])))), Named(db, e), h.(snaps := h.snaps + [Snap(Named(db, e))]), cache, tabs)
  {
    NamedIs(db, e);
  }

  lemma FirstAsked(w: World, db: Db, e: PTREntry, cache: Cache, tabs: map<nat, Tab>)
    requires db.resetVersion <= db.version
    requires Between(w, db, History(db.version, [Snap(db)]), cache, tabs)
    ensures
      var u := Live(w, FirstAsks(db, e));
      && Between(u, Named(db, e), History(db.version, [Snap(db)] + [Snap(Named(db, e))]), cache, tabs)
      && Delta(db.version, db.version + 1, Changes(db, e)) in u.server.answers
  {
    var save := Serve(Write(SavePTRChunk([e])));
    NamedIs(db, e);
    NamedServed(w, db, e, History(db.version, [Snap(db)]), cache, tabs);
    LiveFirst(w, save, Request(1, ChangesArrived(db.version), 4));
    DeltaServed(Happen(w, save), 1, db.version);
  }

  lemma EvictServed(w: World, db: Db, e: PTREntry, h: History, cache: Cache, tabs: map<nat, Tab>) returns (u: World)
    requires h.Last() == db.version + 1 && Between(w, Named(db, e), h, cache, tabs)
    ensures u == Live(w, [Serve(Write(Evict({e.ip})))])
    ensures Between(u, Gone(db, e), h.(snaps := h.snaps + [Snap(Gone(db, e))]), cache, tabs)
    ensures u.server.answers == w.server.answers
    ensures Gone(db, e).version == Gone(db, e).resetVersion == db.version + 2
  {
    NamedIs(db, e);
    LiveOne(w, Serve(Write(Evict({e.ip}))));
    u := Happen(w, Serve(Write(Evict({e.ip}))));
  }

  lemma SecondReset(w: World, db: Db, since: nat, h: History, cache: Cache)
    requires db.version == db.resetVersion == since + 2
    requires Between(w, db, h, cache, map[1 := AwaitDelta(since), 2 := AwaitDelta(since)])
    ensures
      var u := Live(w, SecondResets(since));
      Between(u, db, h, cache, map[1 := AwaitDelta(since), 2 := AwaitFull]) && w.server.answers <= u.server.answers
  {
    var request, reset := Request(2, ChangesArrived(since), 2), Receive(2, Reset(since, since + 2));
    LiveAppend(w, request, [reset]);
    ResetServed(w, 2, since);
    LiveOne(Live(w, request), reset);
    assert (map[1 := AwaitDelta(since), 2 := AwaitDelta(since)])[2 := AwaitFull] == map[1 := AwaitDelta(since), 2 := AwaitFull];
  }

  /** Tab 2 replaces the older copy. */
  lemma FullDelivered(w: World, db: Db, h: History, cache: Cache, since: nat)
    requires cache.version == Some(since) && db.version == since + 2
    requires Between(w, db, h, cache, map[1 := AwaitDelta(since), 2 := AwaitFull])
    requires Full(None, db.version, Visible(db)) in w.server.answers
    ensures Between(Happen(w, Receive(2, Full(None, since + 2, Visible(db)))), db, h, Cache(Visible(db), Some(since + 2)), map[1 := AwaitDelta(since)])
  {
    assert (map[1 := AwaitDelta(since), 2 := AwaitFull]) - {2} == map[1 := AwaitDelta(since)];
  }

  lemma SecondFetched(w: World, db: Db, since: nat, h: History, cache: Cache)
    requires cache.version == Some(since) && db.version == since + 2
    requires Between(w, db, h, cache, map[1 := AwaitDelta(since), 2 := AwaitFull])
    ensures
      var u := Live(w, SecondFetches(db, since));
      && Between(u, db, h, Cache(Visible(db), Some(since + 2)), map[1 := AwaitDelta(since)])
      && w.server.answers <= u.server.answers
  {
    var full := Receive(2, Full(None, since + 2, Visible(db)));
    var mid := Live(w, Request(2, PoolArrived(None), 3));
    LiveAppend(w, Request(2, PoolArrived(None), 3), [full]);
    FullServed(w, 2);
    FullDelivered(mid, db, h, cache, since);
    LiveOne(mid, full);
  }

  /** The IP is gone, both tabs wait, and the answer to the first is on its way. */
  ghost predicate BothWait(w: World, gone: Db, since: nat, changes: map<string, ApiRow>) {
    && gone.version == gone.resetVersion == since + 2
    && w.cache.version == Some(since)
    && Between(w, gone, w.server.history, w.cache, map[1 := AwaitDelta(since), 2 := AwaitDelta(since)])
    && w.server.history.Has(since + 2) && w.server.history.Rows(since + 2) == Visible(gone)
    && Delta(since, since + 1, changes) in w.server.answers
  }

  /** Tab 2 has replaced the copy, and the answer to tab 1 is still on its way. */
  ghost predicate BeforeLast(w: World, gone: Db, since: nat, changes: map<string, ApiRow>) {
    && Between(w, gone, w.server.history, Cache(Visible(gone), Some(since + 2)), map[1 := AwaitDelta(since)])
    && w.server.history.Has(since + 2) && w.server.history.Rows(since + 2) == Visible(gone)
    && Delta(since, since + 1, changes) in w.server.answers
  }

  /** The first delta names the IP, and the pool after the eviction does not have it. */
  lemma NamedThenGone(db: Db, e: PTREntry)
    requires e.ip in DeadIPs(db, {e.ip})
    ensures e.ip in Changes(db, e) && e.ip !in Visible(Gone(db, e))
  {
    NamedIs(db, e);
    assert e.ip in Visible(Named(db, e));
  }

  /** The copy claims to be version v of the pool, and holds an ip that is not in it. */
  ghost predicate Revived(w: World, v: nat, ip: string) {
    && w.server.history.Has(v) && ip !in w.server.history.Rows(v)
    && w.cache.version == Some(v) && ip in w.cache.rows
    && !CopyIsPool(w.server.history, w.cache)
  }

  lemma LastDelivered(w: World, gone: Db, since: nat, changes: map<string, ApiRow>, ip: string)
    requires BeforeLast(w, gone, since, changes) && ip in changes && ip !in Visible(gone)
    ensures Revived(Live(w, [Receive(1, Delta(since, since + 1, changes))]), since + 2, ip)
  {
    LiveOne(w, Receive(1, Delta(since, since + 1, changes)));
    assert ip in Browser.Merge(Visible(gone), changes);
  }

  lemma FirstAskedThen(w: World, db: Db, e: PTREntry)
    requires db.resetVersion <= db.version
    requires Between(w, db, History(db.version, [Snap(db)]), Cache(Visible(db), Some(db.version)),
                     map[1 := AwaitDelta(db.version), 2 := AwaitDelta(db.version)])
    ensures BothWait(Live(w, FirstAsks(db, e) + [Serve(Write(Evict({e.ip})))]), Gone(db, e), db.version, Changes(db, e))
  {
    var h := History(db.version, [Snap(db)] + [Snap(Named(db, e))]);
    LiveAppend(w, FirstAsks(db, e), [Serve(Write(Evict({e.ip})))]);
    FirstAsked(w, db, e, w.cache, w.tabs);
    var u := EvictServed(Live(w, FirstAsks(db, e)), db, e, h, w.cache, w.tabs);
  }

  lemma EvictionReached(db: Db, e: PTREntry)
    requires db.resetVersion <= db.version
    ensures BothWait(Live(Begin(db), UpToEviction(db, e)), Gone(db, e), db.version, Changes(db, e))
  {
    LiveAppend(Begin(db), BothLoad(db), FirstAsks(db, e) + [Serve(Write(Evict({e.ip})))]);
    BothLoaded(db);
    FirstAskedThen(Live(Begin(db), BothLoad(db)), db, e);
  }

  lemma SecondThen(w: World, gone: Db, since: nat, changes: map<string, ApiRow>) returns (u: World)
    requires BothWait(w, gone, since, changes)
    ensures Live(w, AfterEviction(gone, since, changes)) == Live(u, [Receive(1, Delta(since, since + 1, changes))])
    ensures BeforeLast(u, gone, since, changes)
  {
    var mid, last := Live(w, SecondResets(since)), [Receive(1, Delta(since, since + 1, changes))];
    LiveAppend(w, SecondResets(since), SecondFetches(gone, since) + last);
    SecondReset(w, gone, since, w.server.history, w.cache);
    LiveAppend(mid, SecondFetches(gone, since), last);
    SecondFetched(mid, gone, since, w.server.history, w.cache);
    u := Live(mid, SecondFetches(gone, since));
  }

  /** The answer on its way to tab 1 names an IP that is gone. */
  ghost predicate Doomed(w: World, gone: Db, since: nat, changes: map<string, ApiRow>, ip: string) {
    BothWait(w, gone, since, changes) && ip in changes && ip !in Visible(gone)
  }

  lemma RestRevives(w: World, before: seq<Event>, gone: Db, since: nat, changes: map<string, ApiRow>, ip: string)
    requires Doomed(Live(w, before), gone, since, changes, ip)
    ensures Revived(Live(w, before + AfterEviction(gone, since, changes)), since + 2, ip)
  {
    LiveAppend(w, before, AfterEviction(gone, since, changes));
    var u := SecondThen(Live(w, before), gone, since, changes);
    LastDelivered(u, gone, since, changes, ip);
  }

  lemma DoomedRevives(db: Db, e: PTREntry)
    requires Doomed(Live(Begin(db), UpToEviction(db, e)), Gone(db, e), db.version, Changes(db, e), e.ip)
    ensures Revived(Live(Begin(db), Events(db, e)), db.version + 2, e.ip)
  {
    RestRevives(Begin(db), UpToEviction(db, e), Gone(db, e), db.version, Changes(db, e), e.ip);
  }

  lemma DoomReached(db: Db, e: PTREntry)
    requires db.resetVersion <= db.version && e.ip in DeadIPs(db, {e.ip})
    ensures Doomed(Live(Begin(db), UpToEviction(db, e)), Gone(db, e), db.version, Changes(db, e), e.ip)
  {
    EvictionReached(db, e);
    NamedThenGone(db, e);
  }

  /** The PTR refresh does not change that the second half of pruneCheckHistory finds the row to evict. */
  lemma EvictionIsDue(db: Db, e: PTREntry)
    requires e.ip in DeadIPs(db, {e.ip})
    ensures DeadIPs(Named(db, e), {e.ip}) == {e.ip}
  {
    NamedIs(db, e);
  }

  /**
   * Whenever a pool row with a full history of failures waits for its eviction (src/store.ts:228-256), a PTR refresh of
   * that row, two tabs and these answers make the shared copy hold an IP that the pool at its version does not.
   */
  lemma LateDeltaRevives(db: Db, e: PTREntry)
    requires db.resetVersion <= db.version && e.ip in DeadIPs(db, {e.ip})
    ensures Revived(Live(Begin(db), Events(db, e)), db.version + 2, e.ip)
  {
    DoomReached(db, e);
    DoomedRevives(db, e);
  }
}
