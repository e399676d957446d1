/**
 * public/static/home.js:421-485: the IndexedDB copy of the pool that the browser keeps in step with the server.
 * The server is any state DeltaSync reaches; a tab may receive any answer the server ever gave to its question.
 */
module Browser {
  import opened Prelude
  import opened Store
  import opened PoolHistory
  import opened DeltaSync

  // ---------- The two write transactions ----------

  /** The row store and the version in the metadata store. */
  datatype Cache = Cache(rows: map<string, ApiRow>, version: Option<nat>)

  /** writeFullCache: keep a newer snapshot, otherwise replace everything. */
  function WriteFull(c: Cache, version: nat, rows: map<string, ApiRow>): Cache {
    if c.version.Some? && c.version.value > version then c else Cache(rows, Some(version))
  }

  /** The row merge of applyChanges. */
  function Merge(rows: map<string, ApiRow>, delta: map<string, ApiRow>): map<string, ApiRow> {
    map ip | ip in rows.Keys + delta.Keys ::
      if ip in delta && (ip !in rows || rows[ip].revision <= delta[ip].revision) then delta[ip] else rows[ip]
  }

  /** applyChanges: merge the rows, and advance the version unless it is already newer. */
  function ApplyDelta(c: Cache, version: nat, delta: map<string, ApiRow>): Cache {
    Cache(Merge(c.rows, delta), if c.version.None? || c.version.value <= version then Some(version) else c.version)
  }

  class RowStore {
    var rows: map<string, ApiRow>
    var version: Option<nat>

    ghost function Contents(): Cache
      reads this
    {
      Cache(rows, version)
    }

    constructor ()
      ensures Contents() == Cache(map[], None)
    {
      rows, version := map[], None;
    }

    method WriteFullCache(newVersion: nat, ips: map<string, ApiRow>)
      modifies this
      ensures Contents() == WriteFull(old(Contents()), newVersion, ips)
    {
      if version.Some? && version.value > newVersion {
        return;
      }
      rows := map[];
      var todo := ips.Keys;
      while todo != {}
        invariant todo <= ips.Keys
        invariant rows == map ip | ip in ips && ip !in todo :: ips[ip]
        decreases todo
      {
        var ip :| ip in todo;
        rows := rows[ip := ips[ip]];
        todo := todo - {ip};
      }
      version := Some(newVersion);
    }

    method ApplyChanges(newVersion: nat, ips: map<string, ApiRow>)
      modifies this
      ensures Contents() == ApplyDelta(old(Contents()), newVersion, ips)
    {
      var todo := ips.Keys;
      while todo != {}
        invariant todo <= ips.Keys
        invariant version == old(version)
        invariant rows == Merge(old(rows), map ip | ip in ips && ip !in todo :: ips[ip])
        decreases todo
      {
        var ip :| ip in todo;
        if ip !in rows || rows[ip].revision <= ips[ip].revision {
          rows := rows[ip := ips[ip]];
        }
        todo := todo - {ip};
      }
      assert (map ip | ip in ips && ip !in todo :: ips[ip]) == ips;
      if version.None? || version.value <= newVersion {
        version := Some(newVersion);
      }
    }
  }

  // ---------- What one transaction does to a coherent copy ----------

  /** Per IP: a late or timely delta on the pool at version c. */
  lemma MergeAt(h: History, since: nat, v: nat, delta: map<string, ApiRow>, c: nat, ip: string)
    requires ValidHistory(h) && GoodDelta(h, since, v, delta) && h.Has(c) && h.Has(since) && since <= c
    ensures c <= v ==> At(Merge(h.Rows(c), delta), ip) == At(h.Rows(v), ip)
    ensures c > v && (ip in delta ==> ip in h.Rows(c)) ==> At(Merge(h.Rows(c), delta), ip) == At(h.Rows(c), ip)
  {
    HistoryBounded(h, v);
    HistoryBounded(h, c);
    RowsSince(h, since, v, ip);
    if c <= v {
      RowsSince(h, c, v, ip);
      RowsSince(h, since, c, ip);
      NothingEvicted(h, c, v, ip);
      NothingEvicted(h, since, v, ip);
    } else {
      RowsSince(h, v, c, ip);
    }
  }

  /** A delta that is not older than the copy brings it to the delta's version, evictions or not. */
  lemma TimelyDelta(h: History, since: nat, v: nat, delta: map<string, ApiRow>, c: nat)
    requires ValidHistory(h) && GoodDelta(h, since, v, delta) && h.Has(c) && h.Has(since) && since <= c <= v
    ensures Merge(h.Rows(c), delta) == h.Rows(v)
  {
    forall ip ensures At(Merge(h.Rows(c), delta), ip) == At(h.Rows(v), ip) {
      MergeAt(h, since, v, delta, c, ip);
    }
    SameAt(Merge(h.Rows(c), delta), h.Rows(v));
  }

  /** A delta older than the copy leaves it right if and only if it names no IP the copy lacks. */
  lemma LateDelta(h: History, since: nat, v: nat, delta: map<string, ApiRow>, c: nat)
    requires ValidHistory(h) && GoodDelta(h, since, v, delta) && h.Has(c) && h.Has(since) && since <= v < c
    ensures Merge(h.Rows(c), delta) == h.Rows(c) <==> delta.Keys <= h.Rows(c).Keys
  {
    var merged := Merge(h.Rows(c), delta);
    if delta.Keys <= h.Rows(c).Keys {
      forall ip ensures At(merged, ip) == At(h.Rows(c), ip) {
        MergeAt(h, since, v, delta, c, ip);
      }
      SameAt(merged, h.Rows(c));
    } else {
      var ip :| ip in delta && ip !in h.Rows(c);
      assert ip in merged;
    }
  }

  // ---------- Tabs ----------

  /** What a tab is waiting for. */
  datatype Tab = AwaitDelta(since: nat) | AwaitFull

  datatype World = World(server: Server, cache: Cache, tabs: map<nat, Tab>)

  datatype Event =
    | Serve(action: Action)
    | Load(tab: nat)
    | Receive(tab: nat, answer: Answer)
    | GiveUp(tab: nat)

  function EndTab(w: World, t: nat): World {
    w.(tabs := w.tabs - {t})
  }

  function Deliver(w: World, t: nat, a: Answer): World
    requires t in w.tabs
  {
    match (w.tabs[t], a)
    case (AwaitDelta(since), Reset(_, _)) => w.(tabs := w.tabs[t := AwaitFull])
    case (AwaitDelta(since), Delta(asked, version, rows)) =>
      if asked != since then w
      else if version == since then EndTab(w, t)
      else EndTab(w.(cache := ApplyDelta(w.cache, version, rows)), t)
    case (AwaitFull, Full(family, version, rows)) =>
      if family.Some? then w else EndTab(w.(cache := WriteFull(w.cache, version, rows)), t)
    case _ => w
  }

  /** Load is readCache followed by the request of syncCache; Receive is an answer, and the transaction it causes. */
  function Happen(w: World, e: Event): World {
    match e
    case Serve(a) => w.(server := Step(w.server, a))
    case Load(t) =>
      if t in w.tabs then w
      else w.(tabs := w.tabs[t := if w.cache.version.Some? then AwaitDelta(w.cache.version.value) else AwaitFull])
    case Receive(t, a) => if t in w.tabs && a in w.server.answers then Deliver(w, t, a) else w
    case GiveUp(t) => EndTab(w, t)
  }

  function Live(w: World, es: seq<Event>): World {
    if es == [] then w else Happen(Live(w, es[..|es| - 1]), es[|es| - 1])
  }

  function Begin(db: Db): World {
    World(DeltaSync.Start(db), Cache(map[], None), map[])
  }

  // ---------- The invariant ----------

  /** The copy is the pool at its version. */
  ghost predicate CopyIsPool(h: History, c: Cache) {
    match c.version
    case None => c.rows == map[]
    case Some(v) => h.Has(v) && c.rows == h.Rows(v)
  }

  /** Every outstanding delta request starts at a version the copy had. */
  ghost predicate TabsBehind(w: World) {
    forall t <- w.tabs :: w.tabs[t].AwaitDelta? ==>
      w.cache.version.Some? && w.tabs[t].since <= w.cache.version.value && w.server.history.Has(w.tabs[t].since)
  }

  ghost predicate Synced(w: World) {
    Coherent(w.server) && CopyIsPool(w.server.history, w.cache) && TabsBehind(w)
  }

  /** Only this tab is syncing, and the copy is still the one it asked about. */
  ghost predicate OneTab(w: World, tab: nat) {
    w.tabs.Keys <= {tab} && forall t <- w.tabs :: w.tabs[t].AwaitDelta? ==> w.cache.version == Some(w.tabs[t].since)
  }

  ghost predicate VersionKept(w: World, u: World) {
    w.cache.version.Some? ==> u.cache.version.Some? && w.cache.version.value <= u.cache.version.value
  }

  lemma ServeSynced(w: World, a: Action)
    requires Synced(w)
    ensures Synced(Happen(w, Serve(a)))
  {
    StepCoherent(w.server, a);
    LaterSynced(w, Step(w.server, a));
  }

  lemma LaterSynced(w: World, later: Server)
    requires Synced(w) && Coherent(later) && Extends(w.server.history, later.history)
    ensures Synced(w.(server := later))
  {
    var h, g := w.server.history, later.history;
    if w.cache.version.Some? {
      StillAtVersion(h, g, w.cache.version.value);
    }
    forall t | t in w.tabs && w.tabs[t].AwaitDelta? ensures g.Has(w.tabs[t].since) {
      StillAtVersion(h, g, w.tabs[t].since);
    }
  }

  lemma FullSynced(w: World, t: nat, version: nat, rows: map<string, ApiRow>)
    requires Synced(w) && t in w.tabs && w.tabs[t].AwaitFull? && GoodAnswer(w.server.history, Full(None, version, rows))
    ensures Synced(Deliver(w, t, Full(None, version, rows))) && VersionKept(w, Deliver(w, t, Full(None, version, rows)))
  {
    assert OfFamily(w.server.history.Rows(version), None) == w.server.history.Rows(version);
  }

  /** The delta is timely, or all its IPs are in the copy. */
  ghost predicate Harmless(w: World, version: nat, rows: map<string, ApiRow>) {
    w.cache.version.Some? && (w.cache.version.value <= version || rows.Keys <= w.cache.rows.Keys)
  }

  lemma DeltaSynced(w: World, t: nat, since: nat, version: nat, rows: map<string, ApiRow>)
    requires Synced(w) && t in w.tabs && w.tabs[t] == AwaitDelta(since) && GoodAnswer(w.server.history, Delta(since, version, rows))
    requires Harmless(w, version, rows)
    ensures Synced(Deliver(w, t, Delta(since, version, rows))) && VersionKept(w, Deliver(w, t, Delta(since, version, rows)))
  {
    if version != since {
      var h, c := w.server.history, w.cache.version.value;
      if c <= version {
        TimelyDelta(h, since, version, rows, c);
      } else {
        LateDelta(h, since, version, rows, c);
      }
    }
  }

  /** The event delivers a delta that its tab asked for. */
  ghost predicate GetsDelta(w: World, e: Event) {
    && e.Receive? && e.tab in w.tabs && e.answer in w.server.answers && e.answer.Delta?
    && w.tabs[e.tab] == AwaitDelta(e.answer.since)
  }

  lemma HappenSynced(w: World, e: Event)
    requires Synced(w)
    requires GetsDelta(w, e) ==> Harmless(w, e.answer.version, e.answer.rows)
    ensures Synced(Happen(w, e)) && VersionKept(w, Happen(w, e))
  {
    match e
    case Serve(a) => ServeSynced(w, a);
    case Load(_) =>
    case GiveUp(_) =>
    case Receive(t, a) =>
      if t in w.tabs && a in w.server.answers {
        assert GoodAnswer(w.server.history, a);
        match (w.tabs[t], a)
        case (AwaitDelta(since), Delta(asked, version, rows)) =>
          if asked == since {
            DeltaSynced(w, t, since, version, rows);
          }
        case (AwaitFull, Full(family, version, rows)) =>
          if family.None? {
            FullSynced(w, t, version, rows);
          }
        case _ =>
      }
  }

  // ---------- One tab, arbitrary evictions ----------

  ghost predicate OnlyTab(es: seq<Event>, tab: nat) {
    forall e <- es :: !e.Serve? ==> e.tab == tab
  }

  lemma OneTabReceives(w: World, t: nat, a: Answer)
    requires OneTab(w, t) && t in w.tabs
    ensures OneTab(Deliver(w, t, a), t)
  {
    assert w.tabs.Keys == {t};
  }

  lemma OneTabKept(w: World, e: Event, tab: nat)
    requires OneTab(w, tab) && (!e.Serve? ==> e.tab == tab)
    ensures OneTab(Happen(w, e), tab)
  {
    if e.Receive? && e.tab in w.tabs {
      OneTabReceives(w, tab, e.answer);
    }
  }

  lemma OneTabStep(w: World, e: Event, tab: nat)
    requires Synced(w) && OneTab(w, tab) && (!e.Serve? ==> e.tab == tab)
    ensures Synced(Happen(w, e)) && OneTab(Happen(w, e), tab) && VersionKept(w, Happen(w, e))
  {
    if GetsDelta(w, e) {
      assert GoodAnswer(w.server.history, e.answer);
    }
    HappenSynced(w, e);
    OneTabKept(w, e, tab);
  }

  lemma {:induction false} OneTabLive(db: Db, es: seq<Event>, tab: nat)
    requires Bounded(Snap(db), db.version) && OnlyTab(es, tab)
    ensures var w := Live(Begin(db), es); Synced(w) && OneTab(w, tab)
  {
    if es == [] {
      StartCoherent(db);
    } else {
      assert es[|es| - 1] in es && forall e <- es[..|es| - 1] :: e in es;
      OneTabLive(db, es[..|es| - 1], tab);
      OneTabStep(Live(Begin(db), es[..|es| - 1]), es[|es| - 1], tab);
    }
  }

  // ---------- Any number of tabs, no evictions ----------

  ghost predicate NoEvictions(h: History) {
    h.snaps != [] && h.AtVersion(h.base).reset == h.snaps[|h.snaps| - 1].reset
  }

  lemma NothingLost(h: History, since: nat, v: nat, rows: map<string, ApiRow>, c: nat)
    requires ValidHistory(h) && NoEvictions(h) && GoodDelta(h, since, v, rows) && h.Has(c) && v <= c
    ensures rows.Keys <= h.Rows(c).Keys
  {
    RowsSince(h, h.base, v, "");
    RowsSince(h, v, c, "");
    RowsSince(h, c, h.Last(), "");
    forall ip | ip in rows ensures ip in h.Rows(c) {
      NothingEvicted(h, v, c, ip);
    }
  }

  lemma TabsStep(w: World, e: Event)
    requires Synced(w) && NoEvictions(w.server.history)
    ensures Synced(Happen(w, e)) && VersionKept(w, Happen(w, e))
  {
    if GetsDelta(w, e) {
      assert GoodAnswer(w.server.history, e.answer);
      var c := w.cache.version.value;
      if c > e.answer.version {
        NothingLost(w.server.history, e.answer.since, e.answer.version, e.answer.rows, c);
      }
    }
    HappenSynced(w, e);
  }

  lemma HistoryGrows(w: World, e: Event)
    requires Coherent(w.server)
    ensures Extends(w.server.history, Happen(w, e).server.history)
  {
    if e.Serve? {
      StepCoherent(w.server, e.action);
    }
  }

  lemma FewerEvictionsBefore(h: History, g: History)
    requires ValidHistory(g) && ValidHistory(h) && Extends(h, g) && NoEvictions(g)
    ensures NoEvictions(h)
  {
    RowsSince(g, g.base, h.Last(), "");
    RowsSince(g, h.Last(), g.Last(), "");
    assert g.AtVersion(h.Last()) == h.AtVersion(h.Last());
  }

  /** No batch of the run evicts an IP. */
  ghost predicate NeverEvicts(db: Db, es: seq<Event>) {
    NoEvictions(Live(Begin(db), es).server.history)
  }

  lemma {:induction false} LiveCoherent(db: Db, es: seq<Event>)
    requires Bounded(Snap(db), db.version)
    ensures Coherent(Live(Begin(db), es).server)
  {
    if es == [] {
      StartCoherent(db);
    } else {
      LiveCoherent(db, es[..|es| - 1]);
      if es[|es| - 1].Serve? {
        StepCoherent(Live(Begin(db), es[..|es| - 1]).server, es[|es| - 1].action);
      }
    }
  }

  lemma NeverEvictedBefore(db: Db, es: seq<Event>)
    requires Bounded(Snap(db), db.version) && es != [] && NeverEvicts(db, es)
    ensures NeverEvicts(db, es[..|es| - 1])
  {
    var w := Live(Begin(db), es[..|es| - 1]);
    LiveCoherent(db, es[..|es| - 1]);
    LiveCoherent(db, es);
    HistoryGrows(w, es[|es| - 1]);
    FewerEvictionsBefore(w.server.history, Live(Begin(db), es).server.history);
  }

  lemma {:induction false} TabsLive(db: Db, es: seq<Event>)
    requires Bounded(Snap(db), db.version) && NeverEvicts(db, es)
    ensures Synced(Live(Begin(db), es))
  {
    if es == [] {
      StartCoherent(db);
    } else {
      NeverEvictedBefore(db, es);
      TabsLive(db, es[..|es| - 1]);
      TabsStep(Live(Begin(db), es[..|es| - 1]), es[|es| - 1]);
    }
  }

  // ---------- Main results ----------

  /** One tab, any interleaving, any evictions: the copy is the server's pool at the copy's version, which never decreases. */
  lemma OneTabStaysInSync(db: Db, es: seq<Event>, next: Event, tab: nat)
    requires Bounded(Snap(db), db.version) && OnlyTab(es + [next], tab)
    ensures
      var w, u := Live(Begin(db), es), Live(Begin(db), es + [next]);
      CopyIsPool(w.server.history, w.cache) && CopyIsPool(u.server.history, u.cache) && VersionKept(w, u)
  {
    assert forall e <- es :: e in es + [next];
    assert next in es + [next];
    assert (es + [next])[..|es|] == es;
    OneTabLive(db, es, tab);
    OneTabStep(Live(Begin(db), es), next, tab);
  }

  /** Any number of tabs sharing the store, while nothing is evicted. */
  lemma TabsStayInSync(db: Db, es: seq<Event>, next: Event)
    requires Bounded(Snap(db), db.version) && NeverEvicts(db, es + [next])
    ensures
      var w, u := Live(Begin(db), es), Live(Begin(db), es + [next]);
      CopyIsPool(w.server.history, w.cache) && CopyIsPool(u.server.history, u.cache) && VersionKept(w, u)
  {
    assert (es + [next])[..|es|] == es;
    NeverEvictedBefore(db, es + [next]);
    TabsLive(db, es);
    TabsStep(Live(Begin(db), es), next);
  }

  /**
   * With several tabs and evictions, a delivered delta keeps the copy equal to the pool at its version if and only
   * if the delta is no older than the copy or names no IP the copy lacks: exactly the guard `!old` never firing late.
   */
  lemma DeliveryExact(w: World, t: nat, since: nat, version: nat, rows: map<string, ApiRow>)
    requires Synced(w) && t in w.tabs && w.tabs[t] == AwaitDelta(since) && Delta(since, version, rows) in w.server.answers
    requires version != since
    ensures CopyIsPool(w.server.history, Deliver(w, t, Delta(since, version, rows)).cache)
            <==> w.cache.version.value <= version || rows.Keys <= w.cache.rows.Keys
  {
    assert GoodAnswer(w.server.history, Delta(since, version, rows));
    var h, c := w.server.history, w.cache.version.value;
    if c <= version {
      TimelyDelta(h, since, version, rows, c);
    } else {
      LateDelta(h, since, version, rows, c);
    }
  }
}
