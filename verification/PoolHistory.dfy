/**
 * The pool as readers see it, version by version. Every batch that changes a visible row bumps the version in the
 * same batch, stamps the row with it, and records an eviction in reset_version; so "the pool at version v" is a
 * well-defined sequence, and revisions and the reset version say how two of its members differ.
 */
module PoolHistory {
  import opened Prelude
  import opened CheckRows
  import opened Store

  /** One row of an /api/pool or /api/pool/changes answer. */
  datatype ApiRow = ApiRow(revision: nat, ptrHostnames: string, reachable: bool, firstSeen: int, lastSeen: int, lastRttMs: int)

  function ToApiRow(db: Db, ip: string): ApiRow
    requires ip in db.pool
  {
    var p := db.pool[ip];
    ApiRow(p.revision, if ip in db.ptrCache then db.ptrCache[ip].hostnames else "", p.lastCheckOk, p.firstSeen, p.lastSeen, p.lastRttMs)
  }

  function Visible(db: Db): map<string, ApiRow> {
    map ip | ip in db.pool :: ToApiRow(db, ip)
  }

  /** The atomic write steps of all writers. */
  datatype Batch =
    | InsertChunk(rows: seq<CheckRow>, successful: set<string>, cutoff: int)
    | PoolChunk(entries: seq<Entry>, cutoff: int)
    | DeleteOld(ips: set<string>)
    | Evict(ips: set<string>)
    | SaveProbe(probe: Probe)
    | UpdateProbe(probe: Probe)
    | InsertProbe(probe: Probe)
    | SavePTRChunk(ptrs: seq<PTREntry>)

  function Apply(db: Db, b: Batch): Db {
    match b
    case InsertChunk(rows, successful, cutoff) => InsertRows(db, rows, successful, cutoff)
    case PoolChunk(entries, cutoff) => PoolBatch(db, entries, cutoff)
    case DeleteOld(ips) => DeleteBatch(db, ips)
    case Evict(ips) => EvictBatch(db, ips)
    case SaveProbe(p) => db.(checks := Append(db.checks, ProbeRow(p)))
    case UpdateProbe(p) => ProbeUpdateBatch(db, p)
    case InsertProbe(p) => ProbeInsertBatch(db, p)
    case SavePTRChunk(ptrs) => PTRBatch(db, ptrs)
  }

  datatype Snapshot = Snapshot(rows: map<string, ApiRow>, reset: nat)

  function Snap(db: Db): Snapshot {
    Snapshot(Visible(db), db.resetVersion)
  }

  ghost predicate Bounded(s: Snapshot, version: nat) {
    s.reset <= version && forall ip <- s.rows :: s.rows[ip].revision <= version
  }

  function At(rows: map<string, ApiRow>, ip: string): Option<ApiRow> {
    if ip in rows then Some(rows[ip]) else None
  }

  /** b is the pool at version v and a the pool just before: every difference is stamped with v. */
  ghost predicate Evolves(a: Snapshot, b: Snapshot, v: nat) {
    && Bounded(b, v)
    && (b.reset == a.reset || b.reset == v)
    && a.reset <= b.reset
    && (forall ip ::
          || At(b.rows, ip) == At(a.rows, ip)
          || (ip in b.rows && b.rows[ip].revision == v)
          || (ip !in b.rows && b.reset == v))
  }

  // ---------- Every batch evolves the pool ----------

  /** Row by row: unchanged, or stamped with the current version. */
  ghost predicate Stamped(db: Db, d: Db) {
    && d.version == db.version && d.resetVersion == db.resetVersion
    && db.pool.Keys <= d.pool.Keys
    && forall ip <- d.pool ::
         || d.pool[ip].revision == d.version
         || (ip in db.pool && ToApiRow(d, ip) == ToApiRow(db, ip))
  }

  lemma {:induction false} TouchesStamp(db: Db, es: seq<Entry>, cutoff: int)
    ensures Stamped(db, TouchAll(db, es, cutoff)) && TouchAll(db, es, cutoff).ptrCache == db.ptrCache
  {
    if es != [] {
      TouchesStamp(db, es[..|es| - 1], cutoff);
    }
  }

  lemma {:induction false} PTRsStamp(db: Db, es: seq<PTREntry>)
    ensures Stamped(db, SavePTRs(db, es))
  {
    if es != [] {
      PTRsStamp(db, es[..|es| - 1]);
      var mid, e := SavePTRs(db, es[..|es| - 1]), es[|es| - 1];
      var d := SavePTR(mid, e);
      forall ip | ip in d.pool && ip != e.ip ensures ToApiRow(d, ip) == ToApiRow(mid, ip) {}
    }
  }

  lemma StampedEvolves(db: Db, d: Db)
    requires Bounded(Snap(db), db.version) && Stamped(db.(version := db.version + 1), d)
    ensures Evolves(Snap(db), Snap(d), db.version + 1)
  {
    var bumped := db.(version := db.version + 1);
    forall ip | ip in db.pool ensures ToApiRow(bumped, ip) == ToApiRow(db, ip) {}
    forall ip | ip in d.pool ensures Snap(d).rows[ip].revision <= d.version && (ip in db.pool ==> ip in Snap(db).rows) {
      if d.pool[ip].revision != d.version {
        assert ToApiRow(d, ip) == Snap(db).rows[ip];
      }
    }
  }

  lemma EvictEvolves(db: Db, ips: set<string>)
    requires Bounded(Snap(db), db.version)
    ensures Evolves(Snap(db), Snap(EvictBatch(db, ips)), db.version + 1)
  {
    var d := EvictBatch(db, ips);
    forall ip | ip in d.pool ensures ip in db.pool && ToApiRow(d, ip) == ToApiRow(db, ip) && Snap(db).rows[ip].revision <= db.version {}
  }

  lemma ProbesStamp(db: Db, p: Probe)
    ensures Stamped(db.(version := db.version + 1), ProbeUpdateBatch(db, p))
    ensures Stamped(db.(version := db.version + 1), ProbeInsertBatch(db, p))
  {
    var bumped := db.(version := db.version + 1);
    forall d, ip | (d == ProbeUpdateBatch(db, p) || d == ProbeInsertBatch(db, p)) && ip in d.pool && ip != p.ip
      ensures ip in db.pool && ToApiRow(d, ip) == ToApiRow(bumped, ip)
    {
    }
  }

  /** Every batch leaves what readers see unchanged, or makes the next version of it. */
  lemma BatchEvolves(db: Db, b: Batch)
    requires Bounded(Snap(db), db.version)
    ensures
      var d := Apply(db, b);
      || (d.version == db.version && Snap(d) == Snap(db))
      || (d.version == db.version + 1 && Evolves(Snap(db), Snap(d), d.version))
  {
    var d := Apply(db, b);
    var bumped := db.(version := db.version + 1);
    match b
    case InsertChunk(rows, successful, cutoff) =>
      InsertKeepsPool(db, rows, successful, cutoff);
      assert Visible(d) == Visible(db);
    case PoolChunk(entries, cutoff) =>
      TouchesStamp(bumped, entries, cutoff);
      StampedEvolves(db, d);
    case DeleteOld(_) => assert Visible(d) == Visible(db);
    case Evict(ips) => EvictEvolves(db, ips);
    case SaveProbe(_) => assert Visible(d) == Visible(db);
    case UpdateProbe(p) =>
      ProbesStamp(db, p);
      StampedEvolves(db, d);
    case InsertProbe(p) =>
      ProbesStamp(db, p);
      StampedEvolves(db, d);
    case SavePTRChunk(ptrs) =>
      PTRsStamp(bumped, ptrs);
      StampedEvolves(db, d);
  }

  // ---------- The history of versions ----------

  /** snaps[k] is the pool at version base + k. */
  datatype History = History(base: nat, snaps: seq<Snapshot>)
  {
    function Last(): int {
      base + |snaps| - 1
    }

    predicate Has(v: nat) {
      base <= v <= Last()
    }

    function AtVersion(v: nat): Snapshot
      requires Has(v)
    {
      snaps[v - base]
    }

    function Rows(v: nat): map<string, ApiRow>
      requires Has(v)
    {
      AtVersion(v).rows
    }
  }

  ghost predicate ValidHistory(h: History) {
    && h.snaps != []
    && Bounded(h.AtVersion(h.base), h.base)
    && forall v: nat | h.base < v <= h.Last() :: Evolves(h.AtVersion(v - 1), h.AtVersion(v), v)
  }

  lemma {:induction false} HistoryBounded(h: History, v: nat)
    requires ValidHistory(h) && h.Has(v)
    ensures Bounded(h.AtVersion(v), v)
  {
    if v > h.base {
      assert Evolves(h.AtVersion(v - 1), h.AtVersion(v), v);
    }
  }

  /** A row of version v is newer than s by its revision, or it is the row of version s. */
  lemma {:induction false} RowsSince(h: History, s: nat, v: nat, ip: string)
    requires ValidHistory(h) && h.Has(s) && h.Has(v) && s <= v
    ensures ip in h.Rows(v) && h.Rows(v)[ip].revision <= s ==> ip in h.Rows(s) && h.Rows(s)[ip] == h.Rows(v)[ip]
    ensures h.AtVersion(s).reset <= h.AtVersion(v).reset
    decreases v - s
  {
    if s < v {
      assert Evolves(h.AtVersion(v - 1), h.AtVersion(v), v);
      RowsSince(h, s, v - 1, ip);
    }
  }

  /** Without an eviction after version s, its IPs are still there at version v, with revisions no smaller. */
  lemma {:induction false} NothingEvicted(h: History, s: nat, v: nat, ip: string)
    requires ValidHistory(h) && h.Has(s) && h.Has(v) && s <= v
    requires h.AtVersion(v).reset <= s || h.AtVersion(v).reset == h.AtVersion(s).reset
    ensures ip in h.Rows(s) ==> ip in h.Rows(v) && h.Rows(s)[ip].revision <= h.Rows(v)[ip].revision
    decreases v - s
  {
    if s < v {
      assert Evolves(h.AtVersion(v - 1), h.AtVersion(v), v);
      HistoryBounded(h, v - 1);
      HistoryBounded(h, s);
      RowsSince(h, s, v - 1, ip);
      NothingEvicted(h, s, v - 1, ip);
    }
  }

  /** The rows listKnownIPsChanged selects: after < revision <= through. */
  function Changed(rows: map<string, ApiRow>, after: nat, through: nat): map<string, ApiRow> {
    map ip | ip in rows && after < rows[ip].revision <= through :: rows[ip]
  }

  /** A client that overlays the changes since s on the pool at s has the pool at v, if nothing was evicted since s. */
  lemma OverlayGivesVersion(h: History, s: nat, v: nat)
    requires ValidHistory(h) && h.Has(s) && h.Has(v) && s <= v && h.AtVersion(v).reset <= s
    ensures h.Rows(s) + Changed(h.Rows(v), s, v) == h.Rows(v)
  {
    HistoryBounded(h, v);
    var overlaid := h.Rows(s) + Changed(h.Rows(v), s, v);
    forall ip ensures At(overlaid, ip) == At(h.Rows(v), ip) {
      RowsSince(h, s, v, ip);
      NothingEvicted(h, s, v, ip);
    }
    SameAt(overlaid, h.Rows(v));
  }

  lemma SameAt(a: map<string, ApiRow>, b: map<string, ApiRow>)
    requires forall ip :: At(a, ip) == At(b, ip)
    ensures a == b
  {
    forall ip ensures (ip in a <==> ip in b) && (ip in a ==> a[ip] == b[ip]) {
      assert At(a, ip) == At(b, ip);
    }
  }

  /** The history after one more batch. */
  function Record(h: History, d: Db): History {
    if d.version == h.Last() then h else h.(snaps := h.snaps + [Snap(d)])
  }

  lemma RecordValid(h: History, db: Db, b: Batch)
    requires ValidHistory(h) && h.Last() == db.version && h.AtVersion(db.version) == Snap(db)
    ensures
      var d := Apply(db, b);
      var g := Record(h, d);
      && ValidHistory(g) && g.Last() == d.version && g.AtVersion(d.version) == Snap(d)
      && h.base == g.base && h.snaps <= g.snaps
  {
    HistoryBounded(h, db.version);
    BatchEvolves(db, b);
    var d := Apply(db, b);
    var g := Record(h, d);
    forall v: nat | g.base < v <= g.Last() ensures Evolves(g.AtVersion(v - 1), g.AtVersion(v), v) {
      if v <= h.Last() {
        assert Evolves(h.AtVersion(v - 1), h.AtVersion(v), v);
      }
    }
  }
}
