/** Every request writes only through the atomic batches that DeltaSync and CheckHistory interleave with readers. */
module Writers {
  import opened Prelude
  import opened CheckRows
  import opened Store
  import opened PoolHistory
  import opened PoolTheorem
  import opened Retries
  import opened Replay
  import DeltaSync
  import CheckHistory
  import Database
  import HistoryRequests

  function ApplyAll(db: Db, bs: seq<Batch>): Db
    decreases bs
  {
    if bs == [] then db else ApplyAll(Apply(db, bs[0]), bs[1..])
  }

  lemma {:induction false} ApplyAllAppend(db: Db, a: seq<Batch>, b: seq<Batch>)
    ensures ApplyAll(db, a + b) == ApplyAll(ApplyAll(db, a), b)
    decreases a
  {
    if a == [] {
      assert a + b == b;
    } else {
      assert (a + b)[1..] == a[1..] + b;
      ApplyAllAppend(Apply(db, a[0]), a[1..], b);
    }
  }

  /** No batch has more statements, and no statement of pruning names more IPs, than D1 takes. */
  ghost predicate Fits(b: Batch) {
    match b
    case InsertChunk(_, _, _) => |b.rows| <= 500
    case PoolChunk(_, _) => |b.entries| <= 400
    case SavePTRChunk(_) => |b.ptrs| <= 400
    case DeleteOld(_) => |b.ips| <= 99
    case Evict(_) => |b.ips| <= 99
    case _ => true
  }

  ghost predicate AllFit(bs: seq<Batch>) {
    forall b <- bs :: Fits(b)
  }

  lemma AllFitAppend(a: seq<Batch>, b: seq<Batch>)
    requires AllFit(a) && AllFit(b)
    ensures AllFit(a + b)
  {
  }

  lemma {:induction false} SetOfFew(ips: seq<string>)
    ensures |ToSet(ips)| <= |ips|
  {
    if ips != [] {
      var n := |ips| - 1;
      SetOfFew(ips[..n]);
      assert ips == ips[..n] + [ips[n]];
      assert ToSet(ips) == ToSet(ips[..n]) + {ips[n]};
    }
  }

  lemma SubsetIsSmaller(a: set<string>, b: set<string>)
    requires a <= b
    ensures |a| <= |b|
  {
    assert |b - a| == |b| - |a|;
  }

  /** insertCheckRows, MAX_BATCH rows a batch. */
  function InsertChunks(rows: seq<CheckRow>, successful: set<string>, cutoff: int): seq<Batch>
    decreases |rows|
  {
    if rows == [] then []
    else
      var k := Min(MAX_BATCH, |rows|);
      [InsertChunk(rows[..k], successful, cutoff)] + InsertChunks(rows[k..], successful, cutoff)
  }

  lemma {:induction false} InsertRowsIsBatches(db: Db, rows: seq<CheckRow>, successful: set<string>, cutoff: int)
    ensures ApplyAll(db, InsertChunks(rows, successful, cutoff)) == InsertRows(db, rows, successful, cutoff)
    ensures AllFit(InsertChunks(rows, successful, cutoff))
    decreases |rows|
  {
    if rows != [] {
      var k := Min(MAX_BATCH, |rows|);
      InsertRowsIsBatches(InsertRows(db, rows[..k], successful, cutoff), rows[k..], successful, cutoff);
      InsertRowsAppend(db, rows[..k], rows[k..], successful, cutoff);
      assert rows[..k] + rows[k..] == rows;
    }
  }

  /** updatePoolBatch, POOL_UPSERT_CHUNK entries a batch. */
  function PoolChunks(es: seq<Entry>, cutoff: int): seq<Batch>
    decreases |es|
  {
    if es == [] then []
    else
      var k := Min(POOL_UPSERT_CHUNK, |es|);
      [PoolChunk(es[..k], cutoff)] + PoolChunks(es[k..], cutoff)
  }

  lemma {:induction false} UpdatePoolIsBatches(db: Db, es: seq<Entry>, cutoff: int)
    ensures ApplyAll(db, PoolChunks(es, cutoff)) == PoolBatches(db, es, cutoff)
    ensures AllFit(PoolChunks(es, cutoff))
    decreases |es|
  {
    if es != [] {
      var k := Min(POOL_UPSERT_CHUNK, |es|);
      UpdatePoolIsBatches(PoolBatch(db, es[..k], cutoff), es[k..], cutoff);
    }
  }

  function DeleteStep(db: Db, ips: set<string>): seq<Batch> {
    if OverLimit(db, ips) == {} then [] else [DeleteOld(OverLimit(db, ips))]
  }

  function EvictStep(db: Db, ips: set<string>): seq<Batch> {
    if DeadIPs(db, ips) == {} then [] else [Evict(DeadIPs(db, ips))]
  }

  lemma PruneChunkIsBatches(db: Db, chunk: set<string>)
    requires |chunk| <= 99
    ensures ApplyAll(db, DeleteStep(db, chunk)) == PruneDelete(db, chunk)
    ensures ApplyAll(db, EvictStep(db, chunk)) == PruneEvict(db, chunk)
    ensures AllFit(DeleteStep(db, chunk)) && AllFit(EvictStep(db, chunk))
  {
    SubsetIsSmaller(OverLimit(db, chunk), chunk);
    SubsetIsSmaller(DeadIPs(db, chunk), chunk);
  }

  lemma {:induction false} PruneIsBatches(db: Db, ips: seq<string>, steps: nat) returns (bs: seq<Batch>)
    ensures ApplyAll(db, bs) == PrunePrefix(db, ips, steps) && AllFit(bs)
    decreases |ips|
  {
    bs := [];
    if ips != [] && steps != 0 {
      var k := Min(PRUNE_IP_CHUNK, |ips|);
      var chunk := ToSet(ips[..k]);
      SetOfFew(ips[..k]);
      var deleted := PruneDelete(db, chunk);
      PruneChunkIsBatches(db, chunk);
      bs := DeleteStep(db, chunk);
      if steps > 1 {
        PruneChunkIsBatches(deleted, chunk);
        var rest := PruneIsBatches(PruneEvict(deleted, chunk), ips[k..], steps - 2);
        ApplyAllAppend(db, bs, EvictStep(deleted, chunk));
        ApplyAllAppend(db, bs + EvictStep(deleted, chunk), rest);
        AllFitAppend(bs + EvictStep(deleted, chunk), rest);
        bs := bs + EvictStep(deleted, chunk) + rest;
      }
    }
  }

  lemma AttemptIsBatches(db: Db, coalesced: seq<CheckRow>, a: Attempt) returns (bs: seq<Batch>)
    ensures ApplyAll(db, bs) == Attempted(db, coalesced, a) && AllFit(bs)
  {
    var taken := if a.inserts < |coalesced| then coalesced[..a.inserts] else coalesced;
    bs := InsertChunks(taken, SuccessfulIPs(coalesced), a.cutoff);
    InsertRowsIsBatches(db, taken, SuccessfulIPs(coalesced), a.cutoff);
    if a.inserts >= |coalesced| {
      var touches := Touches(coalesced)[..Min(a.touches, |Touches(coalesced)|)];
      UpdatePoolIsBatches(InsertRows(db, coalesced, SuccessfulIPs(coalesced), a.cutoff), touches, a.cutoff);
      ApplyAllAppend(db, bs, PoolChunks(touches, a.cutoff));
      bs := bs + PoolChunks(touches, a.cutoff);
    }
  }

  lemma {:induction false} AttemptsAreBatches(db: Db, coalesced: seq<CheckRow>, attempts: seq<Attempt>) returns (bs: seq<Batch>)
    ensures ApplyAll(db, bs) == AttemptAll(db, coalesced, attempts) && AllFit(bs)
  {
    bs := [];
    if attempts != [] {
      var n := |attempts| - 1;
      bs := AttemptsAreBatches(db, coalesced, attempts[..n]);
      var last := AttemptIsBatches(AttemptAll(db, coalesced, attempts[..n]), coalesced, attempts[n]);
      ApplyAllAppend(db, bs, last);
      bs := bs + last;
    }
  }

  lemma WrittenIsBatches(db: Db, r: Request) returns (bs: seq<Batch>)
    ensures ApplyAll(db, bs) == Written(db, r) && AllFit(bs)
  {
    match r
    case Ingest(raw, attempts, cutoff, _, _) =>
      var tried := AttemptsAreBatches(db, Coalesce(raw), attempts);
      var a := WriteIsAttempt(AttemptAll(db, Coalesce(raw), attempts), raw, cutoff, "");
      var last := AttemptIsBatches(AttemptAll(db, Coalesce(raw), attempts), Coalesce(raw), a);
      ApplyAllAppend(db, tried, last);
      bs := tried + last;
    case OnDemand(p, _) =>
      var saves := if p.ok || p.ip in db.pool then [SaveProbe(p)] else [];
      var inserts := if p.ip !in db.pool && p.ok then [InsertProbe(p)] else [];
      assert ApplyAll(db, saves) == SaveRecheckResult(db, p);
      ApplyAllAppend(db, saves, [UpdateProbe(p)]);
      ApplyAllAppend(db, saves + [UpdateProbe(p)], inserts);
      bs := saves + [UpdateProbe(p)] + inserts;
  }

  /**
   * A request, with all its attempts, and whether it runs to its end or crashes inside pruning, is a sequence of atomic
   * batches that D1 takes.
   */
  lemma RequestIsBatches(db: Db, r: Request) returns (bs: seq<Batch>)
    ensures ApplyAll(db, bs) == Handle(db, r) && AllFit(bs)
  {
    var writes := WrittenIsBatches(db, r);
    var prunes := PruneIsBatches(Written(db, r), Distinct(PruneList(r)), r.pruneSteps);
    ApplyAllAppend(db, writes, prunes);
    bs := writes + prunes;
  }

  /** savePTRBatch too. */
  lemma {:induction false} SavesAreBatches(db: Db, es: seq<PTREntry>) returns (bs: seq<Batch>)
    ensures ApplyAll(db, bs) == Database.PTRBatches(db, es) && AllFit(bs)
    decreases |es|
  {
    bs := [];
    if es != [] {
      var k := Min(PTR_BATCH_CHUNK, |es|);
      var rest := SavesAreBatches(PTRBatch(db, es[..k]), es[k..]);
      bs := [SavePTRChunk(es[..k])] + rest;
    }
  }

  // ---------- Among readers ----------

  /** The batches as actions of the machine that answers /api/pool and /api/pool/changes. */
  function PoolWrites(bs: seq<Batch>): seq<DeltaSync.Action> {
    seq(|bs|, i requires 0 <= i < |bs| => DeltaSync.Write(bs[i]))
  }

  lemma {:induction false} PoolWritesApply(s: DeltaSync.Server, bs: seq<Batch>)
    ensures DeltaSync.Run(s, PoolWrites(bs)).db == ApplyAll(s.db, bs)
  {
    if bs != [] {
      var n := |bs| - 1;
      PoolWritesApply(s, bs[..n]);
      assert PoolWrites(bs)[..n] == PoolWrites(bs[..n]);
      ApplyAllAppend(s.db, bs[..n], [bs[n]]);
      assert bs == bs[..n] + [bs[n]];
    }
  }

  /** What a request does to the tables, its writes do to those the readers see; the readers themselves stay where they are. */
  lemma RequestRuns(s: DeltaSync.Server, r: Request) returns (actions: seq<DeltaSync.Action>)
    ensures forall a <- actions :: a.Write?
    ensures DeltaSync.Run(s, actions).db == Handle(s.db, r)
    ensures DeltaSync.Run(s, actions).requests == s.requests && DeltaSync.Run(s, actions).answers == s.answers
  {
    var bs := RequestIsBatches(s.db, r);
    actions := PoolWrites(bs);
    PoolWritesApply(s, bs);
    WritesKeepReaders(s, actions);
  }

  lemma {:induction false} WritesKeepReaders(s: DeltaSync.Server, actions: seq<DeltaSync.Action>)
    requires forall a <- actions :: a.Write?
    ensures DeltaSync.Run(s, actions).requests == s.requests && DeltaSync.Run(s, actions).answers == s.answers
  {
    if actions != [] {
      WritesKeepReaders(s, actions[..|actions| - 1]);
    }
  }

  /** Each batch inserts checks among the newest 300 of their IPs. */
  ghost predicate TimelyBatches(db: Db, bs: seq<Batch>) {
    bs != [] ==>
      && TimelyBatches(db, bs[..|bs| - 1])
      && CheckHistory.TimelyBatch(ApplyAll(db, bs[..|bs| - 1]), bs[|bs| - 1])
  }

  function HistoryWrites(bs: seq<Batch>): seq<CheckHistory.Action> {
    seq(|bs|, i requires 0 <= i < |bs| => CheckHistory.Write(bs[i]))
  }

  /** The same for the machine that answers /api/history. */
  lemma {:induction false} HistoryWritesApply(s: CheckHistory.Server, bs: seq<Batch>)
    requires s.dbs != [] && TimelyBatches(CheckHistory.Now(s), bs)
    ensures CheckHistory.Now(HistoryRequests.Serve(s, HistoryWrites(bs))) == ApplyAll(CheckHistory.Now(s), bs)
  {
    if bs != [] {
      var n := |bs| - 1;
      HistoryWritesApply(s, bs[..n]);
      assert HistoryWrites(bs)[..n] == HistoryWrites(bs[..n]);
      ApplyAllAppend(CheckHistory.Now(s), bs[..n], [bs[n]]);
      assert bs == bs[..n] + [bs[n]];
    }
  }
}
