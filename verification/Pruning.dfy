/** pruneCheckHistory (src/store.ts:194-258), run to its end or stopped by a crash between two batches. */
module Pruning {
  import opened Prelude
  import opened Store
  import opened PoolAgreement

  ghost predicate AgreesAt(db: Db, ip: string) {
    Agrees(ip, Of(db.checks, ip), RowIn(db.pool, ip))
  }

  ghost predicate AgreesAll(db: Db) {
    forall ip :: AgreesAt(db, ip)
  }

  /** The rows of ip after the deleting half has run on it. */
  function AfterDelete(db: Db, ip: string): seq<StoredCheck> {
    if ip in db.pool then Kept(Of(db.checks, ip)) else Of(db.checks, ip)
  }

  lemma PruneDeleteAt(db: Db, chunk: set<string>, ip: string)
    requires AgreesAt(db, ip)
    ensures
      var d := PruneDelete(db, chunk);
      && AgreesAt(d, ip)
      && Of(d.checks, ip) == (if ip in chunk then AfterDelete(db, ip) else Of(db.checks, ip))
      && RowIn(d.pool, ip) == match RowIn(db.pool, ip)
                              case Some(p) => Some(p.(historyCount := |Of(d.checks, ip)|))
                              case None => None
  {
    var over := OverLimit(db, chunk);
    DeleteKeepsNewest(db.checks, over, ip);
    if ip in db.pool {
      DeleteOldRows(ip, Of(db.checks, ip), db.pool[ip]);
    }
  }

  lemma PruneEvictAt(db: Db, chunk: set<string>, ip: string)
    requires AgreesAt(db, ip)
    ensures
      var d := PruneEvict(db, chunk);
      && AgreesAt(d, ip)
      && d.checks == db.checks
      && RowIn(d.pool, ip) == if ip in chunk && !HasOk(Of(db.checks, ip)) then None else RowIn(db.pool, ip)
  {
    var dead := DeadIPs(db, chunk);
    assert ip in db.pool && ip in chunk && !HasOk(Of(db.checks, ip)) ==> ip in dead;
  }

  /** What a complete prune leaves of one listed IP. */
  ghost predicate PrunedAt(db: Db, d: Db, ip: string) {
    && Of(d.checks, ip) == AfterDelete(db, ip)
    && RowIn(d.pool, ip) == match RowIn(db.pool, ip)
                            case Some(p) => if HasOk(AfterDelete(db, ip)) then Some(p.(historyCount := |AfterDelete(db, ip)|)) else None
                            case None => None
  }

  ghost predicate UntouchedAt(db: Db, d: Db, ip: string) {
    Of(d.checks, ip) == Of(db.checks, ip) && RowIn(d.pool, ip) == RowIn(db.pool, ip)
  }

  /** What a crash between the two batches leaves of one listed IP: old rows gone, eviction still to come. */
  ghost predicate HalfPrunedAt(db: Db, d: Db, ip: string) {
    && Of(d.checks, ip) == AfterDelete(db, ip)
    && RowIn(d.pool, ip) == match RowIn(db.pool, ip)
                            case Some(p) => Some(p.(historyCount := |AfterDelete(db, ip)|))
                            case None => None
  }

  lemma PruneChunkAt(db: Db, chunk: set<string>, ip: string)
    requires AgreesAt(db, ip)
    ensures
      var d := PruneEvict(PruneDelete(db, chunk), chunk);
      AgreesAt(d, ip) && if ip in chunk then PrunedAt(db, d, ip) else UntouchedAt(db, d, ip)
  {
    PruneDeleteAt(db, chunk, ip);
    PruneEvictAt(PruneDelete(db, chunk), chunk, ip);
  }

  /** How a prefix of the batches may treat ip. */
  ghost predicate PruneOutcome(db: Db, d: Db, ips: seq<string>, steps: nat, ip: string) {
    && AgreesAt(d, ip)
    && (ip !in ips ==> UntouchedAt(db, d, ip))
    && (ip in ips ==> UntouchedAt(db, d, ip) || PrunedAt(db, d, ip) || (steps % 2 == 1 && HalfPrunedAt(db, d, ip)))
    && (ip in ips && steps >= 2 * |ips| ==> PrunedAt(db, d, ip))
  }

  lemma UntouchedBefore(db: Db, mid: Db, d: Db, ips: seq<string>, steps: nat, ip: string)
    requires UntouchedAt(db, mid, ip) && PruneOutcome(mid, d, ips, steps, ip)
    ensures PruneOutcome(db, d, ips, steps, ip)
  {
  }

  lemma ChunkMembership(ips: seq<string>, k: nat, ip: string)
    requires DistinctIPs(ips) && k <= |ips|
    ensures ip in ips <==> ip in ToSet(ips[..k]) || ip in ips[k..]
    ensures ip in ToSet(ips[..k]) ==> ip !in ips[k..]
    ensures DistinctIPs(ips[k..])
  {
    assert ips == ips[..k] + ips[k..];
  }

  /** Every prefix of the batches of pruneCheckHistory keeps agreement, and treats each IP in one of three ways. */
  lemma {:induction false} PrunePrefixAt(db: Db, ips: seq<string>, steps: nat, ip: string)
    requires AgreesAt(db, ip) && DistinctIPs(ips)
    ensures PruneOutcome(db, PrunePrefix(db, ips, steps), ips, steps, ip)
    decreases |ips|
  {
    if ips != [] && steps > 0 {
      var k := Min(PRUNE_IP_CHUNK, |ips|);
      var chunk, rest := ToSet(ips[..k]), ips[k..];
      ChunkMembership(ips, k, ip);
      if steps == 1 {
        PruneDeleteAt(db, chunk, ip);
      } else {
        PruneChunkAt(db, chunk, ip);
        var mid := PruneEvict(PruneDelete(db, chunk), chunk);
        PrunePrefixAt(mid, rest, steps - 2, ip);
        if ip !in chunk {
          UntouchedBefore(db, mid, PrunePrefix(db, ips, steps), rest, steps - 2, ip);
        }
      }
    }
  }

  lemma {:induction false} DistinctMeans(ips: seq<string>)
    ensures DistinctIPs(Distinct(ips)) && |Distinct(ips)| <= |ips|
    ensures forall ip :: ip in Distinct(ips) <==> ip in ips
  {
    if ips != [] {
      DistinctMeans(ips[..|ips| - 1]);
      assert ips == ips[..|ips| - 1] + [ips[|ips| - 1]];
    }
  }

  /**
   * A complete pruneCheckHistory: a listed pool IP keeps exactly its newest min(n, 300) rows and stays in the
   * pool iff one of them is a success; every other IP is untouched.
   */
  lemma PruneKeepsNewest(db: Db, ips: seq<string>, ip: string)
    requires AgreesAt(db, ip)
    ensures
      var d := Prune(db, ips);
      && AgreesAt(d, ip)
      && (ip in ips && ip in db.pool ==>
            && Of(d.checks, ip) == Kept(Of(db.checks, ip))
            && |Of(d.checks, ip)| == Min(|Of(db.checks, ip)|, CHECK_HISTORY_RETENTION)
            && (ip in d.pool <==> HasOk(Of(d.checks, ip)))
            && (ip in d.pool ==> d.pool[ip] == db.pool[ip].(historyCount := |Of(d.checks, ip)|)))
      && (!(ip in ips && ip in db.pool) ==> UntouchedAt(db, d, ip))
  {
    DistinctMeans(ips);
    PrunePrefixAt(db, Distinct(ips), 2 * |ips|, ip);
  }

  /** After a crash anywhere inside pruning, every pool IP has a success left or enough history to be evicted next time. */
  lemma CrashLeavesEvictable(db: Db, ips: seq<string>, steps: nat, ip: string)
    requires AgreesAt(db, ip)
    ensures
      var d := PrunePrefix(db, Distinct(ips), steps);
      && (ip in d.pool ==>
            && (HasOk(Of(d.checks, ip)) || d.pool[ip].historyCount >= CHECK_HISTORY_RETENTION)
            && d.pool[ip].historyCount == |Of(d.checks, ip)|)
      && (forall more: seq<string> | ip in more :: ip in Prune(d, more).pool <==> HasOk(Of(Prune(d, more).checks, ip)))
  {
    DistinctMeans(ips);
    PrunePrefixAt(db, Distinct(ips), steps, ip);
    var d := PrunePrefix(db, Distinct(ips), steps);
    forall more: seq<string> | ip in more ensures ip in Prune(d, more).pool <==> HasOk(Of(Prune(d, more).checks, ip)) {
      PruneKeepsNewest(d, more, ip);
    }
  }
}
