/**
 * What one flush sends and what it leaves (internal/scan/flush.go:124-206), read off the window, the known-good set and
 * the reply.
 */
module Flushes {
  import opened Prelude
  import opened Filter
  import opened ScannerState

  // ---------- When it sends ----------

  /** The window is empty and there is no candidate to prune, or pruning is not due. */
  ghost predicate NothingToDo(f: Flushable, o: Outside) {
    f.core.checks == [] && (f.pruneIPs == {} || !IsDue(f.maintenance, o.now))
  }

  /** Ten minutes after the last maintenance, and a minute after a pruning that failed. */
  ghost predicate IsDue(m: Maintenance, now: int) {
    && (m.lastAt == 0 || now - m.lastAt >= 600_000_000_000)
    && (m.nextPruneRetryAt == 0 || now >= m.nextPruneRetryAt)
  }

  /** A known-good set is there, or is fetched. */
  ghost predicate HasKnownGood(f: Flushable, o: Outside) {
    f.knownGood.Some? || o.fetched.Some?
  }

  /** An IP that the flush takes for known good: by the fetched set if one is asked for and comes, else by the old one. */
  ghost predicate IsKnownGood(f: Flushable, o: Outside, ip: string) {
    match (f.knownGood, o.fetched)
    case (None, None) => false
    case (None, Some(fresh_)) => ip in fresh_
    case (Some(old_), None) => ip in old_
    case (Some(old_), Some(fresh_)) => if o.expired then ip in fresh_ else ip in old_
  }

  /** A flush succeeds if and only if there was nothing to do, or it sent something and got a reply. */
  lemma FlushOutcome(f: Flushable, o: Outside)
    ensures var (_, ok, sent) := Flushed(f, o);
            && (ok <==> NothingToDo(f, o) || (HasKnownGood(f, o) && o.reply.Some?))
            && (sent.Some? <==> !NothingToDo(f, o) && HasKnownGood(f, o))
  {
  }

  /** A non-empty window is sent and answered before a flush reports success. */
  lemma NonemptyIsSent(f: Flushable, o: Outside)
    requires f.core.checks != [] && Flushed(f, o).1
    ensures Flushed(f, o).2.Some? && o.reply.Some?
  {
  }

  // ---------- What it sends ----------

  lemma KnownIsKnownGood(f: Flushable, o: Outside, ip: string)
    requires HasKnownGood(f, o)
    ensures var known := KnownGoodFor(f.knownGood, o.expired, o.fetched);
            known.Some? && (ip in known.value <==> IsKnownGood(f, o, ip))
  {
  }

  /** Every failure of a known-good IP, or of one that succeeded in the window, is sent as it is. */
  lemma FailuresAreSent(f: Flushable, o: Outside, w: IPCheck)
    requires Timed(f.core.checks) && Flushed(f, o).2.Some? && w in f.core.checks && !w.ok
    requires IsKnownGood(f, o, w.ip) || exists v <- f.core.checks :: v.ok && v.ip == w.ip
    ensures w.(rttMs := 0, scanMode := "") in Flushed(f, o).2.value.checks
  {
    FlushOutcome(f, o);
    KnownIsKnownGood(f, o, w.ip);
    var k :| 0 <= k < |f.core.checks| && f.core.checks[k] == w;
    var c := FailureSubmitted(f.core.checks, KnownGoodFor(f.knownGood, o.expired, o.fetched).value, o.filterNow, k);
  }

  /** For every IP that succeeded, a success with the time of its last one is sent. */
  lemma SuccessesAreSent(f: Flushable, o: Outside, ip: string, last: int) returns (c: IPCheck)
    requires Timed(f.core.checks) && Flushed(f, o).2.Some? && LastSuccess(f.core.checks, ip, last)
    ensures c in Flushed(f, o).2.value.checks && c.ip == ip && c.ok && c.checkedAt == f.core.checks[last].checkedAt
  {
    assert f.core.checks[last] in f.core.checks;
    c := SuccessHasRow(f.core.checks, KnownGoodFor(f.knownGood, o.expired, o.fetched).value, o.filterNow, ip);
    SeenAtIsLast(f.core.checks, ip, last);
  }

  /** If the last success of each IP is its newest, none of its successes is newer than the one that is sent. */
  lemma SuccessesAreCovered(f: Flushable, o: Outside, w: IPCheck)
    requires Timed(f.core.checks) && Flushed(f, o).2.Some? && w in f.core.checks && w.ok
    requires forall last, i :: LastSuccess(f.core.checks, w.ip, last) && 0 <= i < |f.core.checks| && f.core.checks[i].ip == w.ip && f.core.checks[i].ok
                               ==> f.core.checks[i].checkedAt <= f.core.checks[last].checkedAt
    ensures exists c <- Flushed(f, o).2.value.checks :: c.ip == w.ip && c.ok && w.checkedAt <= c.checkedAt
  {
    var i :| 0 <= i < |f.core.checks| && f.core.checks[i] == w;
    var last := HasLast(f.core.checks, w.ip, i);
    var c := SuccessesAreSent(f, o, w.ip, last);
  }

  lemma {:induction false} HasLast(window: seq<IPCheck>, ip: string, i: nat) returns (last: int)
    requires i < |window| && window[i].ip == ip && window[i].ok
    ensures LastSuccess(window, ip, last)
  {
    var n := |window| - 1;
    last := n;
    if !(window[n].ip == ip && window[n].ok) {
      last := HasLast(window[..n], ip, i);
    }
  }

  lemma {:induction false} HasFirst(window: seq<IPCheck>, ip: string, i: nat) returns (first: int)
    requires i < |window| && window[i].ip == ip && window[i].ok
    ensures FirstSuccess(window, ip, first)
    decreases i
  {
    first := i;
    if k :| 0 <= k < i && window[k].ip == ip && window[k].ok {
      first := HasFirst(window, ip, k);
    }
  }

  /** Nothing else is sent: each check is one of the window, or stands for the successes of an IP. */
  lemma OnlyTheWindowIsSent(f: Flushable, o: Outside, c: IPCheck) returns (w: IPCheck)
    requires Timed(f.core.checks) && Flushed(f, o).2.Some? && c in Flushed(f, o).2.value.checks
    ensures w in f.core.checks && w.ip == c.ip && w.ok == c.ok && w.checkedAt == c.checkedAt
    ensures !c.ok ==> c == w.(rttMs := 0, scanMode := "")
    ensures IsKnownGood(f, o, c.ip) || exists v <- f.core.checks :: v.ok && v.ip == c.ip
  {
    FlushOutcome(f, o);
    KnownIsKnownGood(f, o, c.ip);
    var known := KnownGoodFor(f.knownGood, o.expired, o.fetched).value;
    if c.ok {
      w := KeptOrigin(f.core.checks, known, o.filterNow, c);
    } else {
      w := FailureCarries(f.core.checks, known, o.filterNow, c);
    }
  }

  /** What a sent success carries beside its time. */
  lemma SentSuccessCarries(f: Flushable, o: Outside, c: IPCheck, first: int)
    requires Timed(f.core.checks) && Flushed(f, o).2.Some? && c in Flushed(f, o).2.value.checks && c.ok
    requires FirstSuccess(f.core.checks, c.ip, first)
    ensures c.rttMs == f.core.checks[first].rttMs
    ensures LastText(Reasons(SuccessesOf(f.core.checks, c.ip)), c.reason) && LastText(Details(SuccessesOf(f.core.checks, c.ip)), c.detail)
  {
    var last := HasLast(f.core.checks, c.ip, first);
    SuccessCarries(f.core.checks, KnownGoodFor(f.knownGood, o.expired, o.fetched).value, o.filterNow, c, first, last);
  }

  ghost predicate Sends(checks: seq<IPCheck>, ip: string) {
    exists c <- checks :: c.ip == ip
  }

  /** The prune request: on maintenance the earlier candidates and the IPs that are sent. */
  lemma SentCandidates(f: Flushable, o: Outside, ip: string)
    requires Flushed(f, o).2.Some?
    ensures var sent := Flushed(f, o).2.value;
            && (sent.maintenance <==> IsDue(f.maintenance, o.now))
            && (ip in sent.pruneIPs <==> sent.maintenance && (ip in f.pruneIPs || Sends(sent.checks, ip)))
  {
  }

  // ---------- What it leaves ----------

  /** The state of ip after these checks of it were accepted. */
  ghost predicate Advanced(old_: Option<RecheckState>, checks: seq<IPCheck>, ip: string, new_: Option<RecheckState>) {
    if !Sends(checks, ip) then new_ == old_
    else
      var was := old_.GetOr(RecheckState(false, 0, 0));
      && new_.Some?
      && was.lastResultAt <= new_.value.lastResultAt && was.lastSuccess <= new_.value.lastSuccess
      && (forall c <- checks :: c.ip == ip ==> c.checkedAt <= new_.value.lastResultAt && (c.ok ==> c.checkedAt <= new_.value.lastSuccess))
      && (if new_.value.lastResultAt == was.lastResultAt then new_.value.lastOK == was.lastOK
          else exists c <- checks :: c.ip == ip && c.checkedAt == new_.value.lastResultAt && c.ok == new_.value.lastOK)
      && (new_.value.lastSuccess == was.lastSuccess || exists c <- checks :: c.ip == ip && c.ok && c.checkedAt == new_.value.lastSuccess)
  }

  lemma AdvancedNext(old_: Option<RecheckState>, before: seq<IPCheck>, c: IPCheck, ip: string, mid: Option<RecheckState>)
    requires Advanced(old_, before, ip, mid)
    ensures Advanced(old_, before + [c], ip, if c.ip == ip then Some(MergedState(mid, c)) else mid)
  {
    var checks := before + [c];
    assert checks[|before|] == c && c in checks;
    assert forall d <- before :: d in checks;
    assert Sends(checks, ip) <==> Sends(before, ip) || c.ip == ip;
  }

  lemma {:induction false} MergedAdvances(states: map<string, RecheckState>, checks: seq<IPCheck>, ip: string)
    ensures Advanced(StateIn(states, ip), checks, ip, StateIn(Merged(states, checks), ip))
  {
    if checks != [] {
      var n := |checks| - 1;
      assert checks == checks[..n] + [checks[n]];
      MergedAdvances(states, checks[..n], ip);
      AdvancedNext(StateIn(states, ip), checks[..n], checks[n], ip, StateIn(Merged(states, checks[..n]), ip));
    }
  }

  /**
   * After a reply, everything comes from exactly the checks that were sent: the recheck states they advance, the IPs
   * they leave as candidates unless a maintenance submit pruned, and an empty buffer. The known-good set gains the IPs
   * that succeeded.
   */
  lemma ReplyIsMerged(f: Flushable, o: Outside, ip: string)
    requires Flushed(f, o).2.Some? && o.reply.Some?
    ensures
      var (g, _, some) := Flushed(f, o);
      var sent := some.value;
      && g.core.checks == [] && g.core.inFlightChecks == [] && g.core.scannedCount == 0
      && Advanced(StateIn(f.core.recheckStates, ip), sent.checks, ip, StateIn(g.core.recheckStates, ip))
      && (ip in g.pruneIPs <==> !(sent.maintenance && o.reply == Some(true)) && (ip in f.pruneIPs || Sends(sent.checks, ip)))
      && g.knownGood.Some?
      && (ip in g.knownGood.value <==> IsKnownGood(f, o, ip) || exists w <- f.core.checks :: w.ok && w.ip == ip)
  {
    MergedAdvances(f.core.recheckStates, Flushed(f, o).2.value.checks, ip);
    FlushOutcome(f, o);
    KnownIsKnownGood(f, o, ip);
  }

  /**
   * When maintenance is asked for next: ten minutes after one that pruned, one minute after one that did not, and
   * without having asked, when it was due before.
   */
  lemma MaintenanceClock(f: Flushable, o: Outside, now: int)
    requires Flushed(f, o).2.Some? && o.reply.Some? && o.doneAt > 0
    ensures
      var (g, _, sent) := Flushed(f, o);
      var due := IsDue(g.maintenance, now);
      if !sent.value.maintenance then due == IsDue(f.maintenance, now)
      else if o.reply == Some(true) then due <==> now >= o.doneAt + 600_000_000_000
      else due <==> now >= o.doneAt + 60_000_000_000 && (f.maintenance.lastAt == 0 || now - f.maintenance.lastAt >= 600_000_000_000)
  {
  }
}
