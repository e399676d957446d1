/**
 * When a successful recheck is not persisted (internal/scan/scanner.go:295-416): only while the newest evidence about
 * the IP is already a success, in every interleaving of scans, rechecks, seeds and flushes. The clock is read before
 * the mutex is taken, so readings come in any order; the condition they must meet is stated result by result.
 */
module Heartbeat {
  import opened Prelude
  import opened Filter
  import opened ScannerState
  import opened ScannerRuns

  // ---------- Evidence ----------

  ghost predicate Pending(s: System, c: IPCheck) {
    c in s.core.inFlightChecks || c in s.core.checks
  }

  /** A check that is buffered, in flight or accepted by the server. */
  ghost predicate Evidence(s: System, c: IPCheck) {
    c in s.accepted || Pending(s, c)
  }

  /** A persisted or server-reported success of ip at time t. */
  ghost predicate SuccessAt(s: System, ip: string, t: int) {
    PoolTarget(ip, t) in s.seeds || exists c :: Evidence(s, c) && c.ip == ip && c.ok && c.checkedAt == t
  }

  ghost predicate NoFailureAfter(s: System, ip: string, t: int) {
    forall c :: Evidence(s, c) && c.ip == ip && !c.ok ==> c.checkedAt <= t
  }

  /** Some success is at least as new as every failure. */
  ghost predicate NewestIsSuccess(s: System, ip: string) {
    exists t :: SuccessAt(s, ip, t) && NoFailureAfter(s, ip, t)
  }

  ghost predicate SuccessSince(s: System, ip: string, since: int) {
    exists t :: SuccessAt(s, ip, t) && since <= t
  }

  ghost predicate NoAcceptedFailureAfter(s: System, ip: string, t: int) {
    forall c :: c in s.accepted && c.ip == ip && !c.ok ==> c.checkedAt <= t
  }

  ghost predicate NoPendingFailureAfter(s: System, ip: string, t: int) {
    forall c :: Pending(s, c) && c.ip == ip && !c.ok ==> c.checkedAt <= t
  }

  ghost predicate NoPendingSuccess(s: System, ip: string) {
    forall c :: Pending(s, c) && c.ip == ip ==> !c.ok
  }

  // ---------- What the readings must meet ----------

  /** A result of ip read at now contradicts nothing: no known failure is later, or the newest evidence is a success. */
  ghost predicate Fits(s: System, ip: string, now: int) {
    NoFailureAfter(s, ip, now) || NewestIsSuccess(s, ip)
  }

  /** No success of ip that waits to be submitted is later: FilterChecks submits the last one appended, not the newest. */
  ghost predicate NotBehind(s: System, ip: string, now: int) {
    forall c :: Pending(s, c) && c.ip == ip && c.ok ==> c.checkedAt <= now
  }

  ghost predicate FitsResult(s: System, ip: string, ok: bool, now: int) {
    Fits(s, ip, now) && (ok ==> NotBehind(s, ip, now))
  }

  /** Results that touch no state, or are suppressed, need to meet nothing. */
  ghost predicate FitsEvent(s: System, e: Event) {
    match e
    case Scan(ip, r, now) => now != 0 && (r.ok || ip in s.core.recheckStates ==> FitsResult(s, ip, r.ok, now))
    case Recheck(t, r, now) => now != 0 && (Persists(StateOf(s.core, t), r.ok, now) ==> FitsResult(s, t.ip, r.ok, now))
    case _ => true
  }

  /** A run in which every recorded result meets the condition when it is recorded. */
  ghost predicate FitRun(es: seq<Event>, mode: string) {
    es != [] ==>
      && FitRun(es[..|es| - 1], mode)
      && var s, e := Run(es[..|es| - 1], mode), es[|es| - 1];
      Enabled(s, e) ==> FitsEvent(s, e)
  }

  // ---------- The invariant ----------

  function Window(s: System): seq<IPCheck> {
    s.core.inFlightChecks + s.core.checks
  }

  /**
   * Either the newest evidence is a success, or no known failure is later than the last result; failures scanned before
   * the IP got its state may still wait, but then no success does.
   */
  ghost predicate Settled(s: System, ip: string, at: int) {
    || NewestIsSuccess(s, ip)
    || (NoAcceptedFailureAfter(s, ip, at) && (NoPendingFailureAfter(s, ip, at) || NoPendingSuccess(s, ip)))
  }

  /** What the state of a tracked IP promises about the evidence. */
  ghost predicate Tracked(s: System, ip: string, st: RecheckState) {
    && (st.lastOK ==> NewestIsSuccess(s, ip))
    && (st.lastSuccess != 0 ==> SuccessSince(s, ip, st.lastSuccess))
    && Settled(s, ip, st.lastResultAt)
  }

  /** An IP without a state has only failed scans, none of them accepted. */
  ghost predicate Untracked(s: System, ip: string) {
    && (forall c <- s.accepted :: c.ip != ip)
    && (forall t <- s.seeds :: t.ip != ip)
    && NoPendingSuccess(s, ip)
  }

  ghost predicate StateHolds(s: System, ip: string, st: Option<RecheckState>) {
    match st
    case Some(x) => Tracked(s, ip, x)
    case None => Untracked(s, ip)
  }

  ghost predicate Holds(s: System, ip: string) {
    StateHolds(s, ip, StateIn(s.core.recheckStates, ip))
  }

  // ---------- More evidence ----------

  /** u has the evidence of s, and a new check c. */
  ghost predicate Adds(s: System, u: System, c: IPCheck) {
    && u.accepted == s.accepted && u.seeds == s.seeds
    && forall d :: Pending(u, d) <==> Pending(s, d) || d == c
  }

  ghost predicate SameEvidence(s: System, u: System) {
    && u.accepted == s.accepted && u.seeds == s.seeds
    && forall d :: Pending(u, d) <==> Pending(s, d)
  }

  lemma SuccessStays(s: System, u: System, c: IPCheck, ip: string, t: int)
    requires Adds(s, u, c) && SuccessAt(s, ip, t)
    ensures SuccessAt(u, ip, t)
  {
    if PoolTarget(ip, t) !in s.seeds {
      var d :| Evidence(s, d) && d.ip == ip && d.ok && d.checkedAt == t;
      assert Evidence(u, d);
    }
  }

  lemma SinceStays(s: System, u: System, c: IPCheck, ip: string, since: int)
    requires Adds(s, u, c) && SuccessSince(s, ip, since)
    ensures SuccessSince(u, ip, since)
  {
    var t :| SuccessAt(s, ip, t) && since <= t;
    SuccessStays(s, u, c, ip, t);
  }

  /** A success of ip, a check of another IP, or a failure no later than some success keeps the newest evidence a success. */
  lemma NewestStays(s: System, u: System, c: IPCheck, ip: string)
    requires Adds(s, u, c) && NewestIsSuccess(s, ip)
    requires c.ip != ip || c.ok || !NoFailureAfter(s, ip, c.checkedAt)
    ensures NewestIsSuccess(u, ip)
  {
    var t :| SuccessAt(s, ip, t) && NoFailureAfter(s, ip, t);
    SuccessStays(s, u, c, ip, t);
    assert NoFailureAfter(u, ip, t);
  }

  lemma OtherSettled(s: System, u: System, c: IPCheck, ip: string, at: int)
    requires Adds(s, u, c) && c.ip != ip && Settled(s, ip, at)
    ensures Settled(u, ip, at)
  {
    if NewestIsSuccess(s, ip) {
      NewestStays(s, u, c, ip);
    }
  }

  lemma OtherKept(s: System, u: System, c: IPCheck, ip: string, st: Option<RecheckState>)
    requires Adds(s, u, c) && c.ip != ip && StateHolds(s, ip, st)
    ensures StateHolds(u, ip, st)
  {
    if st.Some? {
      if st.value.lastOK {
        NewestStays(s, u, c, ip);
      }
      if st.value.lastSuccess != 0 {
        SinceStays(s, u, c, ip, st.value.lastSuccess);
      }
      OtherSettled(s, u, c, ip, st.value.lastResultAt);
    }
  }

  lemma FittingSuccess(s: System, u: System, c: IPCheck)
    requires Adds(s, u, c) && c.ok && Fits(s, c.ip, c.checkedAt)
    ensures NewestIsSuccess(u, c.ip)
  {
    if NoFailureAfter(s, c.ip, c.checkedAt) {
      assert Evidence(u, c);
      assert SuccessAt(u, c.ip, c.checkedAt) && NoFailureAfter(u, c.ip, c.checkedAt);
    } else {
      NewestStays(s, u, c, c.ip);
    }
  }

  /** A new success: the state record and a persisted recheck store. */
  lemma NewSuccess(s: System, u: System, c: IPCheck)
    requires Adds(s, u, c) && c.ok && Fits(s, c.ip, c.checkedAt)
    ensures Tracked(u, c.ip, RecheckState(true, c.checkedAt, c.checkedAt))
  {
    FittingSuccess(s, u, c);
    assert Evidence(u, c);
    assert SuccessAt(u, c.ip, c.checkedAt);
  }

  lemma FittingFailure(s: System, u: System, c: IPCheck)
    requires Adds(s, u, c) && !c.ok && Fits(s, c.ip, c.checkedAt)
    ensures Settled(u, c.ip, c.checkedAt)
  {
    if NoFailureAfter(s, c.ip, c.checkedAt) {
      forall d | Evidence(u, d) && d.ip == c.ip && !d.ok ensures d.checkedAt <= c.checkedAt {
        assert Evidence(s, d) || d == c;
      }
      assert NoAcceptedFailureAfter(u, c.ip, c.checkedAt) && NoPendingFailureAfter(u, c.ip, c.checkedAt);
    } else {
      NewestStays(s, u, c, c.ip);
    }
  }

  /** A new failure of a tracked IP. */
  lemma NewFailure(s: System, u: System, c: IPCheck, st: RecheckState)
    requires Adds(s, u, c) && !c.ok && Fits(s, c.ip, c.checkedAt)
    requires st.lastSuccess != 0 ==> SuccessSince(s, c.ip, st.lastSuccess)
    ensures Tracked(u, c.ip, RecheckState(false, st.lastSuccess, c.checkedAt))
  {
    FittingFailure(s, u, c);
    if st.lastSuccess != 0 {
      SinceStays(s, u, c, c.ip, st.lastSuccess);
    }
  }

  lemma NewUntrackedFailure(s: System, u: System, c: IPCheck)
    requires Adds(s, u, c) && !c.ok && Untracked(s, c.ip)
    ensures Untracked(u, c.ip)
  {
  }

  lemma AppendAdds(s: System, u: System, c: IPCheck)
    requires u.accepted == s.accepted && u.seeds == s.seeds
    requires u.core.inFlightChecks == s.core.inFlightChecks && u.core.checks == s.core.checks + [c]
    ensures Adds(s, u, c)
  {
  }

  lemma ScanHolds(s: System, ip: string, r: ProbeResult, now: int, mode: string, other: string)
    requires Holds(s, ip) && Holds(s, other) && Enabled(s, Scan(ip, r, now)) && FitsEvent(s, Scan(ip, r, now))
    ensures Holds(Perform(s, Scan(ip, r, now), mode), other)
  {
    var u := Perform(s, Scan(ip, r, now), mode);
    var c := NewCheck(ip, r, "scan", now, mode);
    AppendAdds(s, u, c);
    if other != ip {
      OtherKept(s, u, c, other, StateIn(s.core.recheckStates, other));
    } else if r.ok {
      NewSuccess(s, u, c);
    } else if ip in s.core.recheckStates {
      NewFailure(s, u, c, s.core.recheckStates[ip]);
    } else {
      NewUntrackedFailure(s, u, c);
    }
  }

  // ---------- The same evidence ----------

  lemma SameSuccess(s: System, u: System, ip: string, t: int)
    requires SameEvidence(s, u) && SuccessAt(s, ip, t)
    ensures SuccessAt(u, ip, t)
  {
    if PoolTarget(ip, t) !in s.seeds {
      var d :| Evidence(s, d) && d.ip == ip && d.ok && d.checkedAt == t;
      assert Evidence(u, d);
    }
  }

  lemma SameNewest(s: System, u: System, ip: string)
    requires SameEvidence(s, u) && NewestIsSuccess(s, ip)
    ensures NewestIsSuccess(u, ip)
  {
    var t :| SuccessAt(s, ip, t) && NoFailureAfter(s, ip, t);
    SameSuccess(s, u, ip, t);
    assert NoFailureAfter(u, ip, t);
  }

  lemma SameSince(s: System, u: System, ip: string, since: int)
    requires SameEvidence(s, u) && SuccessSince(s, ip, since)
    ensures SuccessSince(u, ip, since)
  {
    var t :| SuccessAt(s, ip, t) && since <= t;
    SameSuccess(s, u, ip, t);
  }

  lemma SameEvidenceHolds(s: System, u: System, ip: string, st: Option<RecheckState>)
    requires SameEvidence(s, u) && StateHolds(s, ip, st)
    ensures StateHolds(u, ip, st)
  {
    if NewestIsSuccess(s, ip) {
      SameNewest(s, u, ip);
    }
    if st.Some? && st.value.lastSuccess != 0 {
      SameSince(s, u, ip, st.value.lastSuccess);
    }
  }

  /** A suppressed success changes no evidence, so the state may take any result time. */
  lemma Suppressed(s: System, u: System, ip: string, st: RecheckState, now: int)
    requires SameEvidence(s, u) && Tracked(s, ip, st) && st.lastOK
    ensures Tracked(u, ip, RecheckState(true, st.lastSuccess, now))
  {
    SameNewest(s, u, ip);
    if st.lastSuccess != 0 {
      SameSince(s, u, ip, st.lastSuccess);
    }
  }

  lemma RecheckHolds(s: System, target: PoolTarget, r: ProbeResult, now: int, mode: string, other: string)
    requires Holds(s, target.ip) && Holds(s, other)
    requires Enabled(s, Recheck(target, r, now)) && FitsEvent(s, Recheck(target, r, now))
    ensures Holds(Perform(s, Recheck(target, r, now), mode), other)
  {
    var u := Perform(s, Recheck(target, r, now), mode);
    assert target.ip in s.core.recheckStates;
    var st := s.core.recheckStates[target.ip];
    if Persists(st, r.ok, now) {
      var c := NewCheck(target.ip, r, "recheck", now, mode);
      AppendAdds(s, u, c);
      if other != target.ip {
        OtherKept(s, u, c, other, StateIn(s.core.recheckStates, other));
      } else if r.ok {
        NewSuccess(s, u, c);
      } else {
        NewFailure(s, u, c, st);
      }
    } else if other != target.ip {
      SameEvidenceHolds(s, u, other, StateIn(s.core.recheckStates, other));
    } else {
      Suppressed(s, u, other, st, now);
    }
  }

  // ---------- Seeds ----------

  lemma {:induction false} NewestPendingMeans(checks: seq<IPCheck>, ip: string)
    ensures
      match NewestPending(checks, ip)
      case Some(p) => p in checks && p.ip == ip && forall c <- checks :: c.ip == ip ==> c.checkedAt <= p.checkedAt
      case None => forall c <- checks :: c.ip != ip
  {
    if checks != [] {
      NewestPendingMeans(checks[..|checks| - 1], ip);
      assert checks == checks[..|checks| - 1] + [checks[|checks| - 1]];
    }
  }

  function PendingOf(s: System, ip: string): Option<IPCheck> {
    NewestPending(s.core.checks + s.core.inFlightChecks, ip)
  }

  lemma PendingOfMeans(s: System, ip: string)
    ensures
      match PendingOf(s, ip)
      case Some(p) => Pending(s, p) && p.ip == ip && forall c :: Pending(s, c) && c.ip == ip ==> c.checkedAt <= p.checkedAt
      case None => forall c :: Pending(s, c) ==> c.ip != ip
  {
    NewestPendingMeans(s.core.checks + s.core.inFlightChecks, ip);
    assert forall c :: Pending(s, c) <==> c in s.core.checks + s.core.inFlightChecks;
  }

  /** One row of a snapshot. */
  function SeedOne(s: System, t: PoolTarget): System {
    s.(core := s.core.(recheckStates := s.core.recheckStates[t.ip :=
                 Seeded(StateIn(s.core.recheckStates, t.ip), t.lastSeen, PendingOf(s, t.ip))]),
       seeds := s.seeds + {t})
  }

  lemma SeedKeepsSuccess(s: System, t: PoolTarget, ip: string, at: int)
    requires SuccessAt(s, ip, at)
    ensures SuccessAt(SeedOne(s, t), ip, at)
  {
    if PoolTarget(ip, at) !in s.seeds {
      var d :| Evidence(s, d) && d.ip == ip && d.ok && d.checkedAt == at;
      assert Evidence(SeedOne(s, t), d);
    }
  }

  lemma SeedKeepsNewest(s: System, t: PoolTarget, ip: string)
    requires NewestIsSuccess(s, ip)
    ensures NewestIsSuccess(SeedOne(s, t), ip)
  {
    var at :| SuccessAt(s, ip, at) && NoFailureAfter(s, ip, at);
    SeedKeepsSuccess(s, t, ip, at);
    assert NoFailureAfter(SeedOne(s, t), ip, at);
  }

  lemma SeedKeepsSince(s: System, t: PoolTarget, ip: string, since: int)
    requires SuccessSince(s, ip, since)
    ensures SuccessSince(SeedOne(s, t), ip, since)
  {
    var at :| SuccessAt(s, ip, at) && since <= at;
    SeedKeepsSuccess(s, t, ip, at);
  }

  lemma SeedKeepsSettled(s: System, t: PoolTarget, ip: string, at: int, later: int)
    requires Settled(s, ip, at) && at <= later
    ensures Settled(SeedOne(s, t), ip, later)
  {
    if NewestIsSuccess(s, ip) {
      SeedKeepsNewest(s, t, ip);
    } else {
      assert forall c :: Pending(SeedOne(s, t), c) <==> Pending(s, c);
    }
  }

  lemma SeedOther(s: System, t: PoolTarget, ip: string)
    requires Holds(s, ip) && ip != t.ip
    ensures Holds(SeedOne(s, t), ip)
  {
    if ip in s.core.recheckStates {
      var st := s.core.recheckStates[ip];
      if st.lastOK {
        SeedKeepsNewest(s, t, ip);
      }
      if st.lastSuccess != 0 {
        SeedKeepsSince(s, t, ip, st.lastSuccess);
      }
      SeedKeepsSettled(s, t, ip, st.lastResultAt, st.lastResultAt);
    }
  }

  /** The row's success is new evidence; it is the newest if no failure is later. */
  lemma SeedSupports(s: System, t: PoolTarget)
    requires Fits(s, t.ip, t.lastSeen)
    ensures NewestIsSuccess(SeedOne(s, t), t.ip)
  {
    if NewestIsSuccess(s, t.ip) {
      SeedKeepsNewest(s, t, t.ip);
    } else {
      assert SuccessAt(SeedOne(s, t), t.ip, t.lastSeen);
      assert NoFailureAfter(SeedOne(s, t), t.ip, t.lastSeen);
    }
  }

  /** A settled IP fits whatever is newer than its last result and no older than what waits. */
  lemma SettledFits(s: System, ip: string, at: int, later: int)
    requires Settled(s, ip, at) && at <= later
    requires NoPendingFailureAfter(s, ip, later)
    ensures Fits(s, ip, later)
  {
  }

  /** A pending success newer than the last result is newer than every failure. */
  lemma PendingSuccessIsNewest(s: System, ip: string, at: int, p: IPCheck)
    requires Settled(s, ip, at) && Pending(s, p) && p.ip == ip && p.ok && at <= p.checkedAt
    ensures NewestIsSuccess(s, ip)
  {
    assert Evidence(s, p);
    assert SuccessAt(s, ip, p.checkedAt);
    assert !NoPendingSuccess(s, ip);
    assert NoAcceptedFailureAfter(s, ip, at) && NoPendingFailureAfter(s, ip, at) ==> NoFailureAfter(s, ip, p.checkedAt);
  }

  lemma SeedKnownOK(s: System, t: PoolTarget, st: RecheckState)
    requires Tracked(s, t.ip, st)
    ensures Seeded(Some(st), t.lastSeen, PendingOf(s, t.ip)).lastOK ==> NewestIsSuccess(SeedOne(s, t), t.ip)
  {
    var p := PendingOf(s, t.ip);
    PendingOfMeans(s, t.ip);
    var at := Seeded(Some(st), t.lastSeen, None).lastResultAt;
    if p.Some? && p.value.checkedAt > at {
      if p.value.ok {
        PendingSuccessIsNewest(s, t.ip, st.lastResultAt, p.value);
        SeedKeepsNewest(s, t, t.ip);
      }
    } else if t.lastSeen > st.lastResultAt {
      SettledFits(s, t.ip, st.lastResultAt, t.lastSeen);
      SeedSupports(s, t);
    } else if st.lastOK {
      SeedKeepsNewest(s, t, t.ip);
    }
  }

  lemma SeedKnownSince(s: System, t: PoolTarget, st: RecheckState)
    requires Tracked(s, t.ip, st)
    ensures var x := Seeded(Some(st), t.lastSeen, PendingOf(s, t.ip)); x.lastSuccess != 0 ==> SuccessSince(SeedOne(s, t), t.ip, x.lastSuccess)
  {
    var u, p := SeedOne(s, t), PendingOf(s, t.ip);
    PendingOfMeans(s, t.ip);
    var x := Seeded(Some(st), t.lastSeen, p);
    if p.Some? && p.value.ok && x.lastSuccess == p.value.checkedAt {
      assert Evidence(u, p.value);
      assert SuccessAt(u, t.ip, p.value.checkedAt);
    } else if t.lastSeen > st.lastSuccess {
      assert SuccessAt(u, t.ip, t.lastSeen);
    } else if st.lastSuccess != 0 {
      SeedKeepsSince(s, t, t.ip, st.lastSuccess);
    }
  }

  lemma SeedKnown(s: System, t: PoolTarget, st: RecheckState)
    requires Tracked(s, t.ip, st) && StateIn(s.core.recheckStates, t.ip) == Some(st)
    ensures Holds(SeedOne(s, t), t.ip)
  {
    SeedKnownOK(s, t, st);
    SeedKnownSince(s, t, st);
    SeedKeepsSettled(s, t, t.ip, st.lastResultAt, Seeded(Some(st), t.lastSeen, PendingOf(s, t.ip)).lastResultAt);
  }

  lemma SeedNew(s: System, t: PoolTarget)
    requires Untracked(s, t.ip) && t.ip !in s.core.recheckStates
    ensures Holds(SeedOne(s, t), t.ip)
  {
    var u, p := SeedOne(s, t), PendingOf(s, t.ip);
    PendingOfMeans(s, t.ip);
    assert SuccessAt(u, t.ip, t.lastSeen);
    assert forall c :: Pending(u, c) <==> Pending(s, c);
    assert NoPendingSuccess(u, t.ip) && NoAcceptedFailureAfter(u, t.ip, u.core.recheckStates[t.ip].lastResultAt);
    if p.None? || p.value.checkedAt <= t.lastSeen {
      assert NoFailureAfter(s, t.ip, t.lastSeen);
      SeedSupports(s, t);
    }
  }

  lemma {:induction false} SeedHolds(s: System, targets: seq<PoolTarget>, mode: string)
    requires forall ip :: Holds(s, ip)
    ensures forall ip :: Holds(Perform(s, SeedPool(targets), mode), ip)
  {
    var u := Perform(s, SeedPool(targets), mode);
    if targets == [] {
      assert u == s;
    } else {
      var n := |targets| - 1;
      SeedHolds(s, targets[..n], mode);
      var mid := Perform(s, SeedPool(targets[..n]), mode);
      SeedKeepsChecks(s.core, targets[..n]);
      assert (set t <- targets) == (set t <- targets[..n]) + {targets[n]} by {
        assert targets == targets[..n] + [targets[n]];
      }
      assert u == SeedOne(mid, targets[n]);
      forall ip ensures Holds(u, ip) {
        SeedOneHolds(mid, targets[n], ip);
      }
    }
  }

  lemma SeedOneHolds(s: System, t: PoolTarget, ip: string)
    requires Holds(s, ip)
    ensures Holds(SeedOne(s, t), ip)
  {
    if ip != t.ip {
      SeedOther(s, t, ip);
    } else if ip in s.core.recheckStates {
      SeedKnown(s, t, s.core.recheckStates[ip]);
    } else {
      SeedNew(s, t);
    }
  }

  // ---------- Flushes ----------

  lemma MoveHolds(s: System, u: System, ip: string)
    requires Holds(s, ip) && SameEvidence(s, u) && u.core.recheckStates == s.core.recheckStates
    ensures Holds(u, ip)
  {
    SameEvidenceHolds(s, u, ip, StateIn(s.core.recheckStates, ip));
  }

  function ResultTime(st: Option<RecheckState>): int {
    st.GetOr(RecheckState(false, 0, 0)).lastResultAt
  }

  /** What merging accepted checks does to the state of one IP. */
  ghost predicate MergeOutcome(old_: Option<RecheckState>, checks: seq<IPCheck>, ip: string, new_: Option<RecheckState>) {
    && (new_.Some? ==>
          && (new_ == old_ || exists c <- checks :: c.ip == ip)
          && (forall c <- checks :: c.ip == ip ==> c.checkedAt <= new_.value.lastResultAt)
          && ResultTime(old_) <= new_.value.lastResultAt
          && (new_.value.lastOK ==>
                || (old_.Some? && old_.value.lastOK)
                || exists c <- checks :: c.ip == ip && c.ok && c.checkedAt > ResultTime(old_))
          && (new_.value.lastSuccess == old_.GetOr(RecheckState(false, 0, 0)).lastSuccess
              || exists c <- checks :: c.ip == ip && c.ok && c.checkedAt == new_.value.lastSuccess))
    && (new_.None? ==> old_.None? && forall c <- checks :: c.ip != ip)
  }

  lemma {:induction false} MergedMeans(states: map<string, RecheckState>, checks: seq<IPCheck>, ip: string)
    ensures MergeOutcome(StateIn(states, ip), checks, ip, StateIn(Merged(states, checks), ip))
  {
    if checks != [] {
      var before, c := checks[..|checks| - 1], checks[|checks| - 1];
      assert checks == before + [c];
      MergedMeans(states, before, ip);
      if c.ip == ip {
        MergeNext(StateIn(states, ip), before, c, StateIn(Merged(states, before), ip));
      } else {
        MergeElsewhere(StateIn(states, ip), before, c, ip, StateIn(Merged(states, before), ip));
      }
    }
  }

  lemma MergeElsewhere(old_: Option<RecheckState>, before: seq<IPCheck>, c: IPCheck, ip: string, mid: Option<RecheckState>)
    requires MergeOutcome(old_, before, ip, mid) && c.ip != ip
    ensures MergeOutcome(old_, before + [c], ip, mid)
  {
    var checks := before + [c];
    assert forall d <- before :: d in checks;
  }

  lemma MergeNext(old_: Option<RecheckState>, before: seq<IPCheck>, c: IPCheck, mid: Option<RecheckState>)
    requires MergeOutcome(old_, before, c.ip, mid)
    ensures MergeOutcome(old_, before + [c], c.ip, Some(MergedState(mid, c)))
  {
    var checks, x := before + [c], MergedState(mid, c);
    assert checks[|before|] == c && c in checks;
    assert forall d <- before :: d in checks;
    assert ResultTime(old_) <= ResultTime(mid) <= x.lastResultAt && c.checkedAt <= x.lastResultAt;
    if c.checkedAt > ResultTime(mid) {
      assert x.lastOK ==> c.ok && c.checkedAt > ResultTime(old_);
    }
  }

  /** The checks that wait to be submitted are timed, and the successes of one IP never go back. */
  ghost predicate Timely(s: System) {
    NeverBack(Window(s))
  }

  lemma WindowNeverBack(s: System)
    requires Timely(s)
    ensures NeverBack(s.core.inFlightChecks)
  {
    var w := s.core.inFlightChecks;
    assert forall i :: 0 <= i < |w| ==> w[i] == Window(s)[i];
  }

  ghost predicate HasOrigin(window: seq<IPCheck>, f: IPCheck) {
    exists w <- window :: SameKey(f, w)
  }

  /** u is s after the window in flight was accepted as filtered, with every success of ip covered. */
  ghost predicate Accepts(s: System, u: System, filtered: seq<IPCheck>, ip: string) {
    && u.accepted == s.accepted + filtered && u.seeds == s.seeds
    && u.core.checks == s.core.checks && u.core.inFlightChecks == []
    && u.core.recheckStates == Merged(s.core.recheckStates, filtered)
    && (forall f {:trigger HasOrigin(s.core.inFlightChecks, f)} :: f in filtered ==> HasOrigin(s.core.inFlightChecks, f))
    && (forall w {:trigger CoveredBy(filtered, w)} :: w in s.core.inFlightChecks && w.ip == ip && w.ok ==> CoveredBy(filtered, w))
  }

  lemma Origin(s: System, u: System, filtered: seq<IPCheck>, ip: string, f: IPCheck) returns (w: IPCheck)
    requires Accepts(s, u, filtered, ip) && f in filtered
    ensures w in s.core.inFlightChecks && SameKey(f, w)
  {
    assert HasOrigin(s.core.inFlightChecks, f);
    w :| w in s.core.inFlightChecks && SameKey(f, w);
  }

  /** Every success survives acceptance, or gives way to a newer one. */
  lemma SuccessMoves(s: System, u: System, filtered: seq<IPCheck>, ip: string, t: int) returns (t': int)
    requires Accepts(s, u, filtered, ip) && SuccessAt(s, ip, t)
    ensures t <= t' && SuccessAt(u, ip, t')
  {
    t' := t;
    if PoolTarget(ip, t) !in s.seeds {
      var d :| Evidence(s, d) && d.ip == ip && d.ok && d.checkedAt == t;
      if d in s.core.inFlightChecks {
        assert CoveredBy(filtered, d);
        var f :| f in filtered && f.ip == d.ip && f.ok && d.checkedAt <= f.checkedAt;
        assert Evidence(u, f);
        t' := f.checkedAt;
      } else {
        assert Evidence(u, d);
      }
    }
  }

  lemma FailuresMove(s: System, u: System, filtered: seq<IPCheck>, ip: string, t: int)
    requires Accepts(s, u, filtered, ip) && NoFailureAfter(s, ip, t)
    ensures NoFailureAfter(u, ip, t)
  {
    forall c | Evidence(u, c) && c.ip == ip && !c.ok ensures c.checkedAt <= t {
      if c in filtered {
        var w := Origin(s, u, filtered, ip, c);
        assert Evidence(s, w);
      } else {
        assert Evidence(s, c);
      }
    }
  }

  lemma AcceptNewest(s: System, u: System, filtered: seq<IPCheck>, ip: string)
    requires Accepts(s, u, filtered, ip) && NewestIsSuccess(s, ip)
    ensures NewestIsSuccess(u, ip)
  {
    var t :| SuccessAt(s, ip, t) && NoFailureAfter(s, ip, t);
    var t' := SuccessMoves(s, u, filtered, ip, t);
    FailuresMove(s, u, filtered, ip, t);
    assert NoFailureAfter(u, ip, t');
  }

  /** An accepted success newer than the last result is newer than every failure. */
  lemma AcceptedSuccessIsNewest(s: System, u: System, filtered: seq<IPCheck>, ip: string, at: int, c: IPCheck)
    requires Accepts(s, u, filtered, ip) && Settled(s, ip, at) && c in filtered && c.ip == ip && c.ok && at <= c.checkedAt
    ensures NewestIsSuccess(u, ip)
  {
    var w := Origin(s, u, filtered, ip, c);
    PendingSuccessIsNewest(s, ip, at, w);
    AcceptNewest(s, u, filtered, ip);
  }

  lemma AcceptSettled(s: System, u: System, filtered: seq<IPCheck>, ip: string, at: int, later: int)
    requires Accepts(s, u, filtered, ip) && Settled(s, ip, at) && at <= later
    requires forall f <- filtered :: f.ip == ip ==> f.checkedAt <= later
    ensures Settled(u, ip, later)
  {
    if NewestIsSuccess(s, ip) {
      AcceptNewest(s, u, filtered, ip);
    } else {
      assert forall c :: Pending(u, c) ==> Pending(s, c);
    }
  }

  lemma AcceptSuccessSince(s: System, u: System, filtered: seq<IPCheck>, ip: string, since: int)
    requires Accepts(s, u, filtered, ip)
    requires SuccessSince(s, ip, since) || exists c <- filtered :: c.ip == ip && c.ok && c.checkedAt == since
    ensures SuccessSince(u, ip, since)
  {
    if SuccessSince(s, ip, since) {
      var t :| SuccessAt(s, ip, t) && since <= t;
      var t' := SuccessMoves(s, u, filtered, ip, t);
    } else {
      var c :| c in filtered && c.ip == ip && c.ok && c.checkedAt == since;
      assert Evidence(u, c);
      assert SuccessAt(u, ip, since);
    }
  }

  lemma AcceptTracked(s: System, u: System, filtered: seq<IPCheck>, ip: string, st: RecheckState)
    requires Accepts(s, u, filtered, ip) && Tracked(s, ip, st) && StateIn(s.core.recheckStates, ip) == Some(st)
    ensures Holds(u, ip)
  {
    MergedMeans(s.core.recheckStates, filtered, ip);
    var x := u.core.recheckStates[ip];
    if x.lastOK {
      if st.lastOK {
        AcceptNewest(s, u, filtered, ip);
      } else {
        var c :| c in filtered && c.ip == ip && c.ok && c.checkedAt > st.lastResultAt;
        AcceptedSuccessIsNewest(s, u, filtered, ip, st.lastResultAt, c);
      }
    }
    if x.lastSuccess != 0 {
      AcceptSuccessSince(s, u, filtered, ip, x.lastSuccess);
    }
    AcceptSettled(s, u, filtered, ip, st.lastResultAt, x.lastResultAt);
  }

  lemma AcceptUntracked(s: System, u: System, filtered: seq<IPCheck>, ip: string)
    requires Accepts(s, u, filtered, ip) && Untracked(s, ip) && ip !in s.core.recheckStates
    ensures Holds(u, ip)
  {
    forall f <- filtered | f.ip == ip ensures !f.ok {
      var w := Origin(s, u, filtered, ip, f);
      assert Pending(s, w);
    }
    MergedMeans(s.core.recheckStates, filtered, ip);
    assert forall c :: Pending(u, c) ==> Pending(s, c);
    assert NoPendingSuccess(u, ip);
  }

  /** A flush that succeeds, when the last success of ip in its window is the newest. */
  lemma SucceedAccepts(s: System, e: Event, mode: string, ip: string)
    requires e.FlushSucceed? && Enabled(s, e) && Timed(s.core.inFlightChecks) && LastIsNewest(s.core.inFlightChecks, ip)
    ensures Accepts(s, Perform(s, e, mode), FilterWindow(s.core.inFlightChecks, e.knownGood, e.now), ip)
  {
    var window := s.core.inFlightChecks;
    var filtered := FilterWindow(window, e.knownGood, e.now);
    SuccessCovered(window, e.knownGood, e.now, ip);
    forall f | f in filtered ensures HasOrigin(window, f) {
      var w := KeptOrigin(window, e.knownGood, e.now, f);
    }
  }

  /** In a timely window the last success of every IP is its newest. */
  lemma TimelyIsNewest(s: System, ip: string)
    requires Timely(s)
    ensures Timed(s.core.inFlightChecks) && LastIsNewest(s.core.inFlightChecks, ip)
  {
    var window := s.core.inFlightChecks;
    WindowNeverBack(s);
    forall k | 0 <= k < |window| && window[k].ip == ip && window[k].ok ensures window[k].checkedAt <= SeenAt(window, ip).GetOr(0) {
      SeenAtIsNewest(window, k);
    }
  }

  lemma SucceedHolds(s: System, e: Event, mode: string, ip: string)
    requires Timely(s) && Holds(s, ip) && e.FlushSucceed? && Enabled(s, e)
    ensures Holds(Perform(s, e, mode), ip)
  {
    var u, filtered := Perform(s, e, mode), FilterWindow(s.core.inFlightChecks, e.knownGood, e.now);
    TimelyIsNewest(s, ip);
    SucceedAccepts(s, e, mode, ip);
    if ip in s.core.recheckStates {
      AcceptTracked(s, u, filtered, ip, s.core.recheckStates[ip]);
    } else {
      AcceptUntracked(s, u, filtered, ip);
    }
  }

  // ---------- The window ----------

  lemma AppendTimely(s: System, u: System, c: IPCheck)
    requires Timely(s) && Window(u) == Window(s) + [c] && c.checkedAt != 0
    requires c.ok ==> NotBehind(s, c.ip, c.checkedAt)
    ensures Timely(u)
  {
    var w := Window(s);
    forall i | 0 <= i < |w| && w[i].ip == c.ip && w[i].ok && c.ok ensures w[i].checkedAt <= c.checkedAt {
      assert w[i] in w && Pending(s, w[i]);
    }
  }

  lemma SuffixTimely(s: System, u: System)
    requires Timely(s) && Window(u) == s.core.checks
    ensures Timely(u)
  {
    var k := |s.core.inFlightChecks|;
    assert forall i :: 0 <= i < |s.core.checks| ==> s.core.checks[i] == Window(s)[k + i];
  }

  lemma ScanTimely(s: System, ip: string, r: ProbeResult, now: int, mode: string)
    requires Timely(s) && Holds(s, ip) && Enabled(s, Scan(ip, r, now)) && FitsEvent(s, Scan(ip, r, now))
    ensures Timely(Perform(s, Scan(ip, r, now), mode))
  {
    var u, c := Perform(s, Scan(ip, r, now), mode), NewCheck(ip, r, "scan", now, mode);
    assert Window(u) == Window(s) + [c];
    AppendTimely(s, u, c);
  }

  lemma RecheckTimely(s: System, t: PoolTarget, r: ProbeResult, now: int, mode: string)
    requires Timely(s) && Enabled(s, Recheck(t, r, now)) && FitsEvent(s, Recheck(t, r, now))
    ensures Timely(Perform(s, Recheck(t, r, now), mode))
  {
    var u, c := Perform(s, Recheck(t, r, now), mode), NewCheck(t.ip, r, "recheck", now, mode);
    if Persists(StateOf(s.core, t), r.ok, now) {
      assert Window(u) == Window(s) + [c];
      AppendTimely(s, u, c);
    } else {
      assert Window(u) == Window(s);
    }
  }

  lemma StepTimely(s: System, e: Event, mode: string)
    requires Sound(s) && Enabled(s, e) && FitsEvent(s, e)
    ensures Timely(Perform(s, e, mode))
  {
    var u := Perform(s, e, mode);
    match e
    case Scan(ip, r, now) => ScanTimely(s, ip, r, now, mode);
    case Recheck(t, r, now) => RecheckTimely(s, t, r, now, mode);
    case SeedPool(targets) => SeedKeepsChecks(s.core, targets);
    case FlushBegin => assert Window(u) == Window(s);
    case FlushNothing => assert Window(u) == Window(s);
    case FlushFail => assert Window(u) == Window(s);
    case FlushSucceed(_, _, _, _) => SuffixTimely(s, u);
  }

  // ---------- Every reachable state ----------

  /** Between flushes nothing is in flight. */
  ghost predicate AtRest(s: System) {
    s.flushing.None? ==> s.core.inFlightChecks == []
  }

  ghost predicate Sound(s: System) {
    AtRest(s) && Timely(s) && forall ip :: Holds(s, ip)
  }

  lemma StepAtRest(s: System, e: Event, mode: string)
    requires AtRest(s) && Enabled(s, e)
    ensures AtRest(Perform(s, e, mode))
  {
    if e.SeedPool? {
      SeedKeepsChecks(s.core, e.targets);
    }
  }

  lemma StepHolds(s: System, e: Event, mode: string, ip: string)
    requires Sound(s) && Enabled(s, e) && FitsEvent(s, e)
    ensures Holds(Perform(s, e, mode), ip)
  {
    var u := Perform(s, e, mode);
    match e
    case Scan(at, r, now) => ScanHolds(s, at, r, now, mode, ip);
    case SeedPool(targets) => SeedHolds(s, targets, mode);
    case Recheck(t, r, now) => RecheckHolds(s, t, r, now, mode, ip);
    case FlushBegin => MoveHolds(s, u, ip);
    case FlushNothing => MoveHolds(s, u, ip);
    case FlushFail => MoveHolds(s, u, ip);
    case FlushSucceed(_, _, _, _) => SucceedHolds(s, e, mode, ip);
  }

  lemma StepSound(s: System, e: Event, mode: string)
    requires Sound(s) && (Enabled(s, e) ==> FitsEvent(s, e))
    ensures Sound(Step(s, e, mode))
  {
    if Enabled(s, e) {
      StepAtRest(s, e, mode);
      StepTimely(s, e, mode);
      forall ip ensures Holds(Step(s, e, mode), ip) {
        StepHolds(s, e, mode, ip);
      }
    }
  }

  lemma StartUntracked(s: System, ip: string)
    requires s.accepted == [] && s.core.checks == [] && s.core.inFlightChecks == [] && s.seeds == {}
    requires ip !in s.core.recheckStates
    ensures Holds(s, ip)
  {
  }

  lemma EmptySound(s: System)
    requires s.accepted == [] && s.core.checks == [] && s.core.inFlightChecks == [] && s.seeds == {} && s.core.recheckStates == map[]
    ensures Sound(s)
  {
    forall ip ensures Holds(s, ip) {
      StartUntracked(s, ip);
    }
  }

  lemma RunOfNothing(s: System, mode: string)
    requires s == Run([], mode)
    ensures s.accepted == [] && s.core == Core([], [], 0, map[]) && s.seeds == {}
  {
  }

  lemma NothingSound(s: System, mode: string)
    requires s == Run([], mode)
    ensures Sound(s)
  {
    RunOfNothing(s, mode);
    EmptySound(s);
  }

  lemma NextSound(es: seq<Event>, e: Event, s: System, mode: string)
    requires es != [] && FitRun(es, mode) && e == es[|es| - 1] && s == Run(es[..|es| - 1], mode) && Sound(s)
    ensures Sound(Step(s, e, mode))
  {
    StepSound(s, e, mode);
  }

  lemma {:induction false} RunSound(es: seq<Event>, mode: string)
    requires FitRun(es, mode)
    ensures Sound(Run(es, mode))
  {
    if es == [] {
      NothingSound(Run(es, mode), mode);
    } else {
      RunSound(es[..|es| - 1], mode);
      NextSound(es, es[|es| - 1], Run(es[..|es| - 1], mode), mode);
    }
  }

  // ---------- Main results ----------

  /** The newest evidence about ip is a success, and some success is recent. */
  ghost predicate KnownGood(s: System, ip: string, now: int) {
    NewestIsSuccess(s, ip) && exists t :: SuccessAt(s, ip, t) && now - t < RECHECK_SUCCESS_INTERVAL
  }

  lemma SuppressedIsKnown(s: System, ip: string, st: RecheckState, now: int)
    requires Tracked(s, ip, st) && !Persists(st, true, now)
    ensures KnownGood(s, ip, now)
  {
    var t :| SuccessAt(s, ip, t) && st.lastSuccess <= t;
    assert now - t < RECHECK_SUCCESS_INTERVAL;
  }

  /** Only an IP with a state can be seeded. */
  lemma SeededIsTracked(s: System, t: PoolTarget)
    requires Holds(s, t.ip) && t in s.seeds
    ensures t.ip in s.core.recheckStates && Tracked(s, t.ip, s.core.recheckStates[t.ip])
  {
  }

  lemma SuppressedInSound(s: System, target: PoolTarget, r: ProbeResult, now: int)
    requires Sound(s) && Enabled(s, Recheck(target, r, now)) && r.ok && !Persists(StateOf(s.core, target), r.ok, now)
    ensures KnownGood(s, target.ip, now)
  {
    SeededIsTracked(s, target);
    SuppressedIsKnown(s, target.ip, s.core.recheckStates[target.ip], now);
  }

  /**
   * Main result. In every reachable state, if a successful recheck is not persisted, then no buffered, in-flight or
   * accepted failure of the IP is newer than its newest persisted or server-reported success, and some such success
   * is less than 24 hours and one second old. Readings come in any order in which every recorded result fits.
   */
  lemma SuppressionHidesNoRecovery(es: seq<Event>, mode: string, target: PoolTarget, r: ProbeResult, now: int)
    requires FitRun(es, mode) && Enabled(Run(es, mode), Recheck(target, r, now)) && r.ok
    requires !Persists(StateOf(Run(es, mode).core, target), r.ok, now)
    ensures KnownGood(Run(es, mode), target.ip, now)
  {
    RunSound(es, mode);
    SuppressedInSound(Run(es, mode), target, r, now);
  }

  /** Failures, and successes whose newest evidence is a failure, are always appended to the buffer. */
  lemma TransitionsPersist(es: seq<Event>, mode: string, target: PoolTarget, r: ProbeResult, now: int)
    requires FitRun(es, mode) && Enabled(Run(es, mode), Recheck(target, r, now))
    requires !r.ok || !NewestIsSuccess(Run(es, mode), target.ip)
    ensures var s := Run(es, mode);
            Step(s, Recheck(target, r, now), mode).core.checks == s.core.checks + [NewCheck(target.ip, r, "recheck", now, mode)]
  {
    if !Persists(StateOf(Run(es, mode).core, target), r.ok, now) {
      SuppressionHidesNoRecovery(es, mode, target, r, now);
      assert false;
    }
  }

  // ---------- Readings in order, IP by IP ----------

  /** The reading is no earlier than the last one taken for the same IP. */
  ghost predicate Ordered(s: System, e: Event) {
    match e
    case Scan(ip, _, now) => now != 0 && (ip in s.readings ==> s.readings[ip] <= now)
    case Recheck(t, _, now) => now != 0 && (t.ip in s.readings ==> s.readings[t.ip] <= now)
    case _ => true
  }

  ghost predicate OrderedRun(es: seq<Event>, mode: string) {
    es != [] ==>
      && OrderedRun(es[..|es| - 1], mode)
      && var s, e := Run(es[..|es| - 1], mode), es[|es| - 1];
      Enabled(s, e) ==> Ordered(s, e)
  }

  /** No evidence about an IP is later than its last reading. */
  ghost predicate Read(s: System, c: IPCheck) {
    c.ip in s.readings && c.checkedAt <= s.readings[c.ip]
  }

  ghost predicate AllRead(s: System) {
    forall c :: Evidence(s, c) ==> Read(s, c)
  }

  lemma OrderedFits(s: System, e: Event)
    requires AllRead(s) && Ordered(s, e)
    ensures FitsEvent(s, e)
  {
    match e
    case Scan(ip, _, now) => ReadFits(s, ip, now);
    case Recheck(t, _, now) => ReadFits(s, t.ip, now);
    case _ =>
  }

  lemma ReadFits(s: System, ip: string, now: int)
    requires AllRead(s) && (ip in s.readings ==> s.readings[ip] <= now)
    ensures NoFailureAfter(s, ip, now) && NotBehind(s, ip, now)
  {
    forall c | Evidence(s, c) && c.ip == ip ensures c.checkedAt <= now {
      assert Read(s, c);
    }
  }

  lemma AppendRead(s: System, u: System, c: IPCheck, now: int)
    requires AllRead(s) && Adds(s, u, c) && c.checkedAt == now && u.readings == s.readings[c.ip := now]
    requires c.ip in s.readings ==> s.readings[c.ip] <= now
    ensures AllRead(u)
  {
    forall d | Evidence(u, d) ensures Read(u, d) {
      assert d == c || Evidence(s, d);
    }
  }

  lemma SuppressedRead(s: System, u: System, ip: string, now: int)
    requires AllRead(s) && SameEvidence(s, u) && u.readings == s.readings[ip := now]
    requires ip in s.readings ==> s.readings[ip] <= now
    ensures AllRead(u)
  {
    forall d | Evidence(u, d) ensures Read(u, d) {
      assert Evidence(s, d);
    }
  }

  lemma AcceptRead(s: System, u: System, filtered: seq<IPCheck>, ip: string)
    requires AllRead(s) && Accepts(s, u, filtered, ip) && u.readings == s.readings
    ensures AllRead(u)
  {
    forall c | Evidence(u, c) ensures Read(u, c) {
      if c in filtered {
        var w := Origin(s, u, filtered, ip, c);
        assert Evidence(s, w);
        assert Read(s, w);
      } else {
        assert Evidence(s, c);
      }
    }
  }

  lemma MoveRead(s: System, u: System)
    requires AllRead(s) && u.accepted == s.accepted && u.readings == s.readings && forall c :: Pending(u, c) <==> Pending(s, c)
    ensures AllRead(u)
  {
    forall c | Evidence(u, c) ensures Read(u, c) {
      assert Evidence(s, c);
    }
  }

  lemma ProbeRead(s: System, e: Event, mode: string)
    requires AllRead(s) && Enabled(s, e) && Ordered(s, e) && (e.Scan? || e.Recheck?)
    ensures AllRead(Perform(s, e, mode))
  {
    var u := Perform(s, e, mode);
    match e
    case Scan(ip, r, now) =>
      var c := NewCheck(ip, r, "scan", now, mode);
      AppendAdds(s, u, c);
      AppendRead(s, u, c, now);
    case Recheck(t, r, now) =>
      if Persists(StateOf(s.core, t), r.ok, now) {
        var c := NewCheck(t.ip, r, "recheck", now, mode);
        AppendAdds(s, u, c);
        AppendRead(s, u, c, now);
      } else {
        SuppressedRead(s, u, t.ip, now);
      }
  }

  lemma StepRead(s: System, e: Event, mode: string)
    requires Sound(s) && AllRead(s) && Enabled(s, e) && Ordered(s, e)
    ensures AllRead(Perform(s, e, mode))
  {
    var u := Perform(s, e, mode);
    match e
    case Scan(_, _, _) => ProbeRead(s, e, mode);
    case Recheck(_, _, _) => ProbeRead(s, e, mode);
    case SeedPool(targets) =>
      SeedKeepsChecks(s.core, targets);
      MoveRead(s, u);
    case FlushSucceed(_, _, _, _) =>
      TimelyIsNewest(s, "");
      SucceedAccepts(s, e, mode, "");
      AcceptRead(s, u, FilterWindow(s.core.inFlightChecks, e.knownGood, e.now), "");
    case _ => MoveRead(s, u);
  }

  /** Readings that are in order for each IP, whatever the order across IPs, fit: the main results hold for them. */
  lemma {:induction false} OrderedReadingsFit(es: seq<Event>, mode: string)
    requires OrderedRun(es, mode)
    ensures FitRun(es, mode) && AllRead(Run(es, mode))
  {
    if es != [] {
      var s, e := Run(es[..|es| - 1], mode), es[|es| - 1];
      OrderedReadingsFit(es[..|es| - 1], mode);
      if Enabled(s, e) {
        RunSound(es[..|es| - 1], mode);
        OrderedFits(s, e);
        StepRead(s, e, mode);
      }
    }
  }
}
