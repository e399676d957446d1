/**
 * What the critical sections of internal/scan/scanner.go:300-416 do, said without their code: which check is appended
 * and when, and that a recheck state is the newest thing known about its IP.
 */
module RecheckStates {
  import opened Prelude
  import opened Filter
  import opened ScannerState

  // ---------- record and recordRecheck ----------

  /** The check that a probe result becomes. */
  ghost predicate CheckOf(c: IPCheck, ip: string, r: ProbeResult, source: string, now: int, mode: string) {
    && c.ip == ip && c.ok == r.ok && c.rttMs == r.rttMs && c.detail == r.detail && c.checkedAt == now && c.scanMode == mode
    && c.reason == source + ":" + (if r.ok then "ok" else r.reason)
  }

  /** Everything but the appended check, the counter and the state of this IP stays. */
  ghost predicate OnlyAppends(c: Core, d: Core, ip: string) {
    && d.inFlightChecks == c.inFlightChecks && d.scannedCount == c.scannedCount + 1
    && forall other :: other != ip ==> StateIn(d.recheckStates, other) == StateIn(c.recheckStates, other)
  }

  /** A scan is always appended. A success starts or resets the state; a failure is remembered only for a known IP. */
  lemma ScanIsRecorded(c: Core, ip: string, r: ProbeResult, now: int, mode: string)
    ensures
      var d := Record(c, ip, r, now, mode);
      && OnlyAppends(c, d, ip)
      && |d.checks| == |c.checks| + 1 && c.checks <= d.checks && CheckOf(d.checks[|c.checks|], ip, r, "scan", now, mode)
      && (r.ok ==> StateIn(d.recheckStates, ip) == Some(RecheckState(true, now, now)))
      && (!r.ok ==>
            match StateIn(c.recheckStates, ip)
            case None => StateIn(d.recheckStates, ip) == None
            case Some(s) => StateIn(d.recheckStates, ip) == Some(RecheckState(false, s.lastSuccess, now)))
  {
  }

  /**
   * A recheck is appended unless it succeeded, the IP was ok, and its last known success is less than 24 hours and one
   * second old. Without a state, the row of the snapshot counts as the last success.
   */
  lemma RecheckIsRecorded(c: Core, t: PoolTarget, r: ProbeResult, now: int, mode: string)
    ensures
      var d := RecordRecheck(c, t, r, now, mode);
      var wasOK := match StateIn(c.recheckStates, t.ip) case None => true case Some(s) => s.lastOK;
      var lastSuccess := match StateIn(c.recheckStates, t.ip) case None => t.lastSeen case Some(s) => s.lastSuccess;
      var appended := !(r.ok && wasOK && lastSuccess != 0 && now - lastSuccess < 86_401_000_000_000);
      && OnlyAppends(c, d, t.ip)
      && (if appended then |d.checks| == |c.checks| + 1 && c.checks <= d.checks && CheckOf(d.checks[|c.checks|], t.ip, r, "recheck", now, mode)
          else d.checks == c.checks)
      && StateIn(d.recheckStates, t.ip) == Some(RecheckState(r.ok, if r.ok && appended then now else lastSuccess, now))
  {
  }

  // ---------- seedRecheckStates ----------

  /** The newest check of ip among these. */
  ghost predicate NewestOf(checks: seq<IPCheck>, ip: string, p: IPCheck) {
    p in checks && p.ip == ip && forall c <- checks :: c.ip == ip ==> c.checkedAt <= p.checkedAt
  }

  lemma {:induction false} PendingIsNewest(checks: seq<IPCheck>, ip: string)
    ensures match NewestPending(checks, ip)
            case None => forall c <- checks :: c.ip != ip
            case Some(p) => NewestOf(checks, ip, p)
  {
    if checks != [] {
      PendingIsNewest(checks[..|checks| - 1], ip);
      assert checks == checks[..|checks| - 1] + [checks[|checks| - 1]];
    }
  }

  /** The outcome of the newest of: the result the state had, the success of the snapshot row, the newest waiting check. */
  ghost predicate NewestKnown(old_: Option<RecheckState>, seen: int, pending: Option<IPCheck>, x: RecheckState) {
    var before := match old_ case None => seen case Some(s) => Max(s.lastResultAt, seen);
    var success := match old_ case None => seen case Some(s) => Max(s.lastSuccess, seen);
    if pending.Some? && pending.value.checkedAt > before then
      x == RecheckState(pending.value.ok, if pending.value.ok then pending.value.checkedAt else success, pending.value.checkedAt)
    else
      && x.lastResultAt == before && x.lastSuccess == success
      && (x.lastOK <==> match old_ case None => true case Some(s) => s.lastOK || seen > s.lastResultAt)
  }

  /** One row of a snapshot makes the state of its IP the newest thing known; other IPs keep theirs. */
  lemma SeedIsNewest(c: Core, t: PoolTarget)
    ensures
      var d, pending := Seed(c, [t]), NewestPending(c.checks + c.inFlightChecks, t.ip);
      && d.checks == c.checks && d.inFlightChecks == c.inFlightChecks && d.scannedCount == c.scannedCount
      && t.ip in d.recheckStates && NewestKnown(StateIn(c.recheckStates, t.ip), t.lastSeen, pending, d.recheckStates[t.ip])
      && (match pending
          case None => forall x <- c.checks + c.inFlightChecks :: x.ip != t.ip
          case Some(p) => NewestOf(c.checks + c.inFlightChecks, t.ip, p))
      && forall other :: other != t.ip ==> StateIn(d.recheckStates, other) == StateIn(c.recheckStates, other)
  {
    PendingIsNewest(c.checks + c.inFlightChecks, t.ip);
    assert [t][..|[t]| - 1] == [];
    assert Seed(c, []) == c;
  }

  lemma {:induction false} SeedKeepsOthers(c: Core, targets: seq<PoolTarget>)
    ensures var d := Seed(c, targets); d.checks == c.checks && d.inFlightChecks == c.inFlightChecks && d.scannedCount == c.scannedCount
  {
    if targets != [] {
      SeedKeepsOthers(c, targets[..|targets| - 1]);
    }
  }

  /** A snapshot is taken row by row. */
  lemma {:induction false} SeedInParts(c: Core, a: seq<PoolTarget>, b: seq<PoolTarget>)
    ensures Seed(c, a + b) == Seed(Seed(c, a), b)
  {
    if b == [] {
      assert a + b == a;
    } else {
      assert (a + b)[..|a + b| - 1] == a + b[..|b| - 1];
      SeedInParts(c, a, b[..|b| - 1]);
      SeedKeepsOthers(c, a + b[..|b| - 1]);
      SeedKeepsOthers(c, a);
    }
  }

  // ---------- The two ends of a flush ----------

  /** Taking the buffer and putting it back changes nothing, and what was appended in between stays behind it. */
  lemma RequeueIsFirst(c: Core, more: seq<IPCheck>, probes: nat)
    requires c.inFlightChecks == []
    ensures
      var begun := BeginFlush(c);
      && begun.checks == [] && begun.inFlightChecks == c.checks && begun.scannedCount == 0 && begun.recheckStates == c.recheckStates
      && var later := begun.(checks := more, scannedCount := probes);
      Requeue(later, c.checks, c.scannedCount) == c.(checks := c.checks + more, scannedCount := probes + c.scannedCount)
  {
  }
}
