/** The Scanner of internal/scan/scanner.go: its critical sections, updating its fields. */
module Scanner {
  import opened Prelude
  import opened Filter
  import opened ScannerState

  class Scanner {
    var checks: seq<IPCheck>
    var inFlightChecks: seq<IPCheck>
    var scannedCount: nat
    var recheckStates: map<string, RecheckState>
    var pruneIPs: set<string>
    var knownGood: Option<set<string>>
    var maintenance: Maintenance
    const scanMode: string

    ghost function Everything(): Flushable
      reads this
    {
      Flushable(State(), pruneIPs, knownGood, maintenance)
    }

    ghost function State(): Core
      reads this
    {
      Core(checks, inFlightChecks, scannedCount, recheckStates)
    }

    constructor (mode: string)
      ensures Everything() == Flushable(Core([], [], 0, map[]), {}, None, Maintenance(0, 0)) && scanMode == mode
    {
      knownGood, maintenance := None, Maintenance(0, 0);
      checks, inFlightChecks, scannedCount, recheckStates, pruneIPs := [], [], 0, map[], {};
      scanMode := mode;
    }

    method RecordResultLocked(check: IPCheck, persist: bool)
      modifies this`checks, this`scannedCount
      ensures State() == ScannerState.RecordResult(old(State()), check, persist)
    {
      scannedCount := scannedCount + 1;
      if persist {
        checks := checks + [check];
      }
    }

    method Record(ip: string, result: ProbeResult, now: int)
      modifies this
      ensures State() == if result.mixed then old(State()) else ScannerState.Record(old(State()), ip, result, now, scanMode)
      ensures pruneIPs == old(pruneIPs)
    {
      if result.mixed {
        return;
      }
      RecordResultLocked(NewCheck(ip, result, "scan", now, scanMode), true);
      if result.ok {
        recheckStates := recheckStates[ip := RecheckState(true, now, now)];
      } else if ip in recheckStates {
        recheckStates := recheckStates[ip := recheckStates[ip].(lastOK := false, lastResultAt := now)];
      }
    }

    method RecordRecheck(target: PoolTarget, result: ProbeResult, now: int)
      modifies this
      ensures State() == if result.mixed then old(State()) else ScannerState.RecordRecheck(old(State()), target, result, now, scanMode)
      ensures pruneIPs == old(pruneIPs)
    {
      if result.mixed {
        return;
      }
      var state := RecheckState(true, target.lastSeen, target.lastSeen);
      if target.ip in recheckStates {
        state := recheckStates[target.ip];
      }
      var persist := !result.ok || !state.lastOK || state.lastSuccess == 0 || now - state.lastSuccess >= RECHECK_SUCCESS_INTERVAL;
      RecordResultLocked(NewCheck(target.ip, result, "recheck", now, scanMode), persist);
      state := state.(lastOK := result.ok, lastResultAt := now);
      if result.ok && persist {
        state := state.(lastSuccess := now);
      }
      recheckStates := recheckStates[target.ip := state];
    }

    method PendingChecks() returns (pending: map<string, IPCheck>)
      ensures forall ip :: NewestPending(checks + inFlightChecks, ip) == if ip in pending then Some(pending[ip]) else None
    {
      pending := map[];
      var all := checks + inFlightChecks;
      for i := 0 to |all|
        invariant forall ip :: NewestPending(all[..i], ip) == if ip in pending then Some(pending[ip]) else None
      {
        assert all[..i + 1][..i] == all[..i];
        if all[i].ip !in pending || all[i].checkedAt > pending[all[i].ip].checkedAt {
          pending := pending[all[i].ip := all[i]];
        }
      }
      assert all[..|all|] == all;
    }

    method SeedRecheckStates(targets: seq<PoolTarget>)
      modifies this`recheckStates
      ensures State() == ScannerState.Seed(old(State()), targets)
    {
      var pending := PendingChecks();
      for i := 0 to |targets|
        invariant State() == ScannerState.Seed(old(State()), targets[..i])
      {
        assert targets[..i + 1][..i] == targets[..i];
        var t := targets[i];
        var known := if t.ip in recheckStates then Some(recheckStates[t.ip]) else None;
        var check := if t.ip in pending then Some(pending[t.ip]) else None;
        recheckStates := recheckStates[t.ip := Seeded(known, t.lastSeen, check)];
      }
      assert targets[..|targets|] == targets;
    }

    method MergeSubmittedStates(submitted: seq<IPCheck>)
      modifies this`recheckStates, this`inFlightChecks
      ensures State() == ScannerState.MergeSubmitted(old(State()), submitted)
    {
      for i := 0 to |submitted|
        invariant recheckStates == Merged(old(recheckStates), submitted[..i])
        invariant inFlightChecks == old(inFlightChecks)
      {
        assert submitted[..i + 1][..i] == submitted[..i];
        var check := submitted[i];
        var state := if check.ip in recheckStates then recheckStates[check.ip] else RecheckState(false, 0, 0);
        if check.checkedAt > state.lastResultAt {
          state := state.(lastOK := check.ok, lastResultAt := check.checkedAt);
        }
        if check.ok && check.checkedAt > state.lastSuccess {
          state := state.(lastSuccess := check.checkedAt);
        }
        recheckStates := recheckStates[check.ip := state];
      }
      assert submitted[..|submitted|] == submitted;
      inFlightChecks := [];
    }

    method TakeBuffer() returns (taken: seq<IPCheck>, scanned: nat)
      modifies this`checks, this`inFlightChecks, this`scannedCount
      ensures State() == ScannerState.BeginFlush(old(State()))
      ensures taken == old(checks) && scanned == old(scannedCount)
    {
      taken, scanned := checks, scannedCount;
      checks := [];
      inFlightChecks := taken;
      scannedCount := 0;
    }

    method Requeue(taken: seq<IPCheck>, scanned: nat)
      modifies this`checks, this`inFlightChecks, this`scannedCount
      ensures State() == ScannerState.Requeue(old(State()), taken, scanned)
    {
      checks := taken + checks;
      inFlightChecks := [];
      scannedCount := scannedCount + scanned;
    }

    method AdvancePruneCandidates(submitted: seq<IPCheck>, complete: bool)
      modifies this`pruneIPs
      ensures pruneIPs == ScannerState.RecordPruneCandidates(old(pruneIPs), submitted, complete)
    {
      if complete {
        pruneIPs := {};
        return;
      }
      for i := 0 to |submitted|
        invariant pruneIPs == old(pruneIPs) + IPs(submitted[..i])
      {
        assert submitted[..i + 1] == submitted[..i] + [submitted[i]];
        pruneIPs := pruneIPs + {submitted[i].ip};
      }
      assert submitted[..|submitted|] == submitted;
    }

    /** The known-good set of this flush; false when there is none to work with. */
    method RefreshKnownGood(expired: bool, fetched: Option<set<string>>) returns (usable: bool)
      modifies this`knownGood
      ensures knownGood == KnownGoodFor(old(knownGood), expired, fetched) && usable == knownGood.Some?
    {
      if knownGood.None? || expired {
        if fetched.Some? {
          knownGood := fetched;
        }
      }
      return knownGood.Some?;
    }

    method Discover(results: seq<ScanResult>)
      requires knownGood.Some?
      modifies this`knownGood
      ensures knownGood == Some(old(knownGood.value) + ResultIPs(results))
    {
      var known := knownGood.value;
      for i := 0 to |results|
        invariant known == old(knownGood.value) + ResultIPs(results[..i])
      {
        ResultIPsStep(results, i);
        known := known + {results[i].ip};
      }
      assert results[..|results|] == results;
      knownGood := Some(known);
    }

    /** What flush does once a submit has been answered. */
    method Accepted(taken: seq<IPCheck>, results: seq<ScanResult>, filtered: seq<IPCheck>, due: bool, pruneOK: bool, doneAt: int)
      requires knownGood.Some? && ResultIPs(results) == SuccessIPs(taken)
      modifies this
      ensures Everything() == Flushable(
        MergeSubmitted(old(State()), filtered),
        ScannerState.RecordPruneCandidates(old(pruneIPs), filtered, due && pruneOK),
        Some(old(knownGood.value) + SuccessIPs(taken)),
        old(maintenance).Advance(due, pruneOK, doneAt))
    {
      var complete := due && pruneOK;
      if complete {
        maintenance := Maintenance(doneAt, 0);
      }
      AdvancePruneCandidates(filtered, complete);
      if due && !pruneOK {
        maintenance := maintenance.(nextPruneRetryAt := doneAt + PRUNE_RETRY_INTERVAL);
      }
      MergeSubmittedStates(filtered);
      Discover(results);
    }

    /** flush, with nothing else taking the mutex; ScannerRuns interleaves its sections with everything else. */
    method Flush(o: Outside) returns (ok: bool, sent: Option<Submission>)
      modifies this
      ensures (Everything(), ok, sent) == Flushed(old(Everything()), o)
    {
      var taken, scanned := TakeBuffer();
      sent := None;
      var due := maintenance.Due(o.now);
      if |taken| == 0 && !(due && pruneIPs != {}) {
        return true, sent;
      }
      var usable := RefreshKnownGood(o.expired, o.fetched);
      if !usable {
        Requeue(taken, scanned);
        return false, sent;
      }
      var results := CollectResults(taken);
      ResultsAreSuccesses(taken);
      var filtered := FilterChecks(results, taken, knownGood.value, o.filterNow);
      sent := Some(Submission(filtered, due, ScannerState.PruneCandidates(pruneIPs, filtered, due)));
      if o.reply.None? {
        Requeue(taken, scanned);
        return false, sent;
      }
      Accepted(taken, results, filtered, due, o.reply.value, o.doneAt);
      return true, sent;
    }
  }
}
