/**
 * Clock readings that do not fit (internal/scan/scanner.go:295-416): at each place that sets a recheck state to ok,
 * exactly when that hides a recovery, and runs in which it does.
 */
module LateReadings {
  import opened Prelude
  import opened Filter
  import opened ScannerState
  import opened ScannerRuns
  import opened Heartbeat

  // ---------- Exact conditions ----------

  lemma AddedSuccess(s: System, u: System, c: IPCheck)
    requires Adds(s, u, c) && c.ok && NewestIsSuccess(u, c.ip)
    ensures Fits(s, c.ip, c.checkedAt)
  {
    var t :| SuccessAt(u, c.ip, t) && NoFailureAfter(u, c.ip, t);
    forall d | Evidence(s, d) && d.ip == c.ip && !d.ok ensures d.checkedAt <= t {
      assert Evidence(u, d);
    }
    if t != c.checkedAt {
      if PoolTarget(c.ip, t) !in s.seeds {
        var d :| Evidence(u, d) && d.ip == c.ip && d.ok && d.checkedAt == t;
        assert Evidence(s, d);
      }
      assert SuccessAt(s, c.ip, t) && NoFailureAfter(s, c.ip, t);
    }
  }

  lemma FitsExactly(s: System, u: System, c: IPCheck)
    requires Adds(s, u, c) && c.ok
    ensures NewestIsSuccess(u, c.ip) <==> Fits(s, c.ip, c.checkedAt)
  {
    if NewestIsSuccess(u, c.ip) {
      AddedSuccess(s, u, c);
    } else if Fits(s, c.ip, c.checkedAt) {
      FittingSuccess(s, u, c);
      assert false;
    }
  }

  /**
   * record (scanner.go:308-316), any readings: after a scanned success at now, rechecks that succeed within the
   * interval are suppressed, and rightly so if and only if the result fits: no known failure of the IP is later than
   * now, or its newest evidence was a success already.
   */
  lemma SuppressedAfterScan(s: System, ip: string, r: ProbeResult, now: int, mode: string, target: PoolTarget, later: int)
    requires r.ok && now != 0 && target.ip == ip && later < now + RECHECK_SUCCESS_INTERVAL
    ensures var u := s.(core := Record(s.core, ip, r, now, mode));
            && !Persists(StateOf(u.core, target), true, later)
            && (NewestIsSuccess(u, ip) <==> Fits(s, ip, now))
  {
    var u := s.(core := Record(s.core, ip, r, now, mode));
    var c := NewCheck(ip, r, "scan", now, mode);
    AppendAdds(s, u, c);
    FitsExactly(s, u, c);
  }

  /** recordRecheck (scanner.go:396-416), any readings: the same for a successful recheck that is persisted. */
  lemma SuppressedAfterRecheck(s: System, target: PoolTarget, r: ProbeResult, now: int, mode: string, next: PoolTarget, later: int)
    requires r.ok && now != 0 && Persists(StateOf(s.core, target), r.ok, now)
    requires next.ip == target.ip && later < now + RECHECK_SUCCESS_INTERVAL
    ensures var u := s.(core := RecordRecheck(s.core, target, r, now, mode));
            && !Persists(StateOf(u.core, next), true, later)
            && (NewestIsSuccess(u, target.ip) <==> Fits(s, target.ip, now))
  {
    var u := s.(core := RecordRecheck(s.core, target, r, now, mode));
    var c := NewCheck(target.ip, r, "recheck", now, mode);
    AppendAdds(s, u, c);
    FitsExactly(s, u, c);
  }

  /**
   * seedRecheckStates (scanner.go:335-353), any readings. A pending success newer than the state and the snapshot row
   * turns the state to ok, and rightly so if and only if the newest evidence was a success already. Otherwise a row
   * that starts a state, or is newer than the last result, does, and rightly so if and only if the row fits.
   */
  lemma SuppressedAfterSeed(s: System, t: PoolTarget)
    ensures
      var old_, pending := StateIn(s.core.recheckStates, t.ip), PendingOf(s, t.ip);
      var overrides := pending.Some? && pending.value.checkedAt > Seeded(old_, t.lastSeen, None).lastResultAt;
      var ok := SeedOne(s, t).core.recheckStates[t.ip].lastOK;
      && (overrides && pending.value.ok ==> ok && (NewestIsSuccess(SeedOne(s, t), t.ip) <==> NewestIsSuccess(s, t.ip)))
      && (!overrides && (old_.None? || t.lastSeen > old_.value.lastResultAt) ==>
            ok && (NewestIsSuccess(SeedOne(s, t), t.ip) <==> Fits(s, t.ip, t.lastSeen)))
  {
    var old_, pending := StateIn(s.core.recheckStates, t.ip), PendingOf(s, t.ip);
    PendingOfMeans(s, t.ip);
    if pending.Some? && pending.value.checkedAt > Seeded(old_, t.lastSeen, None).lastResultAt {
      if pending.value.ok {
        SeedBehind(s, t, pending.value);
      }
    } else {
      SeedAdds(s, t);
    }
  }

  lemma SeedEvidence(s: System, t: PoolTarget, at: int)
    ensures NoFailureAfter(SeedOne(s, t), t.ip, at) <==> NoFailureAfter(s, t.ip, at)
    ensures SuccessAt(SeedOne(s, t), t.ip, at) <==> SuccessAt(s, t.ip, at) || at == t.lastSeen
  {
    assert forall c :: Evidence(s, c) <==> Evidence(SeedOne(s, t), c);
  }

  /** A row behind a known success says nothing new. */
  lemma SeedBehind(s: System, t: PoolTarget, p: IPCheck)
    requires Pending(s, p) && p.ip == t.ip && p.ok && t.lastSeen <= p.checkedAt
    ensures NewestIsSuccess(SeedOne(s, t), t.ip) <==> NewestIsSuccess(s, t.ip)
  {
    var u := SeedOne(s, t);
    if NewestIsSuccess(s, t.ip) {
      SeedKeepsNewest(s, t, t.ip);
    }
    if NewestIsSuccess(u, t.ip) {
      var at :| SuccessAt(u, t.ip, at) && NoFailureAfter(u, t.ip, at);
      SeedEvidence(s, t, at);
      assert Evidence(s, p) && SuccessAt(s, t.ip, p.checkedAt);
      assert at == t.lastSeen ==> NoFailureAfter(s, t.ip, p.checkedAt);
    }
  }

  lemma SeedAdds(s: System, t: PoolTarget)
    ensures NewestIsSuccess(SeedOne(s, t), t.ip) <==> Fits(s, t.ip, t.lastSeen)
  {
    if NewestIsSuccess(SeedOne(s, t), t.ip) {
      var at :| SuccessAt(SeedOne(s, t), t.ip, at) && NoFailureAfter(SeedOne(s, t), t.ip, at);
      SeedEvidence(s, t, at);
    }
    if Fits(s, t.ip, t.lastSeen) {
      SeedSupports(s, t);
    }
  }

  /** An accepted window keeps every success of ip, or a newer one, and, if ip succeeded in it, every failure. */
  lemma AcceptedNewest(s: System, u: System, filtered: seq<IPCheck>, ip: string)
    requires Accepts(s, u, filtered, ip)
    requires forall w <- s.core.inFlightChecks :: w.ip == ip && !w.ok ==> HasOrigin(filtered, w)
    ensures NewestIsSuccess(u, ip) <==> NewestIsSuccess(s, ip)
  {
    if NewestIsSuccess(s, ip) {
      AcceptNewest(s, u, filtered, ip);
    }
    if NewestIsSuccess(u, ip) {
      var t :| SuccessAt(u, ip, t) && NoFailureAfter(u, ip, t);
      SuccessWas(s, u, filtered, ip, t);
      FailuresStay(s, u, filtered, ip, t);
    }
  }

  lemma SuccessWas(s: System, u: System, filtered: seq<IPCheck>, ip: string, t: int)
    requires Accepts(s, u, filtered, ip) && SuccessAt(u, ip, t)
    ensures SuccessAt(s, ip, t)
  {
    if PoolTarget(ip, t) !in u.seeds {
      var d :| Evidence(u, d) && d.ip == ip && d.ok && d.checkedAt == t;
      if d in filtered {
        var w := Origin(s, u, filtered, ip, d);
        assert Evidence(s, w);
      } else {
        assert Evidence(s, d);
      }
    }
  }

  lemma FailuresStay(s: System, u: System, filtered: seq<IPCheck>, ip: string, t: int)
    requires Accepts(s, u, filtered, ip) && NoFailureAfter(u, ip, t)
    requires forall w <- s.core.inFlightChecks :: w.ip == ip && !w.ok ==> HasOrigin(filtered, w)
    ensures NoFailureAfter(s, ip, t)
  {
    forall c | Evidence(s, c) && c.ip == ip && !c.ok ensures c.checkedAt <= t {
      if c in s.core.inFlightChecks {
        assert HasOrigin(filtered, c);
        var f :| f in filtered && SameKey(c, f);
        assert Evidence(u, f);
      } else {
        assert Evidence(u, c);
      }
    }
  }

  /** Only a success of the window turns a state to ok. */
  lemma MergedOK(s: System, u: System, filtered: seq<IPCheck>, ip: string)
    requires Accepts(s, u, filtered, ip)
    requires ip in u.core.recheckStates && u.core.recheckStates[ip].lastOK
    requires ip in s.core.recheckStates ==> !s.core.recheckStates[ip].lastOK
    ensures ip in SuccessIPs(s.core.inFlightChecks)
  {
    MergedMeans(s.core.recheckStates, filtered, ip);
    var c :| c in filtered && c.ip == ip && c.ok;
    var w := Origin(s, u, filtered, ip, c);
  }

  /**
   * mergeSubmittedStates (scanner.go:363-378), any readings: when it turns the state of ip to ok, it is rightly so if
   * and only if the newest evidence was a success before. The last success of ip in the window has to be its newest,
   * which is exactly when every success is covered by a submitted one (Filter.SuccessCovered).
   */
  lemma SuppressedAfterMerge(s: System, e: Event, mode: string, ip: string)
    requires e.FlushSucceed? && Enabled(s, e) && Timed(s.core.inFlightChecks) && LastIsNewest(s.core.inFlightChecks, ip)
    requires var states := Perform(s, e, mode).core.recheckStates; ip in states && states[ip].lastOK
    requires ip in s.core.recheckStates ==> !s.core.recheckStates[ip].lastOK
    ensures NewestIsSuccess(Perform(s, e, mode), ip) <==> NewestIsSuccess(s, ip)
  {
    var window, filtered := s.core.inFlightChecks, FilterWindow(s.core.inFlightChecks, e.knownGood, e.now);
    SucceedAccepts(s, e, mode, ip);
    MergedOK(s, Perform(s, e, mode), filtered, ip);
    forall w <- window | w.ip == ip && !w.ok ensures HasOrigin(filtered, w) {
      var k :| 0 <= k < |window| && window[k] == w;
      var f := FailureSubmitted(window, e.knownGood, e.now, k);
      assert SameKey(w, f);
    }
    AcceptedNewest(s, Perform(s, e, mode), filtered, ip);
  }

  // ---------- Inputs that do not fit ----------

  lemma {:induction false} RunMore(es: seq<Event>, e: Event, mode: string)
    ensures Run(es + [e], mode) == Step(Run(es, mode), e, mode)
  {
    assert (es + [e])[..|es + [e]| - 1] == es;
  }

  /** No flush so far, one seeded row, and the buffer and the state of its IP. */
  ghost predicate Quiet(s: System, t: PoolTarget, checks: seq<IPCheck>, st: RecheckState) {
    && s.accepted == [] && s.seeds == {t} && s.core.inFlightChecks == [] && s.flushing.None?
    && s.core.checks == checks && StateIn(s.core.recheckStates, t.ip) == Some(st)
  }

  lemma SeededOnly(t: PoolTarget, mode: string)
    ensures Quiet(Run([SeedPool([t])], mode), t, [], RecheckState(true, t.lastSeen, t.lastSeen))
  {
    RunMore([], SeedPool([t]), mode);
    assert [] + [SeedPool([t])] == [SeedPool([t])];
    SeedKeepsChecks(START.core, [t]);
    assert [t][..|[t]| - 1] == [];
    assert NewestPending([], t.ip) == None;
    assert (set x <- [t]) == {t};
  }

  lemma QuietScan(es: seq<Event>, t: PoolTarget, checks: seq<IPCheck>, st: RecheckState, r: ProbeResult, now: int, mode: string)
    requires Quiet(Run(es, mode), t, checks, st) && !r.mixed
    ensures Quiet(Run(es + [Scan(t.ip, r, now)], mode), t, checks + [NewCheck(t.ip, r, "scan", now, mode)],
                  if r.ok then RecheckState(true, now, now) else st.(lastOK := false, lastResultAt := now))
  {
    RunMore(es, Scan(t.ip, r, now), mode);
  }

  lemma QuietRecheck(es: seq<Event>, t: PoolTarget, checks: seq<IPCheck>, st: RecheckState, r: ProbeResult, now: int, mode: string)
    requires Quiet(Run(es, mode), t, checks, st) && !r.mixed && !r.ok
    ensures Quiet(Run(es + [Recheck(t, r, now)], mode), t, checks + [NewCheck(t.ip, r, "recheck", now, mode)],
                  st.(lastOK := false, lastResultAt := now))
  {
    RunMore(es, Recheck(t, r, now), mode);
  }

  /** A success read before the only failure, which is newer than the seed, does not fit. */
  lemma FailedLastFits(s: System, t: PoolTarget, c: IPCheck, st: RecheckState, now: int)
    requires Quiet(s, t, [c], st) && c.ip == t.ip && !c.ok && t.lastSeen < c.checkedAt
    ensures Fits(s, t.ip, now) <==> c.checkedAt <= now
  {
    assert Evidence(s, c);
  }

  /**
   * record, late: a recheck that failed at 5 enters the mutex before a scan that succeeded at 4. The success at 6 is
   * suppressed although the newest evidence is a failure.
   */
  lemma LateLockHidesRecovery(ip: string, bad: ProbeResult, good: ProbeResult, mode: string)
    requires !bad.ok && !bad.mixed && good.ok && !good.mixed
    ensures
      var t := PoolTarget(ip, 1);
      var s := Run([SeedPool([t]), Recheck(t, bad, 5), Scan(ip, good, 4)], mode);
      Enabled(s, Recheck(t, good, 6)) && !Persists(StateOf(s.core, t), good.ok, 6) && !NewestIsSuccess(s, ip)
  {
    var t := PoolTarget(ip, 1);
    var es := [SeedPool([t]), Recheck(t, bad, 5)];
    var s := Run(es, mode);
    SeededOnly(t, mode);
    assert [SeedPool([t])] + [Recheck(t, bad, 5)] == es;
    QuietRecheck([SeedPool([t])], t, [], RecheckState(true, 1, 1), bad, 5, mode);
    FailedLastFits(s, t, NewCheck(ip, bad, "recheck", 5, mode), RecheckState(false, 1, 5), 4);
    RunMore(es, Scan(ip, good, 4), mode);
    assert es + [Scan(ip, good, 4)] == [SeedPool([t]), Recheck(t, bad, 5), Scan(ip, good, 4)];
    SuppressedAfterScan(s, ip, good, 4, mode, t, 6);
    SameCore(s.(core := Record(s.core, ip, good, 4, mode)), Step(s, Scan(ip, good, 4), mode), ip);
  }

  /** recordRecheck, late: the scan failed at 5, and the recheck that succeeded at 4 enters after it. */
  lemma LateRecheckHidesRecovery(ip: string, bad: ProbeResult, good: ProbeResult, mode: string)
    requires !bad.ok && !bad.mixed && good.ok && !good.mixed
    ensures
      var t := PoolTarget(ip, 1);
      var s := Run([SeedPool([t]), Scan(ip, bad, 5), Recheck(t, good, 4)], mode);
      Enabled(s, Recheck(t, good, 6)) && !Persists(StateOf(s.core, t), good.ok, 6) && !NewestIsSuccess(s, ip)
  {
    var t := PoolTarget(ip, 1);
    var es := [SeedPool([t]), Scan(ip, bad, 5)];
    var s := Run(es, mode);
    SeededOnly(t, mode);
    assert [SeedPool([t])] + [Scan(ip, bad, 5)] == es;
    QuietScan([SeedPool([t])], t, [], RecheckState(true, 1, 1), bad, 5, mode);
    FailedLastFits(s, t, NewCheck(ip, bad, "scan", 5, mode), RecheckState(false, 1, 5), 4);
    RunMore(es, Recheck(t, good, 4), mode);
    assert es + [Recheck(t, good, 4)] == [SeedPool([t]), Scan(ip, bad, 5), Recheck(t, good, 4)];
    SuppressedAfterRecheck(s, t, good, 4, mode, t, 6);
    SameCore(s.(core := RecordRecheck(s.core, t, good, 4, mode)), Step(s, Recheck(t, good, 4), mode), ip);
  }

  /** The bookkeeping beside the fields is no evidence. */
  lemma SameCore(u: System, v: System, ip: string)
    requires u.core == v.core && u.accepted == v.accepted && u.seeds == v.seeds
    ensures NewestIsSuccess(u, ip) <==> NewestIsSuccess(v, ip)
  {
    if NewestIsSuccess(u, ip) {
      SameNewest(u, v, ip);
    }
    if NewestIsSuccess(v, ip) {
      SameNewest(v, u, ip);
    }
  }

  /** The scans of ip that succeeded at 6, failed at 5 and succeeded at 4, in the order they took the mutex. */
  function Backwards(ip: string, good: ProbeResult, bad: ProbeResult, mode: string): seq<IPCheck> {
    [NewCheck(ip, good, "scan", 6, mode), NewCheck(ip, bad, "scan", 5, mode), NewCheck(ip, good, "scan", 4, mode)]
  }

  function BackwardsScans(ip: string, good: ProbeResult, bad: ProbeResult): seq<Event> {
    [SeedPool([PoolTarget(ip, 1)]), Scan(ip, good, 6), Scan(ip, bad, 5), Scan(ip, good, 4)]
  }

  lemma BackwardsScanned(ip: string, good: ProbeResult, bad: ProbeResult, mode: string)
    requires !bad.ok && !bad.mixed && good.ok && !good.mixed
    ensures Quiet(Run(BackwardsScans(ip, good, bad), mode), PoolTarget(ip, 1), Backwards(ip, good, bad, mode), RecheckState(true, 4, 4))
  {
    var t, w, seeded := PoolTarget(ip, 1), Backwards(ip, good, bad, mode), [SeedPool([PoolTarget(ip, 1)])];
    SeededOnly(t, mode);
    QuietScan(seeded, t, [], RecheckState(true, 1, 1), good, 6, mode);
    var up := seeded + [Scan(ip, good, 6)];
    QuietScan(up, t, [] + [w[0]], RecheckState(true, 6, 6), bad, 5, mode);
    QuietScan(up + [Scan(ip, bad, 5)], t, [] + [w[0]] + [w[1]], RecheckState(false, 6, 5), good, 4, mode);
    assert [] + [w[0]] + [w[1]] + [w[2]] == w;
    assert up + [Scan(ip, bad, 5)] + [Scan(ip, good, 4)] == BackwardsScans(ip, good, bad);
  }

  /** What a flush submits of them: the time of the last success, and the failure, which is newer. */
  lemma BackwardsSubmitted(ip: string, good: ProbeResult, bad: ProbeResult, mode: string, now: int)
    requires !bad.ok && good.ok
    ensures
      var filtered := FilterWindow(Backwards(ip, good, bad, mode), {}, now);
      && (forall f <- filtered :: f.ip == ip && f.checkedAt == if f.ok then 4 else 5)
      && (exists f <- filtered :: !f.ok)
  {
    var w := Backwards(ip, good, bad, mode);
    var filtered, recorded := FilterWindow(w, {}, now), ResultIPs(WindowResults(w));
    ResultsAreSuccesses(w);
    assert w[2] in w && recorded == {ip};
    forall f <- filtered ensures f.ip == ip && f.checkedAt == if f.ok then 4 else 5 {
      if f in ResultRows(WindowResults(w), w, now) {
        ResultRowMeans(WindowResults(w), w, now, f);
      } else {
        var x := RestIsFailure(recorded, w, {}, now, f);
      }
    }
    var f := FailureInRest(recorded, w, {}, now, 1);
    assert f in filtered;
  }

  /** Accepted checks no later than the last result leave the outcome of the state alone. */
  lemma {:induction false} MergeOlder(states: map<string, RecheckState>, checks: seq<IPCheck>, ip: string)
    requires ip in states && forall c <- checks :: c.ip == ip ==> c.checkedAt <= states[ip].lastResultAt
    ensures
      && ip in Merged(states, checks)
      && var x := Merged(states, checks)[ip];
      x.lastOK == states[ip].lastOK && x.lastResultAt == states[ip].lastResultAt && x.lastSuccess >= states[ip].lastSuccess
  {
    if checks != [] {
      assert checks[|checks| - 1] in checks;
      MergeOlder(states, checks[..|checks| - 1], ip);
    }
  }

  /** All events of the input: the last success is suppressed at 7 while the window is in flight. */
  function BackwardsRun(ip: string, good: ProbeResult, bad: ProbeResult, flushedAt: int): seq<Event> {
    BackwardsScans(ip, good, bad) + [FlushBegin] + [Recheck(PoolTarget(ip, 1), good, 7)] + [FlushSucceed({}, flushedAt, false, false)]
  }

  /** A failure that is later than every success. */
  lemma FailureIsNewest(s: System, ip: string, f: IPCheck)
    requires Evidence(s, f) && f.ip == ip && !f.ok
    requires forall c :: Evidence(s, c) && c.ip == ip && c.ok ==> c.checkedAt < f.checkedAt
    requires forall t <- s.seeds :: t.ip == ip ==> t.lastSeen < f.checkedAt
    ensures !NewestIsSuccess(s, ip)
  {
    assert forall t :: SuccessAt(s, ip, t) ==> t < f.checkedAt;
  }

  lemma BackwardsAccepted(s: System, u: System, filtered: seq<IPCheck>, ip: string)
    requires s.seeds == {PoolTarget(ip, 1)} && StateIn(s.core.recheckStates, ip) == Some(RecheckState(true, 4, 7))
    requires u.accepted == filtered && u.seeds == s.seeds && u.core.checks == u.core.inFlightChecks == []
    requires u.core.recheckStates == Merged(s.core.recheckStates, filtered)
    requires forall f <- filtered :: f.ip == ip && f.checkedAt == if f.ok then 4 else 5
    requires exists f <- filtered :: !f.ok
    ensures ip in u.core.recheckStates && !Persists(u.core.recheckStates[ip], true, 8) && !NewestIsSuccess(u, ip)
  {
    MergeOlder(s.core.recheckStates, filtered, ip);
    var f :| f in filtered && !f.ok;
    FailureIsNewest(u, ip, f);
  }

  lemma BackwardsFlushed(s: System, e: Event, ip: string, good: ProbeResult, bad: ProbeResult, mode: string)
    requires !bad.ok && good.ok && e.FlushSucceed? && e.knownGood == {} && s.flushing.Some?
    requires s.accepted == [] && s.seeds == {PoolTarget(ip, 1)} && s.core.checks == []
    requires s.core.inFlightChecks == Backwards(ip, good, bad, mode)
    requires StateIn(s.core.recheckStates, ip) == Some(RecheckState(true, 4, 7))
    ensures var u := Perform(s, e, mode);
            ip in u.core.recheckStates && !Persists(u.core.recheckStates[ip], true, 8) && !NewestIsSuccess(u, ip)
  {
    BackwardsSubmitted(ip, good, bad, mode, e.now);
    BackwardsAccepted(s, Perform(s, e, mode), FilterWindow(s.core.inFlightChecks, {}, e.now), ip);
  }

  /**
   * The other half of the condition: every reading fits here, but a success is appended behind a newer one. The flush
   * submits the older, so what the server accepted ends in the failure between them, and the success at 8 is suppressed.
   */
  lemma LateSuccessIsSubmitted(ip: string, bad: ProbeResult, good: ProbeResult, flushedAt: int, mode: string)
    requires !bad.ok && !bad.mixed && good.ok && !good.mixed
    ensures
      var t, s := PoolTarget(ip, 1), Run(BackwardsRun(ip, good, bad, flushedAt), mode);
      Enabled(s, Recheck(t, good, 8)) && !Persists(StateOf(s.core, t), good.ok, 8) && !NewestIsSuccess(s, ip)
  {
    var begun := BackwardsScans(ip, good, bad) + [FlushBegin];
    var rechecked := begun + [Recheck(PoolTarget(ip, 1), good, 7)];
    BackwardsScanned(ip, good, bad, mode);
    RunMore(BackwardsScans(ip, good, bad), FlushBegin, mode);
    RunMore(begun, Recheck(PoolTarget(ip, 1), good, 7), mode);
    RunMore(rechecked, FlushSucceed({}, flushedAt, false, false), mode);
    BackwardsFlushed(Run(rechecked, mode), FlushSucceed({}, flushedAt, false, false), ip, good, bad, mode);
  }

  // ---------- A merge that does not see the buffer ----------

  function UpAtFive(ip: string, good: ProbeResult): seq<Event> {
    [SeedPool([PoolTarget(ip, 1)])] + [Scan(ip, good, 5)]
  }

  /** A failure read at 10 waits in the buffer; the failure recorded after it was read at 3. */
  function MergeRun(ip: string, good: ProbeResult, bad: ProbeResult, flushedAt: int): seq<Event> {
    UpAtFive(ip, good) + [FlushBegin] + [Scan(ip, bad, 10)] + [Recheck(PoolTarget(ip, 1), bad, 3)]
    + [FlushSucceed({}, flushedAt, false, false)]
  }

  lemma UpSubmitted(ip: string, good: ProbeResult, mode: string, now: int)
    requires good.ok
    ensures
      var filtered := FilterWindow([NewCheck(ip, good, "scan", 5, mode)], {}, now);
      filtered != [] && forall f <- filtered :: f.ip == ip && f.ok && f.checkedAt == 5
  {
    var w := [NewCheck(ip, good, "scan", 5, mode)];
    var filtered := FilterWindow(w, {}, now);
    assert w[0] in w;
    var g := SuccessHasRow(w, {}, now, ip);
    forall f <- filtered ensures f.ip == ip && f.ok && f.checkedAt == 5 {
      var o := KeptOrigin(w, {}, now, f);
      assert o == w[0];
    }
  }

  lemma {:induction false} MergeAtFive(states: map<string, RecheckState>, checks: seq<IPCheck>, ip: string)
    requires ip in states && states[ip] == RecheckState(false, 5, 3)
    requires forall c <- checks :: c.ip == ip && c.ok && c.checkedAt == 5
    ensures ip in Merged(states, checks)
    ensures Merged(states, checks)[ip] == if checks == [] then states[ip] else RecheckState(true, 5, 5)
  {
    if checks != [] {
      assert checks[|checks| - 1] in checks;
      MergeAtFive(states, checks[..|checks| - 1], ip);
    }
  }

  /** The state before the flush succeeds. */
  ghost predicate FailureWaits(s: System, ip: string, up: IPCheck, f: IPCheck, g: IPCheck) {
    && s.accepted == [] && s.seeds == {PoolTarget(ip, 1)} && s.flushing.Some?
    && s.core.inFlightChecks == [up] && s.core.checks == [f, g]
    && up.ok && up.checkedAt == 5 && f.ip == ip && !f.ok && f.checkedAt == 10 && !g.ok
    && StateIn(s.core.recheckStates, ip) == Some(RecheckState(false, 5, 3))
  }

  lemma MergedOverFailure(s: System, u: System, filtered: seq<IPCheck>, ip: string, up: IPCheck, f: IPCheck, g: IPCheck)
    requires FailureWaits(s, ip, up, f, g)
    requires u.accepted == filtered && u.seeds == s.seeds && u.core.checks == s.core.checks && u.core.inFlightChecks == []
    requires u.core.recheckStates == Merged(s.core.recheckStates, filtered)
    requires filtered != [] && forall c <- filtered :: c.ip == ip && c.ok && c.checkedAt == 5
    ensures ip in u.core.recheckStates && !Persists(u.core.recheckStates[ip], true, 11) && !NewestIsSuccess(u, ip)
  {
    MergeAtFive(s.core.recheckStates, filtered, ip);
    FailureIsNewest(u, ip, f);
  }

  lemma FailureWaiting(ip: string, bad: ProbeResult, good: ProbeResult, mode: string)
    requires !bad.ok && !bad.mixed && good.ok && !good.mixed
    ensures FailureWaits(Run(UpAtFive(ip, good) + [FlushBegin] + [Scan(ip, bad, 10)] + [Recheck(PoolTarget(ip, 1), bad, 3)], mode), ip,
                         NewCheck(ip, good, "scan", 5, mode), NewCheck(ip, bad, "scan", 10, mode), NewCheck(ip, bad, "recheck", 3, mode))
  {
    var t, up := PoolTarget(ip, 1), UpAtFive(ip, good);
    SeededOnly(t, mode);
    QuietScan([SeedPool([t])], t, [], RecheckState(true, 1, 1), good, 5, mode);
    assert [] + [NewCheck(ip, good, "scan", 5, mode)] == [NewCheck(ip, good, "scan", 5, mode)];
    RunMore(up, FlushBegin, mode);
    RunMore(up + [FlushBegin], Scan(ip, bad, 10), mode);
    RunMore(up + [FlushBegin] + [Scan(ip, bad, 10)], Recheck(t, bad, 3), mode);
  }

  lemma MergeFlushed(s: System, e: Event, ip: string, good: ProbeResult, f: IPCheck, g: IPCheck, mode: string)
    requires good.ok && e.FlushSucceed? && e.knownGood == {} && FailureWaits(s, ip, NewCheck(ip, good, "scan", 5, mode), f, g)
    ensures var u := Perform(s, e, mode);
            ip in u.core.recheckStates && !Persists(u.core.recheckStates[ip], true, 11) && !NewestIsSuccess(u, ip)
  {
    UpSubmitted(ip, good, mode, e.now);
    MergedOverFailure(s, Perform(s, e, mode), FilterWindow(s.core.inFlightChecks, {}, e.now), ip, NewCheck(ip, good, "scan", 5, mode), f, g);
  }

  /**
   * mergeSubmittedStates, late: every success of this run fits, but the failure at 3 moved the state behind the success
   * at 5 that was in flight, so its acceptance turns the state to ok while a failure at 10 waits in the buffer.
   */
  lemma LateFailureMerges(ip: string, bad: ProbeResult, good: ProbeResult, flushedAt: int, mode: string)
    requires !bad.ok && !bad.mixed && good.ok && !good.mixed
    ensures
      var t, s := PoolTarget(ip, 1), Run(MergeRun(ip, good, bad, flushedAt), mode);
      Enabled(s, Recheck(t, good, 11)) && !Persists(StateOf(s.core, t), good.ok, 11) && !NewestIsSuccess(s, ip)
  {
    var before := UpAtFive(ip, good) + [FlushBegin] + [Scan(ip, bad, 10)] + [Recheck(PoolTarget(ip, 1), bad, 3)];
    var done := FlushSucceed({}, flushedAt, false, false);
    FailureWaiting(ip, bad, good, mode);
    RunMore(before, done, mode);
    MergeFlushed(Run(before, mode), done, ip, good, NewCheck(ip, bad, "scan", 10, mode), NewCheck(ip, bad, "recheck", 3, mode), mode);
  }
}
