/**
 * The scanner as a state machine: probe workers, feeders and the flusher take critical sections in any order.
 * Next to the real fields the state keeps what happened so far: everything appended, submitted, accepted and seeded,
 * and each IP's last clock reading.
 */
module ScannerRuns {
  import opened Prelude
  import opened Filter
  import opened ScannerState

  datatype System = System(
    core: Core,
    flushing: Option<nat>,
    pruneIPs: set<string>,
    readings: map<string, int>,
    log: seq<IPCheck>,
    submitted: seq<IPCheck>,
    accepted: seq<IPCheck>,
    seeds: set<PoolTarget>,
    owed: set<string>,
    probes: nat,
    flushedProbes: nat)

  datatype Event =
    | Scan(ip: string, result: ProbeResult, now: int)
    | SeedPool(targets: seq<PoolTarget>)
    | Recheck(target: PoolTarget, result: ProbeResult, now: int)
    | FlushBegin
    | FlushNothing
    | FlushFail
    | FlushSucceed(knownGood: set<string>, now: int, maintenance: bool, pruneOK: bool)

  const START := System(Core([], [], 0, map[]), None, {}, map[], [], [], [], {}, {}, 0, 0)

  /**
   * One flush at a time, and a recheck job was seeded before it was queued (recheck_worker.go:52-68). Nothing is said
   * about the clock: now was read before the critical section was entered, and may be older than earlier entries.
   */
  predicate Enabled(s: System, e: Event) {
    match e
    case Scan(_, r, _) => !r.mixed
    case SeedPool(_) => true
    case Recheck(t, r, _) => !r.mixed && t in s.seeds
    case FlushBegin => s.flushing.None?
    case FlushNothing => s.flushing.Some? && s.core.inFlightChecks == []
    case FlushFail => s.flushing.Some?
    case FlushSucceed(_, _, _, _) => s.flushing.Some?
  }

  /** The suffix of checks that a section appended. */
  function Appended(before: Core, after: Core): seq<IPCheck>
  {
    if |before.checks| <= |after.checks| then after.checks[|before.checks|..] else []
  }

  function Perform(s: System, e: Event, mode: string): System
    requires Enabled(s, e)
  {
    match e
    case Scan(ip, r, now) =>
      var c := Record(s.core, ip, r, now, mode);
      s.(core := c, readings := s.readings[ip := now], log := s.log + Appended(s.core, c), probes := s.probes + 1)
    case SeedPool(targets) =>
      s.(core := Seed(s.core, targets), seeds := s.seeds + set t <- targets)
    case Recheck(t, r, now) =>
      var c := RecordRecheck(s.core, t, r, now, mode);
      s.(core := c, readings := s.readings[t.ip := now], log := s.log + Appended(s.core, c), probes := s.probes + 1)
    case FlushBegin => s.(core := BeginFlush(s.core), flushing := Some(s.core.scannedCount))
    case FlushNothing => s.(flushing := None, flushedProbes := s.flushedProbes + s.flushing.value)
    case FlushFail => s.(core := Requeue(s.core, s.core.inFlightChecks, s.flushing.value), flushing := None)
    case FlushSucceed(knownGood, now, maintenance, pruneOK) =>
      var window := s.core.inFlightChecks;
      var filtered := FilterWindow(window, knownGood, now);
      var listed := PruneCandidates(s.pruneIPs, filtered, maintenance);
      s.(core := MergeSubmitted(s.core, filtered),
         flushing := None,
         pruneIPs := RecordPruneCandidates(s.pruneIPs, filtered, maintenance && pruneOK),
         submitted := s.submitted + window,
         accepted := s.accepted + filtered,
         owed := s.owed + IPs(filtered) - if maintenance && pruneOK then listed else {},
         flushedProbes := s.flushedProbes + s.flushing.value)
  }

  /** An event that cannot happen in a state changes nothing. */
  function Step(s: System, e: Event, mode: string): System {
    if Enabled(s, e) then Perform(s, e, mode) else s
  }

  function Run(es: seq<Event>, mode: string): System {
    if es == [] then START else Step(Run(es[..|es| - 1], mode), es[|es| - 1], mode)
  }

  // ---------- Nothing is lost ----------

  ghost predicate Conserved(s: System) {
    && s.submitted + s.core.inFlightChecks + s.core.checks == s.log
    && (s.flushing.None? ==> s.core.inFlightChecks == [])
    && s.probes == s.flushedProbes + s.flushing.GetOr(0) + s.core.scannedCount
    && s.owed <= s.pruneIPs
  }

  lemma {:induction false} SeedKeepsChecks(c: Core, targets: seq<PoolTarget>)
    ensures Seed(c, targets) == c.(recheckStates := Seed(c, targets).recheckStates)
  {
    if targets != [] {
      SeedKeepsChecks(c, targets[..|targets| - 1]);
    }
  }

  lemma StepConserves(s: System, e: Event, mode: string)
    requires Conserved(s)
    ensures Conserved(Step(s, e, mode))
  {
    if Enabled(s, e) {
      match e
      case SeedPool(targets) => SeedKeepsChecks(s.core, targets);
      case FlushFail =>
        assert s.submitted + ([] + (s.core.inFlightChecks + s.core.checks)) == s.submitted + s.core.inFlightChecks + s.core.checks;
      case FlushBegin =>
        assert s.submitted + s.core.checks + [] == s.submitted + s.core.inFlightChecks + s.core.checks;
      case _ =>
    }
  }

  /**
   * Main result. In every reachable state, whatever the clock readings, the successfully flushed windows in order,
   * the window in flight and the buffer together are everything that was appended, in order; no probe goes uncounted;
   * and every accepted check's IP stays a prune candidate until a maintenance submit that listed it reports pruneOk.
   */
  lemma {:induction false} NothingIsLost(es: seq<Event>, mode: string)
    ensures Conserved(Run(es, mode))
  {
    if es != [] {
      NothingIsLost(es[..|es| - 1], mode);
      StepConserves(Run(es[..|es| - 1], mode), es[|es| - 1], mode);
    }
  }

  // ---------- The events are the sections ----------

  /** A flush that nothing interrupts is two events; what it sends is what the run counts as accepted. */
  lemma FlushIsTwoEvents(s: System, f: Flushable, o: Outside, mode: string) returns (e: Event)
    requires s.core == f.core && s.pruneIPs == f.pruneIPs && s.flushing.None? && s.core.inFlightChecks == []
    ensures e.FlushNothing? || e.FlushFail? || e.FlushSucceed?
    ensures e.FlushSucceed? <==> Flushed(f, o).1 && Flushed(f, o).2.Some?
    ensures
      var t := Step(Step(s, FlushBegin, mode), e, mode);
      && t.core == Flushed(f, o).0.core && t.pruneIPs == Flushed(f, o).0.pruneIPs && t.flushing.None?
      && (e.FlushSucceed? ==>
            && t.submitted == s.submitted + f.core.checks && t.accepted == s.accepted + Flushed(f, o).2.value.checks
            && t.flushedProbes == s.flushedProbes + f.core.scannedCount)
  {
    var (g, ok, sent) := Flushed(f, o);
    if !ok {
      e := FlushFail;
    } else if sent.None? {
      e := FlushNothing;
    } else {
      e := FlushSucceed(KnownGoodFor(f.knownGood, o.expired, o.fetched).value, o.filterNow, sent.value.maintenance, o.reply.value);
    }
  }

  /** The other events are the sections of the workers and of the feeder. */
  lemma ProbesAreEvents(s: System, t: PoolTarget, targets: seq<PoolTarget>, r: ProbeResult, now: int, mode: string)
    requires !r.mixed
    ensures Step(s, Scan(t.ip, r, now), mode).core == Record(s.core, t.ip, r, now, mode)
    ensures t in s.seeds ==> Step(s, Recheck(t, r, now), mode).core == RecordRecheck(s.core, t, r, now, mode)
    ensures Step(s, SeedPool(targets), mode).core == Seed(s.core, targets)
    ensures forall x <- targets :: x in Step(s, SeedPool(targets), mode).seeds
  {
  }
}
