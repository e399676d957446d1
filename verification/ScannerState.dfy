/**
 * internal/scan/scanner.go and internal/scan/flush.go: the check buffer and the recheck heartbeat. Every function
 * from Core to Core is what one critical section of s.mu does; Scanner.dfy runs them on fields.
 * Times are nanoseconds, 0 is the zero time.Time.
 */
module ScannerState {
  import opened Prelude
  import opened Filter

  const SECOND: int := 1_000_000_000
  const RECHECK_SUCCESS_INTERVAL: int := 24 * 3600 * SECOND + SECOND

  datatype RecheckState = RecheckState(lastOK: bool, lastSuccess: int, lastResultAt: int)

  datatype PoolTarget = PoolTarget(ip: string, lastSeen: int)

  datatype ProbeResult = ProbeResult(ok: bool, mixed: bool, rttMs: int, reason: string, detail: string)

  /** The fields s.mu guards. */
  datatype Core = Core(
    checks: seq<IPCheck>,
    inFlightChecks: seq<IPCheck>,
    scannedCount: nat,
    recheckStates: map<string, RecheckState>)

  function NewCheck(ip: string, r: ProbeResult, source: string, now: int, mode: string): IPCheck {
    IPCheck(ip, r.ok, r.rttMs, source + ":" + if r.ok then "ok" else r.reason, r.detail, now, mode)
  }

  function RecordResult(c: Core, check: IPCheck, persist: bool): Core {
    c.(scannedCount := c.scannedCount + 1, checks := if persist then c.checks + [check] else c.checks)
  }

  /** record, for results that are not mixed. */
  function Record(c: Core, ip: string, r: ProbeResult, now: int, mode: string): Core {
    var d := RecordResult(c, NewCheck(ip, r, "scan", now, mode), true);
    if r.ok then d.(recheckStates := c.recheckStates[ip := RecheckState(true, now, now)])
    else if ip in c.recheckStates then
      d.(recheckStates := c.recheckStates[ip := c.recheckStates[ip].(lastOK := false, lastResultAt := now)])
    else d
  }

  function StateOf(c: Core, target: PoolTarget): RecheckState {
    if target.ip in c.recheckStates then c.recheckStates[target.ip]
    else RecheckState(true, target.lastSeen, target.lastSeen)
  }

  /** The persist condition of recordRecheck. */
  predicate Persists(state: RecheckState, ok: bool, now: int) {
    !ok || !state.lastOK || state.lastSuccess == 0 || now - state.lastSuccess >= RECHECK_SUCCESS_INTERVAL
  }

  /** recordRecheck, for results that are not mixed. */
  function RecordRecheck(c: Core, target: PoolTarget, r: ProbeResult, now: int, mode: string): Core {
    var state := StateOf(c, target);
    var persist := Persists(state, r.ok, now);
    RecordResult(c, NewCheck(target.ip, r, "recheck", now, mode), persist)
    .(recheckStates := c.recheckStates[target.ip :=
        RecheckState(r.ok, if r.ok && persist then now else state.lastSuccess, now)])
  }

  /** The pending map of seedRecheckStates: the first of the newest checks per IP. */
  function NewestPending(checks: seq<IPCheck>, ip: string): Option<IPCheck> {
    if checks == [] then None
    else
      var previous := NewestPending(checks[..|checks| - 1], ip);
      var c := checks[|checks| - 1];
      if c.ip == ip && (previous.None? || c.checkedAt > previous.value.checkedAt) then Some(c) else previous
  }

  /** What one server snapshot row, and then the newest pending check, say about an IP. */
  function Seeded(old_: Option<RecheckState>, lastSeen: int, pending: Option<IPCheck>): RecheckState {
    var s1 := match old_
      case None => RecheckState(true, lastSeen, lastSeen)
      case Some(s) =>
        var s0 := if lastSeen > s.lastSuccess then s.(lastSuccess := lastSeen) else s;
        if lastSeen > s.lastResultAt then s0.(lastOK := true, lastResultAt := lastSeen) else s0;
    match pending
    case Some(check) =>
      if check.checkedAt > s1.lastResultAt then
        RecheckState(check.ok, if check.ok then check.checkedAt else s1.lastSuccess, check.checkedAt)
      else s1
    case None => s1
  }

  function StateIn(states: map<string, RecheckState>, ip: string): Option<RecheckState> {
    if ip in states then Some(states[ip]) else None
  }

  /** seedRecheckStates; the pending checks are those buffered, then those in flight. */
  function Seed(c: Core, targets: seq<PoolTarget>): Core {
    if targets == [] then c
    else
      var d := Seed(c, targets[..|targets| - 1]);
      var t := targets[|targets| - 1];
      d.(recheckStates := d.recheckStates[t.ip :=
           Seeded(StateIn(d.recheckStates, t.ip), t.lastSeen, NewestPending(c.checks + c.inFlightChecks, t.ip))])
  }

  function MergedState(old_: Option<RecheckState>, check: IPCheck): RecheckState {
    var s := old_.GetOr(RecheckState(false, 0, 0));
    var s1 := if check.checkedAt > s.lastResultAt then s.(lastOK := check.ok, lastResultAt := check.checkedAt) else s;
    if check.ok && check.checkedAt > s1.lastSuccess then s1.(lastSuccess := check.checkedAt) else s1
  }

  function Merged(states: map<string, RecheckState>, checks: seq<IPCheck>): map<string, RecheckState> {
    if checks == [] then states
    else
      var before := Merged(states, checks[..|checks| - 1]);
      var check := checks[|checks| - 1];
      before[check.ip := MergedState(StateIn(before, check.ip), check)]
  }

  /** mergeSubmittedStates. */
  function MergeSubmitted(c: Core, checks: seq<IPCheck>): Core {
    c.(recheckStates := Merged(c.recheckStates, checks), inFlightChecks := [])
  }

  /** The critical section that opens flush. */
  function BeginFlush(c: Core): Core {
    c.(checks := [], inFlightChecks := c.checks, scannedCount := 0)
  }

  function Requeue(c: Core, checks: seq<IPCheck>, scanned: nat): Core {
    c.(checks := checks + c.checks, inFlightChecks := [], scannedCount := c.scannedCount + scanned)
  }

  function IPs(checks: seq<IPCheck>): set<string> {
    set c <- checks :: c.ip
  }

  /** The IP list of a maintenance submit. */
  function PruneCandidates(pruneIPs: set<string>, checks: seq<IPCheck>, maintenance: bool): set<string> {
    if maintenance then pruneIPs + IPs(checks) else {}
  }

  function RecordPruneCandidates(pruneIPs: set<string>, checks: seq<IPCheck>, complete: bool): set<string> {
    if complete then {} else pruneIPs + IPs(checks)
  }

  // ---------- flush ----------

  const MAINTENANCE_INTERVAL: int := 600 * SECOND
  const PRUNE_RETRY_INTERVAL: int := 60 * SECOND

  /** The clocks of maintenance work; 0 is the zero time. */
  datatype Maintenance = Maintenance(lastAt: int, nextPruneRetryAt: int)
  {
    predicate Due(now: int) {
      (lastAt == 0 || now - lastAt >= MAINTENANCE_INTERVAL) && (nextPruneRetryAt == 0 || now >= nextPruneRetryAt)
    }

    /** After a submit that asked for maintenance or not, and the reply to it. */
    function Advance(asked: bool, pruneOK: bool, now: int): Maintenance {
      if !asked then this
      else if pruneOK then Maintenance(now, 0)
      else this.(nextPruneRetryAt := now + PRUNE_RETRY_INTERVAL)
    }
  }

  /** The known-good set a flush works with: refreshed when there is none or it expired, the stale one if that fails. */
  function KnownGoodFor(known: Option<set<string>>, expired: bool, fetched: Option<set<string>>): Option<set<string>> {
    if (known.None? || expired) && fetched.Some? then fetched else known
  }

  /** What the outside world does during one flush: fetched is None for an error, reply is None for a failed submit. */
  datatype Outside = Outside(now: int, expired: bool, fetched: Option<set<string>>, filterNow: int, reply: Option<bool>, doneAt: int)

  /** The body of a submit. */
  datatype Submission = Submission(checks: seq<IPCheck>, maintenance: bool, pruneIPs: set<string>)

  /** Everything flush reads and writes. */
  datatype Flushable = Flushable(core: Core, pruneIPs: set<string>, knownGood: Option<set<string>>, maintenance: Maintenance)

  /** flush when nothing else takes the mutex: the state afterwards, whether it succeeded, and what it submitted. */
  function Flushed(f: Flushable, o: Outside): (Flushable, bool, Option<Submission>) {
    var window, due := f.core.checks, f.maintenance.Due(o.now);
    var begun := BeginFlush(f.core);
    var known := KnownGoodFor(f.knownGood, o.expired, o.fetched);
    var requeued := Requeue(begun, window, f.core.scannedCount);
    if window == [] && !(due && f.pruneIPs != {}) then (f.(core := begun), true, None)
    else if known.None? then (f.(core := requeued), false, None)
    else
      var filtered := FilterWindow(window, known.value, o.filterNow);
      var sent := Some(Submission(filtered, due, PruneCandidates(f.pruneIPs, filtered, due)));
      match o.reply
      case None => (f.(core := requeued, knownGood := known), false, sent)
      case Some(pruneOK) =>
        (Flushable(MergeSubmitted(begun, filtered),
                   RecordPruneCandidates(f.pruneIPs, filtered, due && pruneOK),
                   Some(known.value + SuccessIPs(window)),
                   f.maintenance.Advance(due, pruneOK, o.doneAt)),
         true, sent)
  }

  /** A failed flush leaves buffer, counter, recheck states and prune candidates as they were. */
  lemma FailedFlushRestores(f: Flushable, o: Outside)
    requires f.core.inFlightChecks == [] && !Flushed(f, o).1
    ensures Flushed(f, o).0 == f.(knownGood := Flushed(f, o).0.knownGood)
  {
    assert f.core.checks + [] == f.core.checks;
  }

  /** A candidate is forgotten only by a successful submit that asked for maintenance, listed it and was told pruneOk. */
  lemma CandidatesAreKept(f: Flushable, o: Outside, ip: string)
    requires ip in f.pruneIPs && ip !in Flushed(f, o).0.pruneIPs
    ensures Flushed(f, o).1 && o.reply == Some(true) && Flushed(f, o).2.Some?
    ensures var sent := Flushed(f, o).2.value; sent.maintenance && ip in sent.pruneIPs
  {
  }
}
