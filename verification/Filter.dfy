/** internal/ingest/filter.go: which checks of a flush window are submitted. */
module Filter {
  import opened Prelude
  import opened CheckRows

  /** The Go IPCheck. Time 0 is the zero time.Time. */
  datatype IPCheck = IPCheck(
    ip: string, ok: bool, rttMs: int, reason: string, detail: string, checkedAt: int, scanMode: string)

  datatype ScanResult = ScanResult(ip: string, rttMs: int)

  // ---------- What the loops compute ----------

  /** The time of the last timed success of ip: the seenAt map. */
  function SeenAt(checks: seq<IPCheck>, ip: string): Option<int> {
    if checks == [] then None
    else
      var c := checks[|checks| - 1];
      if c.ok && c.checkedAt != 0 && c.ip == ip then Some(c.checkedAt) else SeenAt(checks[..|checks| - 1], ip)
  }

  /** The last non-empty detail among the timed successes of ip, "" if there is none. */
  function DetailOf(checks: seq<IPCheck>, ip: string): string {
    if checks == [] then ""
    else
      var c := checks[|checks| - 1];
      if c.ok && c.checkedAt != 0 && c.ip == ip && c.detail != "" then c.detail else DetailOf(checks[..|checks| - 1], ip)
  }

  /** The last non-empty reason among the timed successes of ip, "" if there is none. */
  function ReasonOf(checks: seq<IPCheck>, ip: string): string {
    if checks == [] then ""
    else
      var c := checks[|checks| - 1];
      if c.ok && c.checkedAt != 0 && c.ip == ip && c.reason != "" then c.reason else ReasonOf(checks[..|checks| - 1], ip)
  }

  function ResultIPs(results: seq<ScanResult>): set<string> {
    set r <- results :: r.ip
  }

  function SuccessIPs(checks: seq<IPCheck>): set<string> {
    set c <- checks | c.ok :: c.ip
  }

  /** One success per distinct result, in order of first occurrence. */
  function ResultRows(results: seq<ScanResult>, checks: seq<IPCheck>, now: int): seq<IPCheck> {
    if results == [] then []
    else
      var before := results[..|results| - 1];
      var r := results[|results| - 1];
      ResultRows(before, checks, now) +
      if r.ip in ResultIPs(before) then []
      else [IPCheck(r.ip, true, r.rttMs, ReasonOf(checks, r.ip), DetailOf(checks, r.ip), SeenAt(checks, r.ip).GetOr(now), "")]
  }

  function TimeOr(c: IPCheck, now: int): int {
    if c.checkedAt == 0 then now else c.checkedAt
  }

  /** The log-only successes and the admitted failures, in log order. */
  function CheckRest(recorded: set<string>, checks: seq<IPCheck>, knownGood: set<string>, now: int): seq<IPCheck> {
    if checks == [] then []
    else
      var before := checks[..|checks| - 1];
      var c := checks[|checks| - 1];
      var seen := recorded + SuccessIPs(before);
      CheckRest(recorded, before, knownGood, now) +
      if c.ok then
        if c.ip in seen then [] else [IPCheck(c.ip, true, c.rttMs, c.reason, c.detail, TimeOr(c, now), "")]
      else
        if c.ip !in seen && c.ip !in knownGood then [] else [IPCheck(c.ip, false, 0, c.reason, c.detail, TimeOr(c, now), "")]
  }

  function Filtered(results: seq<ScanResult>, checks: seq<IPCheck>, knownGood: set<string>, now: int): seq<IPCheck> {
    ResultRows(results, checks, now) + CheckRest(ResultIPs(results), checks, knownGood, now)
  }

  function Lookup<V>(m: map<string, V>, ip: string, zero: V): V {
    if ip in m then m[ip] else zero
  }

  /** The first loop of FilterChecks: what the timed successes say about each IP. */
  method CollectSuccesses(checks: seq<IPCheck>)
      returns (seenAt: map<string, int>, detailByIP: map<string, string>, reasonByIP: map<string, string>)
    ensures forall ip :: SeenAt(checks, ip) == if ip in seenAt then Some(seenAt[ip]) else None
    ensures forall ip :: DetailOf(checks, ip) == Lookup(detailByIP, ip, "")
    ensures forall ip :: ReasonOf(checks, ip) == Lookup(reasonByIP, ip, "")
  {
    seenAt, detailByIP, reasonByIP := map[], map[], map[];
    for i := 0 to |checks|
      invariant forall ip :: SeenAt(checks[..i], ip) == if ip in seenAt then Some(seenAt[ip]) else None
      invariant forall ip :: DetailOf(checks[..i], ip) == Lookup(detailByIP, ip, "")
      invariant forall ip :: ReasonOf(checks[..i], ip) == Lookup(reasonByIP, ip, "")
    {
      assert checks[..i + 1][..i] == checks[..i];
      var c := checks[i];
      if c.ok && c.checkedAt != 0 {
        seenAt := seenAt[c.ip := c.checkedAt];
        if c.detail != "" {
          detailByIP := detailByIP[c.ip := c.detail];
        }
        if c.reason != "" {
          reasonByIP := reasonByIP[c.ip := c.reason];
        }
      }
    }
    assert checks[..|checks|] == checks;
  }

  lemma ResultIPsStep(results: seq<ScanResult>, i: nat)
    requires i < |results|
    ensures results[..i + 1][..i] == results[..i]
    ensures ResultIPs(results[..i + 1]) == ResultIPs(results[..i]) + {results[i].ip}
  {
    assert results[..i + 1] == results[..i] + [results[i]];
  }

  lemma SuccessIPsStep(checks: seq<IPCheck>, i: nat)
    requires i < |checks|
    ensures checks[..i + 1][..i] == checks[..i]
    ensures SuccessIPs(checks[..i + 1]) == SuccessIPs(checks[..i]) + (if checks[i].ok then {checks[i].ip} else {})
  {
    assert checks[..i + 1] == checks[..i] + [checks[i]];
  }

  /** The second loop: one row per distinct result. */
  method EmitResults(results: seq<ScanResult>, ghost checks: seq<IPCheck>, now: int,
                     seenAt: map<string, int>, detailByIP: map<string, string>, reasonByIP: map<string, string>)
      returns (recorded: set<string>, out: seq<IPCheck>)
    requires forall ip :: SeenAt(checks, ip) == if ip in seenAt then Some(seenAt[ip]) else None
    requires forall ip :: DetailOf(checks, ip) == Lookup(detailByIP, ip, "")
    requires forall ip :: ReasonOf(checks, ip) == Lookup(reasonByIP, ip, "")
    ensures recorded == ResultIPs(results)
    ensures out == ResultRows(results, checks, now)
  {
    recorded := {};
    out := [];
    for i := 0 to |results|
      invariant recorded == ResultIPs(results[..i])
      invariant out == ResultRows(results[..i], checks, now)
    {
      ResultIPsStep(results, i);
      var r := results[i];
      if r.ip in recorded {
        continue;
      }
      recorded := recorded + {r.ip};
      var ts := if r.ip in seenAt then seenAt[r.ip] else now;
      out := out + [IPCheck(r.ip, true, r.rttMs, Lookup(reasonByIP, r.ip, ""), Lookup(detailByIP, r.ip, ""), ts, "")];
    }
    assert results[..|results|] == results;
  }

  /** The third loop: log-only successes and admitted failures. */
  method EmitRest(covered: set<string>, checks: seq<IPCheck>, knownGood: set<string>, now: int) returns (out: seq<IPCheck>)
    ensures out == CheckRest(covered, checks, knownGood, now)
  {
    var recorded := covered;
    out := [];
    for i := 0 to |checks|
      invariant recorded == covered + SuccessIPs(checks[..i])
      invariant out == CheckRest(covered, checks[..i], knownGood, now)
    {
      SuccessIPsStep(checks, i);
      var c := checks[i];
      var checkedAt := if c.checkedAt == 0 then now else c.checkedAt;
      if c.ok {
        if c.ip in recorded {
          continue;
        }
        recorded := recorded + {c.ip};
        out := out + [IPCheck(c.ip, true, c.rttMs, c.reason, c.detail, checkedAt, "")];
        continue;
      }
      if c.ip !in recorded && c.ip !in knownGood {
        continue;
      }
      out := out + [IPCheck(c.ip, false, 0, c.reason, c.detail, checkedAt, "")];
    }
    assert checks[..|checks|] == checks;
  }

  method FilterChecks(results: seq<ScanResult>, checks: seq<IPCheck>, knownGood: set<string>, now: int) returns (out: seq<IPCheck>)
    ensures out == Filtered(results, checks, knownGood, now)
  {
    var seenAt, detailByIP, reasonByIP := CollectSuccesses(checks);
    var recorded, first := EmitResults(results, checks, now, seenAt, detailByIP, reasonByIP);
    var rest := EmitRest(recorded, checks, knownGood, now);
    out := first + rest;
  }

  // ---------- What a flush submits ----------

  /** The deduplicated successes of a window, as flush builds them (internal/scan/flush.go:144-151). */
  function WindowResults(window: seq<IPCheck>): seq<ScanResult> {
    if window == [] then []
    else
      var before := window[..|window| - 1];
      var c := window[|window| - 1];
      WindowResults(before) + if c.ok && c.ip !in SuccessIPs(before) then [ScanResult(c.ip, c.rttMs)] else []
  }

  method CollectResults(window: seq<IPCheck>) returns (results: seq<ScanResult>)
    ensures results == WindowResults(window)
  {
    var seen: set<string> := {};
    results := [];
    for i := 0 to |window|
      invariant seen == SuccessIPs(window[..i]) && results == WindowResults(window[..i])
    {
      SuccessIPsStep(window, i);
      var c := window[i];
      if c.ok && c.ip !in seen {
        seen := seen + {c.ip};
        results := results + [ScanResult(c.ip, c.rttMs)];
      }
    }
    assert window[..|window|] == window;
  }

  function FilterWindow(window: seq<IPCheck>, knownGood: set<string>, now: int): seq<IPCheck> {
    Filtered(WindowResults(window), window, knownGood, now)
  }

  /** Every check is timed, and the checks of one IP are in strictly increasing time. */
  ghost predicate Chronological(window: seq<IPCheck>) {
    && (forall i :: 0 <= i < |window| ==> window[i].checkedAt != 0)
    && (forall i, j :: 0 <= i < j < |window| && window[i].ip == window[j].ip ==> window[i].checkedAt < window[j].checkedAt)
  }

  ghost predicate Timed(window: seq<IPCheck>) {
    forall i :: 0 <= i < |window| ==> window[i].checkedAt != 0
  }

  /** Every check is timed, and the successes of one IP never go back in time. */
  ghost predicate NeverBack(window: seq<IPCheck>) {
    && Timed(window)
    && (forall i, j :: 0 <= i < j < |window| && window[i].ip == window[j].ip && window[i].ok && window[j].ok ==>
          window[i].checkedAt <= window[j].checkedAt)
  }

  ghost predicate SameKey(a: IPCheck, b: IPCheck) {
    a.ip == b.ip && a.ok == b.ok && a.checkedAt == b.checkedAt
  }

  lemma {:induction false} ResultsAreSuccesses(window: seq<IPCheck>)
    ensures ResultIPs(WindowResults(window)) == SuccessIPs(window)
  {
    if window != [] {
      var n := |window| - 1;
      ResultsAreSuccesses(window[..n]);
      assert window == window[..n] + [window[n]];
      assert SuccessIPs(window) == SuccessIPs(window[..n]) + (if window[n].ok then {window[n].ip} else {});
    }
  }

  /** seenAt is the time of some success, */
  lemma {:induction false} SeenAtIsSuccess(window: seq<IPCheck>, ip: string) returns (w: IPCheck)
    requires Timed(window) && ip in SuccessIPs(window)
    ensures w in window && w.ip == ip && w.ok && SeenAt(window, ip) == Some(w.checkedAt)
  {
    var n := |window| - 1;
    w := window[n];
    if !(w.ok && w.ip == ip) {
      assert window == window[..n] + [window[n]];
      w := SeenAtIsSuccess(window[..n], ip);
    }
  }

  /** and of the newest one. */
  lemma {:induction false} SeenAtIsNewest(window: seq<IPCheck>, k: nat)
    requires NeverBack(window) && k < |window| && window[k].ok
    ensures SeenAt(window, window[k].ip).Some? && window[k].checkedAt <= SeenAt(window, window[k].ip).value
  {
    var n := |window| - 1;
    if k < n {
      SeenAtIsNewest(window[..n], k);
    }
  }

  lemma {:induction false} ResultRowMeans(results: seq<ScanResult>, window: seq<IPCheck>, now: int, f: IPCheck)
    requires f in ResultRows(results, window, now)
    ensures f.ok && f.ip in ResultIPs(results) && f.checkedAt == SeenAt(window, f.ip).GetOr(now)
  {
    var n := |results| - 1;
    assert results == results[..n] + [results[n]];
    if f in ResultRows(results[..n], window, now) {
      ResultRowMeans(results[..n], window, now, f);
    }
  }

  lemma {:induction false} ResultHasRow(results: seq<ScanResult>, window: seq<IPCheck>, now: int, ip: string) returns (f: IPCheck)
    requires ip in ResultIPs(results)
    ensures f in ResultRows(results, window, now) && f.ip == ip
  {
    var n := |results| - 1;
    assert results == results[..n] + [results[n]];
    if ip in ResultIPs(results[..n]) {
      f := ResultHasRow(results[..n], window, now, ip);
    } else {
      var rows := ResultRows(results, window, now);
      f := rows[|rows| - 1];
    }
  }

  lemma SuccessIPsOfPrefix(window: seq<IPCheck>)
    requires window != []
    ensures SuccessIPs(window[..|window| - 1]) <= SuccessIPs(window)
    ensures window[|window| - 1].ok ==> window[|window| - 1].ip in SuccessIPs(window)
  {
    assert window[|window| - 1] in window;
  }

  /** When every success is recorded already, the rest is failures of admitted IPs, */
  lemma {:induction false} RestIsFailure(recorded: set<string>, window: seq<IPCheck>, knownGood: set<string>, now: int, f: IPCheck)
      returns (w: IPCheck)
    requires Timed(window) && SuccessIPs(window) <= recorded
    requires f in CheckRest(recorded, window, knownGood, now)
    ensures !f.ok && (f.ip in recorded || f.ip in knownGood) && w in window && SameKey(f, w) && f == w.(rttMs := 0, scanMode := "")
  {
    var n := |window| - 1;
    SuccessIPsOfPrefix(window);
    if f in CheckRest(recorded, window[..n], knownGood, now) {
      w := RestIsFailure(recorded, window[..n], knownGood, now, f);
    } else {
      w := window[n];
    }
  }

  /** all of them. */
  lemma {:induction false} FailureInRest(recorded: set<string>, window: seq<IPCheck>, knownGood: set<string>, now: int, k: nat)
      returns (f: IPCheck)
    requires Timed(window) && SuccessIPs(window) <= recorded
    requires k < |window| && !window[k].ok && (window[k].ip in recorded || window[k].ip in knownGood)
    ensures f in CheckRest(recorded, window, knownGood, now) && f == window[k].(rttMs := 0, scanMode := "")
  {
    var n := |window| - 1;
    SuccessIPsOfPrefix(window);
    if k < n {
      f := FailureInRest(recorded, window[..n], knownGood, now, k);
    } else {
      var rows := CheckRest(recorded, window, knownGood, now);
      f := rows[|rows| - 1];
    }
  }

  // ---------- Filtering and then coalescing ----------

  /** How functions/ingest.ts:92-100 reads one submitted check. */
  function ToRow(c: IPCheck): CheckRow {
    CheckRow(
      c.ip, c.ok,
      if c.ok && c.rttMs != 0 then Some(c.rttMs) else None,
      if c.reason == "" then None else Some(c.reason),
      if c.detail == "" then None else Some(c.detail),
      c.checkedAt, c.scanMode)
  }

  function ToRows(cs: seq<IPCheck>): (rows: seq<CheckRow>)
    ensures |rows| == |cs|
    ensures forall i :: 0 <= i < |cs| ==> rows[i] == ToRow(cs[i])
  {
    if cs == [] then [] else ToRows(cs[..|cs| - 1]) + [ToRow(cs[|cs| - 1])]
  }

  /** The raw window restricted to IPs that are known good or succeeded in it. */
  function Admitted(window: seq<IPCheck>, all: seq<IPCheck>, knownGood: set<string>): seq<IPCheck> {
    if window == [] then []
    else
      var c := window[|window| - 1];
      Admitted(window[..|window| - 1], all, knownGood) + if c.ip in knownGood || c.ip in SuccessIPs(all) then [c] else []
  }

  /** Outcome and time of each row. */
  function Keys(rows: seq<CheckRow>): (keys: seq<(string, bool, int)>) {
    seq(|rows|, i requires 0 <= i < |rows| => (rows[i].ip, rows[i].ok, rows[i].checkedAt))
  }

  ghost predicate RowMatches(rows: seq<CheckRow>, r: CheckRow) {
    exists k :: 0 <= k < |rows| && rows[k].ip == r.ip && rows[k].ok == r.ok && rows[k].checkedAt == r.checkedAt
  }

  ghost predicate SuccessAtLeast(rows: seq<CheckRow>, r: CheckRow) {
    exists k :: 0 <= k < |rows| && rows[k].ip == r.ip && rows[k].ok && r.checkedAt <= rows[k].checkedAt
  }

  /** b carries the evidence of a about ip: no row a lacks, every failure, and for every success one as new. */
  ghost predicate SameEvidence(a: seq<CheckRow>, b: seq<CheckRow>, ip: string) {
    && (forall k :: 0 <= k < |b| && b[k].ip == ip ==> RowMatches(a, b[k]))
    && (forall k :: 0 <= k < |a| && a[k].ip == ip && !a[k].ok ==> RowMatches(b, a[k]))
    && (forall k :: 0 <= k < |a| && a[k].ip == ip && a[k].ok ==> SuccessAtLeast(b, a[k]))
    && (forall j, k :: 0 <= j < |a| && 0 <= k < |a| && a[j].ip == ip && a[k].ip == ip && a[j].checkedAt == a[k].checkedAt ==> a[j].ok == a[k].ok)
  }

  lemma SameLatest(a: seq<CheckRow>, b: seq<CheckRow>, ip: string, x: CheckRow, y: CheckRow)
    requires SameEvidence(a, b, ip) && LatestMeans(a, ip, x) && LatestMeans(b, ip, y)
    ensures x.ip == y.ip == ip && x.ok == y.ok && x.checkedAt == y.checkedAt
  {
    var i :| IsNewestAt(a, ip, false, i) && x == a[i];
    var j :| IsNewestAt(b, ip, false, j) && y == b[j];
    assert RowMatches(a, b[j]);
    if x.ok {
      assert SuccessAtLeast(b, a[i]);
    } else {
      assert RowMatches(b, a[i]);
    }
  }

  lemma SameSuccess(a: seq<CheckRow>, b: seq<CheckRow>, ip: string, x: Option<CheckRow>, y: Option<CheckRow>)
    requires SameEvidence(a, b, ip) && SuccessMeans(a, ip, x) && SuccessMeans(b, ip, y)
    ensures x.Some? == y.Some?
    ensures x.Some? ==> x.value.ip == y.value.ip && x.value.ok == y.value.ok && x.value.checkedAt == y.value.checkedAt
  {
    if y.Some? {
      var j :| IsNewestAt(b, ip, true, j) && y.value == b[j];
      assert RowMatches(a, b[j]);
    }
    if x.Some? {
      var i :| IsNewestAt(a, ip, true, i) && x.value == a[i];
      assert SuccessAtLeast(b, a[i]);
    }
  }

  lemma SameEntryKeys(x: Entry, y: Entry, ip: string)
    requires ValidEntry(ip, x) && ValidEntry(ip, y)
    requires x.latest.ok == y.latest.ok && x.latest.checkedAt == y.latest.checkedAt
    requires x.latestSuccess.Some? == y.latestSuccess.Some?
    requires x.latestSuccess.Some? ==> x.latestSuccess.value.checkedAt == y.latestSuccess.value.checkedAt
    ensures Keys(EmitEntry(x)) == Keys(EmitEntry(y))
  {
  }

  lemma SameOccurrence(a: seq<CheckRow>, b: seq<CheckRow>, ip: string)
    requires SameEvidence(a, b, ip)
    ensures Occurs(a, ip) <==> Occurs(b, ip)
  {
    if k :| 0 <= k < |a| && a[k].ip == ip {
      assert if a[k].ok then SuccessAtLeast(b, a[k]) else RowMatches(b, a[k]);
    }
    if k :| 0 <= k < |b| && b[k].ip == ip {
      assert RowMatches(a, b[k]);
    }
  }

  /** Two row lists with the same evidence about ip coalesce to the same outcomes and times for it. */
  lemma SameEvidenceSameKeys(a: seq<CheckRow>, b: seq<CheckRow>, ip: string)
    requires SameEvidence(a, b, ip)
    ensures Keys(RowsOf(Coalesce(a), ip)) == Keys(RowsOf(Coalesce(b), ip))
  {
    CoalescedRowsOf(a, ip);
    CoalescedRowsOf(b, ip);
    EntryIsNewest(a, ip);
    EntryIsNewest(b, ip);
    SameOccurrence(a, b, ip);
    if ip in Scan(a).entries {
      ScanValid(a);
      ScanValid(b);
      var x, y := Scan(a).entries[ip], Scan(b).entries[ip];
      SameLatest(a, b, ip, x.latest, y.latest);
      SameSuccess(a, b, ip, x.latestSuccess, y.latestSuccess);
      SameEntryKeys(x, y, ip);
    }
  }

  lemma {:induction false} AdmittedMeans(window: seq<IPCheck>, all: seq<IPCheck>, knownGood: set<string>)
    ensures forall c :: c in Admitted(window, all, knownGood) <==> c in window && (c.ip in knownGood || c.ip in SuccessIPs(all))
  {
    if window != [] {
      var n := |window| - 1;
      AdmittedMeans(window[..n], all, knownGood);
      assert window == window[..n] + [window[n]];
    }
  }

  /** Every check a flush submits is a check of the window, about an admitted IP. */
  lemma KeptOrigin(window: seq<IPCheck>, knownGood: set<string>, now: int, f: IPCheck) returns (w: IPCheck)
    requires Timed(window) && f in FilterWindow(window, knownGood, now)
    ensures w in window && SameKey(f, w) && (f.ip in knownGood || f.ip in SuccessIPs(window))
  {
    var results := WindowResults(window);
    ResultsAreSuccesses(window);
    if f in ResultRows(results, window, now) {
      ResultRowMeans(results, window, now, f);
      w := SeenAtIsSuccess(window, f.ip);
    } else {
      w := RestIsFailure(ResultIPs(results), window, knownGood, now, f);
    }
  }

  /** Every failure of an admitted IP is submitted. */
  lemma FailureSubmitted(window: seq<IPCheck>, knownGood: set<string>, now: int, k: nat) returns (f: IPCheck)
    requires Timed(window) && k < |window| && !window[k].ok
    requires window[k].ip in knownGood || window[k].ip in SuccessIPs(window)
    ensures f in FilterWindow(window, knownGood, now) && f == window[k].(rttMs := 0, scanMode := "")
  {
    ResultsAreSuccesses(window);
    f := FailureInRest(ResultIPs(WindowResults(window)), window, knownGood, now, k);
  }

  /** A submitted success has the time of the last one of its IP. */
  lemma SubmittedAtLast(window: seq<IPCheck>, knownGood: set<string>, now: int, f: IPCheck)
    requires Timed(window) && f in FilterWindow(window, knownGood, now) && f.ok
    ensures SeenAt(window, f.ip) == Some(f.checkedAt)
  {
    var results := WindowResults(window);
    ResultsAreSuccesses(window);
    if f in ResultRows(results, window, now) {
      ResultRowMeans(results, window, now, f);
      var w := SeenAtIsSuccess(window, f.ip);
    } else {
      var w := RestIsFailure(ResultIPs(results), window, knownGood, now, f);
      assert false;
    }
  }

  // ---------- Where the rest of a submitted check comes from ----------

  /** window[k] is the first, or the last, check of its IP that satisfies the condition. */
  ghost predicate FirstSuccess(window: seq<IPCheck>, ip: string, k: int) {
    0 <= k < |window| && window[k].ip == ip && window[k].ok && forall i :: 0 <= i < k && window[i].ip == ip ==> !window[i].ok
  }

  ghost predicate LastSuccess(window: seq<IPCheck>, ip: string, k: int) {
    0 <= k < |window| && window[k].ip == ip && window[k].ok && forall i :: k < i < |window| && window[i].ip == ip ==> !window[i].ok
  }

  /** The last text among these that is not empty, or else the empty one. */
  ghost predicate LastText(texts: seq<string>, text: string) {
    || (text == "" && forall i :: 0 <= i < |texts| ==> texts[i] == "")
    || exists k :: 0 <= k < |texts| && texts[k] == text != "" && forall i :: k < i < |texts| ==> texts[i] == ""
  }

  /** The successes of one IP, in order. */
  function SuccessesOf(window: seq<IPCheck>, ip: string): seq<IPCheck> {
    if window == [] then []
    else
      var c := window[|window| - 1];
      SuccessesOf(window[..|window| - 1], ip) + if c.ok && c.ip == ip then [c] else []
  }

  lemma {:induction false} SuccessesOfMembers(window: seq<IPCheck>, ip: string)
    ensures forall c :: c in SuccessesOf(window, ip) <==> c in window && c.ok && c.ip == ip
  {
    if window != [] {
      SuccessesOfMembers(window[..|window| - 1], ip);
      assert window == window[..|window| - 1] + [window[|window| - 1]];
    }
  }

  function Details(checks: seq<IPCheck>): (texts: seq<string>)
    ensures |texts| == |checks|
  {
    seq(|checks|, i requires 0 <= i < |checks| => checks[i].detail)
  }

  function Reasons(checks: seq<IPCheck>): (texts: seq<string>)
    ensures |texts| == |checks|
  {
    seq(|checks|, i requires 0 <= i < |checks| => checks[i].reason)
  }

  lemma LastTextNext(texts: seq<string>, text: string, more: string)
    requires LastText(texts, text)
    ensures LastText(texts + [more], if more != "" then more else text)
  {
    if more != "" {
      assert (texts + [more])[|texts|] == more;
    } else if k :| 0 <= k < |texts| && texts[k] == text != "" && forall i :: k < i < |texts| ==> texts[i] == "" {
      assert (texts + [more])[k] == text;
    }
  }

  lemma {:induction false} TextsMean(window: seq<IPCheck>, ip: string)
    requires Timed(window)
    ensures LastText(Details(SuccessesOf(window, ip)), DetailOf(window, ip))
    ensures LastText(Reasons(SuccessesOf(window, ip)), ReasonOf(window, ip))
  {
    if window != [] {
      var n := |window| - 1;
      var c, before := window[n], SuccessesOf(window[..n], ip);
      TextsMean(window[..n], ip);
      if c.ok && c.ip == ip {
        LastTextNext(Details(before), DetailOf(window[..n], ip), c.detail);
        LastTextNext(Reasons(before), ReasonOf(window[..n], ip), c.reason);
        assert Details(before + [c]) == Details(before) + [c.detail];
        assert Reasons(before + [c]) == Reasons(before) + [c.reason];
      } else {
        assert before + [] == before;
      }
    }
  }

  lemma {:induction false} SeenAtIsLast(window: seq<IPCheck>, ip: string, k: int)
    requires Timed(window) && LastSuccess(window, ip, k)
    ensures SeenAt(window, ip) == Some(window[k].checkedAt)
  {
    var n := |window| - 1;
    if k < n {
      SeenAtIsLast(window[..n], ip, k);
    }
  }

  /** The results are the first success of each IP. */
  lemma {:induction false} ResultIsFirst(window: seq<IPCheck>, r: ScanResult, k: int)
    requires r in WindowResults(window) && FirstSuccess(window, r.ip, k)
    ensures r.rttMs == window[k].rttMs
  {
    var n := |window| - 1;
    assert window == window[..n] + [window[n]];
    assert forall i :: 0 <= i < n ==> window[i] in window[..n];
    if r in WindowResults(window[..n]) {
      ResultsAreSuccesses(window[..n]);
      assert r.ip in ResultIPs(WindowResults(window[..n]));
      var w :| w in window[..n] && w.ok && w.ip == r.ip;
      var i :| 0 <= i < n && window[..n][i] == w;
      assert k <= i;
      ResultIsFirst(window[..n], r, k);
    } else {
      assert k == n;
    }
  }

  lemma {:induction false} ResultRowFrom(results: seq<ScanResult>, window: seq<IPCheck>, now: int, f: IPCheck) returns (r: ScanResult)
    requires f in ResultRows(results, window, now)
    ensures r in results && r.ip == f.ip && r.rttMs == f.rttMs
    ensures f.reason == ReasonOf(window, f.ip) && f.detail == DetailOf(window, f.ip)
  {
    var n := |results| - 1;
    assert results == results[..n] + [results[n]];
    if f in ResultRows(results[..n], window, now) {
      r := ResultRowFrom(results[..n], window, now, f);
    } else {
      r := results[n];
    }
  }

  /**
   * A submitted success of an IP carries the rtt of its first success in the window, the time of its last, and the last
   * reason and detail that are not empty.
   */
  lemma SuccessCarries(window: seq<IPCheck>, knownGood: set<string>, now: int, f: IPCheck, first: int, last: int)
    requires Timed(window) && f in FilterWindow(window, knownGood, now) && f.ok
    requires FirstSuccess(window, f.ip, first) && LastSuccess(window, f.ip, last)
    ensures f.rttMs == window[first].rttMs && f.checkedAt == window[last].checkedAt
    ensures LastText(Reasons(SuccessesOf(window, f.ip)), f.reason) && LastText(Details(SuccessesOf(window, f.ip)), f.detail)
  {
    var results := WindowResults(window);
    ResultsAreSuccesses(window);
    SubmittedAtLast(window, knownGood, now, f);
    SeenAtIsLast(window, f.ip, last);
    TextsMean(window, f.ip);
    if f in ResultRows(results, window, now) {
      var r := ResultRowFrom(results, window, now, f);
      ResultIsFirst(window, r, first);
    } else {
      var w := RestIsFailure(ResultIPs(results), window, knownGood, now, f);
      assert false;
    }
  }

  /** A submitted failure is a failure of the window with its reason and detail. */
  lemma FailureCarries(window: seq<IPCheck>, knownGood: set<string>, now: int, f: IPCheck) returns (w: IPCheck)
    requires Timed(window) && f in FilterWindow(window, knownGood, now) && !f.ok
    ensures w in window && f == w.(rttMs := 0, scanMode := "")
    ensures f.ip in knownGood || f.ip in SuccessIPs(window)
  {
    var results := WindowResults(window);
    ResultsAreSuccesses(window);
    assert f !in ResultRows(results, window, now) by {
      if f in ResultRows(results, window, now) {
        ResultRowMeans(results, window, now, f);
      }
    }
    w := RestIsFailure(ResultIPs(results), window, knownGood, now, f);
  }

  // ---------- Coverage ----------

  /** The last success of ip in the window is its newest. */
  ghost predicate LastIsNewest(window: seq<IPCheck>, ip: string) {
    forall k :: 0 <= k < |window| && window[k].ip == ip && window[k].ok ==> window[k].checkedAt <= SeenAt(window, ip).GetOr(0)
  }

  ghost predicate CoveredBy(filtered: seq<IPCheck>, w: IPCheck) {
    exists f <- filtered :: f.ip == w.ip && f.ok && w.checkedAt <= f.checkedAt
  }

  lemma SuccessHasRow(window: seq<IPCheck>, knownGood: set<string>, now: int, ip: string) returns (f: IPCheck)
    requires Timed(window) && ip in SuccessIPs(window)
    ensures f in FilterWindow(window, knownGood, now) && f.ip == ip && f.ok && SeenAt(window, ip) == Some(f.checkedAt)
  {
    var results := WindowResults(window);
    ResultsAreSuccesses(window);
    f := ResultHasRow(results, window, now, ip);
    ResultRowMeans(results, window, now, f);
    SubmittedAtLast(window, knownGood, now, f);
  }

  /** For every success of ip one at least as new is submitted if and only if the last success of ip is its newest. */
  lemma SuccessCovered(window: seq<IPCheck>, knownGood: set<string>, now: int, ip: string)
    requires Timed(window)
    ensures LastIsNewest(window, ip) <==>
            forall w <- window :: w.ip == ip && w.ok ==> CoveredBy(FilterWindow(window, knownGood, now), w)
  {
    var filtered := FilterWindow(window, knownGood, now);
    forall w <- window | w.ip == ip && w.ok ensures CoveredBy(filtered, w) <==> w.checkedAt <= SeenAt(window, ip).GetOr(0) {
      var f := SuccessHasRow(window, knownGood, now, ip);
      if CoveredBy(filtered, w) {
        var g :| g in filtered && g.ip == w.ip && g.ok && w.checkedAt <= g.checkedAt;
        SubmittedAtLast(window, knownGood, now, g);
      }
    }
    forall k | 0 <= k < |window| ensures window[k] in window {}
  }

  /** For every success, one at least as new is submitted. */
  lemma SuccessSubmitted(window: seq<IPCheck>, knownGood: set<string>, now: int, k: nat) returns (f: IPCheck)
    requires NeverBack(window) && k < |window| && window[k].ok
    ensures f in FilterWindow(window, knownGood, now) && f.ip == window[k].ip && f.ok && window[k].checkedAt <= f.checkedAt
  {
    var results := WindowResults(window);
    ResultsAreSuccesses(window);
    assert window[k] in window;
    f := ResultHasRow(results, window, now, window[k].ip);
    ResultRowMeans(results, window, now, f);
    SeenAtIsNewest(window, k);
  }

  lemma RowMatchesFrom(cs: seq<IPCheck>, f: IPCheck, c: IPCheck)
    requires f in cs && SameKey(f, c)
    ensures RowMatches(ToRows(cs), ToRow(c))
  {
    var i :| 0 <= i < |cs| && cs[i] == f;
    assert ToRows(cs)[i] == ToRow(cs[i]);
  }

  lemma SuccessFrom(cs: seq<IPCheck>, f: IPCheck, c: IPCheck)
    requires f in cs && f.ip == c.ip && f.ok && c.checkedAt <= f.checkedAt
    ensures SuccessAtLeast(ToRows(cs), ToRow(c))
  {
    var i :| 0 <= i < |cs| && cs[i] == f;
    assert ToRows(cs)[i] == ToRow(cs[i]);
  }

  lemma {:induction false} AdmittedChronological(window: seq<IPCheck>, all: seq<IPCheck>, knownGood: set<string>)
    requires Chronological(window)
    ensures Chronological(Admitted(window, all, knownGood))
  {
    if window != [] {
      var n := |window| - 1;
      AdmittedChronological(window[..n], all, knownGood);
      AdmittedMeans(window[..n], all, knownGood);
      var before := Admitted(window[..n], all, knownGood);
      forall i | 0 <= i < |before| && before[i].ip == window[n].ip ensures before[i].checkedAt < window[n].checkedAt {
        assert before[i] in window[..n];
      }
    }
  }

  lemma KeptMatchesRaw(window: seq<IPCheck>, knownGood: set<string>, now: int, k: nat)
    requires NeverBack(window) && k < |FilterWindow(window, knownGood, now)|
    ensures RowMatches(ToRows(Admitted(window, window, knownGood)), ToRows(FilterWindow(window, knownGood, now))[k])
  {
    var f := FilterWindow(window, knownGood, now)[k];
    var w := KeptOrigin(window, knownGood, now, f);
    AdmittedMeans(window, window, knownGood);
    RowMatchesFrom(Admitted(window, window, knownGood), w, f);
  }

  lemma RawIsKept(window: seq<IPCheck>, knownGood: set<string>, now: int, i: nat)
    requires NeverBack(window) && i < |Admitted(window, window, knownGood)|
    ensures
      var raw, kept := Admitted(window, window, knownGood), ToRows(FilterWindow(window, knownGood, now));
      && (!raw[i].ok ==> RowMatches(kept, ToRows(raw)[i]))
      && (raw[i].ok ==> SuccessAtLeast(kept, ToRows(raw)[i]))
  {
    var w := Admitted(window, window, knownGood)[i];
    AdmittedMeans(window, window, knownGood);
    assert w in window;
    var k :| 0 <= k < |window| && window[k] == w;
    if w.ok {
      var f := SuccessSubmitted(window, knownGood, now, k);
      SuccessFrom(FilterWindow(window, knownGood, now), f, w);
    } else {
      var f := FailureSubmitted(window, knownGood, now, k);
      RowMatchesFrom(FilterWindow(window, knownGood, now), f, w);
    }
  }

  lemma TimesTellOutcomes(raw: seq<IPCheck>, ip: string)
    requires Chronological(raw)
    ensures
      var a := ToRows(raw);
      forall j, k :: 0 <= j < |a| && 0 <= k < |a| && a[j].ip == ip && a[k].ip == ip && a[j].checkedAt == a[k].checkedAt ==> a[j].ok == a[k].ok
  {
    forall j, k | 0 <= j < |raw| && 0 <= k < |raw| && raw[j].ip == ip && raw[k].ip == ip && raw[j].checkedAt == raw[k].checkedAt
      ensures j == k
    {
    }
  }

  /** Submitting a filtered window and coalescing it loses nothing the raw admitted window says. */
  lemma FilterThenCoalesce(window: seq<IPCheck>, knownGood: set<string>, now: int, ip: string)
    requires Chronological(window)
    ensures Keys(RowsOf(Coalesce(ToRows(FilterWindow(window, knownGood, now))), ip))
         == Keys(RowsOf(Coalesce(ToRows(Admitted(window, window, knownGood))), ip))
  {
    var raw, kept := Admitted(window, window, knownGood), FilterWindow(window, knownGood, now);
    assert SameEvidence(ToRows(raw), ToRows(kept), ip) by {
      forall k | 0 <= k < |kept| ensures RowMatches(ToRows(raw), ToRows(kept)[k]) {
        KeptMatchesRaw(window, knownGood, now, k);
      }
      forall k | 0 <= k < |raw|
        ensures !raw[k].ok ==> RowMatches(ToRows(kept), ToRows(raw)[k])
        ensures raw[k].ok ==> SuccessAtLeast(ToRows(kept), ToRows(raw)[k])
      {
        RawIsKept(window, knownGood, now, k);
      }
      AdmittedChronological(window, window, knownGood);
      TimesTellOutcomes(raw, ip);
    }
    SameEvidenceSameKeys(ToRows(raw), ToRows(kept), ip);
  }
}
