/** One check of one site (`checkSiteStatus`): classify the probe answer,
    update the site's status, latency and check time, append a history record
    to the bounded ledger, and decide whether a degradation alert fires. */
module Checker {
  import opened Sites
  import opened Notify

  /** Latency threshold used by the classifier: `responseThreshold || 500`,
      so a missing (NaN) or zero threshold means 500 ms. */
  function EffectiveThreshold(threshold: Option<int>): (r: int)
    ensures threshold.Some? && threshold.value != 0 ==> r == threshold.value
    ensures threshold.None? || threshold.value == 0 ==> r == 500
  {
    match threshold
    case Some(t) => if t != 0 then t else 500
    case None => 500
  }

  /** The status a probe answer earns. An answer without a latency is never
      above the threshold (a comparison with `undefined` is false). */
  function Classify(result: ProbeResult, threshold: Option<int>): (r: Status)
    ensures r != Unknown
    ensures r == Offline <==> !result.success
    ensures r == Slow <==> result.success && result.responseTime.Some? &&
                           result.responseTime.value > EffectiveThreshold(threshold)
  {
    if !result.success then Offline
    else match result.responseTime
      case Some(t) => if t > EffectiveThreshold(threshold) then Slow else Online
      case None => Online
  }

  /** The most recent `n` elements of `s`, oldest first. */
  function Newest<T>(s: seq<T>, n: nat): seq<T> {
    if |s| <= n then s else s[|s| - n..]
  }

  const HistoryCapacity: nat := 100

  /** The ledger step: push `rec`, then keep only the newest 100 records.
      The result ends with `rec`, and before it come the newest records of
      `h` in their original order, the oldest dropped first. */
  function AppendBounded(h: seq<HistoryRecord>, rec: HistoryRecord): (r: seq<HistoryRecord>)
    ensures |r| == if |h| + 1 <= HistoryCapacity then |h| + 1 else HistoryCapacity
    ensures r[|r| - 1] == rec
    ensures r[..|r| - 1] == h[|h| - (|r| - 1)..]
  {
    var pushed := h + [rec];
    var r := if |pushed| > HistoryCapacity then pushed[|pushed| - HistoryCapacity..] else pushed;
    assert r[..|r| - 1] == h[|h| - (|r| - 1)..];
    r
  }

  /** A run of ledger steps, the records pushed in order. */
  function AppendAll(h: seq<HistoryRecord>, recs: seq<HistoryRecord>): seq<HistoryRecord>
    decreases |recs|
  {
    if recs == [] then h else AppendBounded(AppendAll(h, recs[..|recs| - 1]), recs[|recs| - 1])
  }

  /** One push onto a suffix of the pushed records that is either all of them
      or already fills the ring gives the newest 100 of them and `rec`. */
  lemma PushOntoSuffix(full: seq<HistoryRecord>, mid: seq<HistoryRecord>, rec: HistoryRecord)
    requires |mid| <= |full| && mid == full[|full| - |mid|..]
    requires |mid| >= HistoryCapacity || |mid| == |full|
    ensures AppendBounded(mid, rec) == Newest(full + [rec], HistoryCapacity)
  {
    var r := AppendBounded(mid, rec);
    if |full| < HistoryCapacity {
      assert mid == full;
    } else {
      var n := |full| - (HistoryCapacity - 1);
      var want := (full + [rec])[n..];
      assert Newest(full + [rec], HistoryCapacity) == want;
      assert |r| == HistoryCapacity == |want|;
      assert r[..HistoryCapacity - 1] == mid[|mid| - (HistoryCapacity - 1)..];
      assert mid[|mid| - (HistoryCapacity - 1)..] == full[n..];
      assert want == full[n..] + [rec];
      assert r == r[..HistoryCapacity - 1] + [rec];
    }
  }

  /** FIFO ring: after any run of ledger steps the history is exactly the newest
      100 of everything ever pushed, in push order. (A stored history longer
      than 100 is only trimmed by the next push, hence the precondition.) */
  lemma {:induction false} AppendAllKeepsNewest(h: seq<HistoryRecord>, recs: seq<HistoryRecord>)
    requires |h| <= HistoryCapacity || recs != []
    ensures AppendAll(h, recs) == Newest(h + recs, HistoryCapacity)
    decreases |recs|
  {
    if recs == [] {
      assert h + recs == h;
    } else {
      var init, last := recs[..|recs| - 1], recs[|recs| - 1];
      assert recs == init + [last];
      assert h + recs == (h + init) + [last];
      var mid := AppendAll(h, init);
      if init == [] {
        assert mid == h && h + init == h;
      } else {
        AppendAllKeepsNewest(h, init);
      }
      PushOntoSuffix(h + init, mid, last);
    }
  }

  /** The ledger never holds more than 100 records after a push. */
  lemma AppendAllBounded(h: seq<HistoryRecord>, recs: seq<HistoryRecord>)
    requires |recs| > 0
    ensures |AppendAll(h, recs)| <= HistoryCapacity
  {
  }

  /** The record a completed check appends. */
  function RecordOf(result: ProbeResult, threshold: Option<int>, now: int): HistoryRecord {
    HistoryRecord(now, Classify(result, threshold), result.responseTime, result.statusCode)
  }

  /** The site after one check at time `now`.
      On an answer: the classified status, the reported latency, the check time,
      and one more ledger record. On an exception: offline and the check time,
      and nothing else changes. */
  function CheckedSite(site: Site, outcome: CheckOutcome, now: int): Site {
    match outcome
    case Threw => site.(status := Offline, lastChecked := Some(now))
    case Answered(result) =>
      site.(status := Classify(result, site.responseThreshold),
            responseTime := result.responseTime,
            lastChecked := Some(now),
            history := AppendBounded(site.history, RecordOf(result, site.responseThreshold, now)))
  }

  /** The alert the check sequence raises: only after an answer, only on a
      change into offline or slow, and then whatever the dispatcher makes of
      the updated site. */
  function CheckAlert(site: Site, outcome: CheckOutcome, now: int): Option<Dispatch> {
    match outcome
    case Threw => None
    case Answered(result) =>
      var checked := CheckedSite(site, outcome, now);
      if ShouldAlert(site.status, checked.status)
      then SendNotification(checked, checked.status, site.status)
      else None
  }

  /** The records a run of answered checks pushes, the `j`-th for
      `results[j]` at `times[j]`. */
  function RecordsOf(results: seq<ProbeResult>, threshold: Option<int>, times: seq<int>): (r: seq<HistoryRecord>)
    requires |times| == |results|
    ensures |r| == |results|
    decreases |results|
  {
    if results == [] then []
    else
      var n := |results| - 1;
      RecordsOf(results[..n], threshold, times[..n]) + [RecordOf(results[n], threshold, times[n])]
  }

  /** The site after a run of answered checks, the `j`-th answered by
      `results[j]` at `times[j]`. */
  function CheckedMany(site: Site, results: seq<ProbeResult>, times: seq<int>): Site
    requires |times| == |results|
    decreases |results|
  {
    if results == [] then site
    else
      var n := |results| - 1;
      CheckedSite(CheckedMany(site, results[..n], times[..n]), Answered(results[n]), times[n])
  }

  /** Answered checks push their records through the ledger one by one and
      keep the threshold. */
  lemma {:induction false} CheckedManyHistory(site: Site, results: seq<ProbeResult>, times: seq<int>)
    requires |times| == |results|
    ensures CheckedMany(site, results, times).responseThreshold == site.responseThreshold
    ensures CheckedMany(site, results, times).history ==
      AppendAll(site.history, RecordsOf(results, site.responseThreshold, times))
    decreases |results|
  {
    if results != [] {
      var n := |results| - 1;
      CheckedManyHistory(site, results[..n], times[..n]);
      var recs := RecordsOf(results, site.responseThreshold, times);
      assert recs[..n] == RecordsOf(results[..n], site.responseThreshold, times[..n]);
      assert recs[n] == RecordOf(results[n], site.responseThreshold, times[n]);
    }
  }

  /** Repeated answered checks of one site leave its ledger holding exactly the
      newest 100 of its earlier records followed by the new ones, in order. */
  lemma RepeatedChecksKeepNewest(site: Site, results: seq<ProbeResult>, times: seq<int>)
    requires |times| == |results|
    requires |site.history| <= HistoryCapacity || results != []
    ensures CheckedMany(site, results, times).history ==
      Newest(site.history + RecordsOf(results, site.responseThreshold, times), HistoryCapacity)
  {
    CheckedManyHistory(site, results, times);
    AppendAllKeepsNewest(site.history, RecordsOf(results, site.responseThreshold, times));
  }

  /** A check never touches the site's identity or configuration. */
  lemma CheckKeepsConfiguration(site: Site, outcome: CheckOutcome, now: int)
    ensures var c := CheckedSite(site, outcome, now);
      c.id == site.id && c.name == site.name && c.url == site.url &&
      c.interval == site.interval && c.responseThreshold == site.responseThreshold &&
      c.notifications == site.notifications && c.createdAt == site.createdAt
  {
  }

  /** Every check ends in a definite status and records its time. */
  lemma CheckSetsStatusAndTime(site: Site, outcome: CheckOutcome, now: int)
    ensures CheckedSite(site, outcome, now).status != Unknown
    ensures CheckedSite(site, outcome, now).lastChecked == Some(now)
    ensures outcome.Answered? ==>
      CheckedSite(site, outcome, now).status == Classify(outcome.result, site.responseThreshold)
  {
  }

  /** The new status depends only on the answer and the threshold, never on
      the previous status or the history. */
  lemma StatusIgnoresPast(a: Site, b: Site, outcome: CheckOutcome, now: int, later: int)
    requires a.responseThreshold == b.responseThreshold
    ensures CheckedSite(a, outcome, now).status == CheckedSite(b, outcome, later).status
  {
  }

  /** An answered check appends exactly one record describing it, at the end,
      and keeps the newest earlier records in order. */
  lemma AnsweredCheckHistory(site: Site, result: ProbeResult, now: int)
    ensures var c := CheckedSite(site, Answered(result), now);
      && |c.history| == (if |site.history| < HistoryCapacity then |site.history| + 1 else HistoryCapacity)
      && c.history[|c.history| - 1] == HistoryRecord(now, c.status, result.responseTime, result.statusCode)
      && c.history[..|c.history| - 1] == site.history[|site.history| - (|c.history| - 1)..]
      && c.responseTime == result.responseTime
  {
  }

  /** The exception path marks the site offline at `now` and leaves its history
      and latency as they were; no alert is evaluated. */
  lemma ThrownCheck(site: Site, now: int)
    ensures var c := CheckedSite(site, Threw, now);
      c.status == Offline && c.lastChecked == Some(now) &&
      c.history == site.history && c.responseTime == site.responseTime
    ensures CheckAlert(site, Threw, now) == None
  {
  }

  /** The alert fires exactly on an answered check that changes the status into
      offline or slow while some channel is on; its in-app part only when the
      in-app switch is on. */
  lemma AlertCondition(site: Site, outcome: CheckOutcome, now: int)
    ensures var c := CheckedSite(site, outcome, now);
      CheckAlert(site, outcome, now).Some? <==>
        outcome.Answered? && site.status != c.status && (c.status == Offline || c.status == Slow) &&
        site.notifications.Some? && AnyChannel(site.notifications.value)
    ensures CheckAlert(site, outcome, now).Some? ==>
      CheckAlert(site, outcome, now).value.inApp == site.notifications.value.inapp
  {
  }

  /** The slow alert quotes the latency just stored on the site, and the
      offline alert names the site. */
  lemma AlertMessage(site: Site, result: ProbeResult, now: int)
    requires CheckAlert(site, Answered(result), now).Some?
    ensures var d := CheckAlert(site, Answered(result), now).value;
      var c := CheckedSite(site, Answered(result), now);
      && Text.Includes(d.message, site.name)
      && (c.status == Slow ==>
            c.responseTime.Some? &&
            Text.Includes(d.message, Text.IntToString(c.responseTime.value) + SlowSuffix))
  {
    var c := CheckedSite(site, Answered(result), now);
    if c.status == Slow {
      SlowTextNamesSiteAndLatency(site.name, c.responseTime.value);
    } else {
      OfflineTextNamesSite(site.name, c.responseTime);
    }
  }

  /** The first check of a new site alerts exactly when it is not online. */
  lemma FirstCheckAlertsOnDegradation(site: Site, result: ProbeResult, now: int)
    requires site.status == Unknown
    requires site.notifications.Some? && AnyChannel(site.notifications.value)
    ensures CheckAlert(site, Answered(result), now).Some? <==>
      CheckedSite(site, Answered(result), now).status != Online
  {
  }

  /** With threshold 500, a 600 ms answer makes the site slow and appends one
      slow record of 600 ms. */
  lemma SlowScenario(site: Site, now: int)
    requires site.responseThreshold == Some(500)
    ensures var c := CheckedSite(site, Answered(ProbeResult(true, Some(600), Some(200))), now);
      c.status == Slow && c.history[|c.history| - 1] == HistoryRecord(now, Slow, Some(600), Some(200))
  {
  }

  /** An online site whose probe fails goes offline and alerts every enabled channel. */
  lemma OfflineScenario(site: Site, now: int)
    requires site.status == Online
    requires site.notifications.Some? && AnyChannel(site.notifications.value)
    ensures CheckedSite(site, Answered(ProbeResult(false, None, None)), now).status == Offline
    ensures var a := CheckAlert(site, Answered(ProbeResult(false, None, None)), now);
      a.Some? && a.value.level == Error && a.value.channels == site.notifications.value
  {
  }
}
