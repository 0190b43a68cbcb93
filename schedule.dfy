/** Driving checks over the registry: a check of the site with a given id
    (as `checkSiteStatus(siteId)` locates it), runs of such checks in order
    (`refreshAllSitesStatus` and the periodic tick), and the rule by which the
    tick picks the sites that are due. */
module Schedule {
  import opened Sites
  import opened Checker
  import opened Notify

  /** Spacing between automatic checks: `(interval || 300) * 1000`, so a
      missing (NaN) or zero interval means 300 seconds. */
  function IntervalMs(interval: Option<int>): (r: int)
    ensures interval.Some? && interval.value != 0 ==> r == interval.value * 1000
    ensures interval.None? || interval.value == 0 ==> r == 300000
  {
    match interval
    case Some(v) => if v != 0 then v * 1000 else 300 * 1000
    case None => 300 * 1000
  }

  /** Time of the last check, a never-checked site counting as checked at 0. */
  function LastCheckedMs(site: Site): int {
    match site.lastChecked
    case Some(t) => t
    case None => 0
  }

  /** The tick checks a site when its interval has elapsed since its last check. */
  predicate IsDue(site: Site, now: int) {
    now - LastCheckedMs(site) >= IntervalMs(site.interval)
  }

  /** A site just checked is not due again until its interval has passed; in
      particular not at the instant of the check, when the interval is positive. */
  lemma NotDueBeforeInterval(site: Site, outcome: CheckOutcome, t: int, now: int)
    requires now - t < IntervalMs(site.interval)
    ensures !IsDue(CheckedSite(site, outcome, t), now)
  {
  }

  lemma NotDueAtCheckTime(site: Site, outcome: CheckOutcome, t: int)
    requires IntervalMs(site.interval) > 0
    ensures !IsDue(CheckedSite(site, outcome, t), t)
  {
    NotDueBeforeInterval(site, outcome, t, t);
  }

  /** A never-checked site is due as soon as one interval has passed since time 0. */
  lemma NeverCheckedDue(site: Site, now: int)
    requires site.lastChecked.None?
    ensures IsDue(site, now) <==> now >= IntervalMs(site.interval)
  {
  }

  /** The registry after one check of a given id, and the alert it raised. */
  datatype Step = Step(sites: seq<Site>, alert: Option<Dispatch>)

  /** `checkSiteStatus(id)`: the first site with that id is checked; with no
      such site nothing happens. */
  function CheckInRegistry(sites: seq<Site>, id: string, outcome: CheckOutcome, now: int): (r: Step)
    ensures |r.sites| == |sites|
    ensures forall i :: 0 <= i < |sites| ==> r.sites[i].id == sites[i].id
    ensures FindIndex(sites, id).None? ==> r == Step(sites, None)
    ensures forall i :: 0 <= i < |sites| && Some(i) != FindIndex(sites, id) ==> r.sites[i] == sites[i]
    ensures FindIndex(sites, id).Some? ==> var i := FindIndex(sites, id).value;
      r.sites[i] == CheckedSite(sites[i], outcome, now) && r.alert == CheckAlert(sites[i], outcome, now)
  {
    match FindIndex(sites, id)
    case None => Step(sites, None)
    case Some(i) =>
      CheckKeepsConfiguration(sites[i], outcome, now);
      Step(sites[i := CheckedSite(sites[i], outcome, now)], CheckAlert(sites[i], outcome, now))
  }

  /** The registry and the alerts after checking `ids` one after another,
      the `j`-th check answered by `outcomes[j]` at time `times[j]`. */
  datatype Run = Run(sites: seq<Site>, alerts: seq<Option<Dispatch>>)

  function RunChecks(sites: seq<Site>, ids: seq<string>, outcomes: seq<CheckOutcome>, times: seq<int>): (r: Run)
    requires |outcomes| == |ids| && |times| == |ids|
    ensures |r.sites| == |sites| && |r.alerts| == |ids|
    ensures forall i :: 0 <= i < |sites| ==> r.sites[i].id == sites[i].id
    decreases |ids|
  {
    if ids == [] then Run(sites, [])
    else
      var n := |ids| - 1;
      var prev := RunChecks(sites, ids[..n], outcomes[..n], times[..n]);
      var step := CheckInRegistry(prev.sites, ids[n], outcomes[n], times[n]);
      Run(step.sites, prev.alerts + [step.alert])
  }

  /** Checks keep ids in place, so they keep ids unique. */
  lemma RunChecksKeepsUniqueIds(sites: seq<Site>, ids: seq<string>, outcomes: seq<CheckOutcome>, times: seq<int>)
    requires |outcomes| == |ids| && |times| == |ids|
    requires UniqueIds(sites)
    ensures UniqueIds(RunChecks(sites, ids, outcomes, times).sites)
  {
    var r := RunChecks(sites, ids, outcomes, times).sites;
    forall i, j | 0 <= i < j < |r| ensures r[i].id != r[j].id {
      assert r[i].id == sites[i].id && r[j].id == sites[j].id;
    }
  }

  /** Position of the first occurrence of `id` in `ids`. */
  function IndexOf(ids: seq<string>, id: string): (r: Option<nat>)
    ensures r.Some? ==> r.value < |ids| && ids[r.value] == id
    ensures r.Some? ==> forall k :: 0 <= k < r.value ==> ids[k] != id
    ensures r.None? <==> id !in ids
  {
    if ids == [] then None
    else if ids[0] == id then Some(0)
    else match IndexOf(ids[1..], id)
      case None => None
      case Some(k) => Some(k + 1)
  }

  /** What a run does to one site: the check answered at the position of its id
      in the list, or nothing when its id is not listed. */
  function SiteAfterRun(site: Site, ids: seq<string>, outcomes: seq<CheckOutcome>, times: seq<int>): Site
    requires |outcomes| == |ids| && |times| == |ids|
  {
    match IndexOf(ids, site.id)
    case None => site
    case Some(j) => CheckedSite(site, outcomes[j], times[j])
  }

  /** Dropping the last id of a list without repetitions does not move any other id. */
  lemma IndexOfInit(ids: seq<string>, id: string)
    requires Distinct(ids) && ids != []
    ensures id == ids[|ids| - 1] ==> IndexOf(ids, id) == Some(|ids| - 1) && id !in ids[..|ids| - 1]
    ensures id != ids[|ids| - 1] ==> IndexOf(ids, id) == IndexOf(ids[..|ids| - 1], id)
  {
    var n := |ids| - 1;
    if id == ids[n] {
      assert forall k :: 0 <= k < n ==> ids[..n][k] != id;
    } else {
      assert id in ids <==> id in ids[..n] by {
        assert ids == ids[..n] + [ids[n]];
      }
    }
  }

  /** With unique site ids and no id listed twice, a run checks each listed
      site exactly once, with the answer given for its position in the list,
      and leaves every unlisted site as it was. */
  lemma {:induction false} RunChecksAt(sites: seq<Site>, ids: seq<string>, outcomes: seq<CheckOutcome>, times: seq<int>, i: nat)
    requires |outcomes| == |ids| && |times| == |ids|
    requires UniqueIds(sites) && Distinct(ids) && i < |sites|
    ensures RunChecks(sites, ids, outcomes, times).sites[i] == SiteAfterRun(sites[i], ids, outcomes, times)
    decreases |ids|
  {
    if ids != [] {
      var n := |ids| - 1;
      var ids', os', ts' := ids[..n], outcomes[..n], times[..n];
      assert Distinct(ids');
      RunChecksAt(sites, ids', os', ts', i);
      var prev := RunChecks(sites, ids', os', ts');
      RunChecksKeepsUniqueIds(sites, ids', os', ts');
      FindIndexUnique(prev.sites, i);
      IndexOfInit(ids, sites[i].id);
      var j := IndexOf(ids, sites[i].id);
      if j.Some? && j.value < n {
        assert os'[j.value] == outcomes[j.value] && ts'[j.value] == times[j.value];
      }
    }
  }

  /** The alert of the `j`-th check of a run: that of checking the site holding
      `ids[j]` as it was before the run, or none when no site holds that id. */
  lemma {:induction false} RunAlertAt(sites: seq<Site>, ids: seq<string>, outcomes: seq<CheckOutcome>, times: seq<int>, j: nat)
    requires |outcomes| == |ids| && |times| == |ids|
    requires UniqueIds(sites) && Distinct(ids) && j < |ids|
    ensures RunChecks(sites, ids, outcomes, times).alerts[j] ==
      CheckInRegistry(sites, ids[j], outcomes[j], times[j]).alert
    decreases |ids|
  {
    var n := |ids| - 1;
    var ids', os', ts' := ids[..n], outcomes[..n], times[..n];
    assert Distinct(ids');
    var prev := RunChecks(sites, ids', os', ts');
    var all := RunChecks(sites, ids, outcomes, times);
    assert all.alerts == prev.alerts + [CheckInRegistry(prev.sites, ids[n], outcomes[n], times[n]).alert];
    if j < n {
      RunAlertAt(sites, ids', os', ts', j);
      assert all.alerts[j] == prev.alerts[j];
    } else {
      var id := ids[n];
      assert forall k :: 0 <= k < |sites| ==> (prev.sites[k].id == id <==> sites[k].id == id);
      var p := FindIndex(sites, id);
      assert FindIndex(prev.sites, id) == p;
      if p.Some? {
        RunChecksAt(sites, ids', os', ts', p.value);
        IndexOfInit(ids, id);
        assert prev.sites[p.value] == sites[p.value];
      }
    }
  }

  /** Refresh-all checks every site of a registry with unique ids exactly once,
      in registry order, the `i`-th site with the `i`-th answer. */
  lemma RefreshAllChecksEachOnce(sites: seq<Site>, outcomes: seq<CheckOutcome>, times: seq<int>, i: nat)
    requires |outcomes| == |sites| && |times| == |sites|
    requires UniqueIds(sites) && i < |sites|
    ensures var r := RunChecks(sites, Ids(sites), outcomes, times);
      r.sites[i] == CheckedSite(sites[i], outcomes[i], times[i]) &&
      r.alerts[i] == CheckAlert(sites[i], outcomes[i], times[i])
  {
    var ids := Ids(sites);
    UniqueIdsDistinct(sites);
    RunChecksAt(sites, ids, outcomes, times, i);
    RunAlertAt(sites, ids, outcomes, times, i);
    FindIndexUnique(sites, i);
    assert IndexOf(ids, sites[i].id) == Some(i);
  }

  /** The ids of the sites that are due at `now`, in registry order: the sites
      the tick checks. */
  function DueIds(sites: seq<Site>, now: int): (r: seq<string>)
    ensures |r| <= |sites|
  {
    if sites == [] then []
    else (if IsDue(sites[0], now) then [sites[0].id] else []) + DueIds(sites[1..], now)
  }

  /** An id is on the due list exactly when some site holding it is due. */
  lemma {:induction false} DueIdsMembers(sites: seq<Site>, now: int, id: string)
    ensures id in DueIds(sites, now) <==> exists i :: 0 <= i < |sites| && sites[i].id == id && IsDue(sites[i], now)
  {
    if sites != [] {
      DueIdsMembers(sites[1..], now, id);
      assert forall i :: 1 <= i < |sites| ==> sites[i] == sites[1..][i - 1];
      if id in DueIds(sites[1..], now) {
        var i :| 0 <= i < |sites[1..]| && sites[1..][i].id == id && IsDue(sites[1..][i], now);
        assert sites[i + 1] == sites[1..][i];
      }
    }
  }

  /** Sites with unique ids give a due list without repetitions. */
  lemma {:induction false} DueIdsDistinct(sites: seq<Site>, now: int)
    requires UniqueIds(sites)
    ensures Distinct(DueIds(sites, now))
  {
    if sites != [] {
      var rest := DueIds(sites[1..], now);
      assert UniqueIds(sites[1..]);
      DueIdsDistinct(sites[1..], now);
      if IsDue(sites[0], now) {
        forall i | 0 <= i < |sites[1..]| ensures sites[1..][i].id != sites[0].id {
          assert sites[1..][i] == sites[i + 1];
        }
        DueIdsMembers(sites[1..], now, sites[0].id);
        assert sites[0].id !in rest;
        var r := DueIds(sites, now);
        assert r == [sites[0].id] + rest;
        forall a, b | 0 <= a < b < |r| ensures r[a] != r[b] {
          if a == 0 {
            assert r[b] == rest[b - 1];
          } else {
            assert r[a] == rest[a - 1] && r[b] == rest[b - 1];
          }
        }
      }
    }
  }

  /** A registry in which no site is due gives an empty due list. */
  lemma {:induction false} NoneDue(sites: seq<Site>, now: int)
    requires forall i :: 0 <= i < |sites| ==> !IsDue(sites[i], now)
    ensures DueIds(sites, now) == []
  {
    if sites != [] {
      assert forall i :: 0 <= i < |sites[1..]| ==> sites[1..][i] == sites[i + 1];
      NoneDue(sites[1..], now);
    }
  }

  /** The tick run: each due site checked once, in registry order. */
  function TickRun(sites: seq<Site>, now: int, outcomes: seq<CheckOutcome>, times: seq<int>): Run
    requires |outcomes| == |DueIds(sites, now)| && |times| == |DueIds(sites, now)|
  {
    RunChecks(sites, DueIds(sites, now), outcomes, times)
  }

  /** Due-check gating: when every interval is positive and the tick's checks
      complete no earlier than the tick, a second tick at the same instant finds
      nothing due, so it probes no site again. */
  lemma TickTwiceProbesOnce(sites: seq<Site>, now: int, outcomes: seq<CheckOutcome>, times: seq<int>)
    requires |outcomes| == |DueIds(sites, now)| && |times| == |DueIds(sites, now)|
    requires UniqueIds(sites)
    requires forall i :: 0 <= i < |sites| ==> IntervalMs(sites[i].interval) > 0
    requires forall j :: 0 <= j < |times| ==> times[j] >= now
    ensures DueIds(TickRun(sites, now, outcomes, times).sites, now) == []
  {
    var ids := DueIds(sites, now);
    DueIdsDistinct(sites, now);
    var r := TickRun(sites, now, outcomes, times).sites;
    forall i | 0 <= i < |r| ensures !IsDue(r[i], now) {
      RunChecksAt(sites, ids, outcomes, times, i);
      match IndexOf(ids, sites[i].id)
      case Some(j) =>
        NotDueBeforeInterval(sites[i], outcomes[j], times[j], now);
      case None =>
        DueIdsMembers(sites, now, sites[i].id);
    }
    NoneDue(r, now);
  }

  /** The due list of a registry is the due list of its parts, in order. */
  lemma {:induction false} DueIdsAppend(a: seq<Site>, b: seq<Site>, now: int)
    ensures DueIds(a + b, now) == DueIds(a, now) + DueIds(b, now)
  {
    if a == [] {
      assert a + b == b;
    } else {
      var head := if IsDue(a[0], now) then [a[0].id] else [];
      assert (a + b)[0] == a[0] && (a + b)[1..] == a[1..] + b;
      DueIdsAppend(a[1..], b, now);
      assert DueIds(a + b, now) == head + (DueIds(a[1..], now) + DueIds(b, now));
    }
  }

  /** A run extended by one more check is that check applied after the run. */
  lemma RunChecksSnoc(sites: seq<Site>, ids: seq<string>, outcomes: seq<CheckOutcome>, times: seq<int>,
                      id: string, outcome: CheckOutcome, now: int)
    requires |outcomes| == |ids| && |times| == |ids|
    ensures var prev := RunChecks(sites, ids, outcomes, times);
      var step := CheckInRegistry(prev.sites, id, outcome, now);
      RunChecks(sites, ids + [id], outcomes + [outcome], times + [now]) == Run(step.sites, prev.alerts + [step.alert])
  {
    var n := |ids|;
    assert (ids + [id])[..n] == ids;
    assert (outcomes + [outcome])[..n] == outcomes;
    assert (times + [now])[..n] == times;
  }

  /** One check keeps every stored history within 100 records. */
  lemma CheckKeepsHistoryBounded(sites: seq<Site>, id: string, outcome: CheckOutcome, now: int)
    requires HistoryBounded(sites)
    ensures HistoryBounded(CheckInRegistry(sites, id, outcome, now).sites)
  {
  }

  /** Every id of the registry is still found after a run of checks. */
  lemma RunChecksFinds(sites: seq<Site>, ids: seq<string>, outcomes: seq<CheckOutcome>, times: seq<int>, id: string)
    requires |outcomes| == |ids| && |times| == |ids|
    requires FindIndex(sites, id).Some?
    ensures FindIndex(RunChecks(sites, ids, outcomes, times).sites, id).Some?
  {
    var r := RunChecks(sites, ids, outcomes, times).sites;
    var k := FindIndex(sites, id).value;
    assert r[k].id == id;
  }

  /** The first `k` checks of a run. */
  function RunPrefix(sites: seq<Site>, ids: seq<string>, outcomes: seq<CheckOutcome>, times: seq<int>, k: nat): Run
    requires |outcomes| == |ids| && |times| == |ids| && k <= |ids|
  {
    RunChecks(sites, ids[..k], outcomes[..k], times[..k])
  }

  /** One more check extends the prefix; the whole list is the whole run. */
  lemma RunPrefixStep(sites: seq<Site>, ids: seq<string>, outcomes: seq<CheckOutcome>, times: seq<int>, k: nat)
    requires |outcomes| == |ids| && |times| == |ids| && k < |ids|
    ensures var p := RunPrefix(sites, ids, outcomes, times, k);
      var step := CheckInRegistry(p.sites, ids[k], outcomes[k], times[k]);
      RunPrefix(sites, ids, outcomes, times, k + 1) == Run(step.sites, p.alerts + [step.alert])
  {
    assert ids[..k + 1][..k] == ids[..k];
    assert outcomes[..k + 1][..k] == outcomes[..k];
    assert times[..k + 1][..k] == times[..k];
  }

  lemma RunPrefixAll(sites: seq<Site>, ids: seq<string>, outcomes: seq<CheckOutcome>, times: seq<int>)
    requires |outcomes| == |ids| && |times| == |ids|
    ensures RunPrefix(sites, ids, outcomes, times, |ids|) == RunChecks(sites, ids, outcomes, times)
  {
    assert ids[..|ids|] == ids && outcomes[..|ids|] == outcomes && times[..|ids|] == times;
  }

  /** The due list of a registry prefix grows by the next site's id exactly
      when that site is due. */
  lemma DueIdsStep(sites: seq<Site>, i: nat, now: int)
    requires i < |sites|
    ensures DueIds(sites[..i + 1], now) ==
      DueIds(sites[..i], now) + (if IsDue(sites[i], now) then [sites[i].id] else [])
  {
    assert sites[..i + 1] == sites[..i] + [sites[i]];
    DueIdsAppend(sites[..i], [sites[i]], now);
    assert [sites[i]][1..] == [];
  }

  /** Every id on the due list is found in the registry. */
  lemma DueIdsFound(sites: seq<Site>, now: int)
    ensures var due := DueIds(sites, now);
      forall j :: 0 <= j < |due| ==> FindIndex(sites, due[j]).Some?
  {
    var due := DueIds(sites, now);
    forall j | 0 <= j < |due| ensures FindIndex(sites, due[j]).Some? {
      DueIdsMembers(sites, now, due[j]);
    }
  }
}
