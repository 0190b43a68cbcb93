/** The page's monitoring state and the handlers that change it: the site
    registry, the table page, the search box, and the last registry snapshot
    written to storage by `saveSites`. Probe answers, the clock and the
    generated ids are parameters of the handlers. */
module App {
  import opened Sites
  import opened Checker
  import opened Notify
  import opened Schedule
  import opened Registry
  import opened Stats
  import Pages

  /** How the site form was handled. */
  datatype SubmitResult = InvalidUrl | Updated | UnknownSite | Added

  /** Adding a site under a fresh id and then checking that id checks the new
      site and nothing else. */
  lemma AddThenCheck(sites: seq<Site>, form: SiteForm, id: string, createdAt: int, outcome: CheckOutcome, now: int)
    requires id !in Ids(sites)
    ensures var s := NewSite(id, form, createdAt);
      var r := CheckInRegistry(sites + [s], id, outcome, now);
      r.sites == sites + [CheckedSite(s, outcome, now)] && r.alert == CheckAlert(s, outcome, now)
  {
    var s := NewSite(id, form, createdAt);
    var all := sites + [s];
    forall k | 0 <= k < |sites| ensures all[k].id != id {
      assert all[k].id == Ids(sites)[k];
    }
    assert all[|sites|] == s && s.id == id;
    var f := FindIndex(all, id);
    assert f.Some? && f.value >= |sites|;
    assert all[|sites| := CheckedSite(s, outcome, now)] == sites + [CheckedSite(s, outcome, now)];
  }

  /** Checks keep ids unique, so adding under a fresh id and checking does too. */
  lemma AddThenCheckKeepsUniqueIds(sites: seq<Site>, form: SiteForm, id: string, createdAt: int, outcome: CheckOutcome, now: int)
    requires UniqueIds(sites) && id !in Ids(sites)
    ensures UniqueIds(CheckInRegistry(sites + [NewSite(id, form, createdAt)], id, outcome, now).sites)
  {
    var all := sites + [NewSite(id, form, createdAt)];
    AddKeepsUniqueIds(sites, NewSite(id, form, createdAt));
    RunChecksKeepsUniqueIds(all, [id], [outcome], [now]);
    RunChecksSnoc(all, [], [], [], id, outcome, now);
  }

  /** Under a taken id, the check after adding goes to the older site with
      that id, and the new site stays unchecked. */
  lemma AddUnderTakenIdChecksOlderSite(sites: seq<Site>, form: SiteForm, id: string, createdAt: int, outcome: CheckOutcome, now: int)
    requires id in Ids(sites)
    ensures var r := CheckInRegistry(sites + [NewSite(id, form, createdAt)], id, outcome, now);
      r.sites[|sites|] == NewSite(id, form, createdAt) && r.sites[|sites|].status == Unknown
  {
    var all := sites + [NewSite(id, form, createdAt)];
    var k :| 0 <= k < |sites| && Ids(sites)[k] == id;
    assert all[k].id == id;
    assert FindIndex(all, id).Some? && FindIndex(all, id).value <= k;
  }

  /** Editing a site and then checking it gives the checked edited site in its
      place; the ledger continues from the old history. */
  lemma EditThenCheck(sites: seq<Site>, i: nat, form: SiteForm, outcome: CheckOutcome, now: int)
    requires UniqueIds(sites) && i < |sites|
    ensures var id := sites[i].id;
      var r := CheckInRegistry(EditInRegistry(sites, id, form), id, outcome, now);
      && |r.sites| == |sites|
      && r.sites[i] == CheckedSite(EditSite(sites[i], form), outcome, now)
      && (forall k :: 0 <= k < |sites| && k != i ==> r.sites[k] == sites[k])
      && r.alert == CheckAlert(EditSite(sites[i], form), outcome, now)
  {
    var id := sites[i].id;
    FindIndexUnique(sites, i);
    var edited := EditInRegistry(sites, id, form);
    assert UniqueIds(edited);
    FindIndexUnique(edited, i);
  }

  /** The body of `checkSiteStatus` once the site is found: on an answer
      classify it, store status, latency and time, push a record and trim the
      ledger to the newest 100, then alert on a change into offline or slow;
      on an exception mark the site offline at `now` without an alert. */
  method ApplyOutcome(site: Site, outcome: CheckOutcome, now: int) returns (updated: Site, alert: Option<Dispatch>)
    ensures updated == CheckedSite(site, outcome, now)
    ensures alert == CheckAlert(site, outcome, now)
  {
    updated := site;
    match outcome {
      case Threw =>
        updated := updated.(status := Offline, lastChecked := Some(now));
        alert := None;
      case Answered(result) =>
        var status := Online;
        if !result.success {
          status := Offline;
        } else if result.responseTime.Some? && result.responseTime.value > EffectiveThreshold(site.responseThreshold) {
          status := Slow;
        }
        assert status == Classify(result, site.responseThreshold);
        var previous := site.status;
        var history := site.history + [HistoryRecord(now, status, result.responseTime, result.statusCode)];
        assert history == site.history + [RecordOf(result, site.responseThreshold, now)];
        if |history| > HistoryCapacity {
          history := history[|history| - HistoryCapacity..];
        }
        assert history == AppendBounded(site.history, RecordOf(result, site.responseThreshold, now));
        updated := updated.(status := status, responseTime := result.responseTime, lastChecked := Some(now), history := history);
        if previous != status && (status == Offline || status == Slow) {
          alert := SendNotification(updated, status, previous);
        } else {
          alert := None;
        }
    }
  }

  /** The tick's pass over the registry: the ids of the sites whose
      interval has elapsed at `now`, a missing check time counting as 0 and a
      missing interval as 300 seconds, in registry order. */
  method CollectDue(registry: seq<Site>, now: int) returns (due: seq<string>)
    ensures due == DueIds(registry, now)
  {
    due := [];
    for i := 0 to |registry|
      invariant due == DueIds(registry[..i], now)
    {
      DueIdsStep(registry, i, now);
      var lastChecked := LastCheckedMs(registry[i]);
      var intervalMs := IntervalMs(registry[i].interval);
      if now - lastChecked >= intervalMs {
        due := due + [registry[i].id];
      }
    }
    assert registry[..|registry|] == registry;
  }

  class Monitor {
    /** `sites`: the registry in insertion order. */
    var sites: seq<Site>
    /** `currentPage`: the table page on show, counted from 1. */
    var currentPage: int
    /** The text of the search box. */
    var searchTerm: string
    /** What the last `saveSites` wrote (to the cloud endpoint and to local storage). */
    var saved: seq<Site>

    ghost predicate Valid()
      reads this
    {
      currentPage >= 1
    }

    /** The state after `loadSites`: the loaded registry, the first page and an
        empty search box. */
    constructor (loaded: seq<Site>)
      ensures Valid()
      ensures sites == loaded && saved == loaded && currentPage == 1 && searchTerm == ""
    {
      sites := loaded;
      saved := loaded;
      currentPage := 1;
      searchTerm := "";
    }

    /** `checkSiteStatus(id)`: find the first site with the id, apply the
        outcome of its probe to it in place and save. With no such site
        nothing happens. */
    method CheckSite(id: string, outcome: CheckOutcome, now: int) returns (alert: Option<Dispatch>)
      modifies this
      ensures var step := CheckInRegistry(old(sites), id, outcome, now);
        sites == step.sites && alert == step.alert
      ensures FindIndex(old(sites), id).Some? ==> saved == sites
      ensures FindIndex(old(sites), id).None? ==> saved == old(saved)
      ensures currentPage == old(currentPage) && searchTerm == old(searchTerm)
    {
      var registry := sites;
      var i := 0;
      while i < |registry| && registry[i].id != id
        invariant 0 <= i <= |registry|
        invariant forall k :: 0 <= k < i ==> registry[k].id != id
      {
        i := i + 1;
      }
      if i == |registry| {
        return None;
      }
      assert FindIndex(registry, id) == Some(i);
      var site;
      site, alert := ApplyOutcome(registry[i], outcome, now);
      sites := registry[i := site];
      saved := sites;
    }

    /** Checks `ids` one after another, the `k`-th with `outcomes[k]` at
        `times[k]`; every id is on the registry. */
    method CheckInOrder(ids: seq<string>, outcomes: seq<CheckOutcome>, times: seq<int>) returns (alerts: seq<Option<Dispatch>>)
      requires |outcomes| == |ids| && |times| == |ids|
      requires forall j :: 0 <= j < |ids| ==> FindIndex(sites, ids[j]).Some?
      modifies this
      ensures var r := RunChecks(old(sites), ids, outcomes, times);
        sites == r.sites && alerts == r.alerts
      ensures ids != [] ==> saved == sites
      ensures ids == [] ==> saved == old(saved)
      ensures currentPage == old(currentPage) && searchTerm == old(searchTerm)
    {
      var start := sites;
      alerts := [];
      for k := 0 to |ids|
        invariant sites == RunPrefix(start, ids, outcomes, times, k).sites
        invariant alerts == RunPrefix(start, ids, outcomes, times, k).alerts
        invariant k > 0 ==> saved == sites
        invariant k == 0 ==> saved == old(saved)
        invariant currentPage == old(currentPage) && searchTerm == old(searchTerm)
      {
        RunChecksFinds(start, ids[..k], outcomes[..k], times[..k], ids[k]);
        RunPrefixStep(start, ids, outcomes, times, k);
        var alert := CheckSite(ids[k], outcomes[k], times[k]);
        alerts := alerts + [alert];
      }
      RunPrefixAll(start, ids, outcomes, times);
    }

    /** `refreshAllSitesStatus`: check every site in registry order, one after
        another, the `k`-th with `outcomes[k]` at `times[k]`. */
    method RefreshAll(outcomes: seq<CheckOutcome>, times: seq<int>) returns (alerts: seq<Option<Dispatch>>)
      requires |outcomes| == |sites| && |times| == |sites|
      modifies this
      ensures var r := RunChecks(old(sites), Ids(old(sites)), outcomes, times);
        sites == r.sites && alerts == r.alerts
      ensures old(sites) != [] ==> saved == sites
      ensures old(sites) == [] ==> saved == old(saved)
      ensures currentPage == old(currentPage) && searchTerm == old(searchTerm)
    {
      var ids := Ids(sites);
      forall j | 0 <= j < |ids| ensures FindIndex(sites, ids[j]).Some? {
        assert sites[j].id == ids[j];
      }
      alerts := CheckInOrder(ids, outcomes, times);
    }

    /** One tick of the periodic timer at `now`. The pass over the registry
        decides which sites are due, all on the registry as it stands at the
        tick, and starts a check of each; the checks then complete one after
        another in registry order, the `k`-th due site with `outcomes[k]` at
        `times[k]`. */
    method Tick(now: int, outcomes: seq<CheckOutcome>, times: seq<int>) returns (alerts: seq<Option<Dispatch>>)
      requires |outcomes| == |DueIds(sites, now)| && |times| == |DueIds(sites, now)|
      modifies this
      ensures var r := TickRun(old(sites), now, outcomes, times);
        sites == r.sites && alerts == r.alerts
      ensures DueIds(old(sites), now) != [] ==> saved == sites
      ensures DueIds(old(sites), now) == [] ==> saved == old(saved)
      ensures currentPage == old(currentPage) && searchTerm == old(searchTerm)
    {
      var due := CollectDue(sites, now);
      DueIdsFound(sites, now);
      alerts := CheckInOrder(due, outcomes, times);
    }

    /** `handleFormSubmit`: an invalid URL changes nothing; with an edit id
        the first site holding it is edited, saved and checked (an unknown
        edit id changes nothing); otherwise a new site under `newId` is
        appended, saved and checked. */
    method SubmitForm(editId: string, form: SiteForm, urlValid: bool, newId: string, createdAt: int,
                      outcome: CheckOutcome, now: int) returns (result: SubmitResult, alert: Option<Dispatch>)
      modifies this
      ensures !urlValid ==> result == InvalidUrl && sites == old(sites) && saved == old(saved) && alert == None
      ensures urlValid && editId != "" && FindIndex(old(sites), editId).None? ==>
        result == UnknownSite && sites == old(sites) && saved == old(saved) && alert == None
      ensures urlValid && editId != "" && FindIndex(old(sites), editId).Some? ==>
        var step := CheckInRegistry(EditInRegistry(old(sites), editId, form), editId, outcome, now);
        result == Updated && sites == step.sites && alert == step.alert && saved == sites
      ensures urlValid && editId == "" ==>
        var step := CheckInRegistry(old(sites) + [NewSite(newId, form, createdAt)], newId, outcome, now);
        result == Added && sites == step.sites && alert == step.alert && saved == sites
      ensures currentPage == old(currentPage) && searchTerm == old(searchTerm)
    {
      if !urlValid {
        return InvalidUrl, None;
      }
      if editId != "" {
        if FindIndex(sites, editId).None? {
          return UnknownSite, None;
        }
        sites := EditInRegistry(sites, editId, form);
        saved := sites;
        assert FindIndex(sites, editId).Some?;
        alert := CheckSite(editId, outcome, now);
        result := Updated;
      } else {
        var site := NewSite(newId, form, createdAt);
        sites := sites + [site];
        saved := sites;
        assert sites[|sites| - 1].id == newId;
        alert := CheckSite(newId, outcome, now);
        result := Added;
      }
    }

    /** `deleteSite`: once confirmed, keep the sites with another id; save
        only when that removed something. */
    method Delete(id: string, confirmed: bool) returns (removed: bool)
      modifies this
      ensures confirmed ==> sites == RemoveId(old(sites), id)
      ensures !confirmed ==> sites == old(sites)
      ensures removed <==> confirmed && id in Ids(old(sites))
      ensures removed ==> saved == sites
      ensures !removed ==> saved == old(saved)
      ensures currentPage == old(currentPage) && searchTerm == old(searchTerm)
    {
      if !confirmed {
        return false;
      }
      var initialLength := |sites|;
      RemoveIdChanges(sites, id);
      sites := RemoveId(sites, id);
      removed := |sites| != initialLength;
      if removed {
        saved := sites;
      }
    }

    /** Typing in the search box: the new term, back to the first page. */
    method Search(term: string)
      modifies this
      ensures Valid()
      ensures searchTerm == term && currentPage == 1
      ensures sites == old(sites) && saved == old(saved)
    {
      searchTerm := term;
      currentPage := 1;
    }

    /** The "previous" button. */
    method PrevPage()
      requires Valid()
      modifies this
      ensures Valid()
      ensures currentPage == Pages.PrevPage(old(currentPage))
      ensures sites == old(sites) && saved == old(saved) && searchTerm == old(searchTerm)
    {
      if currentPage > 1 {
        currentPage := currentPage - 1;
      }
    }

    /** The "next" button, against the page count of the filtered list. */
    method NextPage()
      requires Valid()
      modifies this
      ensures Valid()
      ensures currentPage == Pages.NextPage(old(currentPage), |FilterSites(sites, searchTerm)|)
      ensures sites == old(sites) && saved == old(saved) && searchTerm == old(searchTerm)
    {
      var totalPages := Pages.TotalPages(|FilterSites(sites, searchTerm)|);
      if currentPage < totalPages {
        currentPage := currentPage + 1;
      }
    }

    /** The rows `renderSitesTable` shows and its caption numbers. */
    method VisibleRows() returns (rows: seq<Site>, caption: Pages.Caption)
      requires Valid()
      ensures rows == Pages.PageOf(FilterSites(sites, searchTerm), currentPage)
      ensures caption == Pages.CaptionOf(|FilterSites(sites, searchTerm)|, currentPage)
      ensures forall s :: s in rows ==> s in sites
    {
      var filtered := FilterSites(sites, searchTerm);
      rows := Pages.PageOf(filtered, currentPage);
      caption := Pages.CaptionOf(|filtered|, currentPage);
      forall s | s in rows ensures s in sites {
        FilterMembers(sites, searchTerm, s);
      }
    }

    /** The dashboard figures for the current registry. */
    method Statistics() returns (st: Stats.Statistics)
      ensures st == StatisticsOf(sites)
    {
      st := UpdateStatistics(sites);
    }
  }
}
