# Website monitor: the monitoring engine in Dafny

This project models the monitoring engine of the website monitor's page
script `js/app.js`. The page keeps a registry of user-registered sites.
Each check of a site probes its URL, classifies the answer as online, slow
or offline against the site's latency threshold, stores the status, latency
and check time, appends a record to a history ledger that keeps the newest
100 records, saves the registry, and raises an alert when the status changes
into offline or slow. A timer checks every site whose interval has elapsed;
a refresh checks all sites in order. Around the engine the page adds,
edits, deletes and searches sites, pages the site table five rows at a time,
and shows dashboard figures (counts, mean latency, availability), relative
check times and chart colors.

Modules, one per concern:

- `Sites` (`site.dfy`): the site, history record, probe answer and channel
  datatypes; ids and `find` by id.
- `Checker` (`checker.dfy`): classification, the bounded ledger, one check of
  one site and its alert.
- `Notify` (`notify.dfy`): when an alert fires, its fixed text, toast type
  and channels.
- `Schedule` (`schedule.dfy`): due-ness, checking by id, runs of checks
  (refresh-all and the timer tick).
- `Registry` (`registry.dfy`): add, edit, delete and the search filter.
- `Stats` (`stats.dfy`): the dashboard figures and a loop computing them.
- `Pages` (`pages.dfy`): page count, page window, caption and prev/next.
- `Format` (`format.dfy`): relative time text and the chart palette.
- `Text` (`text.dfy`), `Arith` (`arith.dfy`): ASCII lower-casing, substring
  search, decimal rendering and the integer facts the proofs need.
- `App` (`monitor.dfy`): class `Monitor` holding the page's mutable state
  (`sites`, `currentPage`, the search text, the last saved snapshot) with
  one method per handler. Each method's `ensures` ties the new state to the
  value-level functions above, and the lemmas about those functions give the
  properties.

JavaScript details are modelled explicitly. `x || default` on a number
treats NaN (modelled as `None`) and 0 alike as missing. A comparison with
`undefined` is false. `Math.round(p / q)` is rounding to nearest with halves
up. `%` truncates toward zero, so negative chart indices have negative
remainders. The clock, probe answers, generated ids, URL validity and the
delete confirmation are parameters of the operations.

When the probe request throws, `checkSiteStatus` (js/app.js:543-551) only
marks the site offline and stamps the check time. Unlike an answered check,
it appends no history record and raises no alert.

## Model

| member | source | states |
|---|---|---|
| Sites.FindIndex | js/app.js:495 | `find` by id: the first position holding the id, with no earlier one; none exactly when no site holds it |
| Checker.EffectiveThreshold | js/app.js:510 | a missing (NaN) or zero threshold means 500 ms, any other value is used as given |
| Checker.Classify | js/app.js:507-512 | never unknown; offline exactly when the answer is unsuccessful; slow exactly when successful with a latency above the threshold; online otherwise, also when no latency is reported |
| Checker.AppendBounded | js/app.js:521-532 | one push: length is min(old + 1, 100), the pushed record ends the ledger, and the records before it are the newest old records in their order |
| Checker.AppendAllKeepsNewest | js/app.js:521-532 | FIFO ring: after any run of pushes the ledger is exactly the newest 100 of all records pushed, in push order |
| Checker.AppendAllBounded | js/app.js:530-532 | after at least one push the ledger holds at most 100 records |
| Checker.CheckedManyHistory | js/app.js:521-532 | a run of answered checks of one site pushes its records through the ledger one by one, in order, and keeps the threshold |
| Checker.RepeatedChecksKeepNewest | js/app.js:521-532 | after repeated answered checks of one site its ledger is exactly the newest 100 of its earlier records followed by the new ones |
| Checker.CheckedSite | js/app.js:507-547 | the site after one check: on an answer the classified status, the reported latency, the check time and one more record through the bounded ledger; on an exception offline and the check time, nothing else changed |
| Checker.CheckAlert | js/app.js:538-540 | the alert of one check: none after an exception; after an answer the dispatcher's alert for the updated site exactly when the status changed into offline or slow |
| Checker.CheckKeepsConfiguration | js/app.js:515-518 | a check never changes a site's id, name, url, interval, threshold, notification settings or creation time |
| Checker.CheckSetsStatusAndTime | js/app.js:516-518 | every check leaves a definite status and stamps the check time; after an answer the status is the classification |
| Checker.StatusIgnoresPast | js/app.js:507-512 | the new status depends only on the answer and the threshold, not on previous status, history or time |
| Checker.AnsweredCheckHistory | js/app.js:515-532 | an answered check stores the reported latency and appends exactly one record (time, status, latency, status code) after the kept newest records |
| Checker.ThrownCheck | js/app.js:543-551 | a thrown probe makes the site offline at that time, keeps its history and latency, and raises no alert |
| Checker.AlertCondition | js/app.js:538-540 | an alert fires exactly when an answered check changes the status into offline or slow and some channel is on; it shows in the page exactly when the in-app switch is on |
| Checker.AlertMessage | js/app.js:593-601 | the alert text names the site; a slow alert quotes the latency just stored followed by "ms)" |
| Checker.FirstCheckAlertsOnDegradation | js/app.js:538-540 | the first check of an unknown site with a channel on alerts exactly when the result is not online |
| Checker.SlowScenario | js/app.js:507-527 | with threshold 500, a successful 600 ms answer makes the site slow and appends a slow record of 600 ms |
| Checker.OfflineScenario | js/app.js:507-540 | an online site whose probe fails goes offline and raises an error alert on its enabled channels |
| Notify.SendNotification | js/app.js:583-610 | nothing without notification settings or with every channel off; otherwise one alert with the site's channels, shown in the page exactly when in-app is on, typed error for offline and warning for slow |
| Notify.AlertText | js/app.js:593-598 | the fixed offline text naming the site, or the slow text naming the site and quoting its latency in ms |
| Notify.OfflineTextNamesSite | js/app.js:593-594 | the offline text contains the site name |
| Notify.SlowTextNamesSiteAndLatency | js/app.js:597-598 | the slow text contains the site name and the latency followed by "ms)" |
| Notify.SlowTextDeterminesLatency | js/app.js:597-598 | two slow texts for the same site are equal only for equal latencies |
| Schedule.IntervalMs | js/app.js:573 | a missing or zero interval means 300 s; otherwise the interval in seconds times 1000 |
| Schedule.IsDue | js/app.js:572-575 | a site is due when at least its interval (default 300 s) has passed since its last check, a missing check time counting as 0 |
| Schedule.NotDueBeforeInterval | js/app.js:572-575 | a site checked at time t is not due at any moment less than its interval after t |
| Schedule.NotDueAtCheckTime | js/app.js:572-575 | with a positive interval a site is not due at the instant of its own check |
| Schedule.NeverCheckedDue | js/app.js:572-575 | a never-checked site counts as checked at time 0, so it is due once its interval has passed since 0 |
| Schedule.CheckInRegistry | js/app.js:495-496 | checking an id checks the first site holding it, giving that check's site and alert, changes no other site and keeps every id in place; with no such site nothing changes and no alert is raised |
| Schedule.RunChecks | js/app.js:555-559 | a run of checks by id, one after another, keeps the registry length and every id in its place |
| Schedule.RunChecksFinds | js/app.js:555-559 | an id found before a run is still found after it |
| Schedule.RunChecksKeepsUniqueIds | js/app.js:555-559 | runs of checks keep site ids unique |
| Schedule.RunChecksAt | js/app.js:555-559 | with unique ids and no repeated id, a run checks each listed site once with the answer at its position and leaves unlisted sites unchanged |
| Schedule.RunAlertAt | js/app.js:555-559 | the alert of the j-th check of such a run is the alert that checking that id would raise on the registry as it was before the run |
| Schedule.RefreshAllChecksEachOnce | js/app.js:555-559 | refresh-all checks the i-th site exactly once with the i-th answer and raises that check's alert |
| Schedule.DueIds | js/app.js:570-577 | the ids of the due sites in registry order, never more than the sites |
| Schedule.DueIdsMembers | js/app.js:570-577 | an id is on the tick's due list exactly when a site holding it is due at the tick time |
| Schedule.DueIdsDistinct | js/app.js:570-577 | with unique site ids the due list has no repetitions |
| Schedule.DueIdsAppend | js/app.js:570-577 | the due list keeps registry order: the list of a concatenation is the concatenation of the lists |
| Schedule.DueIdsFound | js/app.js:570-577 | every id on the due list belongs to a site of the registry |
| Schedule.TickTwiceProbesOnce | js/app.js:567-579 | with positive intervals and checks completing no earlier than the tick, a second tick at the same moment finds nothing due |
| Schedule.CheckKeepsHistoryBounded | js/app.js:530-532 | a check keeps every ledger within 100 records |
| Registry.NewSite | js/app.js:217-234 | a new site carries the form's values, status unknown, latency 0, no check time, an empty history and the given notification switches |
| Registry.EditSite | js/app.js:199-210 | an edit replaces name, url, interval, threshold and notification switches, and keeps id, status, latency, check time, history and creation time |
| Registry.EditInRegistry | js/app.js:197-211 | editing by id changes only the first site holding the id, keeps every id and status, and changes nothing when no site holds it |
| Registry.AddKeepsUniqueIds | js/app.js:235 | appending a site keeps ids unique exactly when its id is new |
| Registry.RemoveId | js/app.js:459 | deleting by id keeps the sites with another id, in order, and never adds one |
| Registry.RemoveIdMembers | js/app.js:459 | deleting keeps exactly the sites with another id |
| Registry.RemoveIdChanges | js/app.js:458-461 | the registry shrinks exactly when some site holds the id, which is when the source saves |
| Registry.RemoveIdAppend | js/app.js:459 | deletion keeps the remaining sites in order: it distributes over concatenation |
| Registry.DeleteOne | js/app.js:459 | with unique ids, deleting a present id removes exactly that site and keeps all others in place |
| Registry.RemoveIdAbsent | js/app.js:459 | deleting an id no site holds leaves the registry unchanged |
| Registry.KeepMatching | js/app.js:415-418 | the sites matching an already lower-cased term, in order, never more than the sites |
| Registry.KeepMatchingMembers | js/app.js:415-418 | the kept sites are exactly the sites whose lower-cased name or url contains the term |
| Registry.FilterSites | js/app.js:411-419 | an empty lower-cased term keeps every site, and the filter never adds sites |
| Registry.FilterMembers | js/app.js:411-419 | a site is shown exactly when it is registered and its lower-cased name or url contains the lower-cased term |
| Registry.KeepMatchingAppend | js/app.js:415-418 | the filter keeps registry order: it distributes over concatenation |
| Registry.KeepMatchingEmpty | js/app.js:413 | the empty term matches every site |
| Registry.FilterIgnoresTermCase | js/app.js:412 | filtering with a term and with its lower-cased form give the same sites |
| Registry.FilterAppend | js/app.js:411-419 | the filter of a registry is the filter of its parts, in order |
| Stats.CountsPartition | js/app.js:679-682 | the four status counts add up to the number of sites |
| Stats.Round | js/app.js:695 | rounding to nearest with halves up: 2qr - q <= 2p < 2qr + q |
| Stats.UpdateStatistics | js/app.js:678-719 | the loop's latency sum and count, and all figures, equal the figures of the registry |
| Stats.StatisticsOf | js/app.js:678-696 | the figures of one registry: the total, the count per status, the rounded mean latency of the responding sites, the rounded status shares in percent, and the badge when some site is offline or slow |
| Stats.StatisticsBounds | js/app.js:679-717 | online + offline + slow never exceeds the total; every rate lies in 0..100; availability is 0 for an empty registry; the badge shows exactly when some site is offline or slow |
| Stats.AvailabilityIsRoundedShare | js/app.js:696 | the availability rate is the online share in percent rounded to nearest |
| Stats.RespondingSumBounds | js/app.js:688-693 | bounds on every responding latency bound the sum by count times the bound |
| Stats.AverageIsRoundedMean | js/app.js:695 | the mean latency is 0 when no site responds, otherwise the rounded mean, lying between the least and greatest responding latency |
| Stats.RoundWithin | js/app.js:695 | a rounded quotient of a sum between count times lo and count times hi lies between lo and hi |
| Stats.PercentBounds | js/app.js:696 | a share never exceeding the total gives a percentage between 0 and 100 |
| Stats.AllOnlineFigures | js/app.js:679-717 | when every site is online: availability 100, offline and slow rates 0, no badge |
| Pages.TotalPages | js/app.js:291 | the fewest pages of five holding n sites: 0 exactly for no sites, n <= 5r and 5(r - 1) < n |
| Pages.PageOf | js/app.js:292-293 | the page shows at most five sites, the sites from position 5(page - 1) on, cut at the end and empty past it |
| Pages.PageOfIndex | js/app.js:291-293 | every site is shown on page i/5 + 1, within the page count, at position i mod 5 |
| Pages.PageIsUnique | js/app.js:292-293 | the site at position k of a page belongs to no other page |
| Pages.PagesInRange | js/app.js:291-293 | a page is non-empty exactly when it is within the page count |
| Pages.CaptionMatchesPage | js/app.js:296-297 | on a non-empty page the caption's from/to numbers span exactly the sites shown |
| Pages.PrevPage | js/app.js:117-122 | back one page unless on the first |
| Pages.NextPage | js/app.js:124-130 | forward one page unless on the last |
| Pages.ButtonsStayInRange | js/app.js:117-130 | both buttons keep the page at least 1 and within the page count |
| Pages.PressNextReaches | js/app.js:124-130 | from page 1, k presses of next show page k + 1 while pages last |
| Format.AgeOf | js/app.js:905-922 | the elapsed time as whole seconds under a minute, whole minutes under an hour, whole hours under a day, otherwise whole days, each rounded down |
| Format.AgeIsWholeUnits | js/app.js:903-923 | the amount is the elapsed time in whole units rounded down, and the unit is seconds under a minute, minutes under an hour, hours under a day, else days |
| Format.AgeAmountRange | js/app.js:907-922 | seconds under 60, minutes 1..59, hours 1..23, days at least 1 |
| Format.FormatRelativeTime | js/app.js:903-923 | the text is the amount in decimal followed by the unit's word |
| Format.FormatDeterminesAge | js/app.js:903-923 | equal texts mean equal amounts and units |
| Format.GetRandomColor | js/app.js:888-895 | a non-negative index picks palette entry index mod 10; a negative index gives a color only for multiples of 10 |
| Format.ColorIsPeriodic | js/app.js:888-895 | colors repeat every ten indices and always exist for non-negative indices |
| Format.NeighboursDiffer | js/app.js:890-893 | neighbouring indices always get different colors |
| Format.TruncRemByTen | js/app.js:894 | the truncated remainder differs from the index by a multiple of ten and is 0 exactly on multiples |
| Text.ToLower | js/app.js:412 | lower-casing keeps the length and maps each character on its own |
| Text.ToLowerIdempotent | js/app.js:412 | lower-casing twice is lower-casing once |
| Text.Includes | js/app.js:416-417 | `includes` holds exactly when the needle occurs at some position |
| Text.NatToString | js/app.js:598 | decimal rendering: only digits, no leading zero, and its value is the number |
| Text.IntToStringInjective | js/app.js:598 | different numbers render differently |
| App.Monitor.constructor | js/app.js:23-24 | the page starts on page 1 with an empty search and the loaded registry |
| App.CollectDue | js/app.js:569-577 | the pass over the registry collects the ids of the due sites in registry order |
| App.ApplyOutcome | js/app.js:507-550 | the site after the probe and the alert are `Checker.CheckedSite` and `Checker.CheckAlert` of it: classification, stored latency and time, bounded ledger, alert on a change into offline or slow, and offline with no alert on an exception |
| App.Monitor.CheckSite | js/app.js:494-552 | the registry and alert are those of checking the id; the registry is saved exactly when the id is found |
| App.Monitor.CheckInOrder | js/app.js:555-557 | checking registered ids one after another gives the registry and alerts of that run of checks, saved when some id was checked |
| App.Monitor.RefreshAll | js/app.js:554-558 | the registry and alerts are those of checking every id of the registry in order; a non-empty registry is saved |
| App.Monitor.Tick | js/app.js:566-579 | the registry and alerts are those of checking, in order, the sites due at the tick time; the registry is saved exactly when some site was due |
| App.Monitor.SubmitForm | js/app.js:176-240 | an invalid URL or an unknown edit id changes nothing; an edit replaces, saves and checks the site; an add appends, saves and checks the new id |
| App.Monitor.Delete | js/app.js:455-470 | unconfirmed nothing changes; confirmed the sites with the id go; it saves exactly when something was removed |
| App.Monitor.Search | js/app.js:111-114 | a new search term returns to the first page |
| App.Monitor.PrevPage | js/app.js:117-122 | the page becomes the previous page |
| App.Monitor.NextPage | js/app.js:124-130 | the page becomes the next page against the count of filtered sites |
| App.Monitor.VisibleRows | js/app.js:288-297 | the rows are the current page of the filtered sites and all belong to the registry; the caption matches |
| App.Monitor.Statistics | js/app.js:678-719 | the figures of the current registry |
| App.AddThenCheck | js/app.js:216-238 | adding under a fresh id and checking it checks exactly the new site and raises its alert |
| App.AddThenCheckKeepsUniqueIds | js/app.js:216-238 | adding under a fresh id and checking keeps ids unique |
| App.AddUnderTakenIdChecksOlderSite | js/app.js:236-237 | under an id already taken, the check after adding goes to the older site and the new one stays unknown |
| App.EditThenCheck | js/app.js:195-214 | with unique ids, editing and then checking gives the checked edited site in its place and leaves the others unchanged |

## Left out

- Rendering, charts, toasts, modal dialogs, the debounce of the search box and the chart heuristics (`generateMockResponseTimes`, `getTimeLabels`): presentation, not engine logic.
- The `fetch` to the probe endpoint and `response.json()`: replaced by an `Answered` or `Threw` outcome given to each check.
- `saveSites` and `loadSites` I/O: saving is modelled as the `saved` snapshot, loading as the constructor's argument. A fault of `localStorage.setItem` inside the check's `try` is not modelled.
- `generateId`, the `URL` constructor and `confirm`: randomness, URL parsing and a dialog become the parameters `newId`, `urlValid` and `confirmed`.
- Concurrency: the tick starts its checks without waiting, and a tick can overlap a refresh. The model decides due-ness on the registry as it stands at the tick (as the source does before its first `await`) and then completes the checks one after another in registry order. Other completion orders and overlapping runs are not modelled.
- The timer itself (`setInterval` every 60 s and the first refresh in `startPeriodicChecks`): one tick and one refresh are separate operations.
- A site is a value: updating the site object in place is modelled as replacing the site at its position. Aliasing of site objects is not modelled.
- Check times are milliseconds as integers. The ISO timestamp strings the source stores and parses back are not modelled.
- A stored site without a history array is modelled with an empty history.
- Stats.Percent, Stats.StatisticsOf, Stats.AvailabilityIsRoundedShare: the rates round the exact share, while the page rounds a floating-point product. For 23 of 40 sites online the page computes `Math.round(57.49999999999999)` = 57, but the model gives 58. `Stats.Round` itself is exact rounding of an integer quotient.
- Text.ToLower: lower-cases ASCII letters only; Unicode case mapping is not modelled.
- Format.GetRandomColor: indices are integers; fractional or non-numeric indices are not modelled.
- The other repository files (`api/check-site.js`, `api/sites.js`, `src/index.js`) are not part of this model.
