/** The monitor's records: a registered site, the history record written for
    each completed check, and the answer of the site-check endpoint. */
module Sites {

  datatype Option<+T> = None | Some(value: T)

  /** The four values `site.status` takes; `Unknown` only before the first check. */
  datatype Status = Unknown | Online | Slow | Offline

  /** The three notification switches of the site form. */
  datatype Channels = Channels(email: bool, sms: bool, inapp: bool)

  /** One completed check. `timestamp` is the check time in milliseconds;
      `responseTime` and `statusCode` are absent when the probe did not answer. */
  datatype HistoryRecord = HistoryRecord(
    timestamp: int,
    status: Status,
    responseTime: Option<int>,
    statusCode: Option<int>)

  /** A monitored site.
      - `interval` and `responseThreshold` hold the `parseInt` of a form field:
        `None` stands for NaN.
      - `responseTime` is `Some(0)` on a new site and becomes `None` when a
        failed probe reports no latency.
      - `lastChecked` is `None` until the first check.
      - `notifications` is `None` on a stored record that has no such object. */
  datatype Site = Site(
    id: string,
    name: string,
    url: string,
    interval: Option<int>,
    responseThreshold: Option<int>,
    status: Status,
    responseTime: Option<int>,
    lastChecked: Option<int>,
    history: seq<HistoryRecord>,
    notifications: Option<Channels>,
    createdAt: int)

  /** The JSON answer of the site-check endpoint: `success`, and on success the
      measured latency in milliseconds and the HTTP status code. */
  datatype ProbeResult = ProbeResult(
    success: bool,
    responseTime: Option<int>,
    statusCode: Option<int>)

  /** What the check sequence got back: a parsed answer, or an exception from
      the request or from decoding its JSON. */
  datatype CheckOutcome = Answered(result: ProbeResult) | Threw

  /** The ids of a registry, in order. */
  function Ids(sites: seq<Site>): (r: seq<string>)
    ensures |r| == |sites|
    ensures forall i :: 0 <= i < |sites| ==> r[i] == sites[i].id
  {
    if sites == [] then [] else [sites[0].id] + Ids(sites[1..])
  }

  /** No two sites of the registry share an id. */
  predicate UniqueIds(sites: seq<Site>) {
    forall i, j :: 0 <= i < j < |sites| ==> sites[i].id != sites[j].id
  }

  /** No id occurs twice in the list. */
  predicate Distinct(ids: seq<string>) {
    forall i, j :: 0 <= i < j < |ids| ==> ids[i] != ids[j]
  }

  /** Every site keeps at most 100 history records. */
  predicate HistoryBounded(sites: seq<Site>) {
    forall i :: 0 <= i < |sites| ==> |sites[i].history| <= 100
  }

  lemma UniqueIdsDistinct(sites: seq<Site>)
    requires UniqueIds(sites)
    ensures Distinct(Ids(sites))
  {
  }

  /** Index of the first site with the given id, as `sites.find` locates it. */
  function FindIndex(sites: seq<Site>, id: string): (r: Option<nat>)
    ensures r.Some? ==> r.value < |sites| && sites[r.value].id == id
    ensures r.Some? ==> forall k :: 0 <= k < r.value ==> sites[k].id != id
    ensures r.None? <==> forall k :: 0 <= k < |sites| ==> sites[k].id != id
  {
    if sites == [] then None
    else if sites[0].id == id then Some(0)
    else match FindIndex(sites[1..], id)
      case None => None
      case Some(k) => Some(k + 1)
  }

  /** With unique ids, the site holding an id is the one `find` returns. */
  lemma FindIndexUnique(sites: seq<Site>, i: nat)
    requires UniqueIds(sites) && i < |sites|
    ensures FindIndex(sites, sites[i].id) == Some(i)
  {
  }
}
