/** The dashboard figures `updateStatistics` derives from the registry:
    counts per status, the rounded mean latency of the responding sites, the
    rounded percentages, and whether the alert badge shows. */
module Stats {
  import opened Sites
  import opened Arith

  datatype Statistics = Statistics(
    total: nat,
    online: nat,
    offline: nat,
    slow: nat,
    avgResponseTime: int,
    availabilityRate: int,
    offlineRate: int,
    slowRate: int,
    showBadge: bool)

  /** `sites.filter(s => s.status === st).length`. */
  function CountStatus(sites: seq<Site>, st: Status): (n: nat)
    ensures n <= |sites|
  {
    if sites == [] then 0 else (if sites[0].status == st then 1 else 0) + CountStatus(sites[1..], st)
  }

  /** Every site is in exactly one of the four statuses. */
  lemma {:induction false} CountsPartition(sites: seq<Site>)
    ensures CountStatus(sites, Unknown) + CountStatus(sites, Online) +
            CountStatus(sites, Slow) + CountStatus(sites, Offline) == |sites|
  {
    if sites != [] {
      CountsPartition(sites[1..]);
    }
  }

  /** A site that enters the mean latency: not offline, with a truthy latency
      (present and non-zero). */
  predicate Responding(site: Site) {
    site.status != Offline && site.responseTime.Some? && site.responseTime.value != 0
  }

  /** Number and latency sum of the responding sites (read from the last site,
      so that a left-to-right loop extends them one site at a time). */
  function RespondingCount(sites: seq<Site>): nat {
    if sites == [] then 0
    else RespondingCount(sites[..|sites| - 1]) + (if Responding(sites[|sites| - 1]) then 1 else 0)
  }

  function RespondingSum(sites: seq<Site>): int {
    if sites == [] then 0
    else RespondingSum(sites[..|sites| - 1]) +
         (if Responding(sites[|sites| - 1]) then sites[|sites| - 1].responseTime.value else 0)
  }

  /** `Math.round(p / q)` for integers: the nearest integer, halves rounded up. */
  function Round(p: int, q: int): (r: int)
    requires q > 0
    ensures 2 * q * r - q <= 2 * p < 2 * q * r + q
  {
    var d := (2 * p + q) / (2 * q);
    var m := (2 * p + q) % (2 * q);
    assert 2 * p + q == 2 * q * d + m && 0 <= m < 2 * q;
    d
  }

  /** `total > 0 ? Math.round((part / total) * 100) : 0`. */
  function Percent(part: nat, total: nat): int {
    if total > 0 then Round(part * 100, total) else 0
  }

  /** A share of the total is a percentage between 0 and 100. */
  lemma PercentBounds(part: nat, total: nat)
    requires part <= total
    ensures 0 <= Percent(part, total) <= 100
  {
    if total > 0 {
      var r := Percent(part, total);
      assert 2 * total * r - total <= 2 * (part * 100);
      assert part * 100 <= total * 100;
      assert total * (2 * r - 1) <= total * 200;
      MulCancel(total, 2 * r - 1, 200);
      assert 0 <= 2 * (part * 100) < 2 * total * r + total;
      assert total * (-1) <= total * (2 * r);
      MulCancel(total, -1, 2 * r);
    }
  }

  /** The figures of one registry snapshot. */
  function StatisticsOf(sites: seq<Site>): Statistics {
    var total := |sites|;
    var online := CountStatus(sites, Online);
    var offline := CountStatus(sites, Offline);
    var slow := CountStatus(sites, Slow);
    var k := RespondingCount(sites);
    Statistics(
      total, online, offline, slow,
      if k > 0 then Round(RespondingSum(sites), k) else 0,
      Percent(online, total), Percent(offline, total), Percent(slow, total),
      offline + slow > 0)
  }

  /** `updateStatistics` (its computation): the counts by filtering, the
      latency sum and count of responding sites by one pass over the registry. */
  method UpdateStatistics(sites: seq<Site>) returns (st: Statistics)
    ensures st == StatisticsOf(sites)
  {
    var total := |sites|;
    var online := CountStatus(sites, Online);
    var offline := CountStatus(sites, Offline);
    var slow := CountStatus(sites, Slow);
    var totalResponseTime := 0;
    var respondingSites := 0;
    for i := 0 to |sites|
      invariant totalResponseTime == RespondingSum(sites[..i])
      invariant respondingSites == RespondingCount(sites[..i])
    {
      assert sites[..i + 1][..i] == sites[..i];
      if sites[i].status != Offline && sites[i].responseTime.Some? && sites[i].responseTime.value != 0 {
        totalResponseTime := totalResponseTime + sites[i].responseTime.value;
        respondingSites := respondingSites + 1;
      }
    }
    assert sites[..|sites|] == sites;
    var avgResponseTime := if respondingSites > 0 then Round(totalResponseTime, respondingSites) else 0;
    var availabilityRate := Percent(online, total);
    st := Statistics(total, online, offline, slow, avgResponseTime, availabilityRate,
                     Percent(offline, total), Percent(slow, total), offline + slow > 0);
  }

  /** The status counts never exceed the total, and the rates are percentages. */
  lemma StatisticsBounds(sites: seq<Site>)
    ensures var st := StatisticsOf(sites);
      && st.online + st.offline + st.slow <= st.total
      && 0 <= st.availabilityRate <= 100
      && 0 <= st.offlineRate <= 100
      && 0 <= st.slowRate <= 100
      && (st.total == 0 ==> st.availabilityRate == 0)
      && (st.showBadge <==> st.offline + st.slow > 0)
  {
    CountsPartition(sites);
    PercentBounds(CountStatus(sites, Online), |sites|);
    PercentBounds(CountStatus(sites, Offline), |sites|);
    PercentBounds(CountStatus(sites, Slow), |sites|);
  }

  /** The availability rate is the online share in percent, rounded to nearest. */
  lemma AvailabilityIsRoundedShare(sites: seq<Site>)
    requires |sites| > 0
    ensures var st := StatisticsOf(sites);
      2 * st.total * st.availabilityRate - st.total <= 200 * st.online < 2 * st.total * st.availabilityRate + st.total
  {
  }

  /** Bounds on each responding latency bound their sum. */
  lemma {:induction false} RespondingSumBounds(sites: seq<Site>, lo: int, hi: int)
    requires forall i :: 0 <= i < |sites| && Responding(sites[i]) ==>
      lo <= sites[i].responseTime.value <= hi
    ensures lo * RespondingCount(sites) <= RespondingSum(sites) <= hi * RespondingCount(sites)
  {
    if sites != [] {
      var init, last := sites[..|sites| - 1], sites[|sites| - 1];
      assert forall i :: 0 <= i < |init| ==> init[i] == sites[i];
      RespondingSumBounds(init, lo, hi);
      var k := RespondingCount(init);
      if Responding(last) {
        assert lo * (k + 1) == lo * k + lo;
        assert hi * (k + 1) == hi * k + hi;
      }
    }
  }

  /** The mean latency is the rounded mean of the responding sites' latencies,
      and lies between their least and greatest; it is 0 when none responds. */
  lemma AverageIsRoundedMean(sites: seq<Site>, lo: int, hi: int)
    requires forall i :: 0 <= i < |sites| && Responding(sites[i]) ==>
      lo <= sites[i].responseTime.value <= hi
    ensures var st := StatisticsOf(sites);
      var k, sum := RespondingCount(sites), RespondingSum(sites);
      && (k == 0 ==> st.avgResponseTime == 0)
      && (k > 0 ==> 2 * k * st.avgResponseTime - k <= 2 * sum < 2 * k * st.avgResponseTime + k)
      && (k > 0 ==> lo <= st.avgResponseTime <= hi)
  {
    var k, sum := RespondingCount(sites), RespondingSum(sites);
    if k > 0 {
      RespondingSumBounds(sites, lo, hi);
      RoundWithin(sum, k, lo, hi);
    }
  }

  /** A rounded quotient stays between the bounds of the divided sum. */
  lemma RoundWithin(sum: int, k: int, lo: int, hi: int)
    requires k > 0 && lo * k <= sum <= hi * k
    ensures lo <= Round(sum, k) <= hi
  {
    var r := Round(sum, k);
    assert 2 * k * r == 2 * (k * r);
    if r > hi {
      MulMono(k, hi + 1, r);
    }
    if r < lo {
      MulMono(k, r + 1, lo);
    }
  }

  /** An exact multiple rounds to its quotient. */
  lemma RoundExact(m: int, q: int)
    requires q > 0
    ensures Round(m * q, q) == m
  {
    RoundWithin(m * q, q, m, m);
  }

  /** A share of all sites or of none is 100 or 0 percent exactly. */
  lemma PercentExtremes(total: nat)
    requires total > 0
    ensures Percent(total, total) == 100 && Percent(0, total) == 0
  {
    RoundExact(100, total);
    RoundExact(0, total);
  }

  lemma {:induction false} CountStatusAll(sites: seq<Site>, st: Status)
    requires forall i :: 0 <= i < |sites| ==> sites[i].status == st
    ensures CountStatus(sites, st) == |sites|
  {
    if sites != [] {
      CountStatusAll(sites[1..], st);
    }
  }

  /** When every site is online the dashboard shows full availability, no
      offline or slow share, and no badge. */
  lemma AllOnlineFigures(sites: seq<Site>)
    requires |sites| > 0
    requires forall i :: 0 <= i < |sites| ==> sites[i].status == Online
    ensures var st := StatisticsOf(sites);
      st.availabilityRate == 100 && st.offlineRate == 0 && st.slowRate == 0 && !st.showBadge
  {
    CountStatusAll(sites, Online);
    CountsPartition(sites);
    PercentExtremes(|sites|);
  }
}
