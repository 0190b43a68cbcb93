/** The degradation alert: when a status change is worth an alert, and the
    message and channels of the alert that `sendNotificationForSite` raises. */
module Notify {
  import opened Sites
  import opened Text

  /** The check sequence calls the dispatcher only on a change of status
      into `Offline` or `Slow`: recoveries stay quiet. */
  predicate ShouldAlert(previous: Status, current: Status) {
    previous != current && (current == Offline || current == Slow)
  }

  /** The toast type of the in-app notification; `NoLevel` for a status that
      has no message. */
  datatype Level = NoLevel | Error | Warning

  /** One raised alert: its text, its toast type, whether it is shown in the
      page, and the channel switches it is logged with (e-mail and SMS
      delivery is a console log in the source). */
  datatype Dispatch = Dispatch(message: string, level: Level, inApp: bool, channels: Channels)

  /** A number as a template literal renders it; an absent value reads "undefined". */
  function NumberText(n: Option<int>): string {
    match n
    case Some(v) => IntToString(v)
    case None => "undefined"
  }

  const SitePrefix: string := "网站 \""
  const OfflineSuffix: string := "\" 已离线"
  const SlowInfix: string := "\" 响应缓慢 ("
  const SlowSuffix: string := "ms)"

  /** The fixed message text: the offline text names the site; the slow text
      names it and its latency; other statuses give no text. */
  function AlertText(name: string, current: Status, responseTime: Option<int>): string {
    match current
    case Offline => SitePrefix + name + OfflineSuffix
    case Slow => SitePrefix + name + SlowInfix + NumberText(responseTime) + SlowSuffix
    case _ => ""
  }

  function AlertLevel(current: Status): Level {
    match current
    case Offline => Error
    case Slow => Warning
    case _ => NoLevel
  }

  predicate AnyChannel(c: Channels) {
    c.email || c.sms || c.inapp
  }

  /** `sendNotificationForSite`: nothing when the site has no notification
      settings or none is switched on; otherwise one alert, shown in the page
      only when the in-app switch is on. */
  function SendNotification(site: Site, current: Status, previous: Status): (r: Option<Dispatch>)
    ensures r.Some? <==> site.notifications.Some? && AnyChannel(site.notifications.value)
    ensures r.Some? ==> r.value.inApp == site.notifications.value.inapp
    ensures r.Some? ==> r.value.channels == site.notifications.value
    ensures r.Some? && current == Offline ==> r.value.level == Error
    ensures r.Some? && current == Slow ==> r.value.level == Warning
  {
    match site.notifications
    case None => None
    case Some(c) =>
      if !AnyChannel(c) then None
      else Some(Dispatch(AlertText(site.name, current, site.responseTime), AlertLevel(current), c.inapp, c))
  }

  /** The offline text names the site. */
  lemma OfflineTextNamesSite(name: string, rt: Option<int>)
    ensures Includes(AlertText(name, Offline, rt), name)
  {
    IncludesMiddle(SitePrefix, name, OfflineSuffix);
  }

  /** The slow text names the site and gives its latency in milliseconds. */
  lemma SlowTextNamesSiteAndLatency(name: string, rt: int)
    ensures Includes(AlertText(name, Slow, Some(rt)), name)
    ensures Includes(AlertText(name, Slow, Some(rt)), IntToString(rt) + SlowSuffix)
  {
    var t := AlertText(name, Slow, Some(rt));
    assert t == SitePrefix + name + (SlowInfix + IntToString(rt) + SlowSuffix);
    IncludesMiddle(SitePrefix, name, SlowInfix + IntToString(rt) + SlowSuffix);
    assert t == (SitePrefix + name + SlowInfix) + (IntToString(rt) + SlowSuffix) + "";
    IncludesMiddle(SitePrefix + name + SlowInfix, IntToString(rt) + SlowSuffix, "");
  }

  /** Slow texts for different latencies differ: the text determines the latency. */
  lemma SlowTextDeterminesLatency(name: string, a: int, b: int)
    requires AlertText(name, Slow, Some(a)) == AlertText(name, Slow, Some(b))
    ensures a == b
  {
    var p := SitePrefix + name + SlowInfix;
    var ta, tb := AlertText(name, Slow, Some(a)), AlertText(name, Slow, Some(b));
    assert ta == p + IntToString(a) + SlowSuffix;
    assert tb == p + IntToString(b) + SlowSuffix;
    assert |IntToString(a)| == |IntToString(b)|;
    assert IntToString(a) == ta[|p|..|ta| - |SlowSuffix|];
    assert IntToString(b) == tb[|p|..|tb| - |SlowSuffix|];
    IntToStringInjective(a, b);
  }
}
