/** Display helpers: the relative age of a check time ("3分钟前") and the
    fixed chart palette indexed by site position. */
module Format {
  import opened Sites
  import opened Text
  import opened Arith

  /** The unit `formatRelativeTime` settles on. */
  datatype Unit = Seconds | Minutes | Hours | Days

  /** An elapsed time as the page shows it: a whole amount of one unit. */
  datatype Age = Age(amount: int, unit: Unit)

  /** Length of one unit in milliseconds. */
  function UnitMs(u: Unit): (ms: nat)
    ensures ms > 0
  {
    match u
    case Seconds => 1000
    case Minutes => 60 * 1000
    case Hours => 60 * 60 * 1000
    case Days => 24 * 60 * 60 * 1000
  }

  /** The age of `dateMs` at `nowMs`: whole seconds under a minute, whole
      minutes under an hour, whole hours under a day, otherwise whole days;
      each amount rounded down from the previous one. A date in the future
      gives a negative number of seconds. */
  function AgeOf(nowMs: int, dateMs: int): Age {
    var seconds := (nowMs - dateMs) / 1000;
    if seconds < 60 then Age(seconds, Seconds)
    else
      var minutes := seconds / 60;
      if minutes < 60 then Age(minutes, Minutes)
      else
        var hours := minutes / 60;
        if hours < 24 then Age(hours, Hours)
        else Age(hours / 24, Days)
  }

  /** The amount is the elapsed time in whole units, rounded down, and the
      unit is the largest one (up to days) that the elapsed time reaches. */
  lemma AgeIsWholeUnits(nowMs: int, dateMs: int)
    ensures var a := AgeOf(nowMs, dateMs);
      var diff := nowMs - dateMs;
      && a.amount == diff / UnitMs(a.unit)
      && (a.unit == Seconds <==> diff < UnitMs(Minutes))
      && (a.unit == Minutes <==> UnitMs(Minutes) <= diff < UnitMs(Hours))
      && (a.unit == Hours <==> UnitMs(Hours) <= diff < UnitMs(Days))
      && (a.unit == Days <==> UnitMs(Days) <= diff)
  {
    var diff := nowMs - dateMs;
    var seconds := diff / 1000;
    assert seconds / 60 == diff / 60000;
    assert seconds / 60 / 60 == diff / 3600000;
    assert seconds / 60 / 60 / 24 == diff / 86400000;
  }

  /** Each unit's amount stays below the next unit: under 60 seconds, 1 to 59
      minutes, 1 to 23 hours, at least 1 day. */
  lemma AgeAmountRange(nowMs: int, dateMs: int)
    ensures var a := AgeOf(nowMs, dateMs);
      && (a.unit == Seconds ==> a.amount < 60)
      && (a.unit == Minutes ==> 1 <= a.amount < 60)
      && (a.unit == Hours ==> 1 <= a.amount < 24)
      && (a.unit == Days ==> a.amount >= 1)
  {
  }

  function UnitSuffix(u: Unit): string {
    match u
    case Seconds => "秒前"
    case Minutes => "分钟前"
    case Hours => "小时前"
    case Days => "天前"
  }

  /** `formatRelativeTime`: the amount in decimal followed by the unit's word. */
  function FormatRelativeTime(nowMs: int, dateMs: int): (r: string)
    ensures var a := AgeOf(nowMs, dateMs);
      |r| > |UnitSuffix(a.unit)| &&
      r[..|r| - |UnitSuffix(a.unit)|] == IntToString(a.amount) &&
      r[|r| - |UnitSuffix(a.unit)|..] == UnitSuffix(a.unit)
  {
    var a := AgeOf(nowMs, dateMs);
    var r := IntToString(a.amount) + UnitSuffix(a.unit);
    assert r[..|r| - |UnitSuffix(a.unit)|] == IntToString(a.amount);
    r
  }

  /** The unit word is read back from the last two characters. */
  function UnitOfText(t: string): Unit
    requires |t| >= 2
  {
    var c := t[|t| - 2];
    if c == '秒' then Seconds
    else if c == '钟' then Minutes
    else if c == '时' then Hours
    else Days
  }

  /** An amount followed by a unit word: the unit is read back from the end
      and the amount text is what precedes the word. */
  lemma ReadBack(t: string, amount: string, u: Unit)
    requires t == amount + UnitSuffix(u)
    ensures |t| >= 2 && UnitOfText(t) == u
    ensures t[..|t| - |UnitSuffix(u)|] == amount
  {
    var w := UnitSuffix(u);
    assert t[|t| - 2] == w[|w| - 2];
  }

  /** The text determines the age: two times with the same text have the
      same amount and unit. */
  lemma FormatDeterminesAge(nowA: int, dateA: int, nowB: int, dateB: int)
    requires FormatRelativeTime(nowA, dateA) == FormatRelativeTime(nowB, dateB)
    ensures AgeOf(nowA, dateA) == AgeOf(nowB, dateB)
  {
    var a, b := AgeOf(nowA, dateA), AgeOf(nowB, dateB);
    var t := FormatRelativeTime(nowA, dateA);
    var na, nb := |t| - |UnitSuffix(a.unit)|, |t| - |UnitSuffix(b.unit)|;
    assert t == t[..na] + t[na..] && t == t[..nb] + t[nb..];
    ReadBack(t, IntToString(a.amount), a.unit);
    ReadBack(t, IntToString(b.amount), b.unit);
    IntToStringInjective(a.amount, b.amount);
  }

  /** The chart palette; its fourth and tenth colors coincide. */
  const Palette: seq<string> := [
    "#165DFF", "#36CFC9", "#52C41A", "#FAAD14", "#FF4D4F",
    "#722ED1", "#EB0AA4", "#F5222D", "#FA8C16", "#FAAD14"]

  /** For the palette length the truncated remainder differs from the
      dividend by a multiple of ten, and is 0 exactly on the multiples. */
  lemma TruncRemByTen(a: int)
    ensures (a - TruncRem(a, 10)) % 10 == 0
    ensures TruncRem(a, 10) == 0 <==> a % 10 == 0
  {
  }

  /** `getRandomColor`: the palette entry at `index % 10`. A negative index
      gives a negative remainder and so no color (`undefined`), except for the
      multiples of ten, whose remainder `-0` reads the first entry. */
  function GetRandomColor(index: int): (r: Option<string>)
    ensures index >= 0 ==> r == Some(Palette[index % |Palette|])
    ensures index < 0 ==> (r.Some? <==> index % |Palette| == 0)
  {
    var k := TruncRem(index, |Palette|);
    if 0 <= k then Some(Palette[k]) else None
  }

  /** Colors repeat every ten sites, and sites ten apart share a color. */
  lemma ColorIsPeriodic(index: nat)
    ensures GetRandomColor(index + |Palette|) == GetRandomColor(index)
    ensures GetRandomColor(index).Some?
  {
    assert (index + |Palette|) % |Palette| == index % |Palette|;
  }

  /** Neighbouring sites always get different colors. */
  lemma NeighboursDiffer(index: nat)
    ensures GetRandomColor(index) != GetRandomColor(index + 1)
  {
    var k := index % |Palette|;
    assert (index + 1) % |Palette| == if k == 9 then 0 else k + 1;
  }
}
