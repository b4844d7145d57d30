/** The countdown and "updated ... ago" texts (app.js `timeLeft`, `timeAgo`).
    Each is split into the reading it picks (a unit ladder with floor
    division) and the rendering of that reading as text. */
module TimeText {
  import opened JsText

  const SECOND_MS: int := 1000
  const MINUTE_MS: int := 60 * 1000
  const HOUR_MS: int := 60 * 60 * 1000
  const DAY_MS: int := 24 * 60 * 60 * 1000

  /** What a time text says, before it is written out. */
  datatype Reading =
    | Now
    | Seconds(n: int)
    | Minutes(n: int)
    | Hours(n: int)
    | Days(n: int)
    | HoursMinutes(hours: int, minutes: int)
  {
    /** Readings that carry one number. */
    predicate Single() { Seconds? || Minutes? || Hours? || Days? }

    function Unit(): (c: char)
      requires Single()
    {
      match this
      case Seconds(_) => 's'
      case Minutes(_) => 'm'
      case Hours(_) => 'h'
      case Days(_) => 'd'
    }
  }

  /** The reading of `timeAgo(ms)`: the largest unit, up to days, in which the
      elapsed time is at least one whole unit, with the number of whole units
      rounded down. Below a minute (also for negative `ms`) it counts seconds. */
  function AgoReading(ms: int): (r: Reading)
    ensures r.Single()
    ensures r.Seconds? <==> ms < MINUTE_MS
    ensures r.Minutes? <==> MINUTE_MS <= ms < HOUR_MS
    ensures r.Hours? <==> HOUR_MS <= ms < DAY_MS
    ensures r.Days? <==> DAY_MS <= ms
    ensures r.Seconds? ==> r.n * SECOND_MS <= ms < (r.n + 1) * SECOND_MS
    ensures r.Minutes? ==> r.n * MINUTE_MS <= ms < (r.n + 1) * MINUTE_MS
    ensures r.Hours? ==> r.n * HOUR_MS <= ms < (r.n + 1) * HOUR_MS
    ensures r.Days? ==> r.n * DAY_MS <= ms < (r.n + 1) * DAY_MS
  {
    var seconds := ms / 1000;
    if seconds < 60 then Seconds(seconds)
    else
      var minutes := seconds / 60;
      if minutes < 60 then Minutes(minutes)
      else
        var hours := minutes / 60;
        if hours < 24 then Hours(hours)
        else Days(hours / 24)
  }

  /** The reading of `timeLeft(ms)`: "now" once nothing is left; otherwise
      whole seconds below a minute, whole minutes below an hour, and from an
      hour on whole hours plus the whole minutes left over (below 60). */
  function LeftReading(ms: int): (r: Reading)
    ensures r.Now? <==> ms <= 0
    ensures r.Seconds? <==> 0 < ms < MINUTE_MS
    ensures r.Minutes? <==> MINUTE_MS <= ms < HOUR_MS
    ensures r.HoursMinutes? <==> HOUR_MS <= ms
    ensures !r.Hours? && !r.Days?
    ensures r.Seconds? ==> r.n * SECOND_MS <= ms < (r.n + 1) * SECOND_MS
    ensures r.Minutes? ==> r.n * MINUTE_MS <= ms < (r.n + 1) * MINUTE_MS
    ensures r.HoursMinutes? ==>
      && r.hours >= 1 && 0 <= r.minutes < 60
      && (r.hours * 60 + r.minutes) * MINUTE_MS <= ms < (r.hours * 60 + r.minutes + 1) * MINUTE_MS
  {
    if ms <= 0 then Now
    else
      var seconds := ms / 1000;
      if seconds < 60 then Seconds(seconds)
      else
        var minutes := seconds / 60;
        if minutes < 60 then Minutes(minutes)
        else HoursMinutes(minutes / 60, minutes % 60)
  }

  /** A reading written the way the templates of app.js write it. */
  function Render(r: Reading): (text: string) {
    match r
    case Now => "Now!"
    case HoursMinutes(h, m) => IntToString(h) + "h " + IntToString(m) + "m"
    case _ => IntToString(r.n) + [r.Unit()]
  }

  function TimeAgo(ms: int): (text: string) {
    Render(AgoReading(ms)) + " ago"
  }

  function TimeLeft(ms: int): (text: string) {
    Render(LeftReading(ms))
  }

  /** Text that `ParseInt` can read. */
  predicate IsNumeral(s: string) {
    |s| >= 1 && (if s[0] == '-' then IsDigits(s[1..]) else IsDigits(s))
  }

  /** A one-number text reads back as the number and the unit it was written from. */
  lemma {:induction false} RenderSingleReadsBack(r: Reading)
    requires r.Single()
    ensures var t := Render(r);
      && |t| >= 2 && t[|t| - 1] == r.Unit()
      && IsNumeral(t[..|t| - 1]) && ParseInt(t[..|t| - 1]) == r.n
  {
    var t := Render(r);
    assert t[..|t| - 1] == IntToString(r.n);
    IntToStringRoundTrip(r.n);
  }

  /** `timeAgo` always ends in " ago" after a number and its unit, and the
      number is the whole count of that unit. */
  lemma TimeAgoReadsBack(ms: int)
    ensures var t := TimeAgo(ms); var r := AgoReading(ms);
      && |t| >= 6 && t[|t| - 4..] == " ago" && t[|t| - 5] == r.Unit()
      && IsNumeral(t[..|t| - 5]) && ParseInt(t[..|t| - 5]) == r.n
  {
    var r := AgoReading(ms);
    var t := TimeAgo(ms);
    var u := Render(r);
    RenderSingleReadsBack(r);
    assert t == u + " ago";
    assert t[|t| - 4..] == " ago";
    assert t[|t| - 5] == u[|u| - 1];
    assert t[..|t| - 5] == u[..|u| - 1];
  }

  /** `timeLeft` says "Now!" exactly when no time is left; a positive time
      below an hour reads back as its whole seconds or minutes. */
  lemma TimeLeftNowIff(ms: int)
    ensures TimeLeft(ms) == "Now!" <==> ms <= 0
    ensures 0 < ms < HOUR_MS ==>
      var t := TimeLeft(ms); var r := LeftReading(ms);
      && |t| >= 2 && t[|t| - 1] == r.Unit()
      && IsNumeral(t[..|t| - 1]) && ParseInt(t[..|t| - 1]) == r.n
  {
    var r := LeftReading(ms);
    var t := TimeLeft(ms);
    if r.Single() {
      RenderSingleReadsBack(r);
      assert t[|t| - 1] != '!';
    } else if r.HoursMinutes? {
      assert t[|t| - 1] == 'm';
    }
  }

  /** From an hour on, `timeLeft` writes "<h>h <m>m": a run of digits that
      reads back as the whole hours, then "h ", then the leftover whole
      minutes read back from what lies before the final "m". */
  lemma TimeLeftHoursReadsBack(ms: int)
    ensures HOUR_MS <= ms ==>
      var t := TimeLeft(ms); var r := LeftReading(ms); var n := |IntToString(r.hours)|;
      && 1 <= n && n + 4 <= |t| && t[n..n + 2] == "h " && t[|t| - 1] == 'm'
      && IsDigits(t[..n]) && IsNumeral(t[..n]) && ParseInt(t[..n]) == r.hours
      && IsNumeral(t[n + 2..|t| - 1]) && ParseInt(t[n + 2..|t| - 1]) == r.minutes
  {
    if HOUR_MS <= ms {
      var r := LeftReading(ms);
      var a, b := IntToString(r.hours), IntToString(r.minutes);
      var t := TimeLeft(ms);
      assert t == a + "h " + b + "m";
      assert t[..|a|] == a;
      assert t[|a|..|a| + 2] == "h ";
      assert t[|a| + 2..|t| - 1] == b;
      IntToStringRoundTrip(r.hours);
      IntToStringRoundTrip(r.minutes);
    }
  }

  /** Below an hour the two texts pick the same reading. */
  lemma AgoAndLeftAgree(ms: int)
    requires 0 < ms < HOUR_MS
    ensures LeftReading(ms) == AgoReading(ms)
  {
  }
}
