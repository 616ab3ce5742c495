/**
 * The pure helpers of the application's utility file: the navigation path
 * built from a parameter list, the three duration formatters, the streak
 * counter over days, and the length of a day in milliseconds.
 */
module Utils {
  import opened Wrappers
  import opened Text

  // ---------------------------------------------------------------------------
  // Navigation path
  // ---------------------------------------------------------------------------

  /**
   * `List<Any>.toNavigationPath()`, with each parameter already turned into
   * its `toString()`: "" for no parameters, otherwise '/' before the
   * parameters joined by '/'.
   */
  function ToNavigationPath(params: seq<string>): (r: string)
    ensures |params| == 0 <==> r == ""
    ensures |params| > 0 ==> r[0] == '/'
  {
    if |params| == 0 then "" else "/" + Join(params, '/')
  }

  /** The path as one segment per parameter: each parameter preceded by its own '/'. */
  function Segments(params: seq<string>): string {
    if |params| == 0 then "" else "/" + params[0] + Segments(params[1..])
  }

  lemma {:induction false} JoinSegments(params: seq<string>)
    requires |params| > 0
    ensures "/" + Join(params, '/') == Segments(params)
    decreases |params|
  {
    if |params| > 1 {
      JoinSegments(params[1..]);
      assert "/" + Join(params, '/') == "/" + params[0] + ("/" + Join(params[1..], '/'));
    }
  }

  /** The joined form and the segment-per-parameter form are the same path. */
  lemma NavigationPathIsSegments(params: seq<string>)
    ensures ToNavigationPath(params) == Segments(params)
  {
    if |params| > 0 {
      JoinSegments(params);
    }
  }

  /** A path of '/'-free parameters splits back into those parameters (after the empty piece before the first '/'). */
  lemma NavigationPathSplits(params: seq<string>)
    requires |params| > 0 && SepFree(params, '/')
    ensures Split(ToNavigationPath(params), '/') == [""] + params
  {
    SplitJoin(params, '/');
    SplitAfterPiece("", Join(params, '/'), '/');
    assert "" + ['/'] + Join(params, '/') == ToNavigationPath(params);
  }

  // ---------------------------------------------------------------------------
  // Kotlin integer division
  // ---------------------------------------------------------------------------

  /** Kotlin's `a / b` for a positive divisor: the quotient rounded toward zero. */
  function Quot(a: int, b: int): (q: int)
    requires b > 0
    ensures a >= 0 ==> 0 <= a - q * b < b
    ensures a < 0 ==> -b < a - q * b <= 0
  {
    if a >= 0 then a / b else -((-a) / b)
  }

  /** Kotlin's `a % b` for a positive divisor: the remainder takes the sign of `a`. */
  function Rem(a: int, b: int): (r: int)
    requires b > 0
    ensures Quot(a, b) * b + r == a
    ensures -b < r < b
    ensures a >= 0 ==> 0 <= r && r == a % b && Quot(a, b) == a / b
    ensures a <= 0 ==> r <= 0
  {
    if a >= 0 then a % b else -((-a) % b)
  }

  // ---------------------------------------------------------------------------
  // Durations
  // ---------------------------------------------------------------------------

  /** `formatSecondsToMMss`: `%02d:%02d` of the minutes and the remaining seconds. */
  function FormatSecondsToMMss(seconds: int): string {
    ClockText([Quot(seconds, 60), Rem(seconds, 60)])
  }

  /**
   * For a non-negative count the text reads back as two fields, minutes and
   * seconds, that recompose the count with the seconds below 60; each piece
   * is the `%02d` text of its field, and below 100 minutes the whole text is
   * exactly five characters.
   */
  lemma MMssReadsBack(seconds: int)
    requires seconds >= 0
    ensures var f := ReadClock(FormatSecondsToMMss(seconds));
      && f.Some? && |f.value| == 2
      && f.value[0] * 60 + f.value[1] == seconds
      && 0 <= f.value[1] < 60
      && Split(FormatSecondsToMMss(seconds), ':') == Render(f.value)
    ensures seconds < 6000 ==> |FormatSecondsToMMss(seconds)| == 5
  {
    var fields := [Quot(seconds, 60), Rem(seconds, 60)];
    ReadClockText(fields);
    var parts := Render(fields);
    assert Join(parts, ':') == parts[0] + [':'] + Join(parts[1..], ':');
    assert Join(parts[1..], ':') == parts[1];
  }

  /** The hours, minutes and seconds of `formatDuration`. */
  function Hours(d: int): int { Quot(d, 3600) }
  function MinutesOfHour(d: int): int { Quot(Rem(d, 3600), 60) }
  function SecondsOfMinute(d: int): int { Rem(d, 60) }

  /** A non-negative duration decomposes into hours, minutes below 60 and seconds below 60. */
  lemma DurationFields(d: int)
    requires d >= 0
    ensures Hours(d) * 3600 + MinutesOfHour(d) * 60 + SecondsOfMinute(d) == d
    ensures Hours(d) >= 0 && 0 <= MinutesOfHour(d) < 60 && 0 <= SecondsOfMinute(d) < 60
  {
  }

  /**
   * `formatDuration`: hours, minutes and seconds when there are hours and
   * seconds; hours and minutes when there are hours but no odd seconds;
   * minutes and seconds otherwise.
   */
  function FormatDuration(d: int): string {
    var h := Hours(d);
    var m := MinutesOfHour(d);
    var s := SecondsOfMinute(d);
    if h > 0 && s > 0 then ClockText([h, m, s])
    else if h > 0 then ClockText([h, m])
    else ClockText([m, s])
  }

  /** `h * 3600 + m * 60 + s == d` with the minutes and seconds in range. */
  predicate IsHms(d: int, h: int, m: int, s: int) {
    h * 3600 + m * 60 + s == d && h >= 0 && 0 <= m < 60 && 0 <= s < 60
  }

  /**
   * What `formatDuration` shows, in terms of the duration alone: three
   * fields from one hour up when the duration is not a whole minute, two
   * fields (hours, minutes) from one hour up on a whole minute, and two
   * fields (minutes, seconds) below one hour; each piece is the `%02d` text
   * of its field.
   */
  lemma FormatDurationReadsBack(d: int)
    requires d >= 0
    ensures var f := ReadClock(FormatDuration(d));
      && f.Some?
      && (d >= 3600 && d % 60 != 0 ==> |f.value| == 3 && IsHms(d, f.value[0], f.value[1], f.value[2]))
      && (d >= 3600 && d % 60 == 0 ==> |f.value| == 2 && IsHms(d, f.value[0], f.value[1], 0))
      && (d < 3600 ==> |f.value| == 2 && IsHms(d, 0, f.value[0], f.value[1]))
      && Split(FormatDuration(d), ':') == Render(f.value)
  {
    DurationFields(d);
    var h, m, s := Hours(d), MinutesOfHour(d), SecondsOfMinute(d);
    if h > 0 && s > 0 {
      ReadClockText([h, m, s]);
    } else if h > 0 {
      ReadClockText([h, m]);
    } else {
      ReadClockText([m, s]);
    }
  }

  /** The two-field shapes overlap: one and a half hours and one and a half minutes print the same. */
  lemma FormatDurationAmbiguous()
    ensures FormatDuration(5400) == FormatDuration(90) == "01:30"
  {
    assert Hours(5400) == 1 && MinutesOfHour(5400) == 30 && SecondsOfMinute(5400) == 0;
    assert Hours(90) == 0 && MinutesOfHour(90) == 1 && SecondsOfMinute(90) == 30;
    assert Format02(1) == "01" && Format02(30) == "30";
    assert Render([1, 30]) == ["01", "30"];
  }

  /** The seconds field of `formatDurationFromMillis`, with its two branches. */
  function MillisSeconds(d: int): (s: int)
    ensures d >= 0 ==> s == (d % 60000) / 1000 && 0 <= s < 60
  {
    if d >= 60000 then Quot(Rem(d, 60000), 1000) else Quot(d, 1000)
  }

  /**
   * `formatDurationFromMillis` as written: hours and minutes when there are
   * hours, minutes and seconds otherwise. The minutes are the total minutes
   * of the duration in both branches.
   */
  function FormatDurationFromMillis(d: int): string {
    var hours := Quot(d, 3600000);
    var minutes := Quot(d, 60000);
    if hours > 0 then ClockText([hours, minutes]) else ClockText([minutes, MillisSeconds(d)])
  }

  /** With hours shown, the second field is the total minutes, which is 60 or more. */
  lemma FromMillisShowsTotalMinutes(d: int)
    requires d >= 3600000
    ensures var f := ReadClock(FormatDurationFromMillis(d));
      f == Some([d / 3600000, d / 60000]) && f.value[1] >= 60
  {
    ReadClockText([d / 3600000, d / 60000]);
  }

  /** One hour and one minute prints as "01:61". */
  lemma FromMillisOneHourOneMinute()
    ensures FormatDurationFromMillis(3660000) == "01:61"
  {
    assert Format02(1) == "01" && Format02(61) == "61";
    assert Render([1, 61]) == ["01", "61"];
  }

  /** Below one hour the text is minutes and seconds of the duration, both recomposing it to the second. */
  lemma FromMillisBelowAnHour(d: int)
    requires 0 <= d < 3600000
    ensures var f := ReadClock(FormatDurationFromMillis(d));
      && f.Some? && |f.value| == 2
      && f.value[0] * 60000 + f.value[1] * 1000 <= d < f.value[0] * 60000 + f.value[1] * 1000 + 1000
      && 0 <= f.value[1] < 60
  {
    ReadClockText([d / 60000, MillisSeconds(d)]);
  }

  /**
   * The evident intent of `formatDurationFromMillis`: with hours shown, the
   * minutes are the minutes within the hour.
   */
  function FormatDurationFromMillisFixed(d: int): string {
    var hours := Quot(d, 3600000);
    var minutes := Quot(d, 60000);
    if hours > 0 then ClockText([hours, Rem(minutes, 60)]) else ClockText([minutes, MillisSeconds(d)])
  }

  /**
   * The corrected formatter reads back as hours and minutes below 60 that
   * recompose the duration to the minute, and agrees with the original below
   * one hour.
   */
  lemma FixedFromMillisReadsBack(d: int)
    requires d >= 3600000
    ensures var f := ReadClock(FormatDurationFromMillisFixed(d));
      && f.Some? && |f.value| == 2
      && 0 <= f.value[1] < 60
      && f.value[0] * 3600000 + f.value[1] * 60000 <= d < f.value[0] * 3600000 + f.value[1] * 60000 + 60000
  {
    var q, m := d / 60000, (d / 60000) % 60;
    assert d == q * 60000 + d % 60000;
    assert q == (q / 60) * 60 + m;
    assert d == (q / 60) * 3600000 + (m * 60000 + d % 60000);
    HourQuotient(d, q / 60, m * 60000 + d % 60000);
    ReadClockText([d / 3600000, m]);
  }

  /** The whole hours of a duration are the only count that leaves less than an hour over. */
  lemma HourQuotient(a: int, q: int, r: int)
    requires 0 <= r < 3600000 && a == q * 3600000 + r
    ensures a / 3600000 == q
  {
  }

  lemma FixedAgreesBelowAnHour(d: int)
    requires d < 3600000
    ensures FormatDurationFromMillisFixed(d) == FormatDurationFromMillis(d)
  {
  }

  // ---------------------------------------------------------------------------
  // Streak of consecutive days
  // ---------------------------------------------------------------------------

  /** `date` continues a streak whose latest counted day is `prev`: the same day or the day before. */
  predicate Continues(date: int, prev: int) {
    date == prev || date == prev - 1
  }

  /** The greedy scan of `countConsecutiveDates`: counts each date that continues the streak and moves the streak to it. */
  function Streak(dates: seq<int>, prev: int): (r: nat)
    ensures r <= |dates|
  {
    if |dates| == 0 then 0
    else if Continues(dates[0], prev) then 1 + Streak(dates[1..], dates[0])
    else Streak(dates[1..], prev)
  }

  /** The dates the scan counts, in order. */
  function Counted(dates: seq<int>, prev: int): seq<int> {
    if |dates| == 0 then []
    else if Continues(dates[0], prev) then [dates[0]] + Counted(dates[1..], dates[0])
    else Counted(dates[1..], prev)
  }

  /** `xs` is a chain starting at `start`: its first element continues `start` and every later one continues the one before it. */
  predicate IsChain(xs: seq<int>, start: int) {
    && (|xs| > 0 ==> Continues(xs[0], start))
    && forall i :: 0 < i < |xs| ==> Continues(xs[i], xs[i - 1])
  }

  /** `xs` is obtained from `ys` by deleting elements. */
  predicate IsSubsequence(xs: seq<int>, ys: seq<int>)
    decreases |ys|
  {
    if |xs| == 0 then true
    else if |ys| == 0 then false
    else if xs[0] == ys[0] then IsSubsequence(xs[1..], ys[1..])
    else IsSubsequence(xs, ys[1..])
  }

  /** `countConsecutiveDates` over day numbers, with today's day number as a parameter. */
  method CountConsecutiveDates(dates: seq<int>, today: int) returns (count: nat)
    ensures count == Streak(dates, today)
    ensures count <= |dates|
    ensures |dates| == 0 ==> count == 0
  {
    count := 0;
    var previous := today;
    var i := 0;
    while i < |dates|
      invariant 0 <= i <= |dates|
      invariant count + Streak(dates[i..], previous) == Streak(dates, today)
    {
      assert dates[i..][1..] == dates[i + 1..];
      if Continues(dates[i], previous) {
        count := count + 1;
        previous := dates[i];
      }
      i := i + 1;
    }
    assert dates[i..] == [];
  }

  /** The counted dates: as many as the count, taken in order from the input, forming a chain from today. */
  lemma {:induction false} CountedIsChain(dates: seq<int>, prev: int)
    ensures |Counted(dates, prev)| == Streak(dates, prev)
    ensures IsChain(Counted(dates, prev), prev)
    ensures IsSubsequence(Counted(dates, prev), dates)
    decreases |dates|
  {
    if |dates| > 0 {
      var rest := dates[1..];
      if Continues(dates[0], prev) {
        CountedIsChain(rest, dates[0]);
        var c := Counted(dates, prev);
        assert c == [dates[0]] + Counted(rest, dates[0]);
        assert c[1..] == Counted(rest, dates[0]);
        ChainCons(dates[0], Counted(rest, dates[0]), prev);
      } else {
        CountedIsChain(rest, prev);
        SubsequenceOfTail(Counted(rest, prev), dates);
      }
    }
  }

  /** A subsequence of the tail of `ys` is a subsequence of `ys`. */
  lemma {:induction false} SubsequenceOfTail(xs: seq<int>, ys: seq<int>)
    requires |ys| > 0 && IsSubsequence(xs, ys[1..])
    ensures IsSubsequence(xs, ys)
    decreases |ys|, |xs|
  {
    if |xs| > 0 && xs[0] == ys[0] {
      DropFirst(xs, ys[1..]);
    }
  }

  /** A subsequence of `ys` without its first element is still a subsequence of `ys`. */
  lemma {:induction false} DropFirst(xs: seq<int>, ys: seq<int>)
    requires |xs| > 0 && IsSubsequence(xs, ys)
    ensures IsSubsequence(xs[1..], ys)
    decreases |ys|, |xs|
  {
    if xs[0] == ys[0] {
      SubsequenceOfTail(xs[1..], ys);
    } else {
      DropFirst(xs, ys[1..]);
      SubsequenceOfTail(xs[1..], ys);
    }
  }

  /** Every date of a chain from `start` lies between `start` minus its position plus one and `start`. */
  lemma {:induction false} ChainBounds(xs: seq<int>, start: int)
    requires IsChain(xs, start)
    ensures forall i :: 0 <= i < |xs| ==> start - (i + 1) <= xs[i] <= start
  {
    var i := 0;
    while i < |xs|
      invariant 0 <= i <= |xs|
      invariant forall j :: 0 <= j < i ==> start - (j + 1) <= xs[j] <= start
    {
      if i > 0 {
        assert Continues(xs[i], xs[i - 1]);
      }
      i := i + 1;
    }
  }

  /** Every counted date lies between today minus the count and today. */
  lemma StreakWindow(dates: seq<int>, today: int)
    ensures var c := Counted(dates, today);
      forall i :: 0 <= i < |c| ==> today - Streak(dates, today) <= c[i] <= today
  {
    CountedIsChain(dates, today);
    ChainBounds(Counted(dates, today), today);
  }

  /** Every date is counted exactly when the whole list is a chain from today. */
  lemma {:induction false} AllCountedIffChain(dates: seq<int>, prev: int)
    ensures Streak(dates, prev) == |dates| <==> IsChain(dates, prev)
    decreases |dates|
  {
    if |dates| > 0 {
      var rest := dates[1..];
      AllCountedIffChain(rest, dates[0]);
      if Continues(dates[0], prev) {
        ChainTail(dates, prev);
      }
    }
  }

  /** A list continuing `prev` at its head is a chain from `prev` exactly when its tail is a chain from its head. */
  lemma ChainTail(dates: seq<int>, prev: int)
    requires |dates| > 0 && Continues(dates[0], prev)
    ensures IsChain(dates, prev) <==> IsChain(dates[1..], dates[0])
  {
    ChainCons(dates[0], dates[1..], prev);
    assert [dates[0]] + dates[1..] == dates;
  }

  /** Putting a date that continues `prev` in front of a chain from that date gives a chain from `prev`, and conversely. */
  lemma ChainCons(x: int, xs: seq<int>, prev: int)
    requires Continues(x, prev)
    ensures IsChain([x] + xs, prev) <==> IsChain(xs, x)
  {
    var c := [x] + xs;
    if IsChain(xs, x) {
      forall i | 0 < i < |c|
        ensures Continues(c[i], c[i - 1])
      {
        assert c[i] == xs[i - 1];
        if i > 1 {
          assert Continues(xs[i - 1], xs[i - 2]);
        }
      }
    }
    if IsChain(c, prev) {
      forall i | 0 < i < |xs|
        ensures Continues(xs[i], xs[i - 1])
      {
        assert Continues(c[i + 1], c[i]);
      }
      if |xs| > 0 {
        assert Continues(c[1], c[0]);
      }
    }
  }

  // ---------------------------------------------------------------------------
  // One day
  // ---------------------------------------------------------------------------

  /** `oneDayInMillis`: `24 * 60 * 60 * 1000L`. */
  function OneDayInMillis(): int {
    24 * 60 * 60 * 1000
  }

  /** A day is 24 whole hours of the millisecond formatter and 86,400 seconds, "24:00" to `formatDuration`. */
  lemma OneDayInOtherUnits()
    ensures OneDayInMillis() == 86400000
    ensures Quot(OneDayInMillis(), 3600000) == 24 && Rem(OneDayInMillis(), 3600000) == 0
    ensures FormatDuration(OneDayInMillis() / 1000) == "24:00"
  {
    assert Hours(86400) == 24 && MinutesOfHour(86400) == 0 && SecondsOfMinute(86400) == 0;
    assert Format02(24) == "24" && Format02(0) == "00";
    assert Render([24, 0]) == ["24", "00"];
  }
}
