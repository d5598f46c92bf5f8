/** The watch face that calculates its prayer times on the watch
    (apps/SalaaTime/app.js). The astronomical library is the parameter
    `getTimes`: the times it yields for a local day number, or None when it
    throws. The face's globals are the fields of class CalcFace; each
    handler is a method proved equal to a step function on CalcState. */
module CalcFace {
  import opened JsValues
  import opened TimeText

  /** Display order of the six entries, keyed as the library names them. */
  const PRAYER_KEYS: seq<string> := ["fajr", "sunrise", "dhuhr", "asr", "maghrib", "isha"]

  const PLACEHOLDER: string := "--:--"

  /** The library's times for one day: key to "HH:MM" (24-hour format). */
  type Times = map<string, string>

  /** `prayerNames[key]` */
  function PrayerName(key: string): (name: string)
    requires key in PRAYER_KEYS
    ensures name != "Error"
  {
    if key == "fajr" then "Fajr"
    else if key == "sunrise" then "Shuruq"
    else if key == "dhuhr" then "Dhuhr"
    else if key == "asr" then "Asr"
    else if key == "maghrib" then "Maghrib"
    else "Isha"
  }

  // ---------------------------------------------------------------------
  // Settings (lines 15-24)

  const CALC_DEFAULTS: map<string, JsValue> := map[
    "lat" := Num(51.24), "lon" := Num(-0.17), "calcMethod" := Str("ISNA"), "asrMethod" := Str("Standard"),
    "hijriOffset" := Num(0.0), "showHijri" := Bool(true), "showSeconds" := Bool(false)]

  /** `Object.assign({...defaults}, stored || {})`; None is a missing or
      unreadable settings file. */
  function InitialSettings(stored: Option<map<string, JsValue>>): (settings: map<string, JsValue>)
    ensures settings.Keys == CALC_DEFAULTS.Keys + (if stored.Some? then stored.value.Keys else {})
    ensures forall k :: stored.Some? && k in stored.value ==> settings[k] == stored.value[k]
    ensures forall k :: k in CALC_DEFAULTS && (stored.None? || k !in stored.value) ==> settings[k] == CALC_DEFAULTS[k]
  {
    match stored
    case None => CALC_DEFAULTS
    case Some(m) => CALC_DEFAULTS + m
  }

  // ---------------------------------------------------------------------
  // formatTime (lines 206-214)

  /** "--:--" for a falsy or non-string value and for a string that does
      not split on ':' into exactly two pieces; the string itself otherwise. */
  function FormatTime(v: JsValue): (r: string)
    ensures r == PLACEHOLDER || (v == Str(r) && r != [] && Occurrences(r, ':') == 1)
  {
    if !Truthy(v) || !v.Str? then PLACEHOLDER
    else if |Split(v.s, ':')| != 2 then PLACEHOLDER
    else
      SplitCount(v.s, ':');
      v.s
  }

  /** The placeholder itself passes the shape test. */
  lemma PlaceholderFormatted()
    ensures FormatTime(Str(PLACEHOLDER)) == PLACEHOLDER
  {
    SplitCount(PLACEHOLDER, ':');
    assert multiset(PLACEHOLDER)[':'] == 1 by {
      assert PLACEHOLDER == ['-', '-'] + [':'] + ['-', '-'];
    }
  }

  /** A string is shown unchanged exactly when it is non-empty and holds
      exactly one ':'. */
  lemma FormatTimeKeeps(s: string)
    ensures FormatTime(Str(s)) == s <==> s != [] && Occurrences(s, ':') == 1
  {
    SplitCount(s, ':');
    if s == PLACEHOLDER {
      PlaceholderFormatted();
    }
  }

  /** formatTime applied twice equals formatTime applied once. */
  lemma FormatTimeIdempotent(v: JsValue)
    ensures FormatTime(Str(FormatTime(v))) == FormatTime(v)
  {
    var r := FormatTime(v);
    if r == PLACEHOLDER {
      PlaceholderFormatted();
    } else {
      FormatTimeKeeps(r);
    }
  }

  /** Every well-formed "HH:MM" is shown as it is. */
  lemma FormatTimeOfClock(s: string)
    requires IsClock(s)
    ensures FormatTime(Str(s)) == s
  {
    assert s == s[..2] + [':'] + s[3..];
    assert ':' !in s[..2] && ':' !in s[3..];
    SplitAt(s[..2], s[3..], ':');
    SplitNone(s[3..], ':');
  }

  // ---------------------------------------------------------------------
  // findNextPrayer (lines 107-187)

  /** A key the scan stops at: its time is present, not "", and later than
      the current "HH:MM" in string order. Sunrise is not skipped. */
  predicate Later(times: Times, key: string, nowStr: string) {
    key in times && times[key] != "" && StrLess(nowStr, times[key])
  }

  /** The index of the first key from position i on whose time is later. */
  function FirstLater(times: Times, nowStr: string, i: nat): (r: Option<nat>)
    requires i <= |PRAYER_KEYS|
    ensures r.Some? ==> i <= r.value < |PRAYER_KEYS| && Later(times, PRAYER_KEYS[r.value], nowStr)
    ensures r.Some? ==> forall j :: i <= j < r.value ==> !Later(times, PRAYER_KEYS[j], nowStr)
    ensures r.None? ==> forall j :: i <= j < |PRAYER_KEYS| ==> !Later(times, PRAYER_KEYS[j], nowStr)
    decreases |PRAYER_KEYS| - i
  {
    if i == |PRAYER_KEYS| then None
    else if Later(times, PRAYER_KEYS[i], nowStr) then Some(i)
    else FirstLater(times, nowStr, i + 1)
  }

  /** The countdown for the next prayer's Date. A negative difference has
      one day added; an Invalid Date makes the difference NaN, so every test
      fails and "Now" is shown; no Date at all shows "...". */
  function CalcCountdown(iso: DateValue, now: int): string {
    match iso
    case ValidDate(ms) =>
      var diffMillis := ms - now;
      CountdownText(if diffMillis < 0 then diffMillis + MS_PER_DAY else diffMillis)
    case InvalidDate => "Now"
    case NullDate => "..."
  }

  /** How a call of findNextPrayer ends: it completes with the new info and
      countdown, or it throws (the library throws for tomorrow, or
      tomorrow's table has no fajr and `undefined.split` throws). */
  datatype Outcome = Completed(next: NextPrayerInfo, countdown: string) | Threw

  /** The info and countdown shown for prayer `name` at the "HH:MM" s on
      the day of `base`. */
  function Chosen(name: string, s: string, base: int, now: int): Outcome {
    var iso := DateAt(base, s);
    Completed(NextPrayerInfo(name, FormatTime(Str(s)), iso), CalcCountdown(iso, now))
  }

  /** What findNextPrayer computes from the current table. */
  function NextPrayer(times: Times, now: int, getTimes: int -> Option<Times>): Outcome {
    if |times| == 0 then
      Completed(NextPrayerInfo("Error", PLACEHOLDER, NullDate), "Calc Error")
    else
      match FirstLater(times, NowString(now), 0)
      case Some(i) =>
        Chosen(PrayerName(PRAYER_KEYS[i]), times[PRAYER_KEYS[i]], now, now)
      case None =>
        var tomorrow := getTimes(Day(now + MS_PER_DAY));
        if tomorrow.None? || "fajr" !in tomorrow.value then Threw
        else
          Chosen("Fajr", tomorrow.value["fajr"], now + MS_PER_DAY, now)
  }

  /** An empty table, and only an empty table, gives "Error", "--:--", no
      Date and "Calc Error"; the library is not consulted then. */
  lemma EmptyTimes(times: Times, now: int, getTimes: int -> Option<Times>)
    ensures var o := NextPrayer(times, now, getTimes);
      (o.Completed? && o.next.name == "Error" <==> |times| == 0)
      && (|times| == 0 ==> o == Completed(NextPrayerInfo("Error", PLACEHOLDER, NullDate), "Calc Error"))
  {
  }

  /** When some entry of today is later, the first such key in order is
      chosen (sunrise included), with its formatted time and a Date on
      today's date at its hours and minutes. */
  lemma SelectionIsFirstLater(times: Times, now: int, getTimes: int -> Option<Times>, i: nat)
    requires |times| > 0
    requires i < |PRAYER_KEYS| && Later(times, PRAYER_KEYS[i], NowString(now))
    requires forall j :: 0 <= j < i ==> !Later(times, PRAYER_KEYS[j], NowString(now))
    ensures var key := PRAYER_KEYS[i];
      NextPrayer(times, now, getTimes)
        == Completed(NextPrayerInfo(PrayerName(key), FormatTime(Str(times[key])), DateAt(now, times[key])),
                     CalcCountdown(DateAt(now, times[key]), now))
  {
    assert FirstLater(times, NowString(now), 0) == Some(i);
  }

  /** When no entry of today is later, the next prayer is tomorrow's Fajr:
      the library is asked for the following day, and the call throws
      exactly when it throws or gives no fajr. */
  lemma TomorrowFajr(times: Times, now: int, getTimes: int -> Option<Times>)
    requires |times| > 0
    requires forall j :: 0 <= j < |PRAYER_KEYS| ==> !Later(times, PRAYER_KEYS[j], NowString(now))
    ensures var o := NextPrayer(times, now, getTimes);
      var tomorrow := getTimes(Day(now) + 1);
      (o.Threw? <==> tomorrow.None? || "fajr" !in tomorrow.value)
      && (o.Completed? ==>
            var s := tomorrow.value["fajr"];
            o.next == NextPrayerInfo("Fajr", FormatTime(Str(s)), DateAt(now + MS_PER_DAY, s))
            && o.countdown == CalcCountdown(DateAt(now + MS_PER_DAY, s), now))
  {
    assert Day(now + MS_PER_DAY) == Day(now) + 1;
    assert FirstLater(times, NowString(now), 0).None?;
  }

  /** Every entry of the six keys is a well-formed "HH:MM". */
  predicate ClockTimes(times: Times) {
    forall k :: k in PRAYER_KEYS ==> k in times && IsClock(times[k])
  }

  /** On well-formed times the scan's string test is the test of minutes
      of the day. */
  lemma LaterByMinutes(times: Times, now: int)
    requires ClockTimes(times)
    ensures forall j :: 0 <= j < |PRAYER_KEYS| ==>
      (Later(times, PRAYER_KEYS[j], NowString(now)) <==> ClockMinutes(times[PRAYER_KEYS[j]]) > MinuteOfDay(now))
  {
    NowStringIsClock(now);
    forall j | 0 <= j < |PRAYER_KEYS|
      ensures Later(times, PRAYER_KEYS[j], NowString(now)) <==> ClockMinutes(times[PRAYER_KEYS[j]]) > MinuteOfDay(now)
    {
      ClockOrder(NowString(now), times[PRAYER_KEYS[j]]);
    }
  }

  /** A Date not before now: no day is added, and the countdown is that of
      the difference rounded up to minutes. */
  lemma CountdownOfDate(ms: int, now: int, minutes: int)
    requires ms - now >= 0 && CeilMinutes(ms - now) == minutes
    ensures CalcCountdown(ValidDate(ms), now) == CountdownOfMinutes(minutes)
  {
  }

  /** A well-formed time later than now: the Date is today at that minute
      and the countdown shows exactly the minutes until it. */
  lemma TodayCountdown(now: int, s: string, minutes: int)
    requires IsClock(s) && StrLess(NowString(now), s)
    requires minutes == ClockMinutes(s) - MinuteOfDay(now)
    ensures DateAt(now, s) == ValidDate(Day(now) * MS_PER_DAY + ClockMinutes(s) * MS_PER_MINUTE)
    ensures CalcCountdown(DateAt(now, s), now) == CountdownOfMinutes(minutes)
  {
    DateAtClock(now, s);
    SameDayCountdown(now, s);
    CountdownOfDate(DateAt(now, s).ms, now, minutes);
  }

  /** A well-formed time for tomorrow: the Date is tomorrow at that minute
      and the countdown is the rest of today plus that minute of the day. */
  lemma TomorrowCountdown(now: int, s: string, minutes: int)
    requires IsClock(s)
    requires minutes == 1440 - MinuteOfDay(now) + ClockMinutes(s)
    ensures DateAt(now + MS_PER_DAY, s) == ValidDate((Day(now) + 1) * MS_PER_DAY + ClockMinutes(s) * MS_PER_MINUTE)
    ensures CalcCountdown(DateAt(now + MS_PER_DAY, s), now) == CountdownOfMinutes(minutes)
  {
    DateAtClock(now + MS_PER_DAY, s);
    NextDay(now);
    NextDayCountdown(now, s);
    CountdownOfDate(DateAt(now + MS_PER_DAY, s).ms, now, minutes);
  }

  /** On well-formed times, the first prayer later than the current minute
      is chosen; its Date is today at that minute and the countdown shows
      exactly the minutes until it (the day correction never fires). */
  lemma ClockTimesToday(times: Times, now: int, getTimes: int -> Option<Times>, i: nat, minutes: int)
    requires ClockTimes(times)
    requires i < |PRAYER_KEYS| && ClockMinutes(times[PRAYER_KEYS[i]]) > MinuteOfDay(now)
    requires forall j :: 0 <= j < i ==> ClockMinutes(times[PRAYER_KEYS[j]]) <= MinuteOfDay(now)
    requires minutes == ClockMinutes(times[PRAYER_KEYS[i]]) - MinuteOfDay(now)
    ensures var o := NextPrayer(times, now, getTimes);
      var s := times[PRAYER_KEYS[i]];
      o.Completed? && o.next.name == PrayerName(PRAYER_KEYS[i]) && o.next.time == s
      && o.next.iso == ValidDate(Day(now) * MS_PER_DAY + ClockMinutes(s) * MS_PER_MINUTE)
      && o.countdown == CountdownOfMinutes(minutes)
  {
    var s := times[PRAYER_KEYS[i]];
    ClockTimesFirst(times, now, i);
    assert PRAYER_KEYS[0] in times;
    SelectionIsFirstLater(times, now, getTimes, i);
    FormatTimeOfClock(s);
    TodayCountdown(now, s, minutes);
  }

  /** The minute test picks the same key as the scan's string test. */
  lemma ClockTimesFirst(times: Times, now: int, i: nat)
    requires ClockTimes(times)
    requires i < |PRAYER_KEYS| && ClockMinutes(times[PRAYER_KEYS[i]]) > MinuteOfDay(now)
    requires forall j :: 0 <= j < i ==> ClockMinutes(times[PRAYER_KEYS[j]]) <= MinuteOfDay(now)
    ensures Later(times, PRAYER_KEYS[i], NowString(now))
    ensures forall j :: 0 <= j < i ==> !Later(times, PRAYER_KEYS[j], NowString(now))
  {
    LaterByMinutes(times, now);
  }

  /** The minute test finds no key exactly when the string test finds none. */
  lemma ClockTimesNone(times: Times, now: int)
    requires ClockTimes(times)
    requires forall j :: 0 <= j < |PRAYER_KEYS| ==> ClockMinutes(times[PRAYER_KEYS[j]]) <= MinuteOfDay(now)
    ensures forall j :: 0 <= j < |PRAYER_KEYS| ==> !Later(times, PRAYER_KEYS[j], NowString(now))
  {
    LaterByMinutes(times, now);
  }

  /** On well-formed times with none later than the current minute, and a
      well-formed fajr for tomorrow, the next prayer is that Fajr, its Date
      is tomorrow at that minute with zero seconds, and the countdown is the
      rest of today plus fajr's minute of the day. */
  lemma ClockTimesTomorrow(times: Times, now: int, getTimes: int -> Option<Times>, minutes: int)
    requires ClockTimes(times)
    requires forall j :: 0 <= j < |PRAYER_KEYS| ==> ClockMinutes(times[PRAYER_KEYS[j]]) <= MinuteOfDay(now)
    requires getTimes(Day(now) + 1).Some? && "fajr" in getTimes(Day(now) + 1).value
    requires IsClock(getTimes(Day(now) + 1).value["fajr"])
    requires minutes == 1440 - MinuteOfDay(now) + ClockMinutes(getTimes(Day(now) + 1).value["fajr"])
    ensures var o := NextPrayer(times, now, getTimes);
      var s := getTimes(Day(now) + 1).value["fajr"];
      o.Completed? && o.next.name == "Fajr" && o.next.time == s
      && o.next.iso == ValidDate((Day(now) + 1) * MS_PER_DAY + ClockMinutes(s) * MS_PER_MINUTE)
      && o.countdown == CountdownOfMinutes(minutes)
  {
    var s := getTimes(Day(now) + 1).value["fajr"];
    ClockTimesNone(times, now);
    assert PRAYER_KEYS[0] in times;
    NextDay(now);
    assert NextPrayer(times, now, getTimes) == Chosen("Fajr", s, now + MS_PER_DAY, now);
    FormatTimeOfClock(s);
    TomorrowCountdown(now, s, minutes);
  }

  /** Two instants on the same local day are less than a day apart. */
  lemma SameDayApart(ms: int, now: int)
    requires Day(ms) == Day(now)
    ensures -MS_PER_DAY < ms - now < MS_PER_DAY
  {
    assert ms == Day(ms) * MS_PER_DAY + MsOfDay(ms);
    assert now == Day(now) * MS_PER_DAY + MsOfDay(now);
  }

  /** A difference of at most a day is at most 1440 minutes, rounded up. */
  lemma CeilMinutesOfDay(c: int)
    requires 0 <= c <= MS_PER_DAY
    ensures 0 <= CeilMinutes(c) <= 1440
  {
    var q := CeilMinutes(c);
    assert (q - 1) * MS_PER_MINUTE < c <= q * MS_PER_MINUTE;
  }

  /** For any Date on today's local day, the day correction makes the
      countdown the time until that time of day comes next: between 0 and
      1440 minutes. */
  lemma DayCorrection(ms: int, now: int)
    requires Day(ms) == Day(now)
    ensures var next := if ms >= now then ms else ms + MS_PER_DAY;
      0 <= next - now < MS_PER_DAY
      && 0 <= CeilMinutes(next - now) <= 1440
      && CalcCountdown(ValidDate(ms), now) == CountdownText(next - now)
  {
    SameDayApart(ms, now);
    var next := if ms >= now then ms else ms + MS_PER_DAY;
    CeilMinutesOfDay(next - now);
  }

  // ---------------------------------------------------------------------
  // The face's state and its steps

  datatype CalcState = CalcState(
    times: Times,
    next: NextPrayerInfo,
    countdown: string,
    lastUpdateDate: string)

  /** calculatePrayerTimes(date) for the library's result: success stores
      the table and the date, failure clears the table and keeps the date. */
  function CalculateStep(s: CalcState, isoDate: string, result: Option<Times>): CalcState {
    match result
    case Some(t) => s.(times := t, lastUpdateDate := isoDate)
    case None => s.(times := map[])
  }

  /** findNextPrayer(): the new state, and whether the call completed. */
  function FindNextStep(s: CalcState, now: int, getTimes: int -> Option<Times>): (CalcState, bool) {
    match NextPrayer(s.times, now, getTimes)
    case Completed(info, text) => (s.(next := info, countdown := text), true)
    case Threw => (s, false)
  }

  /** The test in checkDateAndUpdateTimes (line 194); isoDate is
      `today.toISOString().substr(0, 10)`. */
  predicate NeedsRecalc(s: CalcState, isoDate: string) {
    isoDate != s.lastUpdateDate || |s.times| == 0
  }

  /** checkDateAndUpdateTimes(): recalculate when needed, then find the
      next prayer in either case. */
  function CheckDateStep(s: CalcState, now: int, isoDate: string, getTimes: int -> Option<Times>): (CalcState, bool) {
    var calculated := if NeedsRecalc(s, isoDate) then CalculateStep(s, isoDate, getTimes(Day(now))) else s;
    FindNextStep(calculated, now, getTimes)
  }

  /** Finding the next prayer changes neither the table nor the date. */
  lemma FindNextKeepsTable(s: CalcState, now: int, getTimes: int -> Option<Times>)
    ensures var (r, _) := FindNextStep(s, now, getTimes);
      r.times == s.times && r.lastUpdateDate == s.lastUpdateDate
  {
  }

  /** Times are recalculated exactly when the date differs or the table is
      empty, and the next prayer is found in both cases. */
  lemma CheckDateCases(s: CalcState, now: int, isoDate: string, getTimes: int -> Option<Times>)
    ensures !NeedsRecalc(s, isoDate) <==> s.lastUpdateDate == isoDate && |s.times| > 0
    ensures NeedsRecalc(s, isoDate) ==>
      CheckDateStep(s, now, isoDate, getTimes) == FindNextStep(CalculateStep(s, isoDate, getTimes(Day(now))), now, getTimes)
    ensures !NeedsRecalc(s, isoDate) ==>
      CheckDateStep(s, now, isoDate, getTimes) == FindNextStep(s, now, getTimes)
  {
  }

  /** Once a calculation has succeeded with a non-empty table, later checks
      on the same date only find the next prayer. */
  lemma CheckDateSettles(s: CalcState, now: int, isoDate: string, getTimes: int -> Option<Times>)
    requires getTimes(Day(now)).Some? && |getTimes(Day(now)).value| > 0
    requires NeedsRecalc(s, isoDate)
    ensures var (r, _) := CheckDateStep(s, now, isoDate, getTimes);
      !NeedsRecalc(r, isoDate) && r.times == getTimes(Day(now)).value
  {
    FindNextKeepsTable(CalculateStep(s, isoDate, getTimes(Day(now))), now, getTimes);
  }

  /** A failed calculation leaves an empty table and shows "Calc Error", so
      the next check recalculates. */
  lemma FailedCalculationRetries(s: CalcState, now: int, isoDate: string, getTimes: int -> Option<Times>)
    requires getTimes(Day(now)).None?
    requires NeedsRecalc(s, isoDate)
    ensures var (r, completed) := CheckDateStep(s, now, isoDate, getTimes);
      completed && r.times == map[] && r.countdown == "Calc Error"
      && r.lastUpdateDate == s.lastUpdateDate && NeedsRecalc(r, isoDate)
  {
  }

  /** The scan of findNextPrayer (lines 123-132): the keys in display order,
      skipping missing and empty times, stopping at the first time later
      than the current "HH:MM". */
  method ScanToday(times: Times, nowTimeStr: string) returns (found: Option<nat>)
    ensures found == FirstLater(times, nowTimeStr, 0)
  {
    found := None;
    var i := 0;
    while i < |PRAYER_KEYS|
      invariant 0 <= i <= |PRAYER_KEYS|
      invariant FirstLater(times, nowTimeStr, i) == FirstLater(times, nowTimeStr, 0)
    {
      var key := PRAYER_KEYS[i];
      if key !in times || times[key] == "" {
        i := i + 1;
        continue;
      }
      if StrLess(nowTimeStr, times[key]) {
        found := Some(i);
        break;
      }
      i := i + 1;
    }
  }

  /** The countdown part of findNextPrayer (lines 166-186): the difference
      is corrected by a day when negative, then rounded up to minutes and
      shown as hours and minutes. */
  method TimeRemaining(iso: DateValue, now: int) returns (text: string)
    ensures text == CalcCountdown(iso, now)
  {
    if iso.ValidDate? {
      var diffMillis := iso.ms - now;
      if diffMillis < 0 {
        diffMillis := diffMillis + MS_PER_DAY;
      }
      var diffMins := CeilMinutes(diffMillis);
      var diffHrs := diffMins / 60;
      diffMins := JsRem(diffMins, 60);
      if diffHrs > 0 {
        text := "-" + DecimalString(diffHrs) + "h " + DecimalString(diffMins) + "m";
      } else if diffMins > 0 {
        text := "-" + DecimalString(diffMins) + "m";
      } else {
        text := "Now";
      }
    } else if iso.InvalidDate? {
      // the difference is NaN and every test is false
      text := "Now";
    } else {
      text := "...";
    }
  }

  /** The tail of findNextPrayer (lines 158-186): the Date of the chosen
      time, the info built from it, and the countdown to it. */
  method Announce(name: string, s: string, base: int, now: int) returns (info: NextPrayerInfo, text: string)
    ensures Completed(info, text) == Chosen(name, s, base, now)
  {
    var iso := DateAt(base, s);
    info := NextPrayerInfo(name, FormatTime(Str(s)), iso);
    text := TimeRemaining(iso, now);
  }

  // ---------------------------------------------------------------------
  // The face

  /** The module-level state of the face. */
  class CalcFace {
    const settings: map<string, JsValue>
    const showSeconds: JsValue
    var currentPrayerTimes: Times
    var nextPrayerInfo: NextPrayerInfo
    var timeToNextPrayer: string
    var lastUpdateDate: string

    function State(): CalcState
      reads this
    {
      CalcState(currentPrayerTimes, nextPrayerInfo, timeToNextPrayer, lastUpdateDate)
    }

    /** The module-level initialisation (lines 15-44). */
    constructor(stored: Option<map<string, JsValue>>)
      ensures settings == InitialSettings(stored)
      ensures showSeconds == settings["showSeconds"]
      ensures State() == CalcState(map[], NextPrayerInfo("...", PLACEHOLDER, NullDate), "", "")
    {
      settings := InitialSettings(stored);
      showSeconds := InitialSettings(stored)["showSeconds"];
      currentPrayerTimes := map[];
      nextPrayerInfo := NextPrayerInfo("...", PLACEHOLDER, NullDate);
      timeToNextPrayer := "";
      lastUpdateDate := "";
    }

    /** calculatePrayerTimes(date) for the local day of `now`. */
    method CalculatePrayerTimes(now: int, isoDate: string, getTimes: int -> Option<Times>)
      modifies this
      ensures State() == CalculateStep(old(State()), isoDate, getTimes(Day(now)))
    {
      var result := getTimes(Day(now));
      if result.Some? {
        currentPrayerTimes := result.value;
        lastUpdateDate := isoDate;
      } else {
        currentPrayerTimes := map[];
      }
    }

    /** findNextPrayer(): scans the keys in order and stops at the first
        later one; `completed` is false when the call throws. */
    method FindNextPrayer(now: int, getTimes: int -> Option<Times>) returns (completed: bool)
      modifies this
      ensures (State(), completed) == FindNextStep(old(State()), now, getTimes)
    {
      var nowTimeStr := NowString(now);
      if |currentPrayerTimes| == 0 {
        nextPrayerInfo := NextPrayerInfo("Error", PLACEHOLDER, NullDate);
        timeToNextPrayer := "Calc Error";
        return true;
      }
      ghost var outcome := NextPrayer(currentPrayerTimes, now, getTimes);
      var found := ScanToday(currentPrayerTimes, nowTimeStr);
      var info, text;
      if found.None? {
        var tomorrow := now + MS_PER_DAY;
        var tomorrowTimes := getTimes(Day(tomorrow));
        if tomorrowTimes.None? || "fajr" !in tomorrowTimes.value {
          assert outcome.Threw?;
          return false;
        }
        info, text := Announce("Fajr", tomorrowTimes.value["fajr"], tomorrow, now);
      } else {
        var key := PRAYER_KEYS[found.value];
        info, text := Announce(PrayerName(key), currentPrayerTimes[key], now, now);
      }
      assert outcome == Completed(info, text);
      assert FindNextStep(State(), now, getTimes) == (State().(next := info, countdown := text), true);
      nextPrayerInfo, timeToNextPrayer := info, text;
      completed := true;
    }

    /** checkDateAndUpdateTimes() */
    method CheckDateAndUpdateTimes(now: int, isoDate: string, getTimes: int -> Option<Times>) returns (completed: bool)
      modifies this
      ensures (State(), completed) == CheckDateStep(old(State()), now, isoDate, getTimes)
    {
      if isoDate != lastUpdateDate || |currentPrayerTimes| == 0 {
        CalculatePrayerTimes(now, isoDate, getTimes);
        completed := FindNextPrayer(now, getTimes);
      } else {
        completed := FindNextPrayer(now, getTimes);
      }
    }

    /** queueDraw(): the delay before the next redraw. */
    method QueueDraw(nowMs: nat) returns (delay: int)
      ensures delay == RedrawDelay(Truthy(showSeconds), nowMs)
      ensures var millis := if Truthy(showSeconds) then 1000 else MS_PER_MINUTE;
        1 <= delay <= millis && (nowMs + delay) % millis == 0
    {
      delay := RedrawDelay(Truthy(showSeconds), nowMs);
    }

    /** The state part of draw(): the date check, then the redraw is queued
        unless an exception ended draw() first (None). */
    method Draw(now: nat, isoDate: string, getTimes: int -> Option<Times>) returns (delay: Option<int>)
      modifies this
      ensures (State(), delay.Some?) == CheckDateStep(old(State()), now, isoDate, getTimes)
      ensures delay.Some? ==> delay.value == RedrawDelay(Truthy(showSeconds), now)
    {
      var completed := CheckDateAndUpdateTimes(now, isoDate, getTimes);
      if !completed {
        return None;
      }
      var d := QueueDraw(now);
      delay := Some(d);
    }
  }
}
