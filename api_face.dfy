/** The watch face that takes the day's prayer times from the mosque's web
    API (apps/salaatime/app.js). Its module globals are the fields of class
    ApiFace; each handler is a method proved equal to a step function on
    FaceState, and the lemmas state what the face promises about those
    steps. */
module ApiFace {
  import opened JsValues
  import opened TimeText
  import FaceSettings

  /** Display order of the six entries. */
  const PRAYER_KEYS: seq<string> := ["fajr", "shuruq", "dhuhr", "asr", "maghrib", "isha"]

  const PLACEHOLDER: string := "--:--"

  /** `prayerMap[key]?.name || "N/A"` */
  function PrayerName(key: string): string {
    if key == "fajr" then "Fajr"
    else if key == "shuruq" then "Shuruq"
    else if key == "dhuhr" then "Dhuhr"
    else if key == "asr" then "Asr"
    else if key == "maghrib" then "Maghrib"
    else if key == "isha" then "Isha"
    else "N/A"
  }

  /** Each of the six keys has its own display name, never "N/A". */
  lemma KeyName(i: nat)
    requires i < |PRAYER_KEYS|
    ensures PrayerName(PRAYER_KEYS[i]) != "N/A"
    ensures PrayerName(PRAYER_KEYS[i]) == "Shuruq" <==> PRAYER_KEYS[i] == "shuruq"
  {
    if i == 0 {
    } else if i == 1 {
    } else if i == 2 {
    } else if i == 3 {
    } else if i == 4 {
    } else {
    }
  }

  /** `prayerMap[key].apiField`: the API field each entry is read from. */
  function ApiField(key: string): string {
    if key == "fajr" then "fajr_begins"
    else if key == "shuruq" then "sunrise"
    else if key == "dhuhr" then "zuhr_begins"
    else if key == "asr" then "asr_mithl_1"
    else if key == "maghrib" then "maghrib_begins"
    else "isha_begins"
  }

  datatype Status = Idle | Loading | Error | Ok | Partial

  // ---------------------------------------------------------------------
  // Settings (lines 19-23)

  const APP_DEFAULTS: map<string, JsValue> := map["showHijri" := Bool(true), "showSeconds" := Bool(false)]

  /** `Object.assign({showHijri: true, showSeconds: false}, stored || {})`;
      None is a missing or unreadable settings file. */
  function InitialSettings(stored: Option<map<string, JsValue>>): (settings: map<string, JsValue>)
    ensures settings.Keys == APP_DEFAULTS.Keys + (if stored.Some? then stored.value.Keys else {})
    ensures forall k :: stored.Some? && k in stored.value ==> settings[k] == stored.value[k]
    ensures forall k :: k in APP_DEFAULTS && (stored.None? || k !in stored.value) ==> settings[k] == APP_DEFAULTS[k]
  {
    match stored
    case None => APP_DEFAULTS
    case Some(m) => APP_DEFAULTS + m
  }

  /** `settings[name]` */
  function Setting(settings: map<string, JsValue>, name: string): JsValue {
    if name in settings then settings[name] else Undefined
  }

  /** The face's startup merge and the settings menu's default fill agree on
      every record JSON can store (no value is undefined). */
  lemma InitialSettingsMatchLoad(m: map<string, JsValue>)
    requires forall k :: k in m ==> m[k] != Undefined
    ensures InitialSettings(Some(m)) == FaceSettings.WithDefaults(m)
  {
    assert APP_DEFAULTS == FaceSettings.DEFAULTS;
    var a, b := InitialSettings(Some(m)), FaceSettings.WithDefaults(m);
    assert a.Keys == b.Keys;
    forall k | k in a ensures a[k] == b[k] {
    }
  }

  // ---------------------------------------------------------------------
  // formatHHMM (lines 48-53)

  /** The first five characters of a string of length at least five;
      "--:--" for anything else. */
  function FormatHHMM(v: JsValue): (r: string)
    ensures |r| == 5
    ensures v.Str? && |v.s| >= 5 ==> v.s[..5] == r
    ensures !(v.Str? && |v.s| >= 5) ==> r == PLACEHOLDER
  {
    if v.Str? && |v.s| >= 5 then v.s[..5] else PLACEHOLDER
  }

  lemma FormatHHMMIdempotent(v: JsValue)
    ensures FormatHHMM(Str(FormatHHMM(v))) == FormatHHMM(v)
  {
  }

  // ---------------------------------------------------------------------
  // The table built from the API record (lines 78-89, 100)

  /** `todayData[prayerMap[key].apiField]`, for a record that is neither
      null nor undefined. */
  function Field(record: JsValue, key: string): JsValue
    requires !record.Undefined? && !record.Null?
  {
    Get(record, ApiField(key)).value
  }

  /** The entry the loop stores for key. */
  function Entry(record: JsValue, key: string): string
    requires !record.Undefined? && !record.Null?
  {
    var v := Field(record, key);
    if Truthy(v) then FormatHHMM(v) else PLACEHOLDER
  }

  /** The table after the loop has handled the first n keys. */
  function TableUpTo(record: JsValue, n: nat): map<string, string>
    requires !record.Undefined? && !record.Null?
    requires n <= |PRAYER_KEYS|
  {
    if n == 0 then map[] else TableUpTo(record, n - 1)[PRAYER_KEYS[n - 1] := Entry(record, PRAYER_KEYS[n - 1])]
  }

  /** After n keys the table holds exactly those keys, each with its entry. */
  lemma TableUpToEntries(record: JsValue, n: nat)
    requires !record.Undefined? && !record.Null?
    requires n <= |PRAYER_KEYS|
    ensures forall k :: k in TableUpTo(record, n) <==> k in PRAYER_KEYS[..n]
    ensures forall k :: k in TableUpTo(record, n) ==> TableUpTo(record, n)[k] == Entry(record, k)
  {
    TableUpToKeys(record, n);
    TableUpToValues(record, n);
  }

  lemma {:induction false} TableUpToKeys(record: JsValue, n: nat)
    requires !record.Undefined? && !record.Null?
    requires n <= |PRAYER_KEYS|
    ensures forall k :: k in TableUpTo(record, n) <==> k in PRAYER_KEYS[..n]
  {
    if n > 0 {
      TableUpToKeys(record, n - 1);
      assert PRAYER_KEYS[..n] == PRAYER_KEYS[..n - 1] + [PRAYER_KEYS[n - 1]];
    }
  }

  lemma {:induction false} TableUpToValues(record: JsValue, n: nat)
    requires !record.Undefined? && !record.Null?
    requires n <= |PRAYER_KEYS|
    ensures forall k :: k in TableUpTo(record, n) ==> TableUpTo(record, n)[k] == Entry(record, k)
  {
    if n > 0 {
      TableUpToValues(record, n - 1);
    }
  }

  /** The table the record yields (line 100 stores it). */
  function RecordTable(record: JsValue): map<string, string>
    requires !record.Undefined? && !record.Null?
  {
    TableUpTo(record, |PRAYER_KEYS|)
  }

  /** The stored table has exactly the six keys, with "--:--" where the
      field is missing or falsy and the field's first five characters
      otherwise. */
  lemma RecordTableEntries(record: JsValue)
    requires !record.Undefined? && !record.Null?
    ensures RecordTable(record).Keys == set k | k in PRAYER_KEYS
    ensures forall k :: k in PRAYER_KEYS && !Truthy(Field(record, k)) ==> RecordTable(record)[k] == PLACEHOLDER
    ensures forall k :: k in PRAYER_KEYS && Truthy(Field(record, k)) ==> RecordTable(record)[k] == FormatHHMM(Field(record, k))
  {
    TableUpToEntries(record, |PRAYER_KEYS|);
    assert PRAYER_KEYS[..|PRAYER_KEYS|] == PRAYER_KEYS;
  }

  /** `allTimesFound` after the loop has handled the first n keys. */
  function FoundUpTo(record: JsValue, n: nat): bool
    requires !record.Undefined? && !record.Null?
    requires n <= |PRAYER_KEYS|
  {
    if n == 0 then true else FoundUpTo(record, n - 1) && Truthy(Field(record, PRAYER_KEYS[n - 1]))
  }

  /** After n keys, allTimesFound holds exactly when each of their fields
      is truthy. */
  lemma {:induction false} FoundUpToAll(record: JsValue, n: nat)
    requires !record.Undefined? && !record.Null?
    requires n <= |PRAYER_KEYS|
    ensures FoundUpTo(record, n) <==> forall j :: 0 <= j < n ==> Truthy(Field(record, PRAYER_KEYS[j]))
  {
    if n > 0 {
      FoundUpToAll(record, n - 1);
    }
  }

  /** `allTimesFound` once the loop is done: every field is truthy. */
  predicate AllFieldsFound(record: JsValue)
    requires !record.Undefined? && !record.Null?
  {
    FoundUpTo(record, |PRAYER_KEYS|)
  }

  /** The loop of lines 78-89: one entry per key, and whether every field
      was found. */
  method BuildTable(todayData: JsValue) returns (currentPrayerTimes: map<string, string>, allTimesFound: bool)
    requires !todayData.Undefined? && !todayData.Null?
    ensures currentPrayerTimes == RecordTable(todayData)
    ensures allTimesFound == AllFieldsFound(todayData)
  {
    currentPrayerTimes := map[];
    allTimesFound := true;
    for i := 0 to |PRAYER_KEYS|
      invariant currentPrayerTimes == TableUpTo(todayData, i)
      invariant allTimesFound == FoundUpTo(todayData, i)
    {
      var key := PRAYER_KEYS[i];
      var value := Get(todayData, ApiField(key)).value;
      assert value == Field(todayData, key);
      if Truthy(value) {
        currentPrayerTimes := currentPrayerTimes[key := FormatHHMM(value)];
      } else {
        currentPrayerTimes := currentPrayerTimes[key := PLACEHOLDER];
        allTimesFound := false;
      }
    }
  }

  // ---------------------------------------------------------------------
  // findNextPrayerFromList (lines 121-190)

  /** A key the scan stops at: present, not "" or "--:--", not shuruq, and
      later than the current "HH:MM" in string order. */
  predicate Selectable(times: map<string, string>, key: string, nowStr: string) {
    key in times && times[key] != "" && times[key] != PLACEHOLDER && key != "shuruq"
    && StrLess(nowStr, times[key])
  }

  /** The index of the first selectable key from position i on. */
  function FirstSelectable(times: map<string, string>, nowStr: string, i: nat): (r: Option<nat>)
    requires i <= |PRAYER_KEYS|
    ensures r.Some? ==> i <= r.value < |PRAYER_KEYS| && Selectable(times, PRAYER_KEYS[r.value], nowStr)
    ensures r.Some? ==> forall j :: i <= j < r.value ==> !Selectable(times, PRAYER_KEYS[j], nowStr)
    ensures r.None? ==> forall j :: i <= j < |PRAYER_KEYS| ==> !Selectable(times, PRAYER_KEYS[j], nowStr)
    decreases |PRAYER_KEYS| - i
  {
    if i == |PRAYER_KEYS| then None
    else if Selectable(times, PRAYER_KEYS[i], nowStr) then Some(i)
    else FirstSelectable(times, nowStr, i + 1)
  }

  /** The countdown for the selected prayer's Date: a negative difference is
      clamped to 0; an Invalid Date makes every comparison false ("Now"). */
  function Countdown(iso: DateValue, now: int): string {
    match iso
    case ValidDate(ms) => CountdownText(if ms - now < 0 then 0 else ms - now)
    case _ => "Now"
  }

  /** `currentPrayerTimes.fajr || "--:--"` */
  function FajrOrPlaceholder(times: map<string, string>): string {
    if "fajr" in times && times["fajr"] != "" then times["fajr"] else PLACEHOLDER
  }

  /** The next-prayer info the scan produces. */
  function NextInfo(times: map<string, string>, now: int): NextPrayerInfo {
    if |times| == 0 then
      NextPrayerInfo("N/A", PLACEHOLDER, NullDate)
    else
      match FirstSelectable(times, NowString(now), 0)
      case None =>
        NextPrayerInfo(PrayerName("fajr"), FajrOrPlaceholder(times), NullDate)
      case Some(i) =>
        var key := PRAYER_KEYS[i];
        NextPrayerInfo(PrayerName(key), times[key], DateAt(now, times[key]))
  }

  /** The countdown text the scan produces alongside NextInfo. */
  function NextText(times: map<string, string>, status: Status, now: int): string {
    if |times| == 0 then
      (if status == Loading then "Loading..." else "Error")
    else if FirstSelectable(times, NowString(now), 0).None? then
      "After Isha"
    else
      Countdown(NextInfo(times, now).iso, now)
  }

  /** The selected prayer is the first key in order whose time is later
      than the current "HH:MM"; it is never shuruq and never a missing or
      "--:--" entry. */
  lemma SelectionIsFirstLater(times: map<string, string>, now: int)
    ensures var info := NextInfo(times, now);
      info.name != "Shuruq"
      && (info.iso != NullDate ==>
            exists i :: 0 <= i < |PRAYER_KEYS|
              && Selectable(times, PRAYER_KEYS[i], NowString(now))
              && info.name == PrayerName(PRAYER_KEYS[i])
              && info.time == times[PRAYER_KEYS[i]]
              && info.time != PLACEHOLDER && PRAYER_KEYS[i] != "shuruq"
              && forall j :: 0 <= j < i ==> !Selectable(times, PRAYER_KEYS[j], NowString(now)))
  {
    var info := NextInfo(times, now);
    var r := FirstSelectable(times, NowString(now), 0);
    if |times| == 0 {
      assert info.name == "N/A";
    } else if r.None? {
      assert info == NextPrayerInfo("Fajr", FajrOrPlaceholder(times), NullDate);
    } else {
      var i := r.value;
      var key := PRAYER_KEYS[i];
      assert info == NextPrayerInfo(PrayerName(key), times[key], DateAt(now, times[key]));
      assert Selectable(times, key, NowString(now));
      KeyName(i);
    }
  }

  /** "After Isha" is shown exactly when the table is not empty and no entry
      qualifies, and then the next prayer is Fajr with today's Fajr time as
      a placeholder and no Date. */
  lemma AfterIshaFallback(times: map<string, string>, status: Status, now: int)
    ensures var info, text := NextInfo(times, now), NextText(times, status, now);
      (text == "After Isha" <==>
         |times| > 0 && forall j :: 0 <= j < |PRAYER_KEYS| ==> !Selectable(times, PRAYER_KEYS[j], NowString(now)))
      && (text == "After Isha" ==> info == NextPrayerInfo("Fajr", FajrOrPlaceholder(times), NullDate))
  {
    var r := FirstSelectable(times, NowString(now), 0);
    if |times| > 0 && r.Some? {
      assert Selectable(times, PRAYER_KEYS[r.value], NowString(now));
      assert NextText(times, status, now) == Countdown(NextInfo(times, now).iso, now);
      CountdownNotAfterIsha(NextInfo(times, now).iso, now);
    }
  }

  /** A countdown is "Now" or starts with '-', so it is never "After Isha". */
  lemma CountdownNotAfterIsha(iso: DateValue, now: int)
    ensures Countdown(iso, now) != "After Isha"
  {
    CountdownLeadsWithDash(iso, now);
    if iso.ValidDate? {
      assert "After Isha"[0] == 'A';
    }
  }

  /** "N/A" is shown exactly when the table is empty, with "--:--", no Date,
      and "Loading..." while a fetch runs, "Error" otherwise. */
  lemma EmptyTable(times: map<string, string>, status: Status, now: int)
    ensures NextInfo(times, now).name == "N/A" <==> |times| == 0
    ensures |times| == 0 ==>
      NextInfo(times, now) == NextPrayerInfo("N/A", PLACEHOLDER, NullDate)
      && NextText(times, status, now) == (if status == Loading then "Loading..." else "Error")
  {
    if |times| > 0 {
      var r := FirstSelectable(times, NowString(now), 0);
      if r.None? {
        assert NextInfo(times, now).name == "Fajr";
      } else {
        var key := PRAYER_KEYS[r.value];
        KeyName(r.value);
        assert NextInfo(times, now).name == PrayerName(key);
      }
    }
  }

  /** Every entry of the six keys is a well-formed "HH:MM" or "--:--". */
  predicate ClockTable(times: map<string, string>) {
    forall k :: k in PRAYER_KEYS ==> k in times && (IsClock(times[k]) || times[k] == PLACEHOLDER)
  }

  /** A key, other than shuruq, holding a time later than the current
      minute of the day. */
  predicate LaterByMinutes(times: map<string, string>, key: string, now: int)
    requires ClockTable(times) && key in PRAYER_KEYS
  {
    key != "shuruq" && times[key] != PLACEHOLDER && ClockMinutes(times[key]) > MinuteOfDay(now)
  }

  /** On a table of well-formed times the string comparison of the scan is
      the comparison of minutes of the day. */
  lemma SelectableByMinutes(times: map<string, string>, now: int)
    requires ClockTable(times)
    ensures forall j :: 0 <= j < |PRAYER_KEYS| ==>
      (Selectable(times, PRAYER_KEYS[j], NowString(now)) <==> LaterByMinutes(times, PRAYER_KEYS[j], now))
  {
    NowStringIsClock(now);
    forall j | 0 <= j < |PRAYER_KEYS|
      ensures Selectable(times, PRAYER_KEYS[j], NowString(now)) <==> LaterByMinutes(times, PRAYER_KEYS[j], now)
    {
      var k := PRAYER_KEYS[j];
      if times[k] != PLACEHOLDER {
        ClockOrder(NowString(now), times[k]);
      }
    }
  }

  /** When the scan stops at index i, the info names that key and the
      countdown is taken from its Date. */
  lemma ChosenEntry(times: map<string, string>, status: Status, now: int, i: nat)
    requires |times| > 0 && FirstSelectable(times, NowString(now), 0) == Some(i)
    ensures var key := PRAYER_KEYS[i];
      NextInfo(times, now) == NextPrayerInfo(PrayerName(key), times[key], DateAt(now, times[key]))
      && NextText(times, status, now) == Countdown(DateAt(now, times[key]), now)
  {
  }

  /** A Date after now: the clamp does not fire, and the countdown is that
      of the difference rounded up to minutes. */
  lemma CountdownOfDate(ms: int, now: int, minutes: int)
    requires ms - now > 0 && CeilMinutes(ms - now) == minutes
    ensures Countdown(ValidDate(ms), now) == CountdownOfMinutes(minutes)
  {
  }

  /** A well-formed time later than now gives a countdown of exactly the
      minutes until it. */
  lemma ExactCountdown(now: int, s: string, minutes: int)
    requires IsClock(s) && StrLess(NowString(now), s)
    requires minutes == ClockMinutes(s) - MinuteOfDay(now)
    ensures Countdown(DateAt(now, s), now) == CountdownOfMinutes(minutes)
  {
    SameDayCountdown(now, s);
    CountdownOfDate(DateAt(now, s).ms, now, minutes);
  }

  /** On a table of well-formed times the scan stops at the first key whose
      time is later than the current minute. */
  lemma ClockTableScan(times: map<string, string>, now: int, i: nat)
    requires ClockTable(times)
    requires i < |PRAYER_KEYS| && LaterByMinutes(times, PRAYER_KEYS[i], now)
    requires forall j :: 0 <= j < i ==> !LaterByMinutes(times, PRAYER_KEYS[j], now)
    ensures |times| > 0 && FirstSelectable(times, NowString(now), 0) == Some(i)
  {
    SelectableByMinutes(times, now);
    assert "fajr" in times;
    var r := FirstSelectable(times, NowString(now), 0);
    assert Selectable(times, PRAYER_KEYS[i], NowString(now));
  }

  /** On a table of well-formed times, the first prayer later than the
      current minute is chosen, and the countdown shows exactly the minutes
      until it (at least one, so the clamp never fires). */
  lemma ClockTableChoice(times: map<string, string>, status: Status, now: int, i: nat, minutes: int)
    requires ClockTable(times)
    requires i < |PRAYER_KEYS| && LaterByMinutes(times, PRAYER_KEYS[i], now)
    requires forall j :: 0 <= j < i ==> !LaterByMinutes(times, PRAYER_KEYS[j], now)
    requires minutes == ClockMinutes(times[PRAYER_KEYS[i]]) - MinuteOfDay(now)
    ensures var info, text := NextInfo(times, now), NextText(times, status, now);
      info.name == PrayerName(PRAYER_KEYS[i]) && info.time == times[PRAYER_KEYS[i]]
      && minutes > 0 && text == CountdownOfMinutes(minutes)
  {
    ClockTableScan(times, now, i);
    ChosenEntry(times, status, now, i);
    SelectableByMinutes(times, now);
    ExactCountdown(now, times[PRAYER_KEYS[i]], minutes);
  }

  /** On a table of well-formed times, "After Isha" is shown exactly when no
      prayer other than shuruq is later than the current minute. */
  lemma ClockTableFallback(times: map<string, string>, status: Status, now: int)
    requires ClockTable(times)
    ensures NextText(times, status, now) == "After Isha" <==>
      forall j :: 0 <= j < |PRAYER_KEYS| ==> !LaterByMinutes(times, PRAYER_KEYS[j], now)
  {
    SelectableByMinutes(times, now);
    assert "fajr" in times;
    AfterIshaFallback(times, status, now);
  }

  // ---------------------------------------------------------------------
  // The face's state and its steps

  datatype FaceState = FaceState(
    times: map<string, string>,
    next: NextPrayerInfo,
    countdown: string,
    hijri: JsValue,
    lastFetchDate: JsValue,
    status: Status)

  /** findNextPrayerFromList() */
  function FindNextStep(s: FaceState, now: int): FaceState {
    s.(next := NextInfo(s.times, now), countdown := NextText(s.times, s.status, now))
  }

  /** The test in checkDateAndFetch (line 198); isoDate is
      `new Date().toISOString().substr(0, 10)`. */
  predicate NeedsFetch(s: FaceState, isoDate: string) {
    s.lastFetchDate != Str(isoDate) || s.status == Error || s.status == Idle || !Truthy(s.lastFetchDate)
  }

  /** No fetch is started exactly when today's date is stored and the
      status is Loading, OK or Partial. */
  lemma NeedsFetchCases(s: FaceState, isoDate: string)
    ensures !NeedsFetch(s, isoDate) <==>
      isoDate != "" && s.lastFetchDate == Str(isoDate) && s.status in {Loading, Ok, Partial}
  {
  }

  /** The synchronous part of fetchAndUpdateTimes (lines 57-62). The redraw
      at line 62 re-enters checkDateAndFetch while Loading: its fetch
      returns at the guard, so only its recalculation branch has an effect. */
  function FetchStartStep(s: FaceState, now: int, isoDate: string): FaceState {
    if s.status == Loading then s
    else
      var loading := s.(status := Loading, countdown := "Loading...");
      if NeedsFetch(loading, isoDate) then loading else FindNextStep(loading, now)
  }

  /** A fetch while one is in flight changes nothing; otherwise the face is
      Loading and its table, date and Hijri string are kept. */
  lemma FetchGuard(s: FaceState, now: int, isoDate: string)
    ensures s.status == Loading ==> FetchStartStep(s, now, isoDate) == s
    ensures s.status != Loading ==>
      var r := FetchStartStep(s, now, isoDate);
      r.status == Loading && r.times == s.times && r.lastFetchDate == s.lastFetchDate && r.hijri == s.hijri
  {
  }

  /** checkDateAndFetch() */
  function CheckDateStep(s: FaceState, now: int, isoDate: string): FaceState {
    if NeedsFetch(s, isoDate) then FetchStartStep(s, now, isoDate) else FindNextStep(s, now)
  }

  /** The state part of draw() (lines 215-220). */
  function DrawStep(s: FaceState, now: int, isoDate: string): FaceState {
    var c := CheckDateStep(s, now, isoDate);
    if c.status == Loading then c else FindNextStep(c, now)
  }

  /** A redraw keeps the table, the stored date and the Hijri string; it
      starts a fetch (status Loading) exactly when one is needed or already
      running, and otherwise only recomputes the next prayer. */
  lemma DrawCases(s: FaceState, now: int, isoDate: string)
    ensures var r := DrawStep(s, now, isoDate);
      r.times == s.times && r.lastFetchDate == s.lastFetchDate && r.hijri == s.hijri
      && (r.status == Loading <==> NeedsFetch(s, isoDate) || s.status == Loading)
      && (!NeedsFetch(s, isoDate) ==> r == FindNextStep(s, now))
  {
    if !NeedsFetch(s, isoDate) {
      var f := FindNextStep(s, now);
      assert NextText(f.times, f.status, now) == NextText(s.times, s.status, now);
    }
  }

  /** The success path of the response handler (lines 68-100). An array is
      always truthy, so the test `!data || !Array.isArray(data)` is the
      test that data is not an array. */
  function ResponseStep(s: FaceState, data: JsValue, now: int, isoDate: string, showHijri: JsValue): FaceState {
    if !data.Arr? || |data.items| == 0 then
      s.(status := Error, countdown := "API Error")
    else
      var record := data.items[0];
      if record.Undefined? || record.Null? then
        // `currentPrayerTimes = {}` ran; the first field read throws
        s.(times := map[], status := Error, countdown := "API Error")
      else
        RecordResponse(s, record, now, isoDate, showHijri)
  }

  /** The response handler once the first element is known to be neither
      null nor undefined: load it, find the next prayer, set the status. */
  function RecordResponse(s: FaceState, record: JsValue, now: int, isoDate: string, showHijri: JsValue): FaceState
    requires !record.Undefined? && !record.Null?
  {
    FindNextStep(Loaded(s, record, isoDate, showHijri), now).(status := if AllFieldsFound(record) then Ok else Partial)
  }

  /** Finding the next prayer changes only the info and the countdown. */
  lemma FindNextKeeps(s: FaceState, now: int)
    ensures var f := FindNextStep(s, now);
      f.times == s.times && f.hijri == s.hijri && f.lastFetchDate == s.lastFetchDate && f.status == s.status
  {
  }

  /** The state a valid record loads before the next prayer is found. */
  function Loaded(s: FaceState, record: JsValue, isoDate: string, showHijri: JsValue): FaceState
    requires !record.Undefined? && !record.Null?
  {
    var hijri := if Truthy(showHijri) then Or(Get(record, "hijri_date_convert").value, Str("Hijri N/A")) else Str("");
    s.(times := RecordTable(record), hijri := hijri, lastFetchDate := Or(Get(record, "d_date").value, Str(isoDate)))
  }

  /** A response yields Error, with "API Error", exactly when it is not a
      non-empty array whose first element is neither null nor undefined. */
  lemma ResponseError(s: FaceState, data: JsValue, now: int, isoDate: string, showHijri: JsValue)
    ensures var r := ResponseStep(s, data, now, isoDate, showHijri);
      var valid := data.Arr? && |data.items| > 0 && !data.items[0].Undefined? && !data.items[0].Null?;
      (r.status == Error <==> !valid) && (!valid ==> r.countdown == "API Error")
  {
    if data.Arr? && |data.items| > 0 && !data.items[0].Undefined? && !data.items[0].Null? {
      FindNextKeeps(Loaded(s, data.items[0], isoDate, showHijri), now);
    }
  }

  /** A valid response stores an entry for every key, and its status is
      Partial exactly when some field is falsy, OK otherwise. */
  lemma ResponseTable(s: FaceState, data: JsValue, now: int, isoDate: string, showHijri: JsValue)
    requires data.Arr? && |data.items| > 0 && !data.items[0].Undefined? && !data.items[0].Null?
    ensures var r := ResponseStep(s, data, now, isoDate, showHijri);
      r.times == RecordTable(data.items[0])
      && (r.status == Partial <==> exists i :: 0 <= i < |PRAYER_KEYS| && !Truthy(Field(data.items[0], PRAYER_KEYS[i])))
      && (r.status == Ok <==> AllFieldsFound(data.items[0]))
  {
    FindNextKeeps(Loaded(s, data.items[0], isoDate, showHijri), now);
    FoundUpToAll(data.items[0], |PRAYER_KEYS|);
  }

  /** `d || isoDate` is today's date when d is today's date or falsy. */
  lemma OrToday(d: JsValue, isoDate: string)
    requires d == Str(isoDate) || !Truthy(d)
    ensures Or(d, Str(isoDate)) == Str(isoDate)
  {
  }

  /** A response dated today (or undated) settles the face: the redraw that
      follows it starts no further fetch. */
  lemma ResponseSettles(s: FaceState, data: JsValue, now: int, isoDate: string, showHijri: JsValue)
    requires data.Arr? && |data.items| > 0 && data.items[0].Obj?
    requires isoDate != ""
    requires var d := Get(data.items[0], "d_date").value; d == Str(isoDate) || !Truthy(d)
    ensures !NeedsFetch(ResponseStep(s, data, now, isoDate, showHijri), isoDate)
  {
    var record := data.items[0];
    assert ResponseStep(s, data, now, isoDate, showHijri) == RecordResponse(s, record, now, isoDate, showHijri);
    RecordSettles(s, record, now, isoDate, showHijri);
  }

  lemma RecordSettles(s: FaceState, record: JsValue, now: int, isoDate: string, showHijri: JsValue)
    requires record.Obj? && isoDate != ""
    requires var d := Get(record, "d_date").value; d == Str(isoDate) || !Truthy(d)
    ensures !NeedsFetch(RecordResponse(s, record, now, isoDate, showHijri), isoDate)
  {
    var loaded := Loaded(s, record, isoDate, showHijri);
    OrToday(Get(record, "d_date").value, isoDate);
    assert loaded.lastFetchDate == Str(isoDate);
    var f := FindNextStep(loaded, now);
    FindNextKeeps(loaded, now);
    var r := RecordResponse(s, record, now, isoDate, showHijri);
    assert r == f.(status := if AllFieldsFound(record) then Ok else Partial);
    assert r.lastFetchDate == Str(isoDate) && r.status in {Ok, Partial};
    NeedsFetchCases(r, isoDate);
  }

  /** A response dated other than the device's UTC date leaves the face
      needing a fetch, so the redraw that follows it starts another one. */
  lemma ResponseDateMismatchRefetches(s: FaceState, data: JsValue, now: int, isoDate: string, showHijri: JsValue)
    requires data.Arr? && |data.items| > 0 && data.items[0].Obj?
    requires var d := Get(data.items[0], "d_date").value; Truthy(d) && d != Str(isoDate)
    ensures DrawStep(ResponseStep(s, data, now, isoDate, showHijri), now, isoDate).status == Loading
  {
  }

  /** Every countdown text the scan can produce: the empty-table texts,
      "After Isha", "Now", or a countdown starting with '-'. */
  lemma NextTextShape(times: map<string, string>, status: Status, now: int)
    ensures var t := NextText(times, status, now);
      t == "Loading..." || t == "Error" || t == "After Isha" || t == "Now" || (|t| > 0 && t[0] == '-')
  {
    if |times| > 0 && FirstSelectable(times, NowString(now), 0).Some? {
      var iso := NextInfo(times, now).iso;
      assert NextText(times, status, now) == Countdown(iso, now);
      CountdownLeadsWithDash(iso, now);
    }
  }

  /** A computed countdown is "Now" or starts with '-'. */
  lemma CountdownLeadsWithDash(iso: DateValue, now: int)
    ensures var t := Countdown(iso, now); t == "Now" || (|t| > 0 && t[0] == '-')
  {
    if iso.ValidDate? {
      var d := if iso.ms - now < 0 then 0 else iso.ms - now;
      assert Countdown(iso, now) == CountdownOfMinutes(CeilMinutes(d));
    }
  }

  /** The redraw after any error starts a new fetch at once: the face is
      Loading again, with the table kept, and shows the text of a Loading
      face in place of the error text. */
  lemma ErrorRedrawRefetches(s: FaceState, now: int, isoDate: string)
    requires s.status == Error
    ensures var r := DrawStep(s, now, isoDate);
      r.status == Loading && r.times == s.times
      && (r.countdown == "Loading..." || r.countdown == NextText(s.times, Loading, now))
  {
  }

  /** "API Error" never stays on the face: the response handler's own
      redraw sees Error and starts another fetch. */
  lemma ApiErrorReplaced(s: FaceState, data: JsValue, now: int, isoDate: string, showHijri: JsValue)
    requires !(data.Arr? && |data.items| > 0 && !data.items[0].Undefined? && !data.items[0].Null?)
    ensures var r := DrawStep(ResponseStep(s, data, now, isoDate, showHijri), now, isoDate);
      r.status == Loading && r.countdown != "API Error"
  {
    var e := ResponseStep(s, data, now, isoDate, showHijri);
    assert e.status == Error;
    ErrorRedrawRefetches(e, now, isoDate);
    NextTextShape(e.times, Loading, now);
  }

  /** "No Conn" never stays on the face either: the failure handler's
      redraw starts another fetch. */
  lemma NoConnReplaced(s: FaceState, now: int, isoDate: string)
    ensures var r := DrawStep(s.(status := Error, countdown := "No Conn"), now, isoDate);
      r.status == Loading && r.countdown != "No Conn"
  {
    var e := s.(status := Error, countdown := "No Conn");
    ErrorRedrawRefetches(e, now, isoDate);
    NextTextShape(e.times, Loading, now);
  }

  /** The loop of findNextPrayerFromList: the keys in order, skipping
      missing, empty and "--:--" entries and shuruq, stopping at the first
      time later than nowTimeStr. */
  method ScanTable(times: map<string, string>, nowTimeStr: string) returns (found: Option<nat>)
    ensures found == FirstSelectable(times, nowTimeStr, 0)
  {
    found := None;
    var i := 0;
    while i < |PRAYER_KEYS|
      invariant 0 <= i <= |PRAYER_KEYS|
      invariant FirstSelectable(times, nowTimeStr, i) == FirstSelectable(times, nowTimeStr, 0)
    {
      var key := PRAYER_KEYS[i];
      if key !in times || times[key] == "" || times[key] == PLACEHOLDER {
        i := i + 1;
        continue;
      }
      if key == "shuruq" {
        i := i + 1;
        continue;
      }
      if StrLess(nowTimeStr, times[key]) {
        found := Some(i);
        break;
      }
      i := i + 1;
    }
  }

  /** The countdown part of findNextPrayerFromList: the difference to the
      Date, clamped at 0; an Invalid Date gives a NaN difference, which
      fails every test and leaves "Now". */
  method TimeToNext(iso: DateValue, now: int) returns (text: string)
    ensures text == Countdown(iso, now)
  {
    if iso.ValidDate? {
      var diffMillis := iso.ms - now;
      if diffMillis < 0 {
        diffMillis := 0;
      }
      var diffMins := CeilMinutes(diffMillis);
      var diffHrs := diffMins / 60;
      diffMins := JsRem(diffMins, 60);
      if diffHrs > 0 {
        text := "-" + DecimalString(diffHrs) + "h " + DecimalString(diffMins) + "m";
      } else if diffMins > 0 {
        text := "-" + DecimalString(diffMins) + "m";
      } else {
        text := "Now";
      }
    } else {
      text := "Now";
    }
  }

  // ---------------------------------------------------------------------
  // The face

  class ApiFace {
    const settings: map<string, JsValue>
    const showSeconds: JsValue
    var currentPrayerTimes: map<string, string>
    var nextPrayerInfo: NextPrayerInfo
    var timeToNextPrayer: string
    var hijriDateStr: JsValue
    var lastFetchDate: JsValue
    var fetchStatus: Status

    function State(): FaceState
      reads this
    {
      FaceState(currentPrayerTimes, nextPrayerInfo, timeToNextPrayer, hijriDateStr, lastFetchDate, fetchStatus)
    }

    /** The module-level initialisation (lines 19-45). */
    constructor(stored: Option<map<string, JsValue>>)
      ensures settings == InitialSettings(stored)
      ensures showSeconds == Setting(settings, "showSeconds")
      ensures State() == FaceState(map[], NextPrayerInfo("...", PLACEHOLDER, NullDate), "Loading...", Str(""), Str(""), Idle)
    {
      settings := InitialSettings(stored);
      showSeconds := Setting(InitialSettings(stored), "showSeconds");
      currentPrayerTimes := map[];
      nextPrayerInfo := NextPrayerInfo("...", PLACEHOLDER, NullDate);
      timeToNextPrayer := "Loading...";
      hijriDateStr := Str("");
      lastFetchDate := Str("");
      fetchStatus := Idle;
    }

    /** findNextPrayerFromList(): scans the keys in order and stops at the
        first selectable one. */
    method FindNextPrayerFromList(now: int)
      modifies this
      ensures State() == FindNextStep(old(State()), now)
    {
      var nowTimeStr := NowString(now);
      if |currentPrayerTimes| == 0 {
        nextPrayerInfo := NextPrayerInfo("N/A", PLACEHOLDER, NullDate);
        timeToNextPrayer := if fetchStatus == Loading then "Loading..." else "Error";
        return;
      }
      var found := ScanTable(currentPrayerTimes, nowTimeStr);
      if found.None? {
        nextPrayerInfo := NextPrayerInfo(PrayerName("fajr"), FajrOrPlaceholder(currentPrayerTimes), NullDate);
        timeToNextPrayer := "After Isha";
      } else {
        var key := PRAYER_KEYS[found.value];
        var nextPrayerTimeStr := currentPrayerTimes[key];
        var nextPrayerISO := DateAt(now, nextPrayerTimeStr);
        timeToNextPrayer := TimeToNext(nextPrayerISO, now);
        nextPrayerInfo := NextPrayerInfo(PrayerName(key), nextPrayerTimeStr, nextPrayerISO);
      }
    }

    /** fetchAndUpdateTimes() up to the asynchronous request. */
    method FetchAndUpdateTimes(now: int, isoDate: string)
      modifies this
      ensures State() == FetchStartStep(old(State()), now, isoDate)
    {
      if fetchStatus == Loading {
        return;
      }
      fetchStatus := Loading;
      timeToNextPrayer := "Loading...";
      if !NeedsFetch(State(), isoDate) {
        FindNextPrayerFromList(now);
      }
    }

    /** checkDateAndFetch() */
    method CheckDateAndFetch(now: int, isoDate: string)
      modifies this
      ensures State() == CheckDateStep(old(State()), now, isoDate)
    {
      if NeedsFetch(State(), isoDate) {
        FetchAndUpdateTimes(now, isoDate);
      } else {
        FindNextPrayerFromList(now);
      }
    }

    /** The state part of draw(). */
    method Draw(now: int, isoDate: string)
      modifies this
      ensures State() == DrawStep(old(State()), now, isoDate)
    {
      CheckDateAndFetch(now, isoDate);
      if fetchStatus != Loading {
        FindNextPrayerFromList(now);
      }
    }

    /** The response handler's try block, without its closing redraw. */
    method ProcessResponse(data: JsValue, now: int, isoDate: string)
      modifies this
      ensures State() == ResponseStep(old(State()), data, now, isoDate, Setting(settings, "showHijri"))
    {
      if !data.Arr? || |data.items| == 0 {
        fetchStatus := Error;
        timeToNextPrayer := "API Error";
        return;
      }
      var todayData := data.items[0];
      currentPrayerTimes := map[];
      if todayData.Undefined? || todayData.Null? {
        fetchStatus := Error;
        timeToNextPrayer := "API Error";
        return;
      }
      var table, allTimesFound := BuildTable(todayData);
      currentPrayerTimes := table;
      hijriDateStr := if Truthy(Setting(settings, "showHijri"))
        then Or(Get(todayData, "hijri_date_convert").value, Str("Hijri N/A"))
        else Str("");
      lastFetchDate := Or(Get(todayData, "d_date").value, Str(isoDate));
      FindNextPrayerFromList(now);
      fetchStatus := if allTimesFound then Ok else Partial;
    }

    /** The response handler: the try block, then its redraw. */
    method OnResponse(data: JsValue, now: int, isoDate: string)
      modifies this
      ensures State() == DrawStep(ResponseStep(old(State()), data, now, isoDate, Setting(settings, "showHijri")), now, isoDate)
    {
      ProcessResponse(data, now, isoDate);
      Draw(now, isoDate);
    }

    /** The request's catch handler (lines 110-117). */
    method OnRequestFailed(now: int, isoDate: string)
      modifies this
      ensures State() == DrawStep(old(State()).(status := Error, countdown := "No Conn"), now, isoDate)
    {
      fetchStatus := Error;
      timeToNextPrayer := "No Conn";
      Draw(now, isoDate);
    }

    /** queueDraw(): the delay before the next redraw. */
    method QueueDraw(nowMs: nat) returns (delay: int)
      ensures var millis := if Truthy(showSeconds) then 1000 else MS_PER_MINUTE;
        1 <= delay <= millis && (nowMs + delay) % millis == 0
    {
      delay := RedrawDelay(Truthy(showSeconds), nowMs);
    }
  }
}
