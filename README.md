# SalaaTime watch faces — a verified model of the prayer-time core

Two Bangle.js watch faces show the day's six Islamic prayer times and a
countdown to the next prayer:

- **salaatime** (`apps/salaatime/app.js`) gets the times from a mosque's web
  API. Its settings menu is `apps/salaatime/settings.js`.
- **SalaaTime** (`apps/SalaaTime/app.js`) calculates the times on the watch
  with the PrayTimes library.

This project models the integer and string logic the two faces share and
the parts in which they differ. That logic covers:

- the scan that picks the next prayer from a table of `"HH:MM"` strings
  (string order against a zero-padded `"HH:MM"` of the current time);
- the countdown text (`"-Hh Mm"`, `"-Mm"`, `"Now"`);
- the `formatHHMM` / `formatTime` helpers;
- building the API face's table from an API record, and the OK / Partial /
  Error status;
- when each face fetches or recalculates, and the fetch guard;
- the redraw delay;
- the settings default fill.

Files:

- `js_values.dfy` (`JsValues`): the JavaScript values the faces see, with
  truthiness, `a || b`, and property reads. Reading a property of `null` or
  `undefined` is a TypeError, modelled as `None`.
- `time_text.dfy` (`TimeText`): local wall-clock time as integer
  milliseconds, and `("0"+n).slice(-2)`. It also has JavaScript string
  order, `split(':')`, `Number` on digits with white space around them,
  `setHours(h, m, 0, 0)`
  (an Invalid Date when either part is NaN), `Math.ceil`, and `%` with the
  sign of the dividend. It holds the countdown text and its inverse
  `ReadCountdown`.
- `face_settings.dfy` (`FaceSettings`): `loadSettings` as a loop over the
  default keys, and the menu object as class `SettingsMenu`.
- `api_face.dfy` (`ApiFace`): the API face.
- `calc_face.dfy` (`CalcFace`): the calculating face. The library is the
  parameter `getTimes: int -> Option<Times>`. It gives the times for a
  local day number, or `None` when the library throws.

Each face's module globals are the fields of a class (`ApiFace.ApiFace`,
`CalcFace.CalcFace`). Each handler is a method whose `ensures` equates the
new state with a step function of the old state (`FindNextStep`,
`CheckDateStep`, `DrawStep`, …). The lemmas state what the source promises
about those step functions. The scan loops and the countdown arithmetic are
methods with loops and step-by-step updates, as in the source. They are
proved equal to the recursive or closed-form definitions (`ScanTable`,
`ScanToday`, `TimeToNext`, `TimeRemaining`, `BuildTable`, `LoadSettings`).

Where the two faces differ, the model keeps each face's own behaviour:

- The API face always skips `shuruq`, even when it is the only later
  entry. The calculating face treats `sunrise` like any other prayer.
- A missing or empty entry is skipped and the scan goes on. Only an empty
  table gives "N/A" (API face) or "Error" / "Calc Error" (calculating
  face).
- The calculating face adds one day to a negative difference and shows
  the result, however large. The API face clamps a negative difference to
  0 and shows "Now".
- When every prayer of the day has passed, the calculating face asks the
  library for tomorrow and shows tomorrow's Fajr with its countdown. The
  API face shows today's Fajr time with "After Isha".
- On the API face, "API Error" and "No Conn" never stay on screen. The
  redraw that follows them sees the Error status and starts another fetch
  at once, so the face shows a Loading state again
  (`ApiFace.ApiErrorReplaced`, `ApiFace.NoConnReplaced`).

## Model

| member | source | states |
|---|---|---|
| JsValues.Truthy | apps/salaatime/app.js:82 | JavaScript truthiness: undefined, null, false, 0 and "" are falsy, every array and object is truthy; the `if (todayData[field])` test, whose outcomes FoundUpToAll and RecordTableEntries state |
| JsValues.Get | apps/salaatime/app.js:82 | reading a property throws exactly when the value is null or undefined; a present field of an object is read back as itself, an absent one as undefined |
| TimeText.DecimalString | apps/salaatime/app.js:176-178 | `${n}` is a non-empty string of digits, one digit exactly when n < 10, with no leading zero unless n is 0 |
| TimeText.DecimalRoundTrip | apps/salaatime/app.js:176-178 | reading back the digits of `${n}` gives n |
| TimeText.Pad2 | apps/salaatime/app.js:123 | `("0"+n).slice(-2)` is two digits, and for n < 100 they spell n |
| TimeText.MinuteOfDay | apps/salaatime/app.js:123 | the minute of the day is below 1440 and equals getHours()·60 + getMinutes() |
| TimeText.NextDay | apps/SalaaTime/app.js:138-139 | the instant one day later falls on the next local day |
| TimeText.NowStringIsClock | apps/salaatime/app.js:123 | the current-time string is a well-formed "HH:MM" that names the current minute of the day |
| TimeText.StrLess | apps/salaatime/app.js:144 | JavaScript's `<` on strings: the first differing character decides, and a proper prefix comes first; ClockOrder states what it means on "HH:MM" strings |
| TimeText.ClockOrder | apps/salaatime/app.js:144 | on well-formed "HH:MM" strings, `a < b` in string order holds exactly when a's minute of the day is below b's |
| TimeText.PlaceholderNeverLater | apps/salaatime/app.js:139-144 | "--:--" is never later than a well-formed current time |
| TimeText.Split | apps/SalaaTime/app.js:210 | `split(':')` gives at least one piece and no piece contains ':' |
| TimeText.SplitJoin | apps/SalaaTime/app.js:210 | joining the pieces of a split with the separator gives back the string |
| TimeText.SplitCount | apps/SalaaTime/app.js:210-211 | a split gives one more piece than there are separators |
| TimeText.ToNumber | apps/SalaaTime/app.js:153 | `Number` of a piece: white space at either end is skipped, all white space gives 0, decimal digits give their value, and anything else is NaN (None); DigitsNumber, SpacedDigitsNumber and AllSpaceNumber state it |
| TimeText.DigitsNumber | apps/SalaaTime/app.js:153 | `Number` of a string of digits is the number the digits spell |
| TimeText.SpacedDigitsNumber | apps/SalaaTime/app.js:153 | `Number` of a run of digits with any white space before and after it is the number the digits spell |
| TimeText.AllSpaceNumber | apps/SalaaTime/app.js:153 | `Number` of a string of white space only, the empty string included, is 0 |
| TimeText.TrailingSpaceNumber | apps/salaatime/app.js:163 | `Number("40 ")` is 40: trailing white space is skipped |
| TimeText.ParseClock | apps/salaatime/app.js:163 | `split(':').map(Number)`: None when there is no second piece or either piece is NaN; ParseClockOfClock and TrailingSpaceSkipped state its results |
| TimeText.ParseClockOfClock | apps/SalaaTime/app.js:153 | a well-formed "HH:MM" parses to its hour and minute fields |
| TimeText.TrailingSpaceSkipped | apps/salaatime/app.js:163 | "4:40 ", the first five characters of "4:40 PM", parses to 4 hours and 40 minutes, as `Number` skips the trailing space |
| TimeText.DateAt | apps/salaatime/app.js:163-165 | `new Date(now)` with `setHours(hours, minutes, 0, 0)`: base's local day at that hour and minute, or an Invalid Date when the parse fails; DateAtClock states it for well-formed times |
| TimeText.DateAtClock | apps/SalaaTime/app.js:153-155 | setHours with a well-formed "HH:MM" gives base's local day at that minute with zero seconds |
| TimeText.CeilMinutes | apps/salaatime/app.js:171 | the result q is the least integer with x ≤ q·60000 |
| TimeText.JsRem | apps/salaatime/app.js:173 | for a non-negative dividend, `%` gives the remainder of floor division, in [0, b) |
| TimeText.CountdownOfMinutes | apps/salaatime/app.js:172-181 | the countdown is "Now" exactly when no minute remains, and otherwise starts with '-' and ends with 'm'; CountdownRoundTrip states its layout |
| TimeText.ReadCountdown | apps/salaatime/app.js:175-181 | reads a countdown text back into the fields it shows: "Now", "-Mm" or "-Hh Mm" |
| TimeText.CountdownRoundTrip | apps/salaatime/app.js:171-181 | the countdown reads back as "-Hh Mm" with the whole hours and the remaining minutes when at least 60 minutes remain, as "-Mm" with the minutes when 1 to 59 remain, and as "Now" otherwise; it stands for exactly those minutes |
| TimeText.SameDayCountdown | apps/salaatime/app.js:162-169 | for a well-formed time later than now, the Date is valid, the difference is positive (the clamp never fires), and the rounded-up minutes are the difference of the minutes of the day |
| TimeText.NextDayCountdown | apps/SalaaTime/app.js:138-149 | for tomorrow's time, the Date is valid and after now, and the rounded-up minutes are the rest of today plus that time's minute of the day |
| TimeText.RedrawDelay | apps/salaatime/app.js:322-323 | the delay lies in [1, millis] and now + delay is a multiple of millis (1000 with seconds shown, 60000 otherwise) |
| FaceSettings.WithDefaults | apps/salaatime/settings.js:11-20 | the result has the stored keys plus the default keys; each default key is defined; a defined stored value is kept; an undefined one gets its default; other stored keys are untouched |
| FaceSettings.StoredFalseKept | apps/salaatime/settings.js:15 | an explicit stored `false` is kept, since the test is `=== undefined` |
| FaceSettings.NothingStoredGivesDefaults | apps/salaatime/settings.js:12-19 | with nothing stored the settings equal DEFAULTS |
| FaceSettings.LoadSettings | apps/salaatime/settings.js:11-20 | the in-place loop over the default keys yields WithDefaults of the stored record, or of {} when nothing is stored |
| FaceSettings.SettingsMenu.constructor | apps/salaatime/settings.js:27 | the menu's settings object is the loaded settings |
| FaceSettings.SettingsMenu.OnChangeShowHijri | apps/salaatime/settings.js:37 | the handler assigns showHijri and leaves every other field as it was |
| FaceSettings.SettingsMenu.OnChangeShowSeconds | apps/salaatime/settings.js:42 | the handler assigns showSeconds and leaves every other field as it was |
| ApiFace.KeyName | apps/salaatime/app.js:27-35 | each of the six keys has a display name other than "N/A", and the name is "Shuruq" exactly for shuruq |
| ApiFace.InitialSettings | apps/salaatime/app.js:19-23 | the merged settings hold the stored values over the defaults showHijri true and showSeconds false |
| ApiFace.InitialSettingsMatchLoad | apps/salaatime/app.js:19-23 | on any record JSON can store, the face's merge and the menu's default fill agree |
| ApiFace.FormatHHMM | apps/salaatime/app.js:48-53 | the result has five characters: the first five of a string of length at least 5, "--:--" for anything else |
| ApiFace.FormatHHMMIdempotent | apps/salaatime/app.js:48-53 | formatHHMM applied twice equals formatHHMM applied once |
| ApiFace.TableUpToEntries | apps/salaatime/app.js:80-89 | after n turns of the loop, the table holds exactly the first n keys, each with its entry |
| ApiFace.RecordTableEntries | apps/salaatime/app.js:78-89 | the table has exactly the six keys, "--:--" where the field is missing or falsy, and formatHHMM of the field otherwise |
| ApiFace.FoundUpToAll | apps/salaatime/app.js:79-88 | allTimesFound after n turns holds exactly when each of those n fields is truthy |
| ApiFace.BuildTable | apps/salaatime/app.js:78-89 | the loop builds RecordTable of the record, and allTimesFound says whether every field is truthy |
| ApiFace.FirstSelectable | apps/salaatime/app.js:137-149 | the index found is selectable and no earlier key is; None means that no key is selectable |
| ApiFace.ScanTable | apps/salaatime/app.js:137-149 | the for…of loop with continue and break stops at FirstSelectable |
| ApiFace.TimeToNext | apps/salaatime/app.js:162-181 | the step-by-step countdown (clamp, ceil, floor, `%`, the three texts) equals Countdown of the Date |
| ApiFace.Countdown | apps/salaatime/app.js:166-181 | the countdown for the chosen Date: a negative difference clamped to 0, then CountdownText; "Now" for an Invalid Date; ExactCountdown and CountdownOfDate state its value |
| ApiFace.NextInfo | apps/salaatime/app.js:121-190 | the next-prayer info findNextPrayerFromList stores: "N/A" for an empty table, today's Fajr with no Date when nothing is later, otherwise the first selectable key with its Date; SelectionIsFirstLater, AfterIshaFallback, EmptyTable and ChosenEntry state it |
| ApiFace.NextText | apps/salaatime/app.js:121-190 | the countdown text findNextPrayerFromList stores: "Loading..." or "Error" for an empty table, "After Isha" when nothing is later, otherwise the Date's countdown; NextTextShape, AfterIshaFallback and EmptyTable state it |
| ApiFace.NextTextShape | apps/salaatime/app.js:129-181 | the text is "Loading...", "Error", "After Isha", "Now" or a countdown starting with '-' |
| ApiFace.CountdownLeadsWithDash | apps/salaatime/app.js:175-181 | a computed countdown is "Now" or starts with '-' |
| ApiFace.SelectionIsFirstLater | apps/salaatime/app.js:137-149 | the next prayer is never Shuruq; a prayer with a Date is the first key whose time is present, not "--:--", not shuruq and strictly later than now, and no earlier key qualifies |
| ApiFace.AfterIshaFallback | apps/salaatime/app.js:152-159 | "After Isha" is shown exactly when the table is non-empty and no key qualifies, and then the next prayer is Fajr with today's fajr or "--:--" and no Date |
| ApiFace.CountdownNotAfterIsha | apps/salaatime/app.js:167-181 | a computed countdown is never the "After Isha" text |
| ApiFace.EmptyTable | apps/salaatime/app.js:129-134 | the name is "N/A" exactly when the table is empty, and then the time is "--:--", there is no Date, and the text is "Loading..." while loading and "Error" otherwise |
| ApiFace.SelectableByMinutes | apps/salaatime/app.js:144 | on a table of well-formed times, the scan's string test is the test that the time's minute of the day is later |
| ApiFace.ChosenEntry | apps/salaatime/app.js:161-188 | when the scan stops at key i, the info names that key with its time and its Date, and the text is that Date's countdown |
| ApiFace.CountdownOfDate | apps/salaatime/app.js:168-181 | for a Date after now, the countdown is that of the rounded-up minutes |
| ApiFace.ExactCountdown | apps/salaatime/app.js:162-181 | for a well-formed time later than now, the countdown shows exactly the minutes until it |
| ApiFace.ClockTableScan | apps/salaatime/app.js:137-149 | on well-formed times, the scan stops at the first non-shuruq key whose minute is later than now |
| ApiFace.ClockTableChoice | apps/salaatime/app.js:137-188 | on well-formed times, that key is chosen, and the countdown shows its positive number of minutes until it |
| ApiFace.ClockTableFallback | apps/salaatime/app.js:152-159 | on well-formed times, "After Isha" is shown exactly when no non-shuruq time is later than the current minute |
| ApiFace.NeedsFetch | apps/salaatime/app.js:198 | the fetch test: the stored date is not today's, or the status is Error or not yet set, or no date is stored; NeedsFetchCases states when it fails |
| ApiFace.FetchStartStep | apps/salaatime/app.js:56-62 | the synchronous part of fetchAndUpdateTimes: nothing while Loading, otherwise Loading with "Loading..." and the nested redraw; FetchGuard states it |
| ApiFace.NeedsFetchCases | apps/salaatime/app.js:198 | no fetch is started exactly when today's date is non-empty and stored, and the status is Loading, OK or Partial |
| ApiFace.FetchGuard | apps/salaatime/app.js:56-62 | while Loading, fetchAndUpdateTimes changes nothing; otherwise it leaves the status Loading and keeps the table, the stored date and the Hijri string |
| ApiFace.DrawCases | apps/salaatime/app.js:212-220 | a redraw keeps the table, the date and the Hijri string; the status is Loading exactly when a fetch is needed or running; otherwise only the next prayer is recomputed |
| ApiFace.FindNextKeeps | apps/salaatime/app.js:121-190 | finding the next prayer changes only the info and the countdown |
| ApiFace.ResponseStep | apps/salaatime/app.js:66-108 | the try block of the response handler: Error with "API Error" for an invalid response (the table cleared when the first element is null or undefined), otherwise the loaded record, the next prayer and OK or Partial; ResponseError, ResponseTable and ResponseSettles state it |
| ApiFace.Loaded | apps/salaatime/app.js:78-94 | the state once a record is read: its table, its Hijri string when shown (or "Hijri N/A"), and its date or today's |
| ApiFace.ResponseError | apps/salaatime/app.js:71-107 | the try block ends in Error with "API Error" exactly when the response is not a non-empty array whose first element is neither null nor undefined; the redraw after it is stated by ApiErrorReplaced |
| ApiFace.ErrorRedrawRefetches | apps/salaatime/app.js:193-220 | a redraw in the Error status starts a new fetch: the face is Loading, the table is kept, and the text is that of a Loading face |
| ApiFace.ApiErrorReplaced | apps/salaatime/app.js:103-107 | after an invalid response the handler's own redraw leaves the face Loading, and "API Error" is no longer shown |
| ApiFace.NoConnReplaced | apps/salaatime/app.js:110-117 | after a failed request the handler's own redraw leaves the face Loading, and "No Conn" is no longer shown |
| ApiFace.ResponseTable | apps/salaatime/app.js:78-100 | a valid response stores the record's table; the status is Partial exactly when some field is falsy and OK exactly when all fields are truthy |
| ApiFace.OrToday | apps/salaatime/app.js:94 | `d_date \|\| isoDate` is today's date when d_date is today's date or falsy |
| ApiFace.ResponseSettles | apps/salaatime/app.js:94-100 | after a response dated today (or undated), no further fetch is needed |
| ApiFace.RecordSettles | apps/salaatime/app.js:92-100 | a loaded record dated today (or undated) stores today's date with status OK or Partial, so no fetch is needed |
| ApiFace.ResponseDateMismatchRefetches | apps/salaatime/app.js:94 | a response dated other than the device's UTC date makes the redraw that follows start another fetch |
| ApiFace.ApiFace.constructor | apps/salaatime/app.js:19-45 | the settings are the merged record, and the globals start as `{}`, "...", "--:--", null, "Loading...", "", "" and Idle |
| ApiFace.ApiFace.FindNextPrayerFromList | apps/salaatime/app.js:121-190 | the new state is FindNextStep of the old one |
| ApiFace.ApiFace.FetchAndUpdateTimes | apps/salaatime/app.js:56-62 | the new state is FetchStartStep: the guard, then Loading, then the nested redraw's recalculation |
| ApiFace.ApiFace.CheckDateAndFetch | apps/salaatime/app.js:193-209 | the new state is CheckDateStep: a fetch when needed, otherwise a recalculation |
| ApiFace.ApiFace.Draw | apps/salaatime/app.js:212-220 | the new state is DrawStep: the date check, then a recalculation unless Loading |
| ApiFace.ApiFace.ProcessResponse | apps/salaatime/app.js:68-108 | the try block's new state is ResponseStep, including the table cleared before the first field read throws |
| ApiFace.ApiFace.OnResponse | apps/salaatime/app.js:65-109 | the response handler's new state is the try block's state followed by a redraw |
| ApiFace.ApiFace.OnRequestFailed | apps/salaatime/app.js:110-117 | a failed request sets Error and "No Conn", then redraws |
| ApiFace.ApiFace.QueueDraw | apps/salaatime/app.js:319-328 | the delay lies in [1, millis] and now + delay is a multiple of millis |
| CalcFace.PrayerName | apps/SalaaTime/app.js:27-36 | no prayer's display name is "Error" |
| CalcFace.InitialSettings | apps/SalaaTime/app.js:15-24 | the merged settings hold the stored values over the seven defaults |
| CalcFace.FormatTime | apps/SalaaTime/app.js:206-214 | the result is "--:--" or the input string itself, which is non-empty and holds exactly one ':' |
| CalcFace.PlaceholderFormatted | apps/SalaaTime/app.js:206-214 | "--:--" is shown as itself |
| CalcFace.FormatTimeKeeps | apps/SalaaTime/app.js:206-214 | a string is shown unchanged exactly when it is non-empty and holds exactly one ':' |
| CalcFace.FormatTimeIdempotent | apps/SalaaTime/app.js:206-214 | formatTime applied twice equals formatTime applied once |
| CalcFace.FormatTimeOfClock | apps/SalaaTime/app.js:206-214 | every well-formed "HH:MM" is shown unchanged |
| CalcFace.CalcCountdown | apps/SalaaTime/app.js:165-186 | the countdown for the chosen Date: one day added to a negative difference, then CountdownText; "Now" for an Invalid Date and "..." for none; DayCorrection, TodayCountdown and TomorrowCountdown state its value |
| CalcFace.Chosen | apps/SalaaTime/app.js:135-186 | the info and countdown for a prayer at an "HH:MM" on a given day: the name, formatTime of the time, the Date from setHours, and its countdown |
| CalcFace.NextPrayer | apps/SalaaTime/app.js:107-187 | what findNextPrayer computes: "Error" / "Calc Error" for an empty table, the first later key today, otherwise tomorrow's Fajr from the library, or a throw; EmptyTimes, SelectionIsFirstLater, TomorrowFajr, ClockTimesToday and ClockTimesTomorrow state it |
| CalcFace.FirstLater | apps/SalaaTime/app.js:123-132 | the index found is the first key, sunrise included, whose time is present and strictly later than now; None means that no key is |
| CalcFace.EmptyTimes | apps/SalaaTime/app.js:115-120 | an empty table, and only an empty table, gives "Error", "--:--", no Date and "Calc Error" |
| CalcFace.SelectionIsFirstLater | apps/SalaaTime/app.js:123-163 | when key i is the first later one, the info is its name, its formatted time and today's Date at its time, with that Date's countdown |
| CalcFace.TomorrowFajr | apps/SalaaTime/app.js:135-149 | with no later key, the library is asked for the next day; the call throws exactly when the library throws or gives no fajr; otherwise the info is Fajr at tomorrow's fajr time |
| CalcFace.LaterByMinutes | apps/SalaaTime/app.js:127 | on well-formed times, the scan's string test is the test that the minute of the day is later |
| CalcFace.CountdownOfDate | apps/SalaaTime/app.js:166-182 | for a Date not before now, no day is added, and the countdown is that of the rounded-up minutes |
| CalcFace.TodayCountdown | apps/SalaaTime/app.js:151-182 | for a well-formed time later than now, the Date is today at that minute, and the countdown shows the minutes until it |
| CalcFace.TomorrowCountdown | apps/SalaaTime/app.js:135-182 | tomorrow's Date is at that minute of the next day, and the countdown shows the rest of today plus that minute |
| CalcFace.ClockTimesToday | apps/SalaaTime/app.js:123-182 | on well-formed times, the first key whose minute is later is chosen, its Date is today at that minute, and the countdown shows exactly the minutes until it |
| CalcFace.ClockTimesFirst | apps/SalaaTime/app.js:123-132 | the minute test picks the same key as the scan's string test |
| CalcFace.ClockTimesNone | apps/SalaaTime/app.js:123-135 | the minute test finds no key exactly when the string test finds none |
| CalcFace.ClockTimesTomorrow | apps/SalaaTime/app.js:135-182 | on well-formed times with none later, the next prayer is tomorrow's Fajr at its minute with zero seconds, and the countdown shows the rest of today plus that minute |
| CalcFace.DayCorrection | apps/SalaaTime/app.js:166-174 | for any Date on today's local day, the one-day correction gives a difference in [0, one day), at most 1440 minutes, counted to the next occurrence of that time |
| CalcFace.CalculateStep | apps/SalaaTime/app.js:47-69 | calculatePrayerTimes: the library's table and today's date on success, an empty table and the old date on a throw |
| CalcFace.NeedsRecalc | apps/SalaaTime/app.js:194 | the recalculation test: the stored date is not today's or the table is empty; CheckDateCases states it |
| CalcFace.FindNextKeepsTable | apps/SalaaTime/app.js:107-187 | findNextPrayer changes neither the table nor the stored date |
| CalcFace.CheckDateCases | apps/SalaaTime/app.js:189-202 | times are recalculated exactly when the date differs or the table is empty, and the next prayer is found in both branches |
| CalcFace.CheckDateSettles | apps/SalaaTime/app.js:59-62 | a successful calculation stores the date and the table, so later checks on that date only find the next prayer |
| CalcFace.FailedCalculationRetries | apps/SalaaTime/app.js:63-68 | a failed calculation clears the table, keeps the stored date and shows "Calc Error", so the next check recalculates |
| CalcFace.ScanToday | apps/SalaaTime/app.js:123-132 | the for…of loop with continue and break stops at FirstLater |
| CalcFace.TimeRemaining | apps/SalaaTime/app.js:166-186 | the step-by-step countdown (day correction, ceil, floor, `%`, the three texts, "..." for no Date) equals CalcCountdown |
| CalcFace.Announce | apps/SalaaTime/app.js:158-186 | the info and the countdown built for the chosen time are those NextPrayer yields |
| CalcFace.CalcFace.constructor | apps/SalaaTime/app.js:15-44 | the settings are the merged record, and the globals start as `{}`, "...", "--:--", null, "" and "" |
| CalcFace.CalcFace.CalculatePrayerTimes | apps/SalaaTime/app.js:47-69 | success stores the table and the date; failure clears the table and keeps the date |
| CalcFace.CalcFace.FindNextPrayer | apps/SalaaTime/app.js:107-187 | the new state and whether the call completed are FindNextStep of the old state |
| CalcFace.CalcFace.CheckDateAndUpdateTimes | apps/SalaaTime/app.js:189-202 | the new state and the completion flag are CheckDateStep of the old state |
| CalcFace.CalcFace.QueueDraw | apps/SalaaTime/app.js:295-304 | the delay is RedrawDelay: it lies in [1, millis] and now + delay is a multiple of millis |
| CalcFace.CalcFace.Draw | apps/SalaaTime/app.js:216-291 | the state is the date check's state; a delay is queued exactly when the check completed, and it is RedrawDelay |

## Left out

- The PrayTimes library (`apps/SalaaTime/app.js:8`, 49-50, 140-143) is not modelled. It is floating-point astronomy whose source is not part of this model. It is the parameter `getTimes`, which gives the times for a day number or None for a throw. The calculation method and the settings passed to it are not modelled.
- Time zones, daylight saving and `getTimezoneOffset` are not modelled. Instants are local wall-clock milliseconds. The `toISOString()` date (UTC) is a separate `isoDate` parameter, so the model does not relate it to the local day.
- `getHijriDate` (`apps/SalaaTime/app.js:75-104`) is not modelled. It is floating-point and, by its own description, a rough estimate.
- `Bangle.http`, the promise chain and `JSON.parse` are left out. The model starts from the parsed value (`ProcessResponse`, `OnResponse`), and a failed request is `OnRequestFailed`.
- Drawing is left out: every `g.*` call, fonts, colours, the Hijri truncation and the highlight test. `Draw` models only draw()'s effect on the state and the redraw it queues.
- Storage reads and writes, and `E.showMenu`, are left out. A stored settings record is a parameter (None for a missing file). `saveSettings` is not modelled.
- `setTimeout`, `clearTimeout` and the lock handler are left out. Only the delay is computed.
- `locale` formatting is not modelled. It is a foreign call.
- `E.showAlert(...).then(() => load())` after a failed calculation is left out. It is UI that reloads the app.
- The initial-setup sequence at the end of each file is not modelled as a method of its own. It is a composition of the modelled handlers.
- `Number` is modelled on decimal digits with white space around them (white space alone gives 0). Signs, decimal points, exponents, `Infinity` and `0x`/`0o`/`0b` prefixes give NaN in the model. The model assumes that the API and the library send each hour and minute as digits, with at most white space around them; the source does not check this.
- Strings are sequences of Unicode scalar values. JavaScript's `length`, `slice` and `<` count UTF-16 code units, so `formatHHMM`'s five characters and the string order differ from JavaScript's for characters outside the Basic Multilingual Plane.
- `Num` values are reals. NaN and the infinities are not modelled. No number read by the core is one of them.
- Each event takes a single `now`. The faces read the clock more than once during one call, and the model does not capture those reads drifting apart.
- ApiFace.ApiFace.ProcessResponse: a truthy field that is not a string of length at least 5 becomes "--:--", yet it still counts as found, so the status can be OK. The model reproduces this and proves nothing more.
- CalcFace.CalcFace.Draw: when tomorrow's calculation throws, draw() ends before queueDraw. The model returns None, and nothing else of that exception is modelled.
