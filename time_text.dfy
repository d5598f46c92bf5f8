/** Clock arithmetic and the text forms both watch faces share: zero-padded
    "HH:MM" strings, JavaScript's string order, `split(':')`, `Number`,
    `setHours(h, m, 0, 0)` and the countdown text. Instants are integer
    milliseconds of local wall-clock time; time zones and daylight saving
    are not modelled. */
module TimeText {
  import opened JsValues

  const MS_PER_MINUTE: int := 60000
  const MS_PER_HOUR: int := 3600000
  const MS_PER_DAY: int := 86400000

  // ---------------------------------------------------------------------
  // Decimal digits

  predicate IsDigit(c: char) {
    '0' <= c <= '9'
  }

  predicate AllDigits(s: string) {
    forall i :: 0 <= i < |s| ==> IsDigit(s[i])
  }

  function DigitChar(d: nat): (c: char)
    requires d < 10
    ensures IsDigit(c)
  {
    ('0' as int + d) as char
  }

  function DigitValue(c: char): (d: nat)
    requires IsDigit(c)
    ensures d < 10
  {
    c as int - '0' as int
  }

  /** The value of a string of decimal digits; "" has value 0, as `Number("")` does. */
  function DigitsValue(s: string): nat
    requires AllDigits(s)
    decreases |s|
  {
    if s == [] then 0 else DigitsValue(s[..|s| - 1]) * 10 + DigitValue(s[|s| - 1])
  }

  /** `String(n)` (or `${n}`) for a non-negative integer. */
  function DecimalString(n: nat): (s: string)
    ensures |s| >= 1 && AllDigits(s)
    ensures n < 10 <==> |s| == 1
    ensures s[0] == '0' ==> n == 0
  {
    if n < 10 then [DigitChar(n)] else DecimalString(n / 10) + [DigitChar(n % 10)]
  }

  /** Reading back the digits of `String(n)` gives n. */
  lemma {:induction false} DecimalRoundTrip(n: nat)
    ensures DigitsValue(DecimalString(n)) == n
  {
    var s := DecimalString(n);
    if n < 10 {
      assert s[..|s| - 1] == [];
    } else {
      assert s[..|s| - 1] == DecimalString(n / 10);
      DecimalRoundTrip(n / 10);
    }
  }

  /** `("0" + n).slice(-2)`: a two-character field, n itself when n < 100. */
  function Pad2(n: nat): (s: string)
    ensures |s| == 2 && AllDigits(s)
    ensures n < 100 ==> DigitValue(s[0]) * 10 + DigitValue(s[1]) == n
  {
    var t := "0" + DecimalString(n);
    if n < 10 then
      assert t == ['0', DigitChar(n)];
      t[|t| - 2..]
    else if n < 100 then
      assert DecimalString(n / 10) == [DigitChar(n / 10)];
      assert t == ['0', DigitChar(n / 10), DigitChar(n % 10)];
      t[|t| - 2..]
    else
      t[|t| - 2..]
  }

  // ---------------------------------------------------------------------
  // Local wall-clock time

  /** The local calendar day of instant t (days since the epoch). */
  function Day(t: int): int {
    t / MS_PER_DAY
  }

  function MsOfDay(t: int): (ms: nat)
    ensures ms < MS_PER_DAY
  {
    t % MS_PER_DAY
  }

  /** The instant a day later falls on the next local day. */
  lemma NextDay(t: int)
    ensures Day(t + MS_PER_DAY) == Day(t) + 1
  {
  }

  /** `getHours()` */
  function Hours(t: int): (h: nat)
    ensures h < 24
  {
    MsOfDay(t) / MS_PER_HOUR
  }

  /** `getMinutes()` */
  function Minutes(t: int): (m: nat)
    ensures m < 60
  {
    MsOfDay(t) / MS_PER_MINUTE % 60
  }

  /** Whole minutes elapsed since local midnight. */
  function MinuteOfDay(t: int): (m: nat)
    ensures m < 1440
    ensures m == Hours(t) * 60 + Minutes(t)
  {
    MsOfDay(t) / MS_PER_MINUTE
  }

  /** The zero-padded "HH:MM" both faces build from the current time. */
  function NowString(t: int): string {
    Pad2(Hours(t)) + ":" + Pad2(Minutes(t))
  }

  // ---------------------------------------------------------------------
  // "HH:MM" strings and their order

  /** Two digits, a colon, two digits. */
  predicate ClockShaped(s: string) {
    |s| == 5 && IsDigit(s[0]) && IsDigit(s[1]) && s[2] == ':' && IsDigit(s[3]) && IsDigit(s[4])
  }

  function HourField(s: string): nat
    requires ClockShaped(s)
  {
    DigitValue(s[0]) * 10 + DigitValue(s[1])
  }

  function MinuteField(s: string): nat
    requires ClockShaped(s)
  {
    DigitValue(s[3]) * 10 + DigitValue(s[4])
  }

  /** A well-formed zero-padded 24-hour "HH:MM". */
  predicate IsClock(s: string) {
    ClockShaped(s) && HourField(s) < 24 && MinuteField(s) < 60
  }

  /** The minute of the day a well-formed "HH:MM" names. */
  function ClockMinutes(s: string): (m: nat)
    requires IsClock(s)
    ensures m < 1440
  {
    HourField(s) * 60 + MinuteField(s)
  }

  /** The current-time string is well formed and names the current minute. */
  lemma NowStringIsClock(t: int)
    ensures IsClock(NowString(t))
    ensures ClockMinutes(NowString(t)) == MinuteOfDay(t)
  {
    var s := NowString(t);
    assert s[..2] == Pad2(Hours(t)) && s[3..] == Pad2(Minutes(t));
    assert s[0] == Pad2(Hours(t))[0] && s[1] == Pad2(Hours(t))[1];
    assert s[3] == Pad2(Minutes(t))[0] && s[4] == Pad2(Minutes(t))[1];
  }

  /** JavaScript's `a < b` on strings: the order of the characters at the
      first difference, a proper prefix before the longer string. The
      characters here are Unicode scalar values, so this is JavaScript's
      UTF-16 order for every character of the Basic Multilingual Plane. */
  predicate StrLess(a: string, b: string)
    decreases |a|
  {
    if b == [] then false
    else if a == [] then true
    else if a[0] != b[0] then a[0] < b[0]
    else StrLess(a[1..], b[1..])
  }

  /** On well-formed "HH:MM" strings, the string order the faces use
      agrees with the order of the minutes of the day they name. */
  lemma {:induction false} ClockOrder(a: string, b: string)
    requires IsClock(a) && IsClock(b)
    ensures StrLess(a, b) <==> ClockMinutes(a) < ClockMinutes(b)
  {
    var a1, b1 := a[1..], b[1..];
    var a2, b2 := a1[1..], b1[1..];
    var a3, b3 := a2[1..], b2[1..];
    var a4, b4 := a3[1..], b3[1..];
    assert StrLess(a, b) == if a[0] != b[0] then a[0] < b[0] else StrLess(a1, b1);
    assert StrLess(a1, b1) == if a[1] != b[1] then a[1] < b[1] else StrLess(a2, b2);
    assert StrLess(a2, b2) == StrLess(a3, b3);
    assert StrLess(a3, b3) == if a[3] != b[3] then a[3] < b[3] else StrLess(a4, b4);
    assert StrLess(a4, b4) == (a[4] < b[4]);
  }

  /** The "--:--" placeholder sorts below every well-formed "HH:MM", so it
      is never later than the current time. */
  lemma PlaceholderNeverLater(now: string)
    requires IsClock(now)
    ensures !StrLess(now, "--:--")
  {
  }

  // ---------------------------------------------------------------------
  // `split`, `Number` and `setHours`

  /** `s.split(sep)` for a one-character separator. */
  function Split(s: string, sep: char): (parts: seq<string>)
    ensures |parts| >= 1
    ensures forall i :: 0 <= i < |parts| ==> sep !in parts[i]
  {
    if s == [] then [[]]
    else
      var rest := Split(s[1..], sep);
      if s[0] == sep then [[]] + rest else [[s[0]] + rest[0]] + rest[1..]
  }

  /** `parts.join(sep)` */
  function Join(parts: seq<string>, sep: char): string
    requires |parts| >= 1
  {
    if |parts| == 1 then parts[0] else parts[0] + [sep] + Join(parts[1..], sep)
  }

  /** Joining the pieces of a split with the separator gives back the string. */
  lemma {:induction false} SplitJoin(s: string, sep: char)
    ensures Join(Split(s, sep), sep) == s
  {
    if s != [] {
      var rest := Split(s[1..], sep);
      SplitJoin(s[1..], sep);
      if s[0] == sep {
        assert Split(s, sep)[1..] == rest;
        assert s == [sep] + s[1..];
      } else if |rest| == 1 {
        assert s == [s[0]] + s[1..];
      } else {
        var parts := Split(s, sep);
        assert parts[1..] == rest[1..];
        assert Join(rest, sep) == rest[0] + [sep] + Join(rest[1..], sep);
        assert s == [s[0]] + s[1..];
      }
    }
  }

  /** The number of separators in s. */
  function Occurrences(s: string, c: char): nat {
    multiset(s)[c]
  }

  /** A split yields one more piece than there are separators. */
  lemma {:induction false} SplitCount(s: string, sep: char)
    ensures |Split(s, sep)| == Occurrences(s, sep) + 1
  {
    if s != [] {
      SplitCount(s[1..], sep);
      assert s == [s[0]] + s[1..];
      assert multiset(s) == multiset([s[0]]) + multiset(s[1..]);
    }
  }

  lemma {:induction false} SplitAt(p: string, q: string, sep: char)
    requires sep !in p
    ensures Split(p + [sep] + q, sep) == [p] + Split(q, sep)
  {
    if p == [] {
      assert p + [sep] + q == [sep] + q;
      assert ([sep] + q)[1..] == q;
    } else {
      assert (p + [sep] + q)[1..] == p[1..] + [sep] + q;
      SplitAt(p[1..], q, sep);
      assert [p[0]] + p[1..] == p;
    }
  }

  lemma {:induction false} SplitNone(s: string, sep: char)
    requires sep !in s
    ensures Split(s, sep) == [s]
  {
    if s != [] {
      SplitNone(s[1..], sep);
      assert [s[0]] + s[1..] == s;
    }
  }

  /** The characters `Number` skips at either end of a string: JavaScript's
      white space and line terminators. */
  predicate IsJsSpace(c: char) {
    c == ' ' || c == '\t' || c == '\n' || c == '\r' || c == '\U{B}' || c == '\U{C}'
    || c == '\U{A0}' || c == '\U{1680}' || ('\U{2000}' <= c <= '\U{200A}')
    || c == '\U{2028}' || c == '\U{2029}' || c == '\U{202F}' || c == '\U{205F}'
    || c == '\U{3000}' || c == '\U{FEFF}'
  }

  /** s without its leading white space. */
  function TrimStart(s: string): (t: string)
    ensures t != [] ==> !IsJsSpace(t[0])
  {
    if s != [] && IsJsSpace(s[0]) then TrimStart(s[1..]) else s
  }

  /** s without its trailing white space. */
  function TrimEnd(s: string): (t: string)
    ensures t != [] ==> !IsJsSpace(t[|t| - 1])
  {
    if s != [] && IsJsSpace(s[|s| - 1]) then TrimEnd(s[..|s| - 1]) else s
  }

  /** `Number(p)` for decimal digits with white space around them: only
      white space gives 0, and None stands for NaN. */
  function ToNumber(p: string): Option<nat> {
    var t := TrimEnd(TrimStart(p));
    if AllDigits(t) then Some(DigitsValue(t)) else None
  }

  /** A string of digits has no white space to trim. */
  lemma DigitsNumber(s: string)
    requires AllDigits(s)
    ensures ToNumber(s) == Some(DigitsValue(s))
  {
    if s != [] {
      assert !IsJsSpace(s[0]) && !IsJsSpace(s[|s| - 1]);
    }
  }

  /** Every character of w is white space. */
  predicate AllSpace(w: string) {
    forall i :: 0 <= i < |w| ==> IsJsSpace(w[i])
  }

  /** Leading white space before a string that does not start with white
      space is all that TrimStart removes. */
  lemma {:induction false} TrimStartSpaces(w: string, d: string)
    requires AllSpace(w) && (d == [] || !IsJsSpace(d[0]))
    ensures TrimStart(w + d) == d
  {
    if w != [] {
      assert (w + d)[0] == w[0];
      assert (w + d)[1..] == w[1..] + d;
      TrimStartSpaces(w[1..], d);
    }
  }

  /** Trailing white space after a string that does not end with white
      space is all that TrimEnd removes. */
  lemma {:induction false} TrimEndSpaces(d: string, w: string)
    requires AllSpace(w) && (d == [] || !IsJsSpace(d[|d| - 1]))
    ensures TrimEnd(d + w) == d
  {
    if w != [] {
      var w' := w[..|w| - 1];
      assert (d + w)[|d + w| - 1] == w[|w| - 1];
      assert (d + w)[..|d + w| - 1] == d + w';
      TrimEndSpaces(d, w');
    } else {
      assert d + w == d;
    }
  }

  /** `Number` skips white space at either end of a run of digits. */
  lemma SpacedDigitsNumber(w1: string, d: string, w2: string)
    requires AllSpace(w1) && AllSpace(w2) && AllDigits(d) && d != []
    ensures ToNumber(w1 + d + w2) == Some(DigitsValue(d))
  {
    assert !IsJsSpace(d[0]) && !IsJsSpace(d[|d| - 1]);
    assert (d + w2)[0] == d[0];
    TrimStartSpaces(w1, d + w2);
    assert w1 + d + w2 == w1 + (d + w2);
    TrimEndSpaces(d, w2);
  }

  /** `Number` of white space alone (or of "") is 0. */
  lemma AllSpaceNumber(w: string)
    requires AllSpace(w)
    ensures ToNumber(w) == Some(0)
  {
    TrimStartSpaces(w, []);
    assert w + [] == w;
  }

  /** `const [hours, minutes] = s.split(':').map(Number)`; None when either
      is NaN or there is no second piece (undefined). */
  function ParseClock(s: string): Option<(nat, nat)> {
    var parts := Split(s, ':');
    if |parts| < 2 then None
    else
      match (ToNumber(parts[0]), ToNumber(parts[1]))
      case (Some(h), Some(m)) => Some((h, m))
      case _ => None
  }

  /** A JavaScript Date: null, a valid instant, or an Invalid Date (NaN). */
  datatype DateValue = NullDate | ValidDate(ms: int) | InvalidDate

  /** `d = new Date(base); d.setHours(hours, minutes, 0, 0)` for the parsed
      clock string s: base's local day at that hour and minute. */
  function DateAt(base: int, s: string): DateValue {
    match ParseClock(s)
    case None => InvalidDate
    case Some((h, m)) => ValidDate(Day(base) * MS_PER_DAY + h * MS_PER_HOUR + m * MS_PER_MINUTE)
  }

  lemma TwoDigitsValue(d: string)
    requires |d| == 2 && AllDigits(d)
    ensures DigitsValue(d) == DigitValue(d[0]) * 10 + DigitValue(d[1])
  {
    var first := d[..|d| - 1];
    assert first == [d[0]];
    assert first[..|first| - 1] == [];
    assert DigitsValue(first) == DigitValue(d[0]);
  }

  /** A string with one ':' parses to the numbers on either side of it. */
  lemma ParseClockParts(p: string, q: string)
    requires ':' !in p && ':' !in q
    ensures ParseClock(p + [':'] + q) ==
      if ToNumber(p).Some? && ToNumber(q).Some? then Some((ToNumber(p).value, ToNumber(q).value)) else None
  {
    SplitAt(p, q, ':');
    SplitNone(q, ':');
  }

  /** Two pieces around one ':' whose `Number`s are h and m parse to them. */
  lemma ParseClockNumbers(p: string, q: string, h: nat, m: nat)
    requires ':' !in p && ':' !in q && ToNumber(p) == Some(h) && ToNumber(q) == Some(m)
    ensures ParseClock(p + [':'] + q) == Some((h, m))
  {
    ParseClockParts(p, q);
  }

  /** Two runs of digits around one ':' parse to their values. */
  lemma ParseClockDigits(p: string, q: string)
    requires ':' !in p && ':' !in q && AllDigits(p) && AllDigits(q)
    ensures ParseClock(p + [':'] + q) == Some((DigitsValue(p), DigitsValue(q)))
  {
    ParseClockParts(p, q);
    DigitsNumber(p);
    DigitsNumber(q);
  }

  /** A well-formed "HH:MM" parses to its own fields, so setHours lands on
      that minute of base's day with zero seconds. */
  lemma DateAtClock(base: int, s: string)
    requires IsClock(s)
    ensures DateAt(base, s) == ValidDate(Day(base) * MS_PER_DAY + ClockMinutes(s) * MS_PER_MINUTE)
  {
    ParseClockOfClock(s);
  }

  /** `split(':').map(Number)` on a well-formed "HH:MM" gives its two fields. */
  lemma ParseClockOfClock(s: string)
    requires IsClock(s)
    ensures ParseClock(s) == Some((HourField(s), MinuteField(s)))
  {
    var hh, mm := s[..2], s[3..];
    assert s == hh + [':'] + mm;
    assert ':' !in hh && ':' !in mm by {
      assert hh == [s[0], s[1]] && mm == [s[3], s[4]];
    }
    ParseClockDigits(hh, mm);
    TwoDigitsValue(hh);
    TwoDigitsValue(mm);
  }

  /** `Number("40 ")` is 40: the trailing space is skipped. */
  lemma TrailingSpaceNumber()
    ensures ToNumber("40 ") == Some(40)
  {
    var q := "40 ";
    assert TrimStart(q) == q;
    assert q[..2] == "40";
    assert TrimEnd("40") == "40";
    assert TrimEnd(q) == "40";
    TwoDigitsValue("40");
  }

  /** The white space `Number` skips is skipped here too: the first five
      characters of "4:40 PM" read as 4 hours and 40 minutes. */
  lemma TrailingSpaceSkipped()
    ensures ParseClock("4:40 ") == Some((4, 40))
  {
    var p, q := "4", "40 ";
    assert "4:40 " == p + [':'] + q;
    TrailingSpaceNumber();
    DigitsNumber(p);
    assert DigitsValue(p) == 4;
    ParseClockNumbers(p, q, 4, 40);
  }

  /** What both faces show about the next prayer: its display name, its
      "HH:MM" and the Date of its start. */
  datatype NextPrayerInfo = NextPrayerInfo(name: string, time: string, iso: DateValue)

  // ---------------------------------------------------------------------
  // The countdown text

  /** `Math.ceil(x / 60000)` */
  function CeilMinutes(x: int): (q: int)
    ensures (q - 1) * MS_PER_MINUTE < x <= q * MS_PER_MINUTE
  {
    -((-x) / MS_PER_MINUTE)
  }

  /** `a % b` as JavaScript computes it: the result takes the sign of a. */
  function JsRem(a: int, b: int): (r: int)
    requires b > 0
    ensures a >= 0 ==> 0 <= r < b && a == a / b * b + r
  {
    if a >= 0 then a % b else -((-a) % b)
  }

  /** The countdown for a number of minutes: split into hours and minutes,
      shown as "-Hh Mm", "-Mm" or "Now". */
  function CountdownOfMinutes(total: int): (t: string)
    ensures t == "Now" || (|t| >= 3 && t[0] == '-' && t[|t| - 1] == 'm')
    ensures t == "Now" <==> total <= 0
  {
    var hrs := total / 60;
    var mins := JsRem(total, 60);
    if hrs > 0 then "-" + DecimalString(hrs) + "h " + DecimalString(mins) + "m"
    else if mins > 0 then "-" + DecimalString(mins) + "m"
    else "Now"
  }

  /** The countdown for a millisecond difference: minutes rounded up. */
  function CountdownText(diffMillis: int): string {
    CountdownOfMinutes(CeilMinutes(diffMillis))
  }

  /** The length of the run of digits that starts s. */
  function LeadingDigits(s: string): (k: nat)
    ensures k <= |s| && AllDigits(s[..k])
    ensures k < |s| ==> !IsDigit(s[k])
  {
    if s == [] || !IsDigit(s[0]) then 0
    else
      var k := 1 + LeadingDigits(s[1..]);
      assert s[..k] == [s[0]] + s[1..][..k - 1];
      k
  }

  lemma {:induction false} LeadingDigitsOf(x: string, y: string)
    requires AllDigits(x)
    requires y != [] && !IsDigit(y[0])
    ensures LeadingDigits(x + y) == |x|
  {
    if x != [] {
      assert (x + y)[1..] == x[1..] + y;
      LeadingDigitsOf(x[1..], y);
    }
  }

  /** The fields a countdown text shows: "Now", "-Mm" or "-Hh Mm". */
  datatype CountdownShape = ShowsNow | ShowsMinutes(m: nat) | ShowsHours(h: nat, m: nat)

  /** The number of minutes a countdown stands for. */
  function ShapeMinutes(c: CountdownShape): nat {
    match c
    case ShowsNow => 0
    case ShowsMinutes(m) => m
    case ShowsHours(h, m) => h * 60 + m
  }

  /** Reads the part between the leading '-' and the final 'm' of a
      countdown, "M" or "Hh M", keeping which layout it had. */
  function ParseBody(body: string): Option<CountdownShape> {
    var k := LeadingDigits(body);
    if k == 0 then None
    else if k == |body| then Some(ShowsMinutes(DigitsValue(body)))
    else if k + 2 < |body| && body[k] == 'h' && body[k + 1] == ' ' && AllDigits(body[k + 2..]) then
      Some(ShowsHours(DigitsValue(body[..k]), DigitsValue(body[k + 2..])))
    else None
  }

  /** Reads a countdown text back into the fields it shows: the inverse of
      CountdownOfMinutes. */
  function ReadCountdown(t: string): Option<CountdownShape> {
    if t == "Now" then Some(ShowsNow)
    else if |t| >= 3 && t[0] == '-' && t[|t| - 1] == 'm' then ParseBody(t[1..|t| - 1])
    else None
  }

  lemma CountdownBodyOf(body: string)
    requires body != []
    ensures ReadCountdown("-" + body + "m") == ParseBody(body)
  {
    var t := "-" + body + "m";
    assert t[1..|t| - 1] == body;
  }

  /** Where the hours, the "h " and the minutes sit in "Hh M". */
  lemma HoursLayout(x: string, y: string)
    ensures |x + "h " + y| == |x| + 2 + |y|
    ensures (x + "h " + y)[..|x|] == x && (x + "h " + y)[|x| + 2..] == y
    ensures (x + "h " + y)[|x|] == 'h' && (x + "h " + y)[|x| + 1] == ' '
  {
  }

  lemma HoursLeadingDigits(x: string, y: string)
    requires AllDigits(x)
    ensures LeadingDigits(x + "h " + y) == |x|
  {
    var rest := "h " + y;
    assert x + rest == x + "h " + y;
    LeadingDigitsOf(x, rest);
  }

  lemma ParseHoursShape(body: string, x: string, y: string)
    requires x != [] && y != [] && AllDigits(x) && AllDigits(y) && LeadingDigits(body) == |x|
    requires |body| == |x| + 2 + |y| && body[..|x|] == x && body[|x| + 2..] == y
    requires body[|x|] == 'h' && body[|x| + 1] == ' '
    ensures ParseBody(body) == Some(ShowsHours(DigitsValue(x), DigitsValue(y)))
  {
    var k := LeadingDigits(body);
    assert k != 0 && k != |body| && k + 2 < |body|;
    assert body[..k] == x && body[k + 2..] == y;
    assert body[k] == 'h' && body[k + 1] == ' ' && AllDigits(body[k + 2..]);
  }

  lemma ParseHoursBody(x: string, y: string)
    requires AllDigits(x) && AllDigits(y) && x != [] && y != []
    ensures ParseBody(x + "h " + y) == Some(ShowsHours(DigitsValue(x), DigitsValue(y)))
  {
    HoursLeadingDigits(x, y);
    HoursLayout(x, y);
    ParseHoursShape(x + "h " + y, x, y);
  }

  lemma {:induction false} LeadingDigitsAll(s: string)
    requires AllDigits(s)
    ensures LeadingDigits(s) == |s|
  {
    if s != [] {
      LeadingDigitsAll(s[1..]);
    }
  }

  lemma ParseMinutesBody(y: string)
    requires AllDigits(y) && y != []
    ensures ParseBody(y) == Some(ShowsMinutes(DigitsValue(y)))
  {
    LeadingDigitsAll(y);
  }

  /** "-Hh Mm" reads back as hours H and minutes M. */
  lemma HoursTextValue(h: string, m: string)
    requires AllDigits(h) && AllDigits(m) && h != [] && m != []
    ensures ReadCountdown("-" + h + "h " + m + "m") == Some(ShowsHours(DigitsValue(h), DigitsValue(m)))
  {
    assert "-" + h + "h " + m + "m" == "-" + (h + "h " + m) + "m";
    CountdownBodyOf(h + "h " + m);
    ParseHoursBody(h, m);
  }

  /** "-Mm" reads back as minutes M alone. */
  lemma MinutesTextValue(m: string)
    requires AllDigits(m) && m != []
    ensures ReadCountdown("-" + m + "m") == Some(ShowsMinutes(DigitsValue(m)))
  {
    CountdownBodyOf(m);
    ParseMinutesBody(m);
  }

  /** How the whole hours and the remaining minutes make up the total. */
  lemma SplitMinutes(total: int)
    ensures total / 60 > 0 <==> total >= 60
    ensures total >= 0 ==> JsRem(total, 60) == total % 60
    ensures total / 60 <= 0 && JsRem(total, 60) > 0 ==> total == JsRem(total, 60)
    ensures total / 60 <= 0 && JsRem(total, 60) <= 0 ==> total <= 0
  {
  }

  /** The countdown's layout: "-Hh Mm" with the whole hours and the
      remaining minutes from one hour on, "-Mm" below an hour, and "Now"
      exactly when no minute remains; it stands for exactly that many
      minutes. */
  lemma CountdownRoundTrip(total: int)
    ensures ReadCountdown(CountdownOfMinutes(total)) ==
      Some(if total >= 60 then ShowsHours(total / 60, total % 60)
           else if total > 0 then ShowsMinutes(total)
           else ShowsNow)
    ensures ShapeMinutes(ReadCountdown(CountdownOfMinutes(total)).value) == if total > 0 then total else 0
    ensures CountdownOfMinutes(total) == "Now" <==> total <= 0
  {
    var hrs := total / 60;
    var mins := JsRem(total, 60);
    SplitMinutes(total);
    if hrs > 0 {
      var h, m := DecimalString(hrs), DecimalString(mins);
      assert CountdownOfMinutes(total) == "-" + h + "h " + m + "m";
      DecimalRoundTrip(hrs);
      DecimalRoundTrip(mins);
      HoursTextValue(h, m);
    } else if mins > 0 {
      var m := DecimalString(mins);
      assert CountdownOfMinutes(total) == "-" + m + "m";
      DecimalRoundTrip(mins);
      MinutesTextValue(m);
    }
  }

  /** For a same-day prayer later than the current minute, the instant is
      in the future and the countdown minutes are exactly the difference in
      minutes of the day: the clamp and the day correction never fire. */
  lemma SameDayCountdown(now: int, s: string)
    requires IsClock(s) && StrLess(NowString(now), s)
    ensures DateAt(now, s).ValidDate?
    ensures DateAt(now, s).ms - now > 0
    ensures CeilMinutes(DateAt(now, s).ms - now) == ClockMinutes(s) - MinuteOfDay(now)
  {
    NowStringIsClock(now);
    ClockOrder(NowString(now), s);
    DateAtClock(now, s);
    assert now == Day(now) * MS_PER_DAY + MsOfDay(now);
    assert MsOfDay(now) == MinuteOfDay(now) * MS_PER_MINUTE + MsOfDay(now) % MS_PER_MINUTE;
  }

  /** For a prayer on the following day, the countdown minutes are the rest
      of today plus that prayer's minute of the day. */
  lemma NextDayCountdown(now: int, s: string)
    requires IsClock(s)
    ensures DateAt(now + MS_PER_DAY, s).ValidDate?
    ensures DateAt(now + MS_PER_DAY, s).ms - now > 0
    ensures CeilMinutes(DateAt(now + MS_PER_DAY, s).ms - now) == 1440 - MinuteOfDay(now) + ClockMinutes(s)
  {
    DateAtClock(now + MS_PER_DAY, s);
    assert Day(now + MS_PER_DAY) == Day(now) + 1;
    assert now == Day(now) * MS_PER_DAY + MsOfDay(now);
    assert MsOfDay(now) == MinuteOfDay(now) * MS_PER_MINUTE + MsOfDay(now) % MS_PER_MINUTE;
  }

  // ---------------------------------------------------------------------
  // Redraw scheduling

  /** `millis - (Date.now() % millis)` with millis 1000 when seconds are
      shown and 60000 otherwise: the wait until the next second or minute. */
  function RedrawDelay(showSeconds: bool, nowMs: nat): (delay: int)
    ensures var millis := if showSeconds then 1000 else MS_PER_MINUTE;
      1 <= delay <= millis && (nowMs + delay) % millis == 0
  {
    var millis := if showSeconds then 1000 else MS_PER_MINUTE;
    millis - nowMs % millis
  }
}
