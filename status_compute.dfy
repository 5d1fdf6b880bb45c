/**
 * Form lifecycle status (src/lib/statusCompute.ts).
 *
 * A form's start and end are given as date strings with optional `HH:mm`
 * times; each pair is parsed into an instant and the current instant is
 * compared against the two with strict `<` and `>`, giving `Upcoming`,
 * `Closed` or `Open` in that order of checks.
 *
 * A JavaScript `Date` is an `Instant`: a time value in milliseconds since the
 * epoch, or the invalid date (time value NaN), which every comparison treats
 * as false. The platform's own string-to-date parser (`new Date(text)`) is a
 * parameter, `native`, and the wall clock is a parameter, `now`. Days are
 * counted in a single time zone.
 */
module StatusCompute {
  import opened Results
  import opened Text

  datatype FormStatus = Open | Upcoming | Closed

  datatype FormCategory = Marks | Training | Slot | Other

  /** A form entry as stored; `status` is the stored status, which the batch computation overwrites. */
  datatype FormEntry = FormEntry(
    id: string,
    title: string,
    category: FormCategory,
    description: string,
    startDate: string,
    startTime: Option<string>,
    endDate: string,
    endTime: Option<string>,
    status: FormStatus,
    formUrl: string)

  /** A JavaScript `Date`: milliseconds since the epoch, or the invalid date. */
  datatype Instant = At(ms: int) | Invalid

  /** `new Date(text)`: the platform's parser for date strings. */
  type NativeParser = string -> Instant

  const MsPerMinute: int := 60_000
  const MsPerHour: int := 3_600_000
  const MsPerDay: int := 86_400_000

  /** The day number of a time value (whole days since the epoch, rounded down). */
  function Day(t: int): int {
    t / MsPerDay
  }

  /** `getHours()` of a valid date. */
  function HoursOf(t: int): int {
    (t % MsPerDay) / MsPerHour
  }

  /** `getMinutes()` of a valid date. */
  function MinutesOf(t: int): int {
    (t % MsPerHour) / MsPerMinute
  }

  /** `getSeconds() * 1000 + getMilliseconds()` of a valid date. */
  function SecondsAndMillisOf(t: int): int {
    t % MsPerMinute
  }

  /** `now < d` for the current instant `now` (a valid date): false when `d` is invalid. */
  predicate Earlier(now: int, d: Instant) {
    d.At? && now < d.ms
  }

  /** `now > d`: false when `d` is invalid. */
  predicate Later(now: int, d: Instant) {
    d.At? && now > d.ms
  }

  /** A time string is used only when it is truthy: present and not empty. */
  predicate HasTime(time: Option<string>) {
    time.Some? && time.value != ""
  }

  // ---------------------------------------------------------------------
  // parseDateTime
  // ---------------------------------------------------------------------

  /**
   * The `DD/MM/YYYY` branch: split on `/` and rebuild the pieces as
   * `year-month-day`. The result never contains `/`.
   */
  function Reencode(s: string): (r: string)
    ensures '/' !in r
  {
    var pieces := Split(s, '/');
    Piece(pieces, 2) + "-" + Piece(pieces, 1) + "-" + Piece(pieces, 0)
  }

  /**
   * For a date without `-` (the only kind that is re-encoded), splitting the
   * rebuilt string on `-` gives back the year, month and day pieces.
   */
  lemma ReencodeSplitsBack(s: string)
    requires '-' !in s
    ensures var pieces := Split(s, '/');
      Split(Reencode(s), '-') == [Piece(pieces, 2), Piece(pieces, 1), Piece(pieces, 0)]
  {
    var pieces := Split(s, '/');
    JoinOmits(pieces, '/', '-');
    var y, m, d := Piece(pieces, 2), Piece(pieces, 1), Piece(pieces, 0);
    assert '-' !in y && '-' !in m && '-' !in d;
    SplitThree(y, m, d, '-');
  }

  /** A day, month and year joined by `/` are rebuilt as the year, month and day joined by `-`. */
  lemma ReencodeDayMonthYear(d: string, m: string, y: string)
    requires '/' !in d && '/' !in m && '/' !in y
    ensures Reencode(d + "/" + m + "/" + y) == y + "-" + m + "-" + d
  {
    var pieces := [d, m, y];
    assert pieces[1..] == [m, y] && [m, y][1..] == [y];
    assert Join([y], '/') == y;
    assert Join([m, y], '/') == m + "/" + y;
    assert Join(pieces, '/') == d + "/" + m + "/" + y;
    SplitJoin(pieces, '/');
  }

  /** With a missing year the rebuilt string starts with the text "undefined". */
  lemma ReencodeMissingYear()
    ensures Reencode("15/01") == "undefined-01-15"
  {
    var pieces := ["15", "01"];
    assert pieces[1..] == ["01"] && Join(["01"], '/') == "01";
    assert Join(pieces, '/') == "15/01";
    SplitJoin(pieces, '/');
  }

  /**
   * The date part of `parseDateTime`: a string containing `-` goes to the
   * native parser as it is, even when it also contains `/`; otherwise a
   * string containing `/` goes there re-encoded; anything else goes there
   * unchanged.
   */
  function ParseDate(native: NativeParser, s: string): (r: Instant)
    ensures '-' in s || '/' !in s ==> r == native(s)
    ensures '-' !in s && '/' in s ==> r == native(Reencode(s))
  {
    if '-' in s then native(s)
    else if '/' in s then native(Reencode(s))
    else native(s)
  }

  /**
   * `date.setHours(h, m, 0, 0)`: the same day at `h` hours and `m` minutes;
   * an invalid date, or an hour or minute that is NaN, gives the invalid date.
   * A valid result is always a whole number of minutes.
   */
  function SetHours(date: Instant, h: Option<int>, m: Option<int>): (r: Instant)
    ensures r.At? <==> date.At? && h.Some? && m.Some?
    ensures r.At? ==> SecondsAndMillisOf(r.ms) == 0
  {
    if date.Invalid? || h.None? || m.None? then Invalid
    else
      var t := Day(date.ms) * MsPerDay + h.value * MsPerHour + m.value * MsPerMinute;
      assert t == (Day(date.ms) * 1440 + h.value * 60 + m.value) * MsPerMinute;
      At(t)
  }

  /**
   * `parseInt(hours, 10)` where `[hours, minutes] = time.split(':')`: a time
   * without `:` is all hour.
   */
  function HourField(time: string): (h: Option<int>)
    ensures ':' !in time ==> h == ParseInt(time)
  {
    if ':' !in time then SplitWithoutSeparator(time, ':'); ParseInt(Piece(Split(time, ':'), 0))
    else ParseInt(Piece(Split(time, ':'), 0))
  }

  /**
   * `parseInt(minutes, 10)` where `[hours, minutes] = time.split(':')`: a time
   * without `:` has no minutes piece, and `parseInt(undefined, 10)` is NaN.
   */
  function MinuteField(time: string): (m: Option<int>)
    ensures ':' !in time ==> m.None?
  {
    if ':' !in time then
      SplitWithoutSeparator(time, ':');
      assert "undefined"[0] == 'u';
      ParseInt(Piece(Split(time, ':'), 1))
    else ParseInt(Piece(Split(time, ':'), 1))
  }

  /** `HH:mm` with digit-only fields reads back as the decimal values of the two fields. */
  lemma ClockFieldsReadBack(hh: string, mm: string)
    requires hh != [] && AllDigits(hh) && mm != [] && AllDigits(mm)
    ensures HourField(hh + ":" + mm) == Some(DecimalValue(hh))
    ensures MinuteField(hh + ":" + mm) == Some(DecimalValue(mm))
  {
    assert ':' !in hh && ':' !in mm;
    SplitAfterPiece(hh, mm, ':');
    SplitWithoutSeparator(mm, ':');
    assert Split(hh + ":" + mm, ':') == [hh, mm];
    ParseIntDigits(hh);
    ParseIntDigits(mm);
  }

  /** Euclidean division is determined by any quotient and remainder that fit. */
  lemma DivModUnique(t: int, d: int, q: int, r: int)
    requires 0 < d && 0 <= r < d && t == q * d + r
    ensures t / d == q && t % d == r
  {
    var q0, r0 := t / d, t % d;
    assert t == q0 * d + r0 && 0 <= r0 < d;
    if q0 < q {
      var k := q - q0;
      assert q * d == q0 * d + k * d;
      MulAtLeast(k, d);
    } else if q < q0 {
      var k := q0 - q;
      assert q0 * d == q * d + k * d;
      MulAtLeast(k, d);
    }
  }

  lemma MulAtLeast(k: int, d: int)
    requires k >= 1 && d > 0
    ensures k * d >= d
  {
    assert k * d == (k - 1) * d + d;
    assert (k - 1) * d >= 0;
  }

  /** A time of day within one day lands on that day with those hours and minutes and no seconds. */
  lemma TimeOfDay(day: int, h: int, m: int)
    requires 0 <= h < 24 && 0 <= m < 60
    ensures var t := day * MsPerDay + h * MsPerHour + m * MsPerMinute;
      && Day(t) == day && t % MsPerDay == h * MsPerHour + m * MsPerMinute
      && HoursOf(t) == h && MinutesOf(t) == m && SecondsAndMillisOf(t) == 0
  {
    var t := day * MsPerDay + h * MsPerHour + m * MsPerMinute;
    var r := h * MsPerHour + m * MsPerMinute;
    DivModUnique(t, MsPerDay, day, r);
    DivModUnique(r, MsPerHour, h, m * MsPerMinute);
    DivModUnique(t, MsPerHour, day * 24 + h, m * MsPerMinute);
    DivModUnique(m * MsPerMinute, MsPerMinute, m, 0);
    DivModUnique(t, MsPerMinute, day * 1440 + h * 60 + m, 0);
  }

  /**
   * `parseDateTime(dateStr, timeStr)`: the parsed date, then its clock set to
   * the given `HH:mm` when the time string is truthy, and to midnight when it
   * is absent or empty.
   */
  function ParseDateTime(native: NativeParser, dateStr: string, timeStr: Option<string>): (r: Instant)
    ensures ParseDate(native, dateStr).Invalid? ==> r == Invalid
  {
    var date := ParseDate(native, dateStr);
    if HasTime(timeStr) then SetHours(date, HourField(timeStr.value), MinuteField(timeStr.value))
    else SetHours(date, Some(0), Some(0))
  }

  /** With no time, or an empty one, a valid date becomes midnight at the start of its day. */
  lemma NoTimeMeansMidnight(native: NativeParser, dateStr: string, timeStr: Option<string>)
    requires !HasTime(timeStr)
    ensures var date, r := ParseDate(native, dateStr), ParseDateTime(native, dateStr, timeStr);
      && (r.At? <==> date.At?)
      && (r.At? ==> Day(r.ms) == Day(date.ms) && r.ms % MsPerDay == 0)
  {
    var date := ParseDate(native, dateStr);
    if date.At? {
      TimeOfDay(Day(date.ms), 0, 0);
    }
  }

  /**
   * With a time `h:m`, a valid date stays valid exactly when both fields
   * parse; the result then has no seconds or milliseconds, and an in-range
   * time keeps the day and reads back as hour `h` and minute `m`.
   */
  lemma TimeSetsClock(native: NativeParser, dateStr: string, time: string)
    requires time != ""
    ensures var date, r := ParseDate(native, dateStr), ParseDateTime(native, dateStr, Some(time));
      var h, m := HourField(time), MinuteField(time);
      && (date.At? ==> (r.At? <==> h.Some? && m.Some?))
      && (r.At? ==> SecondsAndMillisOf(r.ms) == 0)
      && (r.At? && 0 <= h.value < 24 && 0 <= m.value < 60 ==>
            Day(r.ms) == Day(date.ms) && HoursOf(r.ms) == h.value && MinutesOf(r.ms) == m.value)
  {
    var date := ParseDate(native, dateStr);
    var h, m := HourField(time), MinuteField(time);
    assert ParseDateTime(native, dateStr, Some(time)) == SetHours(date, h, m);
    if date.At? && h.Some? && m.Some? && 0 <= h.value < 24 && 0 <= m.value < 60 {
      SetHoursClock(date, h.value, m.value);
    }
  }

  /** An in-range hour and minute keep the day and read back unchanged. */
  lemma SetHoursClock(date: Instant, h: int, m: int)
    requires date.At? && 0 <= h < 24 && 0 <= m < 60
    ensures var r := SetHours(date, Some(h), Some(m));
      r.At? && Day(r.ms) == Day(date.ms) && HoursOf(r.ms) == h && MinutesOf(r.ms) == m
  {
    TimeOfDay(Day(date.ms), h, m);
  }

  /**
   * A digit-only `HH:mm` time with an hour below 24 and a minute below 60
   * puts a valid date on that clock reading, on the same day.
   */
  lemma DigitTimeSetsClock(native: NativeParser, dateStr: string, hh: string, mm: string)
    requires ParseDate(native, dateStr).At?
    requires hh != [] && AllDigits(hh) && mm != [] && AllDigits(mm)
    requires DecimalValue(hh) < 24 && DecimalValue(mm) < 60
    ensures var date, r := ParseDate(native, dateStr), ParseDateTime(native, dateStr, Some(hh + ":" + mm));
      r.At? && Day(r.ms) == Day(date.ms) && HoursOf(r.ms) == DecimalValue(hh) && MinutesOf(r.ms) == DecimalValue(mm)
  {
    ClockFieldsReadBack(hh, mm);
    SetHoursClock(ParseDate(native, dateStr), DecimalValue(hh), DecimalValue(mm));
  }

  /** `09:30` sets the clock to 9 hours and 30 minutes. */
  lemma NineThirty(native: NativeParser, dateStr: string, time: string)
    requires ParseDate(native, dateStr).At?
    requires time == "09" + ":" + "30"
    ensures var r := ParseDateTime(native, dateStr, Some(time));
      r.At? && HoursOf(r.ms) == 9 && MinutesOf(r.ms) == 30
  {
    assert "0"[..0] == [] && "3"[..0] == [];
    assert DecimalValue("0") == 0 && DecimalValue("3") == 3;
    assert "09"[..1] == "0" && "30"[..1] == "3";
    assert DecimalValue("09") == 9;
    assert DecimalValue("30") == 30;
    DigitTimeSetsClock(native, dateStr, "09", "30");
  }

  /**
   * A time without `:` has no minutes, so `setHours` receives NaN and the
   * result is the invalid date, whatever the date was.
   */
  lemma TimeWithoutColonIsInvalid(native: NativeParser, dateStr: string, time: string)
    requires time != "" && ':' !in time
    ensures ParseDateTime(native, dateStr, Some(time)) == Invalid
  {
  }

  // ---------------------------------------------------------------------
  // computeFormStatus
  // ---------------------------------------------------------------------

  /**
   * `computeFormStatus`: `Upcoming` exactly when now is strictly before the
   * start; otherwise `Closed` exactly when now is strictly after the end;
   * otherwise `Open`. An invalid boundary makes its comparison false.
   */
  function ComputeFormStatus(
    native: NativeParser, now: int,
    startDate: string, endDate: string, startTime: Option<string>, endTime: Option<string>): (s: FormStatus)
    ensures var start := ParseDateTime(native, startDate, startTime);
      var end := ParseDateTime(native, endDate, endTime);
      && (s == Upcoming <==> Earlier(now, start))
      && (s == Closed <==> !Earlier(now, start) && Later(now, end))
      && (s == Open <==> !Earlier(now, start) && !Later(now, end))
  {
    var start := ParseDateTime(native, startDate, startTime);
    var end := ParseDateTime(native, endDate, endTime);
    if Earlier(now, start) then Upcoming
    else if Later(now, end) then Closed
    else Open
  }

  /** For a valid, well-ordered window the status is the position of now relative to it, boundaries included in `Open`. */
  lemma StatusWithinWindow(
    native: NativeParser, now: int,
    startDate: string, endDate: string, startTime: Option<string>, endTime: Option<string>,
    start: int, end: int)
    requires ParseDateTime(native, startDate, startTime) == At(start)
    requires ParseDateTime(native, endDate, endTime) == At(end)
    requires start <= end
    ensures var s := ComputeFormStatus(native, now, startDate, endDate, startTime, endTime);
      && (s == Upcoming <==> now < start)
      && (s == Open <==> start <= now <= end)
      && (s == Closed <==> end < now)
  {
  }

  /** The comparisons are strict: now equal to a boundary of a well-ordered window is `Open`. */
  lemma BoundariesAreOpen(
    native: NativeParser, now: int,
    startDate: string, endDate: string, startTime: Option<string>, endTime: Option<string>,
    start: int, end: int)
    requires ParseDateTime(native, startDate, startTime) == At(start)
    requires ParseDateTime(native, endDate, endTime) == At(end)
    requires start <= end
    requires now == start || now == end
    ensures ComputeFormStatus(native, now, startDate, endDate, startTime, endTime) == Open
  {
  }

  /** The start test comes first: before the start is `Upcoming` even when the end precedes the start. */
  lemma UpcomingWinsOverClosed(
    native: NativeParser, now: int,
    startDate: string, endDate: string, startTime: Option<string>, endTime: Option<string>,
    start: int, end: int)
    requires ParseDateTime(native, startDate, startTime) == At(start)
    requires ParseDateTime(native, endDate, endTime) == At(end)
    requires end < now < start
    ensures ComputeFormStatus(native, now, startDate, endDate, startTime, endTime) == Upcoming
  {
  }

  /** An invalid start never gives `Upcoming`, an invalid end never gives `Closed`; with both invalid the status is `Open`. */
  lemma InvalidBoundariesFallThrough(
    native: NativeParser, now: int,
    startDate: string, endDate: string, startTime: Option<string>, endTime: Option<string>)
    ensures var s := ComputeFormStatus(native, now, startDate, endDate, startTime, endTime);
      && (ParseDateTime(native, startDate, startTime).Invalid? ==> s != Upcoming)
      && (ParseDateTime(native, endDate, endTime).Invalid? ==> s != Closed)
      && ((ParseDateTime(native, startDate, startTime).Invalid? &&
           ParseDateTime(native, endDate, endTime).Invalid?) ==> s == Open)
  {
  }

  /** The order in which a form passes through the states as time advances. */
  function Rank(s: FormStatus): nat {
    match s
    case Upcoming => 0
    case Open => 1
    case Closed => 2
  }

  /**
   * As time advances a form only moves forward, Upcoming to Open to Closed
   * (possibly skipping Open), whatever the boundaries are, valid or not.
   */
  lemma StatusMonotoneInTime(
    native: NativeParser, now1: int, now2: int,
    startDate: string, endDate: string, startTime: Option<string>, endTime: Option<string>)
    requires now1 <= now2
    ensures Rank(ComputeFormStatus(native, now1, startDate, endDate, startTime, endTime))
         <= Rank(ComputeFormStatus(native, now2, startDate, endDate, startTime, endTime))
  {
  }

  /**
   * A `DD/MM/YYYY` date and the `YYYY-MM-DD` date with the same pieces parse
   * to the same instant, with or without a time.
   */
  lemma SlashDateMatchesIsoDate(
    native: NativeParser, d: string, m: string, y: string, time: Option<string>)
    requires '/' !in d && '/' !in m && '/' !in y
    requires '-' !in d && '-' !in m && '-' !in y
    ensures ParseDateTime(native, d + "/" + m + "/" + y, time) == ParseDateTime(native, y + "-" + m + "-" + d, time)
  {
    var slashed := d + "/" + m + "/" + y;
    assert '-' !in slashed && slashed[|d|] == '/';
    ReencodeDayMonthYear(d, m, y);
    var dashed := y + "-" + m + "-" + d;
    assert dashed[|y|] == '-';
  }

  /** `15/01/2026`–`25/01/2026` and `2026-01-15`–`2026-01-25` give the same status at every instant. */
  lemma SlashAndIsoFormsAgree(native: NativeParser, now: int)
    ensures ComputeFormStatus(native, now, "15/01/2026", "25/01/2026", None, None)
         == ComputeFormStatus(native, now, "2026-01-15", "2026-01-25", None, None)
  {
    var isoStart, isoEnd := "2026-01-15", "2026-01-25";
    var slashStart, slashEnd := "15/01/2026", "25/01/2026";
    assert slashStart == "15" + "/" + "01" + "/" + "2026" && isoStart == "2026" + "-" + "01" + "-" + "15";
    assert slashEnd == "25" + "/" + "01" + "/" + "2026" && isoEnd == "2026" + "-" + "01" + "-" + "25";
    SlashDateMatchesIsoDate(native, "15", "01", "2026", None);
    SlashDateMatchesIsoDate(native, "25", "01", "2026", None);
    SameInstantsSameStatus(native, now, slashStart, slashEnd, isoStart, isoEnd, None, None);
  }

  /** The status depends on the date strings only through the instants they parse to. */
  lemma SameInstantsSameStatus(
    native: NativeParser, now: int,
    startDate1: string, endDate1: string, startDate2: string, endDate2: string,
    startTime: Option<string>, endTime: Option<string>)
    requires ParseDateTime(native, startDate1, startTime) == ParseDateTime(native, startDate2, startTime)
    requires ParseDateTime(native, endDate1, endTime) == ParseDateTime(native, endDate2, endTime)
    ensures ComputeFormStatus(native, now, startDate1, endDate1, startTime, endTime)
         == ComputeFormStatus(native, now, startDate2, endDate2, startTime, endTime)
  {
  }

  /**
   * An end date without an end time closes at midnight at the start of that
   * day: any later instant, such as 10:00 on the end day, is `Closed` once
   * the start has passed.
   */
  lemma DateOnlyEndClosesAtMidnight(
    native: NativeParser, now: int,
    startDate: string, endDate: string, startTime: Option<string>, endTime: Option<string>,
    endDay: int)
    requires ParseDate(native, endDate).At? && Day(ParseDate(native, endDate).ms) == endDay
    requires !HasTime(endTime)
    requires !Earlier(now, ParseDateTime(native, startDate, startTime))
    requires now > endDay * MsPerDay
    ensures ComputeFormStatus(native, now, startDate, endDate, startTime, endTime) == Closed
  {
    NoTimeMeansMidnight(native, endDate, endTime);
    var end := ParseDateTime(native, endDate, endTime);
    assert end.ms == Day(end.ms) * MsPerDay + end.ms % MsPerDay;
  }

  // ---------------------------------------------------------------------
  // computeFormsStatus
  // ---------------------------------------------------------------------

  /**
   * `computeFormsStatus`: the same forms in the same order, each keeping all
   * its fields except `status`, which becomes the status computed from its
   * own dates and times.
   */
  function ComputeFormsStatus(native: NativeParser, now: int, forms: seq<FormEntry>): (r: seq<FormEntry>)
    ensures |r| == |forms|
    ensures forall i :: 0 <= i < |forms| ==>
      r[i] == forms[i].(status := ComputeFormStatus(native, now,
        forms[i].startDate, forms[i].endDate, forms[i].startTime, forms[i].endTime))
  {
    if forms == [] then []
    else
      var f := forms[0];
      [f.(status := ComputeFormStatus(native, now, f.startDate, f.endDate, f.startTime, f.endTime))]
        + ComputeFormsStatus(native, now, forms[1..])
  }
}
