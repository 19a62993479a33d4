/** Calendar days and times of day, and the date gate of the booking handler:
    past days are refused, today is refused from 19:00 on, and an accepted day
    is written as YYYY-MM-DD for storage. */
module Calendar {
  import opened Text
  import opened Outcomes

  const MinYear := 1
  const MaxYear := 9999
  /** The hour from which booking for today is refused (19:00). */
  const CutoffHour := 19

  predicate IsLeapYear(y: int) {
    y % 4 == 0 && (y % 100 != 0 || y % 400 == 0)
  }

  function DaysInMonth(y: int, m: int): (n: int)
    requires 1 <= m <= 12
    ensures 28 <= n <= 31
  {
    if m == 2 then (if IsLeapYear(y) then 29 else 28)
    else if m == 4 || m == 6 || m == 9 || m == 11 then 30
    else 31
  }

  /** A calendar day (year, month, day). */
  datatype Date = Date(year: int, month: int, day: int) {
    /** Every date object the handler sees satisfies this. */
    predicate Valid() {
      && MinYear <= year <= MaxYear
      && 1 <= month <= 12
      && 1 <= day <= DaysInMonth(year, month)
    }
  }

  /** Chronological order on days: year, then month, then day. */
  predicate Before(a: Date, b: Date) {
    || a.year < b.year
    || (a.year == b.year && a.month < b.month)
    || (a.year == b.year && a.month == b.month && a.day < b.day)
  }

  /** A valid day written as the number YYYYMMDD. */
  function DayNumber(d: Date): int {
    d.year * 10000 + d.month * 100 + d.day
  }

  /** On valid days the field-by-field order is the order of their YYYYMMDD
      numbers, so it is a strict total order. */
  lemma BeforeIsDayNumberOrder(a: Date, b: Date)
    requires a.Valid() && b.Valid()
    ensures Before(a, b) <==> DayNumber(a) < DayNumber(b)
  {
  }

  /** A time of day down to the microsecond. */
  datatype TimeOfDay = TimeOfDay(hour: int, minute: int, second: int, microsecond: int) {
    predicate Valid() {
      && 0 <= hour < 24
      && 0 <= minute < 60
      && 0 <= second < 60
      && 0 <= microsecond < 1000000
    }
  }

  /** Chronological order on times of day, field by field. */
  predicate TimeBefore(a: TimeOfDay, b: TimeOfDay) {
    || a.hour < b.hour
    || (a.hour == b.hour && a.minute < b.minute)
    || (a.hour == b.hour && a.minute == b.minute && a.second < b.second)
    || (a.hour == b.hour && a.minute == b.minute && a.second == b.second && a.microsecond < b.microsecond)
  }

  /** A valid time of day as the number of microseconds since midnight. */
  function MicrosOfDay(t: TimeOfDay): int {
    ((t.hour * 60 + t.minute) * 60 + t.second) * 1000000 + t.microsecond
  }

  /** On valid times the field-by-field order is the order of the instants
      they denote. */
  lemma TimeBeforeIsInstantOrder(a: TimeOfDay, b: TimeOfDay)
    requires a.Valid() && b.Valid()
    ensures TimeBefore(a, b) <==> MicrosOfDay(a) < MicrosOfDay(b)
  {
  }

  /** Whether `now` is at or after 19:00:00.000000: closed exactly when the
      hour has reached 19, whatever the minutes, seconds and microseconds. */
  function PastClosing(now: TimeOfDay): (closed: bool)
    requires now.Valid()
    ensures closed <==> now.hour >= CutoffHour
  {
    !TimeBefore(now, TimeOfDay(CutoffHour, 0, 0, 0))
  }

  /** The storage form of a day: zero-padded YYYY-MM-DD. */
  function FormatDate(d: Date): (s: string)
    requires d.Valid()
    ensures |s| == 10 && s[4] == '-' && s[7] == '-'
  {
    Pad4(d.year) + "-" + Pad2(d.month) + "-" + Pad2(d.day)
  }

  /** Reading a stored YYYY-MM-DD string back as a day; None when the string
      is not in that exact form or names no calendar day. */
  function ParseStoredDate(s: string): (r: Option<Date>)
    ensures r.Some? ==> r.value.Valid()
  {
    if |s| == 10 && s[4] == '-' && s[7] == '-'
       && AllDigits(s[..4]) && AllDigits(s[5..7]) && AllDigits(s[8..])
    then
      var d := Date(Value(s[..4]), Value(s[5..7]), Value(s[8..]));
      if d.Valid() then Some(d) else None
    else None
  }

  /** A stored day reads back as the day that was stored. */
  lemma StoredDateRoundTrip(d: Date)
    requires d.Valid()
    ensures ParseStoredDate(FormatDate(d)) == Some(d)
  {
    var s := FormatDate(d);
    assert s[..4] == Pad4(d.year);
    assert s[5..7] == Pad2(d.month);
    assert s[8..] == Pad2(d.day);
  }

  /** Every string that reads back as a day is exactly that day's storage
      form: the format has one spelling per day. */
  lemma StoredDateCanonical(s: string, d: Date)
    requires ParseStoredDate(s) == Some(d)
    ensures FormatDate(d) == s
  {
    Pad4OfValue(s[..4]);
    Pad2OfValue(s[5..7]);
    Pad2OfValue(s[8..]);
    assert s == s[..4] + "-" + s[5..7] + "-" + s[8..];
  }

  /** The date checks of the booking handler, in the handler's order: a past
      day is refused, today is refused from 19:00 on, and otherwise the day
      is accepted in its storage form. */
  function DateGate(selected: Date, today: Date, now: TimeOfDay): (r: Result<string>)
    requires selected.Valid() && today.Valid() && now.Valid()
    ensures r == Failure(PastDate) <==> Before(selected, today)
    ensures r == Failure(TooLateToday) <==> selected == today && now.hour >= CutoffHour
    ensures r.Success? <==> !Before(selected, today) && !(selected == today && now.hour >= CutoffHour)
    ensures Before(today, selected) ==> r.Success?
    ensures r.Success? ==> ParseStoredDate(r.value) == Some(selected)
  {
    if Before(selected, today) then Failure(PastDate)
    else if selected == today && PastClosing(now) then Failure(TooLateToday)
    else
      StoredDateRoundTrip(selected);
      Success(FormatDate(selected))
  }
}
