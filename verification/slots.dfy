/** The slot allocator of the booking handler: hourly candidates from 08:00,
    lunch (12:00) skipped, the first hour that no booking of the day starts at
    is taken, and 19:00 means the day is full. Bookings are the timeslot
    strings "HH:MM to HH:MM" already stored for the requested day. */
module Slots {
  import opened Text
  import opened Outcomes

  /** First candidate start hour (08:00). */
  const StartHour := 8
  /** The skipped lunch hour (12:00). */
  const LunchHour := 12
  /** The first hour that is no longer a candidate (19:00). */
  const ClosingHour := 19
  /** What separates the start from the end in a timeslot label. */
  const Separator := " to "

  /** An hour at which an appointment may start. */
  predicate OpenHour(h: int) {
    StartHour <= h < ClosingHour && h != LunchHour
  }

  /** An hour written as strftime("%H:%M") writes a time on the hour. */
  function HourText(h: int): (s: string)
    requires 0 <= h < 24
    ensures |s| == 5 && AllDigits(s[..2]) && Value(s[..2]) == h && s[2..] == ":00"
  {
    Pad2(h) + ":00"
  }

  /** Different hours are written differently. */
  lemma HourTextInjective(a: int, b: int)
    requires 0 <= a < 24 && 0 <= b < 24
    ensures HourText(a) == HourText(b) <==> a == b
  {
    if HourText(a) == HourText(b) {
      assert HourText(a)[..2] == HourText(b)[..2];
    }
  }

  predicate SeparatorAt(s: string, i: int) {
    0 <= i && i + |Separator| <= |s| && s[i..i + |Separator|] == Separator
  }

  /** The first position at or after `from` where the separator occurs, or
      |s| when it does not occur there. */
  function FirstSeparator(s: string, from: nat): (i: nat)
    requires from <= |s|
    ensures from <= i <= |s|
    ensures i < |s| ==> SeparatorAt(s, i)
    ensures forall j :: from <= j < i ==> !SeparatorAt(s, j)
    decreases |s| - from
  {
    if from + |Separator| > |s| then |s|
    else if SeparatorAt(s, from) then from
    else FirstSeparator(s, from + 1)
  }

  /** The text before the first " to " of s, or all of s when there is none:
      what split(' to ')[0] gives. */
  function StartPart(s: string): (start: string)
    ensures start <= s
    ensures start == s || SeparatorAt(s, |start|)
  {
    s[..FirstSeparator(s, 0)]
  }

  /** StartPart is a prefix of s in which no separator starts, and it is
      either all of s or followed by the separator. */
  lemma StartPartSpec(s: string)
    ensures StartPart(s) <= s
    ensures StartPart(s) == s || SeparatorAt(s, |StartPart(s)|)
    ensures forall j :: 0 <= j < |StartPart(s)| ==> !SeparatorAt(s, j)
  {
  }

  /** The first separator is where it is found with none before it. */
  lemma FirstSeparatorAt(s: string, k: nat)
    requires SeparatorAt(s, k)
    requires forall j :: 0 <= j < k ==> !SeparatorAt(s, j)
    ensures StartPart(s) == s[..k]
  {
    var i := FirstSeparator(s, 0);
    StartPartSpec(s);
    assert !(i < k);
    assert !(k < i);
  }

  /** A start without spaces, followed by the separator, is what StartPart
      reads back, whatever comes after the separator. */
  lemma StartPartOfJoined(start: string, rest: string)
    requires forall j :: 0 <= j < |start| ==> start[j] != ' '
    ensures StartPart(start + Separator + rest) == start
  {
    var s := start + Separator + rest;
    assert s[|start|..|start| + 4] == Separator;
    forall j | 0 <= j < |start|
      ensures !SeparatorAt(s, j)
    {
      assert s[j] == start[j];
      assert s[j..j + 4][0] == s[j];
    }
    FirstSeparatorAt(s, |start|);
    assert s[..|start|] == start;
  }

  /** The label stored for the slot starting at hour h: the start, " to ",
      and the start plus one hour (on a 24-hour clock), both as HH:MM. */
  function SlotLabel(h: int): (text: string)
    requires 0 <= h < 24
    ensures |text| == 14 && SeparatorAt(text, 5)
    ensures AllDigits(text[..2]) && Value(text[..2]) == h && text[2..5] == ":00"
    ensures AllDigits(text[9..11]) && Value(text[9..11]) == (h + 1) % 24 && text[11..] == ":00"
  {
    var start, end := HourText(h), HourText((h + 1) % 24);
    var text := start + Separator + end;
    assert text[..2] == start[..2] && text[2..5] == start[2..];
    assert text[5..9] == Separator;
    assert text[9..11] == end[..2] && text[11..] == end[2..];
    text
  }

  /** Hour text holds no blank, so " to " cannot start inside it. */
  lemma HourTextHasNoBlank(h: int)
    requires 0 <= h < 24
    ensures forall j :: 0 <= j < |HourText(h)| ==> HourText(h)[j] != ' '
  {
    var start := HourText(h);
    assert start[..2][0] == start[0] && start[..2][1] == start[1];
    assert start[2..][0] == start[2] && start[2..][1] == start[3] && start[2..][2] == start[4];
  }

  /** Reading a label back as the allocator does gives its start hour's text. */
  lemma LabelStartRoundTrip(h: int)
    requires 0 <= h < 24
    ensures StartPart(SlotLabel(h)) == HourText(h)
  {
    HourTextHasNoBlank(h);
    StartPartOfJoined(HourText(h), HourText((h + 1) % 24));
  }

  /** A stored label occupies its own start hour and no other. */
  lemma LabelOccupiesOnlyItsHour(k: int, h: int)
    requires 0 <= k < 24 && 0 <= h < 24
    ensures StartPart(SlotLabel(k)) == HourText(h) <==> k == h
  {
    LabelStartRoundTrip(k);
    HourTextInjective(k, h);
  }

  /** Some booking of the day starts at hour h. */
  predicate Booked(bookings: seq<string>, h: int)
    requires 0 <= h < 24
  {
    exists i :: 0 <= i < |bookings| && StartPart(bookings[i]) == HourText(h)
  }

  /** The timeslots the handler stores for the given start hours, in order. */
  function Labels(hours: seq<int>): (labels: seq<string>)
    requires forall i :: 0 <= i < |hours| ==> 0 <= hours[i] < 24
    ensures |labels| == |hours|
    ensures forall i :: 0 <= i < |hours| ==> labels[i] == SlotLabel(hours[i])
  {
    if hours == [] then [] else Labels(hours[..|hours| - 1]) + [SlotLabel(hours[|hours| - 1])]
  }

  /** When every timeslot of the day was written by the handler, an hour is
      booked exactly when it is one of the stored start hours. */
  lemma BookedByLabels(hours: seq<int>, h: int)
    requires forall i :: 0 <= i < |hours| ==> 0 <= hours[i] < 24
    requires 0 <= h < 24
    ensures Booked(Labels(hours), h) <==> h in hours
  {
    var labels := Labels(hours);
    if Booked(labels, h) {
      var i :| 0 <= i < |labels| && StartPart(labels[i]) == HourText(h);
      LabelOccupiesOnlyItsHour(hours[i], h);
    }
    if h in hours {
      var i :| 0 <= i < |hours| && hours[i] == h;
      LabelStartRoundTrip(h);
      assert StartPart(labels[i]) == HourText(h);
    }
  }

  /** h is the earliest open hour of the day that no booking starts at. */
  ghost predicate IsEarliestFree(bookings: seq<string>, h: int) {
    && OpenHour(h)
    && !Booked(bookings, h)
    && forall k :: OpenHour(k) && k < h ==> Booked(bookings, k)
  }

  /** Every open hour of the day is taken. */
  ghost predicate AllOpenHoursBooked(bookings: seq<string>) {
    forall k :: OpenHour(k) ==> Booked(bookings, k)
  }

  /** The allocation, as a function: scan upward from hour h. */
  function FirstFreeFrom(bookings: seq<string>, h: int): (r: Result<int>)
    requires StartHour <= h <= ClosingHour
    ensures r.Failure? ==> r.error == FullyBooked
    decreases ClosingHour - h
  {
    if h >= ClosingHour then Failure(FullyBooked)
    else if h == LunchHour then FirstFreeFrom(bookings, h + 1)
    else if !Booked(bookings, h) then Success(h)
    else FirstFreeFrom(bookings, h + 1)
  }

  /** The allocation for a day: the scan from 08:00. */
  function FirstFree(bookings: seq<string>): (r: Result<int>)
    ensures r.Success? ==> OpenHour(r.value) && !Booked(bookings, r.value)
    ensures r.Failure? ==> r.error == FullyBooked
  {
    FirstFreeFromFound(bookings, StartHour);
    FirstFreeFromFull(bookings, StartHour);
    FirstFreeFrom(bookings, StartHour)
  }

  /** A scan from h that finds an hour finds the first open, unbooked hour
      at or after h. */
  lemma {:induction false} FirstFreeFromFound(bookings: seq<string>, h: int)
    requires StartHour <= h <= ClosingHour
    ensures var r := FirstFreeFrom(bookings, h);
      r.Success? ==>
        && h <= r.value && OpenHour(r.value) && !Booked(bookings, r.value)
        && forall k :: OpenHour(k) && h <= k < r.value ==> Booked(bookings, k)
    decreases ClosingHour - h
  {
    if h < ClosingHour {
      FirstFreeFromFound(bookings, h + 1);
    }
  }

  /** A scan from h that fails reports FullyBooked, and every open hour at or
      after h is booked. */
  lemma {:induction false} FirstFreeFromFull(bookings: seq<string>, h: int)
    requires StartHour <= h <= ClosingHour
    ensures var r := FirstFreeFrom(bookings, h);
      r.Failure? ==> r.error == FullyBooked && forall k :: OpenHour(k) && h <= k ==> Booked(bookings, k)
    decreases ClosingHour - h
  {
    if h < ClosingHour {
      FirstFreeFromFull(bookings, h + 1);
    }
  }

  /** The allocation is the earliest free open hour, and it fails, with
      FullyBooked, exactly when every open hour is taken. */
  lemma FirstFreeSpec(bookings: seq<string>)
    ensures FirstFree(bookings).Success? ==> IsEarliestFree(bookings, FirstFree(bookings).value)
    ensures FirstFree(bookings).Failure? <==> AllOpenHoursBooked(bookings)
    ensures FirstFree(bookings).Failure? ==> FirstFree(bookings).error == FullyBooked
  {
    FirstFreeFromFound(bookings, StartHour);
    FirstFreeFromFull(bookings, StartHour);
  }

  /** The allocator as the handler runs it: an upward scan of candidate hours
      with an inner scan of the day's bookings. */
  method NextSlot(bookings: seq<string>) returns (r: Result<int>)
    ensures r == FirstFree(bookings)
    ensures r.Success? ==> IsEarliestFree(bookings, r.value)
    ensures r.Success? ==> forall i :: 0 <= i < |bookings| ==> StartPart(bookings[i]) != HourText(r.value)
    ensures r.Failure? <==> AllOpenHoursBooked(bookings)
    ensures r.Failure? ==> r.error == FullyBooked
  {
    var next := StartHour;
    while true
      invariant StartHour <= next <= ClosingHour
      invariant FirstFreeFrom(bookings, next) == FirstFree(bookings)
      decreases ClosingHour - next
    {
      if next >= ClosingHour {
        r := Failure(FullyBooked);
        FirstFreeSpec(bookings);
        return;
      }
      if next == LunchHour {
        next := next + 1;
        continue;
      }
      var available := true;
      for i := 0 to |bookings|
        invariant available
        invariant forall j :: 0 <= j < i ==> StartPart(bookings[j]) != HourText(next)
      {
        if HourText(next) == StartPart(bookings[i]) {
          available := false;
          break;
        }
      }
      if available {
        break;
      }
      next := next + 1;
    }
    r := Success(next);
    FirstFreeSpec(bookings);
  }

  /** Conversely, the earliest free open hour is what the allocation gives:
      the allocation is determined by the bookings' start hours alone. */
  lemma EarliestFreeIsAllocated(bookings: seq<string>, h: int)
    requires IsEarliestFree(bookings, h)
    ensures FirstFree(bookings) == Success(h)
  {
    FirstFreeSpec(bookings);
    var r := FirstFree(bookings);
    if r.Success? {
      assert !(r.value < h);
      assert !(h < r.value);
    }
  }

  /** Adding a booking keeps every hour that was booked booked. */
  lemma BookedAfterAppend(bookings: seq<string>, added: string, k: int)
    requires 0 <= k < 24 && Booked(bookings, k)
    ensures Booked(bookings + [added], k)
  {
    var i :| 0 <= i < |bookings| && StartPart(bookings[i]) == HourText(k);
    assert (bookings + [added])[i] == bookings[i];
  }

  /** More bookings never move the allocation earlier: if every hour booked
      before is still booked, and the hour allocated before is now booked too,
      the next allocation is later or the day is full. */
  lemma AllocationMovesLater(before: seq<string>, after: seq<string>, h: int)
    requires IsEarliestFree(before, h)
    requires forall k :: OpenHour(k) && Booked(before, k) ==> Booked(after, k)
    requires Booked(after, h)
    ensures var r := FirstFree(after); r.Failure? || r.value > h
  {
    FirstFreeSpec(after);
  }

  /** Booking the allocated slot and allocating again for the same day never
      gives the same or an earlier hour: one request after another, no slot
      is handed out twice. */
  lemma NextAllocationIsLater(bookings: seq<string>, h: int)
    requires FirstFree(bookings) == Success(h)
    ensures OpenHour(h) && Booked(bookings + [SlotLabel(h)], h)
    ensures var r := FirstFree(bookings + [SlotLabel(h)]); r.Failure? || r.value > h
  {
    var after := bookings + [SlotLabel(h)];
    FirstFreeSpec(bookings);
    assert Booked(after, h) by {
      LabelStartRoundTrip(h);
      assert after[|bookings|] == SlotLabel(h);
    }
    forall k | OpenHour(k) && Booked(bookings, k)
      ensures Booked(after, k)
    {
      BookedAfterAppend(bookings, SlotLabel(h), k);
    }
    AllocationMovesLater(bookings, after, h);
  }

  /** When the labels of all ten open hours (08, 09, 10, 11, 13, 14, 15, 16,
      17 and 18) are stored for the day, the allocation is FullyBooked. */
  lemma AllTenLabelsStoredIsFullyBooked(bookings: seq<string>)
    requires forall k :: OpenHour(k) ==> SlotLabel(k) in bookings
    ensures FirstFree(bookings) == Failure(FullyBooked)
  {
    forall k | OpenHour(k)
      ensures Booked(bookings, k)
    {
      var i :| 0 <= i < |bookings| && bookings[i] == SlotLabel(k);
      LabelStartRoundTrip(k);
    }
    FirstFreeSpec(bookings);
  }
}
