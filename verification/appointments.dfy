/** The booking rule of the appointment handler: the date gate runs first,
    then the day's bookings are scanned for the earliest free slot, and the
    row to insert carries the stored day and the slot's label. */
module Appointments {
  import opened Outcomes
  import opened Calendar
  import opened Slots

  /** The two computed columns of the appointment row the handler inserts. */
  datatype Booking = Booking(date: string, timeslot: string)

  /** A booking request for day `selected`, made on day `today` at time `now`,
      where `bookingsOfDay` are the timeslot strings already stored for that day. */
  method Book(selected: Date, today: Date, now: TimeOfDay, bookingsOfDay: seq<string>)
    returns (r: Result<Booking>)
    requires selected.Valid() && today.Valid() && now.Valid()
    ensures Before(selected, today) ==> r == Failure(PastDate)
    ensures selected == today && now.hour >= CutoffHour ==> r == Failure(TooLateToday)
    ensures DateGate(selected, today, now).Success? && AllOpenHoursBooked(bookingsOfDay) ==> r == Failure(FullyBooked)
    ensures r.Success? <==> DateGate(selected, today, now).Success? && !AllOpenHoursBooked(bookingsOfDay)
    ensures r.Success? ==> ParseStoredDate(r.value.date) == Some(selected)
    ensures r.Success? ==> exists h :: IsEarliestFree(bookingsOfDay, h) && r.value.timeslot == SlotLabel(h)
    ensures r.Success? ==>
      forall i :: 0 <= i < |bookingsOfDay| ==> StartPart(bookingsOfDay[i]) != StartPart(r.value.timeslot)
  {
    var gate := DateGate(selected, today, now);
    if gate.Failure? {
      return Failure(gate.error);
    }
    var slot := NextSlot(bookingsOfDay);
    if slot.Failure? {
      return Failure(slot.error);
    }
    LabelStartRoundTrip(slot.value);
    r := Success(Booking(gate.value, SlotLabel(slot.value)));
  }
}
