/** Concrete instances of the slot labels and of one allocation. */
module SlotExamples {
  import opened Outcomes
  import opened Text
  import opened Slots

  /** The hour text of 08 to 10, spelled out. */
  lemma MorningHourTexts()
    ensures HourText(8) == "08:00" && HourText(9) == "09:00" && HourText(10) == "10:00"
  {
    assert HourText(8) == "08:00" by { assert Digit(0) == '0' && Digit(8) == '8'; }
    assert HourText(9) == "09:00" by { assert Digit(0) == '0' && Digit(9) == '9'; }
    assert HourText(10) == "10:00" by { assert Digit(0) == '0' && Digit(1) == '1'; }
  }

  /** The hour text of 11 and 12, spelled out. */
  lemma NoonHourTexts()
    ensures HourText(11) == "11:00" && HourText(12) == "12:00"
  {
    assert Digit(1) == '1' && Digit(2) == '2';
  }

  /** The labels of the first two morning slots, spelled out. */
  lemma MorningLabels()
    ensures SlotLabel(8) == "08:00 to 09:00"
    ensures SlotLabel(9) == "09:00 to 10:00"
  {
    MorningHourTexts();
  }

  /** The stored timeslots "08:00 to 09:00", "09:00 to 10:00" and
      "10:00 to 11:00" start at 08:00, 09:00 and 10:00. */
  lemma MorningStartParts(bookings: seq<string>)
    requires bookings == ["08:00 to 09:00", "09:00 to 10:00", "10:00 to 11:00"]
    ensures forall i :: 0 <= i < 3 ==> StartPart(bookings[i]) == HourText(i + 8)
  {
    MorningHourTexts();
    forall i | 0 <= i < 3
      ensures StartPart(bookings[i]) == HourText(i + 8)
    {
      assert bookings[i] == HourText(i + 8) + Separator + HourText(i + 9);
      HourTextHasNoBlank(i + 8);
      StartPartOfJoined(HourText(i + 8), HourText(i + 9));
    }
  }

  /** Three stored timeslots starting at 08:00, 09:00 and 10:00 leave 11:00
      as the earliest free hour; 12:00 is not reached, so lunch plays no part. */
  lemma MorningRunGivesEleven(bookings: seq<string>)
    requires |bookings| == 3
    requires forall i :: 0 <= i < 3 ==> StartPart(bookings[i]) == HourText(i + 8)
    ensures FirstFree(bookings) == Success(11)
  {
    forall k | OpenHour(k) && k < 11
      ensures Booked(bookings, k)
    {
      assert StartPart(bookings[k - 8]) == HourText(k);
    }
    forall i | 0 <= i < 3
      ensures StartPart(bookings[i]) != HourText(11)
    {
      HourTextInjective(i + 8, 11);
    }
    EarliestFreeIsAllocated(bookings, 11);
  }

  /** Bookings at 08:00, 09:00 and 10:00 give "11:00 to 12:00". */
  lemma ThreeMorningBookingsExample(bookings: seq<string>)
    requires bookings == ["08:00 to 09:00", "09:00 to 10:00", "10:00 to 11:00"]
    ensures FirstFree(bookings) == Success(11)
    ensures SlotLabel(FirstFree(bookings).value) == "11:00 to 12:00"
  {
    MorningStartParts(bookings);
    MorningRunGivesEleven(bookings);
    NoonHourTexts();
  }
}
