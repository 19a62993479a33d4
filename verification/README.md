# Appointment booking rule — a Dafny model

This project models the booking rule of a small appointment-booking web
application (a Flask app in `app.py`) and proves properties of it. A logged-in
user asks for an appointment on a calendar day. The handler then does three things:

- **Date gate.** It refuses a day before today (`PastDate`). It refuses today
  once the time of day is 19:00 or later (`TooLateToday`). Otherwise it writes
  the day as zero-padded `YYYY-MM-DD` for storage.
- **Slot allocator.** It scans candidate start hours upward from 08:00
  (`START_TIME`). It skips 12:00, the lunch hour. It takes the first hour whose
  `"HH:MM"` text is not the start part (the text before `" to "`) of any
  timeslot already stored for that day. When the candidate reaches 19:00 it
  reports the day fully booked (`FullyBooked`).
- **Label.** The allocated slot is stored as `"HH:MM to HH:MM"`, where the end is
  one hour after the start.

The model also covers the logout handler, which removes the three login keys
from the session.

Modules, one per concern of the handler:

- `Outcomes` (`outcomes.dfy`): the three booking error kinds and the
  `Option`/`Result` wrappers.
- `Text` (`text.dfy`): zero-padded decimal text, as strftime writes it, and the
  number a digit string denotes.
- `Calendar` (`calendar.dfy`): days, times of day, their chronological order,
  the storage form of a day and its reading back, and the date gate (`DateGate`).
- `Slots` (`slots.dfy`): hour text, slot labels, `split(' to ')[0]` (`StartPart`),
  and the allocation. `SlotExamples` (`slot_examples.dfy`) holds concrete labels
  and one concrete allocation. The allocation appears twice. `FirstFree` is a
  specification function. `NextSlot` is a method that keeps the handler's
  `while True` loop and its inner `for` loop with `break`.
- `Appointments` (`appointments.dfy`): the whole booking rule (`Book`). It runs
  the gate first, then the allocator, then builds the label. It returns the
  computed columns of the row to insert.
- `Sessions` (`sessions.dfy`): the session as a class holding a map, and
  `Logout`, which updates that map in place.

The model treats these as parameters: the current day and time, and the
timeslot strings already stored for the requested day. These come from the
clock and from the database in the application.

## Model

| member | source | states |
|---|---|---|
| `Calendar.Before` | app.py:158 | Compares days year, then month, then day, as Python's date comparison does. `BeforeIsDayNumberOrder` states its meaning. |
| `Calendar.BeforeIsDayNumberOrder` | app.py:158 | On valid days, one day is before another iff its `YYYYMMDD` number is smaller. So the order is a strict total order. |
| `Calendar.TimeBefore` | app.py:163 | Compares times of day hour, minute, second, then microsecond, as Python's time comparison does. `TimeBeforeIsInstantOrder` states its meaning. |
| `Calendar.TimeBeforeIsInstantOrder` | app.py:163 | On valid times, one time is before another iff it is fewer microseconds after midnight. |
| `Calendar.PastClosing` | app.py:162-163 | Comparing the time of day with 19:00:00.000000 field by field says "closed" exactly when the hour is 19 or later. |
| `Calendar.DateGate` | app.py:158-166 | Refused with PastDate iff the day is before today. Refused with TooLateToday iff the day is today and the hour is 19 or later. Accepted in every other case, so a future day is never refused. An accepted day's storage string reads back as that day. |
| `Calendar.FormatDate` | app.py:166 | The storage form of a day is ten characters with `-` at positions 4 and 7. `StoredDateRoundTrip` and `StoredDateCanonical` state that it reads back as that day and is its only spelling. |
| `Calendar.StoredDateRoundTrip` | app.py:166 | The `YYYY-MM-DD` string written for a valid day reads back as the same day. |
| `Calendar.StoredDateCanonical` | app.py:166 | Any string that reads back as a day is exactly that day's `YYYY-MM-DD` form, so each day has one spelling. |
| `Slots.HourText` | app.py:176 | A candidate written as `%H:%M` is five characters. The first two are digits denoting the hour, zero-padded. The rest is `:00`. |
| `Slots.HourTextInjective` | app.py:182 | Two hours have the same `HH:MM` text iff they are the same hour. |
| `Slots.FirstSeparator` | app.py:182 | Gives the first position at or after the start where `" to "` occurs, or the string's length when it does not occur. |
| `Slots.StartPart` | app.py:182 | `split(' to ')[0]` gives a prefix of the string. It is the whole string, or `" to "` follows it. `StartPartSpec` adds that `" to "` starts nowhere inside it. |
| `Slots.StartPartSpec` | app.py:182 | `StartPart` gives a prefix of the string with no `" to "` starting inside it. It is either the whole string or is followed by `" to "`, which is what `split(' to ')[0]` returns. |
| `Slots.StartPartOfJoined` | app.py:182 | For a text with no blank, joining it to any rest with `" to "` and taking `split(' to ')[0]` gives the text back. |
| `Slots.SlotLabel` | app.py:191 | A label is fourteen characters with `" to "` at position 5. The first two characters are digits denoting the start hour, and characters 9-10 are digits denoting the hour after it (mod 24). Both hours are followed by `:00`. `LabelStartRoundTrip` reads the start back. |
| `Slots.LabelStartRoundTrip` | app.py:191 | Taking the text before `" to "` of a stored label gives back the `HH:MM` text of its start hour, the string the allocator compares at app.py:182. |
| `Slots.LabelOccupiesOnlyItsHour` | app.py:180-184 | A stored label blocks a candidate hour iff that hour is the label's own start hour. |
| `Slots.Booked` | app.py:180-184 | Some stored timeslot of the day has the hour's `HH:MM` text as its start part. `LabelOccupiesOnlyItsHour` and `BookedByLabels` state what it means for labels the handler wrote. |
| `Slots.BookedByLabels` | app.py:180-184 | When every stored timeslot of the day is a label the handler wrote, an hour is booked iff it is one of the stored start hours. |
| `Slots.FirstFreeFrom` | app.py:171-189 | The scan from a given hour fails only with FullyBooked. `FirstFreeFromFound` and `FirstFreeFromFull` state what it finds. |
| `Slots.FirstFree` | app.py:171-189 | The allocation for the day gives an open hour that no stored timeslot starts at, or fails with FullyBooked. `FirstFreeSpec` and `EarliestFreeIsAllocated` add that the hour is the earliest such hour. |
| `Slots.FirstFreeFromFound` | app.py:171-189 | A scan from hour h that finds a slot finds an open (non-lunch, before 19:00), unbooked hour at or after h. Every open hour between h and that hour is booked. |
| `Slots.FirstFreeFromFull` | app.py:172-174 | A scan from hour h that fails reports FullyBooked, and every open hour from h on is booked. |
| `Slots.FirstFreeSpec` | app.py:171-189 | The allocation is the earliest open, unbooked hour. It fails, and always with FullyBooked, exactly when every open hour is booked. |
| `Slots.EarliestFreeIsAllocated` | app.py:171-189 | Conversely, whenever h is the earliest open, unbooked hour, the allocation is h. |
| `Slots.NextSlot` | app.py:171-189 | The loop gives what the allocation gives. A returned hour is open (08..18, not 12) and unbooked. It matches the start part of no stored timeslot, and every earlier open hour is booked. The loop fails with FullyBooked exactly when every open hour is booked. |
| `Slots.AllTenLabelsStoredIsFullyBooked` | app.py:172-174 | When the labels of all ten open hours are stored for the day, the allocation is FullyBooked. |
| `Slots.AllocationMovesLater` | app.py:171-189 | Suppose h is the earliest free open hour of some bookings, and new bookings keep every booked hour booked and also book h. Then the next allocation is later than that hour, or the day is full. |
| `Slots.NextAllocationIsLater` | app.py:171-193 | After the allocated label is inserted (app.py:193), that hour is booked. The next request for the same day gets a later hour or FullyBooked, so requests made one after another never share a slot. |
| `SlotExamples.MorningLabels` | app.py:191 | The labels of 08 and 09 are `"08:00 to 09:00"` and `"09:00 to 10:00"`. |
| `SlotExamples.MorningStartParts` | app.py:182 | The start parts of `"08:00 to 09:00"`, `"09:00 to 10:00"` and `"10:00 to 11:00"` are the hour texts of 08, 09 and 10. |
| `SlotExamples.MorningRunGivesEleven` | app.py:171-189 | Any three stored timeslots that start at 08:00, 09:00 and 10:00 give the allocation 11. The scan does not reach 12:00, so lunch plays no part. |
| `SlotExamples.ThreeMorningBookingsExample` | app.py:171-191 | With bookings at 08:00, 09:00 and 10:00, the allocation is 11 and its label is `"11:00 to 12:00"`. |
| `Appointments.Book` | app.py:156-193 | Applies the date gate before any booking is looked at. A past day gives PastDate and today from 19:00 on gives TooLateToday, whatever is booked. A day that passes the gate with every open hour booked gives FullyBooked, and nothing is inserted. Otherwise it succeeds. The stored day reads back as the requested day. The timeslot is the label of the earliest free open hour, and its start part differs from the start part of every stored timeslot of that day. |
| `Sessions.Session.Logout` | app.py:136-141 | Removes exactly `logged_in`, `username` and `user_id`, each only if present. Every other entry keeps its value. Protected handlers then see no `user_id`. A session without those keys is left unchanged, so logging out twice does the same as once. |

## Left out

- Parsing the submitted `MM/DD/YYYY` text with `strptime` (app.py:156) and the `InvalidDateFormat` error (app.py:197-198). The requested day is an input that is already a valid calendar day. The leniency rules of `strptime` belong to the library.
- The login-required redirect of the booking handler (app.py:145-146). `Book` takes no session. The check appears only as `Session.HasUser`, which the logout contract uses.
- The database. The read of the day's bookings (app.py:167-169) becomes the `bookingsOfDay` parameter. The insert (app.py:193-195) becomes the `Booking` value that `Book` returns. The name, email, phone, message and user id columns pass through unchanged and are not modelled.
- A stored timeslot that is NULL. The handler would raise on `.split` and answer with status 500. Every timeslot is taken to be a string.
- The catch-all error page with status 500 (app.py:199-200), rendering, redirects and HTTP status codes.
- The clock. `date.today()` is called twice (app.py:158 and app.py:161) and `datetime.now()` once (app.py:162). The model reads each of them once, as the `today` and `now` parameters, so a request that runs across midnight is not modelled.
- The read-then-insert race between app.py:168 and app.py:193. It needs concurrent requests. `NextAllocationIsLater` covers only requests made one after another.
- `Calendar.FormatDate`: writes the year as four zero-padded digits, as Python documents for `%Y`. Some C libraries write years below 1000 without padding. Such days are before any present-day "today", so the gate refuses them first.
- The allocator's candidate is a `datetime` on 1900-01-01. The model keeps only its hour: the scan stays within 08:00..19:00 and never crosses midnight.
- Registration, login, password hashing, the hard-coded admin redirect, the dashboards, the appointment lists and deletion (app.py:65-134, app.py:205-258). These are thin wrappers over the database or calls into a hashing library. The session entries that login writes (app.py:78-80) are not modelled. The session is given to `Session` as its initial map.
- The startup database connection check (app.py:29-41). It is I/O.
- Order of checks: the code tests for 19:00 (app.py:173) before it tests for lunch (app.py:176), and the model follows the code. Since 12 is below 19, the order changes no outcome.
