# Appointment scheduling engine — a Dafny model

This project models the scheduling core of a doctor-appointment booking
backend. The core has two controllers:

- **Appointment controller.** It creates, updates and cancels appointments.
  A create or update is rejected when the doctor already has an appointment
  on the same calendar day in the same minute.
- **Doctor controller.** It registers doctors. It also answers the
  availability of one doctor on one day: the doctor's working hours are cut
  into 30-minute slots, and the slots whose `HH:MM` text matches a booked
  time are filtered out.

Modules (one per concern; the modules import one another and form one program):

| file | module | contents |
|---|---|---|
| `wrappers.dfy` | `Wrappers` | `Option`, for absent request fields and failed parses |
| `clock.dfy` | `Clock` | instants as (UTC day, millisecond of day); `HH:MM` formatting and parsing; the ISO clock text and its five-character prefix |
| `slots.dfy` | `Slots` | 30-minute slot generation (reference function and the loop); the free-slot filter |
| `appointments.dfy` | `Appointments` | the appointment record, request, store and outcomes; the conflict check; `Create`, `Update`, `Delete`; the store invariant |
| `doctors.dfy` | `Doctors` | doctor records, doctor creation, and `DoctorTimings` (availability) |
| `history.dfy` | `History` | runs of operations: the invariant survives any sequence, and one booking per slot |

Modelling choices:

- An instant is a UTC calendar-day number plus milliseconds since midnight.
  The booked-time key is the first five characters of the ISO clock text
  `HH:MM:SS.sssZ`. `Clock.TimeKey` proves that this key is the `HH:MM` of the
  truncated minute. So two instants conflict exactly when they fall in the
  same minute of the same day.
- The appointment collection is a `map<Id, Appointment>` together with the
  next fresh id. The fresh id stands for the database's ObjectId generator.
- Each handler is one atomic step that returns an `Outcome` and the new store.
  The outcomes are `Created`, `Updated`, `Cancelled`, `BadRequest`,
  `NotFound` and `Conflict(requestedTime, bookedTimes)`.
- Required-field tests follow JavaScript truthiness. On create, a text field
  must be present and non-empty, and `duration` must be present and non-zero.
  On update, an optional field is overwritten whenever it is provided
  (`!== undefined`), even when it is `0` or `""`.
- Working hours are stored as two `HH:MM` texts. If either text does not read
  as a time, the source builds an invalid `Date`. Its loop guard is then false
  at once, so the slot list is empty. The model's `DaySlots` returns `[]` in
  that case.

Behaviour of the code that the model keeps as it is:

- `start >= end` gives an empty slot list, because the loop guard is false at once (controllers/doctorController.js:65).
- The conflict check runs on every update, whether or not the date or the doctor changes (controllers/appointmentController.js:113-137).
- The create handler does not check that the doctor exists; it only casts the id (controllers/appointmentController.js:13).
- The conflict query and the insert are two separate database calls (controllers/appointmentController.js:18 and 51). The model runs each handler as one atomic step (see Left out).

## Model

| member | source | states |
|---|---|---|
| `Clock.TimeKey` | controllers/appointmentController.js:29-33 | The first five characters of an instant's ISO clock text are the `HH:MM` of its truncated minute |
| `Clock.TimeKeySameMinute` | controllers/appointmentController.js:29-35 | Two instants have equal booked-time keys if and only if they fall in the same minute, whatever their seconds and milliseconds |
| `Clock.Hhmm` | controllers/doctorController.js:66 | The slot text is five characters `HH:MM`: two digits giving the hour of the minute, a colon, and two digits giving the minute within the hour |
| `Clock.ParseHhmm` | controllers/doctorController.js:59-60 | A working-hours text that reads as a time is five characters with a colon in the middle and digits around it; its first two digits give the hour and its last two the minute within the hour of the result |
| `Clock.IsoClock` | controllers/appointmentController.js:30 | The time part of the ISO text is 13 characters `HH:MM:SS.sssZ`, and its hour, minute and second fields are the hour, minute within the hour and second within the minute of the instant |
| `Clock.ParseHhmmOfHhmm` | controllers/doctorController.js:59-66 | Reading back the `HH:MM` text of a minute gives that minute |
| `Clock.HhmmOfParseHhmm` | controllers/doctorController.js:59-60 | Every working-hours text that reads as a time is the canonical `HH:MM` of the minute it reads as |
| `Clock.HhmmInjective` | controllers/doctorController.js:89-91 | Two minutes have the same `HH:MM` text if and only if they are equal, so comparing slot texts compares minutes |
| `Slots.GenerateSlots` | controllers/doctorController.js:62-68 | The push-and-advance loop returns exactly the reference slot sequence: `HH:MM` of `start`, then the slots from `start + 30`, while before `end` |
| `Slots.SlotTextsCount` | controllers/doctorController.js:63-68 | There are ceil((end - start) / 30) slots when `start < end`, so a 15-minute window still has one slot; there are none when `start >= end` |
| `Slots.SlotTextAt` | controllers/doctorController.js:63-68 | Slot i is the `HH:MM` of `start + 30 * i`, and that minute is before `end`, so `end` is never offered and slots ascend in 30-minute steps from `start` |
| `Slots.SlotTextsAll` | controllers/doctorController.js:63-68 | For every index i at once: slot i is the `HH:MM` of `start + 30 * i`, and that minute is before `end` |
| `Slots.SlotTextsMember` | controllers/doctorController.js:63-68 | Every slot text is the `HH:MM` of some `start + 30 * i` that is before `end` |
| `Slots.FreeSlots` | controllers/doctorController.js:89-91 | A text is a free slot if and only if it is a slot and not booked; there are never more free slots than slots |
| `Slots.FreeSlotsExact` | controllers/doctorController.js:89-93 | The free slots keep each unbooked slot with its multiplicity and drop every booked one, in order (a subsequence of the slots); they are all the slots when none is booked |
| `Appointments.BookedTimes` | controllers/appointmentController.js:18-31 | Every booked time is the `HH:MM` of some minute. A minute's `HH:MM` is booked if and only if some appointment of that doctor on that calendar day, other than the excluded id, lies in that minute |
| `Appointments.BookedKeysByMinute` | controllers/appointmentController.js:29-31 | Reads the set of time keys minute by minute: each key is the text of a minute, and a minute's text is a key exactly when a considered appointment lies in that minute |
| `Appointments.CheckSlot` | controllers/appointmentController.js:18-40 | The text-key check reports a clash if and only if a considered appointment of the same doctor lies in the same minute of the same day; a clash carries the requested `HH:MM`, which is among the booked times it carries |
| `Appointments.TakenIffBooked` | controllers/appointmentController.js:29-35 | The requested key is among the booked keys if and only if the slot is taken at minute granularity |
| `Appointments.Create` | controllers/appointmentController.js:5-56 | A missing or falsy required field gives BadRequest; a taken slot gives Conflict with the requested time and the booked times; both leave the store unchanged. Otherwise the record with exactly the given fields is inserted under a fresh id, and nothing else changes |
| `Appointments.Merge` | controllers/appointmentController.js:140-148 | The updated record always takes the requested doctorId and date; duration, appointmentType, patientName and notes take the requested value when provided and keep the stored one when absent |
| `Appointments.MergeIdempotent` | controllers/appointmentController.js:140-154 | Applying the same update twice gives the same record as applying it once; an update with the record's own doctor and date and no optional field leaves it unchanged |
| `Appointments.Update` | controllers/appointmentController.js:92-159 | A missing date or doctorId gives BadRequest; an unknown id gives NotFound; a clash with another appointment gives Conflict; all three leave the store unchanged. Otherwise date and doctorId are set, each optional field is overwritten exactly when provided, and only that record changes |
| `Appointments.Delete` | controllers/appointmentController.js:167-173 | Cancelled if and only if the id exists; the store loses exactly that id, and every other record is kept |
| `Appointments.CreateKeepsValid` | controllers/appointmentController.js:42-51 | On a valid store, a successful create adds exactly one new id with the size growing by one, keeps every old record, and no (doctor, day, minute) is double-booked afterwards |
| `Appointments.UpdateKeepsValid` | controllers/appointmentController.js:140-154 | Any update keeps the store valid and its id set unchanged, and leaves every other appointment untouched |
| `Appointments.DeleteKeepsValid` | controllers/appointmentController.js:169-171 | Deleting keeps the store valid |
| `Appointments.DeleteTwice` | controllers/appointmentController.js:169-171 | Cancelling an existing id succeeds; cancelling it again gives NotFound and changes nothing |
| `Appointments.UpdateInPlaceNeverConflicts` | controllers/appointmentController.js:113-137 | In a valid store, updating an appointment with its own doctor and date always succeeds, because the conflict query leaves out its own id |
| `Appointments.SecondBookingConflicts` | controllers/appointmentController.js:18-40 | After a successful create, a valid request for the same doctor, day and minute is rejected with Conflict and the store is unchanged |
| `Appointments.OtherDoctorsAndDaysIrrelevant` | controllers/appointmentController.js:18-27 | Appointments of other doctors, or of other days, never change the conflict check's answer |
| `Doctors.CreateDoctor` | controllers/doctorController.js:5-22 | BadRequest if and only if the name is missing or empty, or the working hours are missing, and the directory is unchanged; otherwise the doctor with the given fields is stored under the next id (fresh on a valid directory, by `Doctors.CreateDoctorKeepsValid`) |
| `Doctors.CreateDoctorKeepsValid` | controllers/doctorController.js:15-21 | In a directory whose ids are all below the next id, a created doctor gets an id not in use; the directory grows by exactly one, keeps every other doctor, and keeps that property |
| `Doctors.DaySlots` | controllers/doctorController.js:56-68 | If either working-hours bound does not read as a time, there are no slots (an invalid date makes the loop guard false). Otherwise there are ceil((end - start) / 30) slots, slot i is the `HH:MM` of `start + 30 * i` and lies before `end`, and the first slot is the start text itself |
| `Doctors.FreeIffUnbookedMinute` | controllers/doctorController.js:84-91 | A slot minute is free if and only if it is a slot and no appointment of the doctor lies in it that day; with no appointment that day nothing is booked |
| `Doctors.DoctorTimings` | controllers/doctorController.js:40-93 | A missing date gives DateRequired before any lookup; an unknown doctor gives DoctorNotFound. Otherwise the total slots come from the working hours, and the free slots are an ordered subsequence of them. A slot minute is free if and only if it is a slot and holds no appointment of this doctor on this day. With no such appointment, the free slots equal the total slots |
| `Doctors.MorningSlots` | controllers/doctorController.js:56-68 | Working hours 09:00-11:00 give the slots 09:00, 09:30, 10:00 and 10:30 |
| `Doctors.MorningFreeSlots` | controllers/doctorController.js:89-91 | With 10:00 booked, those slots leave 09:00, 09:30 and 10:30 free |
| `History.FailureChangesNothing` | controllers/appointmentController.js:9-40 | Every BadRequest, NotFound or Conflict outcome leaves the store exactly as it was |
| `History.RunKeepsValid` | controllers/appointmentController.js:18-51 | Starting from a valid store, any sequence of creates, updates and deletes leaves at most one appointment per (doctor, day, minute) |
| `History.OneBookingPerSlot` | controllers/appointmentController.js:18-51 | Run one after another, valid create requests for the same doctor, day and minute give exactly one success if the slot starts free, and none if it starts taken |

## Left out

- `getAllAppointments`, `getAppointmentById` and `doctorDetails` are plain reads (the first two with `populate`). They are not modelled.
- The `catch` paths that answer 500 are not modelled. These cover an invalid ObjectId cast, a date text that `new Date` cannot read (`toISOString` throws), and database failures. Request dates and ids are taken as already read.
- Time zones are not modelled. The source formats slots in local time (`toTimeString`) and booked times in UTC (`toISOString`). The model puts both on one timeline. Daylight-saving effects on the 30-minute loop are out as well.
- The calendar-day filter is not modelled as a regular expression. The source matches with `$regexMatch` on `$dateToString`, and in `doctorTimings` the raw query text is the pattern, unanchored. The model treats the filter as equality of UTC calendar days. Dates are abstract day numbers, so the `YYYY-MM-DD` formatting is not modelled either.
- Appointments.CheckSlot: carries the booked times as a set. The source's list follows the database's natural order and may repeat a time. The same holds for the `Conflict` outcomes of `Appointments.Create` and `Appointments.Update`.
- Concurrency is not modelled. The source queries and then saves in two separate calls, so two concurrent requests can both pass the check. The model runs each handler as one atomic step. `History.OneBookingPerSlot` states the guarantee only for requests that are serialised.
- `duration` is an integer in the model. The source field is a JavaScript Number, so a fractional duration such as `0.5` is truthy and stored there, but cannot be represented here.
- `duration` is stored as data only. As in the source, it never blocks the slots that follow.
- Creation and modification timestamps (`timestamps: true`) are not modelled. They come from the clock.
- ObjectIds are naturals, and the fresh id is a counter in the store.
- The doctor schema file `models/doctor.js` is not part of this model. Any working-hours value is accepted, as the `!workingHours` test accepts any object.
- Clock.ParseHhmm: reads only strict `HH:MM` bounds with hours 00-23. A bound of `24:00`, or a form that the JavaScript date parser accepts leniently, reads as invalid here and gives no slots.
- Appointments.Update: treats a JSON `null` field as absent. The source would write `null` for an optional field sent as `null`. Update validators are not run by `findByIdAndUpdate`, and the model does not validate merged values either.
- Request fields are present or absent. JavaScript falsy values other than `""` for text and `0` for `duration` (such as `null`, `false` or `NaN`) are not modelled.
