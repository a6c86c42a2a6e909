/**
  The booking side of the system: the appointment collection, the
  minute-level conflict check, and the create / update / delete handlers of
  the appointment controller, each run as one atomic step on the collection.
*/
module Appointments {
  import opened Wrappers
  import opened Clock

  /** Database identifiers (Mongo ObjectIds), abstracted to naturals. */
  type Id = nat

  /**
    A stored appointment: the schema's required fields plus the optional
    notes. Creation and modification timestamps are not modelled.
  */
  datatype Appointment = Appointment(
    doctorId: Id,
    date: Instant,
    duration: int,
    appointmentType: string,
    patientName: string,
    notes: Option<string>)

  /** A request body: every field may be absent. */
  datatype Request = Request(
    doctorId: Option<Id>,
    date: Option<Instant>,
    duration: Option<int>,
    appointmentType: Option<string>,
    patientName: Option<string>,
    notes: Option<string>)

  /**
    The appointment collection. `nextId` stands for the database's supply of
    fresh ObjectIds: the next insert receives it.
  */
  datatype Store = Store(appointments: map<Id, Appointment>, nextId: Id)

  /** What a handler answers (the HTTP status is in the comment). */
  datatype Outcome =
    | Created(id: Id, appointment: Appointment)          // 201
    | Updated(id: Id, appointment: Appointment)          // 200
    | Cancelled(id: Id)                                  // 200
    | BadRequest(message: string)                        // 400
    | NotFound                                           // 404
    | Conflict(requestedTime: string, bookedTimes: set<string>)  // 400
  {
    predicate Failed() {
      BadRequest? || NotFound? || Conflict?
    }
  }

  datatype Reply = Reply(outcome: Outcome, store: Store)

  // ---------------------------------------------------------------------------
  // Request validation (JavaScript truthiness)

  /** A text field passes `!field` only when present and non-empty. */
  predicate HasText(s: Option<string>) {
    s.Some? && s.value != ""
  }

  /** A number field passes `!field` only when present and non-zero. */
  predicate HasNumber(n: Option<int>) {
    n.Some? && n.value != 0
  }

  /** The create handler's required-field test. */
  predicate CreateFieldsPresent(req: Request) {
    && req.doctorId.Some?
    && req.date.Some?
    && HasNumber(req.duration)
    && HasText(req.appointmentType)
    && HasText(req.patientName)
  }

  /** The update handler's required-field test: only date and doctorId. */
  predicate UpdateFieldsPresent(req: Request) {
    req.doctorId.Some? && req.date.Some?
  }

  // ---------------------------------------------------------------------------
  // Conflict check

  /** Same doctor, same calendar day, same minute of the day. */
  predicate SameSlot(a: Appointment, doctorId: Id, at: Instant) {
    a.doctorId == doctorId && a.date.day == at.day && MinuteOf(a.date) == MinuteOf(at)
  }

  /** Whether the appointment with this id takes part in a query that excludes `exclude`. */
  predicate Considered(id: Id, exclude: Option<Id>) {
    exclude != Some(id)
  }

  /** Appointments of this doctor on this day. */
  predicate OnDay(a: Appointment, doctorId: Id, day: int) {
    a.doctorId == doctorId && a.date.day == day
  }

  /**
    The booked times of a doctor on a calendar day: the time keys of the
    doctor's appointments on that day, leaving out `exclude` if given. Every
    booked time is the `HH:MM` of some minute, and a minute's text is booked
    exactly when one of those appointments lies in that minute.
  */
  function BookedTimes(appts: map<Id, Appointment>, doctorId: Id, day: int, exclude: Option<Id>): (b: set<string>)
    ensures forall k :: k in b ==> exists m: MinuteOfDay :: k == Hhmm(m)
    ensures forall m: MinuteOfDay {:trigger Hhmm(m)} :: Hhmm(m) in b <==>
      exists id :: id in appts && Considered(id, exclude) && OnDay(appts[id], doctorId, day)
        && MinuteOf(appts[id].date) == m
  {
    BookedKeysByMinute(appts, doctorId, day, exclude);
    TimeKeysOnDay(appts, doctorId, day, exclude)
  }

  /** The time keys of the considered appointments of a doctor on a day. */
  function TimeKeysOnDay(appts: map<Id, Appointment>, doctorId: Id, day: int, exclude: Option<Id>): set<string> {
    set id | id in appts && Considered(id, exclude) && OnDay(appts[id], doctorId, day) :: TimeKey(appts[id].date)
  }

  /** The time keys of a doctor's day, read minute by minute. */
  lemma BookedKeysByMinute(appts: map<Id, Appointment>, doctorId: Id, day: int, exclude: Option<Id>)
    ensures var b := TimeKeysOnDay(appts, doctorId, day, exclude);
      && (forall k :: k in b ==> exists m: MinuteOfDay :: k == Hhmm(m))
      && (forall m: MinuteOfDay {:trigger Hhmm(m)} :: Hhmm(m) in b <==>
            exists id :: id in appts && Considered(id, exclude) && OnDay(appts[id], doctorId, day)
              && MinuteOf(appts[id].date) == m)
  {
    var b := TimeKeysOnDay(appts, doctorId, day, exclude);
    forall k | k in b
      ensures exists m: MinuteOfDay :: k == Hhmm(m)
    {
      var id :| id in appts && Considered(id, exclude) && OnDay(appts[id], doctorId, day) && TimeKey(appts[id].date) == k;
      assert k == Hhmm(MinuteOf(appts[id].date));
    }
    forall m: MinuteOfDay
      ensures Hhmm(m) in b <==>
        exists id :: id in appts && Considered(id, exclude) && OnDay(appts[id], doctorId, day)
          && MinuteOf(appts[id].date) == m
    {
      if Hhmm(m) in b {
        var id :| id in appts && Considered(id, exclude) && OnDay(appts[id], doctorId, day) && TimeKey(appts[id].date) == Hhmm(m);
        HhmmInjective(MinuteOf(appts[id].date), m);
      }
      if exists id :: id in appts && Considered(id, exclude) && OnDay(appts[id], doctorId, day) && MinuteOf(appts[id].date) == m {
        var id :| id in appts && Considered(id, exclude) && OnDay(appts[id], doctorId, day) && MinuteOf(appts[id].date) == m;
        assert TimeKey(appts[id].date) == Hhmm(m);
      }
    }
  }

  /**
    The reference meaning of a clash: some considered appointment of that
    doctor lies in the same minute of the same day.
  */
  ghost predicate SlotTaken(appts: map<Id, Appointment>, doctorId: Id, at: Instant, exclude: Option<Id>) {
    exists id :: id in appts && Considered(id, exclude) && SameSlot(appts[id], doctorId, at)
  }

  datatype Check = Free | Clash(requestedTime: string, bookedTimes: set<string>)

  /**
    `bookedTimes.includes(requestedTime)` on the controllers' text keys. It
    reports a clash exactly when the slot is taken at minute granularity.
  */
  function CheckSlot(appts: map<Id, Appointment>, doctorId: Id, at: Instant, exclude: Option<Id>): (c: Check)
    ensures c.Clash? <==> SlotTaken(appts, doctorId, at, exclude)
    ensures c.Clash? ==> c.requestedTime == Hhmm(MinuteOf(at)) && c.requestedTime in c.bookedTimes
    ensures c.Clash? ==> c.bookedTimes == BookedTimes(appts, doctorId, at.day, exclude)
  {
    var booked := BookedTimes(appts, doctorId, at.day, exclude);
    var requested := TimeKey(at);
    TakenIffBooked(appts, doctorId, at, exclude);
    if requested in booked then Clash(requested, booked) else Free
  }

  /** Text-key membership and minute-level clash agree. */
  lemma TakenIffBooked(appts: map<Id, Appointment>, doctorId: Id, at: Instant, exclude: Option<Id>)
    ensures TimeKey(at) in BookedTimes(appts, doctorId, at.day, exclude) <==> SlotTaken(appts, doctorId, at, exclude)
  {
    assert TimeKey(at) == Hhmm(MinuteOf(at));
  }


  // ---------------------------------------------------------------------------
  // Store invariant

  /** At most one appointment per (doctor, calendar day, minute). */
  ghost predicate NoDoubleBooking(appts: map<Id, Appointment>) {
    forall i, j :: i in appts && j in appts && i != j ==> !SameSlot(appts[i], appts[j].doctorId, appts[j].date)
  }

  /** Every id in use is below the next fresh id, and no slot is double-booked. */
  ghost predicate Valid(st: Store) {
    && (forall id :: id in st.appointments ==> id < st.nextId)
    && NoDoubleBooking(st.appointments)
  }

  // ---------------------------------------------------------------------------
  // Handlers

  /** The record the create handler saves. */
  function NewAppointment(req: Request): Appointment
    requires CreateFieldsPresent(req)
  {
    Appointment(req.doctorId.value, req.date.value, req.duration.value,
                req.appointmentType.value, req.patientName.value, req.notes)
  }

  /**
    `createAppointment`: validate the required fields, reject a clash with
    any appointment of the doctor on that day in the same minute, otherwise
    insert one new record under a fresh id.
  */
  function Create(st: Store, req: Request): (r: Reply)
    ensures !CreateFieldsPresent(req) ==> r.outcome.BadRequest? && r.store == st
    ensures CreateFieldsPresent(req) && SlotTaken(st.appointments, req.doctorId.value, req.date.value, None) ==>
      && r.outcome == Conflict(Hhmm(MinuteOf(req.date.value)),
                               BookedTimes(st.appointments, req.doctorId.value, req.date.value.day, None))
      && r.store == st
    ensures r.outcome.Created? <==>
      CreateFieldsPresent(req) && !SlotTaken(st.appointments, req.doctorId.value, req.date.value, None)
    ensures r.outcome.Created? ==>
      && r.outcome.id == st.nextId
      && r.outcome.appointment.doctorId == req.doctorId.value
      && r.outcome.appointment.date == req.date.value
      && Some(r.outcome.appointment.duration) == req.duration
      && Some(r.outcome.appointment.appointmentType) == req.appointmentType
      && Some(r.outcome.appointment.patientName) == req.patientName
      && r.outcome.appointment.notes == req.notes
      && r.store.appointments == st.appointments[st.nextId := r.outcome.appointment]
      && r.store.nextId > st.nextId
    ensures r.outcome.Created? || r.outcome.BadRequest? || r.outcome.Conflict?
  {
    if !CreateFieldsPresent(req) then
      Reply(BadRequest("All fields are required"), st)
    else
      match CheckSlot(st.appointments, req.doctorId.value, req.date.value, None)
      case Clash(t, booked) => Reply(Conflict(t, booked), st)
      case Free =>
        var a := NewAppointment(req);
        Reply(Created(st.nextId, a), Store(st.appointments[st.nextId := a], st.nextId + 1))
  }

  /** The fields an update writes: date and doctorId always, the rest when provided. */
  function Merge(a: Appointment, req: Request): (r: Appointment)
    requires UpdateFieldsPresent(req)
    ensures r.doctorId == req.doctorId.value && r.date == req.date.value
    ensures req.duration.Some? ==> r.duration == req.duration.value
    ensures req.duration.None? ==> r.duration == a.duration
    ensures req.appointmentType.Some? ==> r.appointmentType == req.appointmentType.value
    ensures req.appointmentType.None? ==> r.appointmentType == a.appointmentType
    ensures req.patientName.Some? ==> r.patientName == req.patientName.value
    ensures req.patientName.None? ==> r.patientName == a.patientName
    ensures req.notes.Some? ==> r.notes == req.notes
    ensures req.notes.None? ==> r.notes == a.notes
  {
    Appointment(
      req.doctorId.value,
      req.date.value,
      if req.duration.Some? then req.duration.value else a.duration,
      if req.appointmentType.Some? then req.appointmentType.value else a.appointmentType,
      if req.patientName.Some? then req.patientName.value else a.patientName,
      if req.notes.Some? then req.notes else a.notes)
  }

  /**
    Applying the same update twice writes nothing more than applying it once,
    and an update naming the record's own doctor and date and no optional
    field leaves the record as it was.
  */
  lemma MergeIdempotent(a: Appointment, req: Request)
    requires UpdateFieldsPresent(req)
    ensures Merge(Merge(a, req), req) == Merge(a, req)
    ensures req == Request(Some(a.doctorId), Some(a.date), None, None, None, None) ==> Merge(a, req) == a
  {
  }

  /**
    `updateAppointment`: require date and doctorId, require the id to exist,
    check the new (doctor, day, minute) against every other appointment, and
    merge the provided fields into the record.
  */
  function Update(st: Store, id: Id, req: Request): (r: Reply)
    ensures !UpdateFieldsPresent(req) ==> r.outcome.BadRequest? && r.store == st
    ensures UpdateFieldsPresent(req) && id !in st.appointments ==> r.outcome.NotFound? && r.store == st
    ensures (UpdateFieldsPresent(req) && id in st.appointments
             && SlotTaken(st.appointments, req.doctorId.value, req.date.value, Some(id))) ==>
      && r.outcome == Conflict(Hhmm(MinuteOf(req.date.value)),
                               BookedTimes(st.appointments, req.doctorId.value, req.date.value.day, Some(id)))
      && r.store == st
    ensures r.outcome.Updated? <==>
      && UpdateFieldsPresent(req) && id in st.appointments
      && !SlotTaken(st.appointments, req.doctorId.value, req.date.value, Some(id))
    ensures r.outcome.Updated? ==>
      var before := st.appointments[id];
      var after := r.outcome.appointment;
      && r.outcome.id == id
      && after.doctorId == req.doctorId.value
      && after.date == req.date.value
      && after.duration == (if req.duration.Some? then req.duration.value else before.duration)
      && after.appointmentType == (if req.appointmentType.Some? then req.appointmentType.value else before.appointmentType)
      && after.patientName == (if req.patientName.Some? then req.patientName.value else before.patientName)
      && after.notes == (if req.notes.Some? then req.notes else before.notes)
      && r.store == Store(st.appointments[id := after], st.nextId)
    ensures r.outcome.Updated? || r.outcome.BadRequest? || r.outcome.NotFound? || r.outcome.Conflict?
  {
    if !UpdateFieldsPresent(req) then
      Reply(BadRequest("Date and doctorId are required"), st)
    else if id !in st.appointments then
      Reply(NotFound, st)
    else
      match CheckSlot(st.appointments, req.doctorId.value, req.date.value, Some(id))
      case Clash(t, booked) => Reply(Conflict(t, booked), st)
      case Free =>
        var a := Merge(st.appointments[id], req);
        Reply(Updated(id, a), Store(st.appointments[id := a], st.nextId))
  }

  /** `deleteAppointment`: remove the record with that id, or report it missing. */
  function Delete(st: Store, id: Id): (r: Reply)
    ensures r.outcome == (if id in st.appointments then Cancelled(id) else NotFound)
    ensures r.store.appointments.Keys == st.appointments.Keys - {id}
    ensures forall k :: k in r.store.appointments ==> r.store.appointments[k] == st.appointments[k]
    ensures r.store.nextId == st.nextId
  {
    if id in st.appointments then
      Reply(Cancelled(id), st.(appointments := st.appointments - {id}))
    else
      Reply(NotFound, st)
  }

  // ---------------------------------------------------------------------------
  // Properties of the handlers

  /**
    A successful create adds exactly one appointment under an id not in use
    and changes nothing else; the store stays valid whatever the outcome.
  */
  lemma CreateKeepsValid(st: Store, req: Request)
    requires Valid(st)
    ensures Valid(Create(st, req).store)
    ensures Create(st, req).outcome.Created? ==>
      var r := Create(st, req);
      && r.outcome.id !in st.appointments
      && r.store.appointments.Keys == st.appointments.Keys + {r.outcome.id}
      && |r.store.appointments| == |st.appointments| + 1
      && forall k :: k in st.appointments ==> r.store.appointments[k] == st.appointments[k]
  {
    var r := Create(st, req);
    if r.outcome.Created? {
      var m := r.store.appointments;
      var a := r.outcome.appointment;
      forall i, j | i in m && j in m && i != j
        ensures !SameSlot(m[i], m[j].doctorId, m[j].date)
      {
        if i == st.nextId {
          assert !SameSlot(st.appointments[j], a.doctorId, a.date);
        } else if j == st.nextId {
          assert !SameSlot(st.appointments[i], a.doctorId, a.date);
        }
      }
      assert m.Keys == st.appointments.Keys + {st.nextId};
    }
  }

  /** Every update outcome leaves the store valid; a successful one touches only its own record. */
  lemma UpdateKeepsValid(st: Store, id: Id, req: Request)
    requires Valid(st)
    ensures Valid(Update(st, id, req).store)
    ensures Update(st, id, req).store.appointments.Keys == st.appointments.Keys
    ensures forall k :: k in st.appointments && k != id ==>
      Update(st, id, req).store.appointments[k] == st.appointments[k]
  {
    var r := Update(st, id, req);
    if r.outcome.Updated? {
      var m := r.store.appointments;
      var a := r.outcome.appointment;
      forall i, j | i in m && j in m && i != j
        ensures !SameSlot(m[i], m[j].doctorId, m[j].date)
      {
        if i == id {
          assert !SameSlot(st.appointments[j], a.doctorId, a.date);
        } else if j == id {
          assert !SameSlot(st.appointments[i], a.doctorId, a.date);
        }
      }
    }
  }

  /** Deleting keeps the store valid. */
  lemma DeleteKeepsValid(st: Store, id: Id)
    requires Valid(st)
    ensures Valid(Delete(st, id).store)
  {
  }

  /** Cancelling twice: the second delete of the same id finds nothing and changes nothing. */
  lemma DeleteTwice(st: Store, id: Id)
    requires id in st.appointments
    ensures Delete(st, id).outcome == Cancelled(id)
    ensures var st' := Delete(st, id).store;
      Delete(st', id).outcome == NotFound && Delete(st', id).store == st'
  {
  }

  /**
    Re-saving an appointment at its own doctor and time never conflicts:
    the update's conflict query leaves the appointment itself out, and in a
    valid store nothing else holds that slot.
  */
  lemma UpdateInPlaceNeverConflicts(st: Store, id: Id, req: Request)
    requires Valid(st)
    requires id in st.appointments
    requires req.doctorId == Some(st.appointments[id].doctorId)
    requires req.date == Some(st.appointments[id].date)
    ensures Update(st, id, req).outcome.Updated?
  {
  }

  /**
    Once an appointment is created, a second valid request for the same
    doctor, day and minute (any seconds) is rejected with a conflict.
  */
  lemma SecondBookingConflicts(st: Store, req: Request, req2: Request)
    requires Create(st, req).outcome.Created?
    requires CreateFieldsPresent(req2)
    requires req2.doctorId == req.doctorId
    requires req2.date.value.day == req.date.value.day
    requires MinuteOf(req2.date.value) == MinuteOf(req.date.value)
    ensures Create(Create(st, req).store, req2).outcome.Conflict?
    ensures Create(Create(st, req).store, req2).store == Create(st, req).store
  {
    var st' := Create(st, req).store;
    assert st.nextId in st'.appointments && SameSlot(st'.appointments[st.nextId], req2.doctorId.value, req2.date.value);
  }

  /**
    Appointments of other doctors, or of this doctor on other days, never
    affect the conflict check: adding any number of them to the collection
    leaves the check's answer unchanged.
  */
  lemma OtherDoctorsAndDaysIrrelevant(appts: map<Id, Appointment>, extra: map<Id, Appointment>,
                                      doctorId: Id, at: Instant, exclude: Option<Id>)
    requires appts.Keys !! extra.Keys
    requires forall id :: id in extra ==> !OnDay(extra[id], doctorId, at.day)
    ensures CheckSlot(appts + extra, doctorId, at, exclude) == CheckSlot(appts, doctorId, at, exclude)
  {
    var all := appts + extra;
    assert SlotTaken(all, doctorId, at, exclude) <==> SlotTaken(appts, doctorId, at, exclude) by {
      if SlotTaken(all, doctorId, at, exclude) {
        var id :| id in all && Considered(id, exclude) && SameSlot(all[id], doctorId, at);
        assert id in appts;
      }
      if SlotTaken(appts, doctorId, at, exclude) {
        var id :| id in appts && Considered(id, exclude) && SameSlot(appts[id], doctorId, at);
        assert id in all && all[id] == appts[id];
      }
    }
    var b1 := BookedTimes(all, doctorId, at.day, exclude);
    var b2 := BookedTimes(appts, doctorId, at.day, exclude);
    forall m: MinuteOfDay
      ensures Hhmm(m) in b1 <==> Hhmm(m) in b2
    {
      if Hhmm(m) in b1 {
        var id :| id in all && Considered(id, exclude) && OnDay(all[id], doctorId, at.day) && MinuteOf(all[id].date) == m;
        assert id in appts;
      }
      if Hhmm(m) in b2 {
        var id :| id in appts && Considered(id, exclude) && OnDay(appts[id], doctorId, at.day) && MinuteOf(appts[id].date) == m;
        assert all[id] == appts[id];
      }
    }
    forall k | k in b1 ensures k in b2 {
      var m: MinuteOfDay :| k == Hhmm(m);
    }
    forall k | k in b2 ensures k in b1 {
      var m: MinuteOfDay :| k == Hhmm(m);
    }
    assert b1 == b2;
  }
}
