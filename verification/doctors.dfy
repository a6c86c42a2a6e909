/**
  The doctor controller: registering a doctor, and `doctorTimings`, which
  answers the free and total slots of one doctor on one calendar day.
*/
module Doctors {
  import opened Wrappers
  import opened Clock
  import opened Slots
  import opened Appointments

  /** Working hours as stored: two `HH:MM` texts. */
  datatype WorkingHours = WorkingHours(start: string, end: string)

  datatype Doctor = Doctor(name: string, workingHours: WorkingHours, specialization: Option<string>)

  /** A doctor-creation request body: every field may be absent. */
  datatype DoctorRequest = DoctorRequest(
    name: Option<string>,
    workingHours: Option<WorkingHours>,
    specialization: Option<string>)

  /** The doctor collection, with the next fresh id. */
  datatype Directory = Directory(doctors: map<Id, Doctor>, nextId: Id)

  datatype DoctorOutcome =
    | DoctorCreated(id: Id, doctor: Doctor)   // 201
    | DoctorFieldsMissing                     // 400

  datatype DoctorReply = DoctorReply(outcome: DoctorOutcome, directory: Directory)

  /**
    `CreateDoctorDetails`: a name (non-empty) and working hours are required;
    any working-hours object passes the test. The specialization is optional.
  */
  function CreateDoctor(dir: Directory, req: DoctorRequest): (r: DoctorReply)
    ensures r.outcome.DoctorFieldsMissing? <==> !HasText(req.name) || req.workingHours.None?
    ensures r.outcome.DoctorFieldsMissing? ==> r.directory == dir
    ensures r.outcome.DoctorCreated? ==>
      && r.outcome.id == dir.nextId
      && Some(r.outcome.doctor.name) == req.name
      && Some(r.outcome.doctor.workingHours) == req.workingHours
      && r.outcome.doctor.specialization == req.specialization
      && r.directory.doctors == dir.doctors[dir.nextId := r.outcome.doctor]
      && r.directory.nextId > dir.nextId
  {
    if !HasText(req.name) || req.workingHours.None? then
      DoctorReply(DoctorFieldsMissing, dir)
    else
      var d := Doctor(req.name.value, req.workingHours.value, req.specialization);
      DoctorReply(DoctorCreated(dir.nextId, d), Directory(dir.doctors[dir.nextId := d], dir.nextId + 1))
  }

  /** Every doctor id in use is below the next fresh id. */
  ghost predicate ValidDirectory(dir: Directory) {
    forall id :: id in dir.doctors ==> id < dir.nextId
  }

  /**
    On a valid directory a created doctor gets an id not in use: the
    directory grows by exactly that one doctor, keeps every other doctor, and
    stays valid. A rejected request leaves it valid too.
  */
  lemma CreateDoctorKeepsValid(dir: Directory, req: DoctorRequest)
    requires ValidDirectory(dir)
    ensures ValidDirectory(CreateDoctor(dir, req).directory)
    ensures CreateDoctor(dir, req).outcome.DoctorCreated? ==>
      var r := CreateDoctor(dir, req);
      && r.outcome.id !in dir.doctors
      && r.directory.doctors.Keys == dir.doctors.Keys + {r.outcome.id}
      && |r.directory.doctors| == |dir.doctors| + 1
      && forall id :: id in dir.doctors ==> r.directory.doctors[id] == dir.doctors[id]
  {
  }

  /**
    The slots of a working day. A bound that does not read as `HH:MM` makes an
    invalid date, the loop's `currentTime < localEndTime` is then false at
    once, and the list is empty.
  */
  function DaySlots(wh: WorkingHours): (r: seq<string>)
    ensures ParseHhmm(wh.start).None? || ParseHhmm(wh.end).None? ==> r == []
    ensures ParseHhmm(wh.start).Some? && ParseHhmm(wh.end).Some? ==>
      SteppedSlots(r, ParseHhmm(wh.start).value, ParseHhmm(wh.end).value)
    ensures r != [] ==> r[0] == wh.start
  {
    var start := ParseHhmm(wh.start);
    var end := ParseHhmm(wh.end);
    if start.Some? && end.Some? then
      WorkingDaySlots(wh.start, start.value, end.value);
      SlotTexts(start.value, end.value)
    else
      []
  }

  /**
    `r` holds ceil((end - start) / 30) slots, and slot i is the `HH:MM` of
    `start + 30 * i`, which lies before `end`.
  */
  ghost predicate SteppedSlots(r: seq<string>, start: MinuteOfDay, end: MinuteOfDay) {
    && |r| == SlotCount(start, end)
    && forall i :: 0 <= i < |r| ==>
         && start + SlotMinutes * i < end
         && r[i] == Hhmm(start + SlotMinutes * i)
  }

  /** The slot facts of a working day whose start text reads as `start`. */
  lemma WorkingDaySlots(startText: string, start: MinuteOfDay, end: MinuteOfDay)
    requires ParseHhmm(startText) == Some(start)
    ensures SteppedSlots(SlotTexts(start, end), start, end)
    ensures SlotTexts(start, end) != [] ==> SlotTexts(start, end)[0] == startText
  {
    SlotTextsCount(start, end);
    SlotTextsAll(start, end);
    HhmmOfParseHhmm(startText, start);
  }



  datatype Timings =
    | Availability(freeSlots: seq<string>, totalSlots: seq<string>)   // 200
    | DateRequired                                                    // 400
    | DoctorNotFound                                                  // 404

  /** Some appointment of this doctor on this day lies in minute `m`. */
  ghost predicate BookedAt(appts: map<Id, Appointment>, doctorId: Id, day: int, m: MinuteOfDay) {
    exists id :: id in appts && OnDay(appts[id], doctorId, day) && MinuteOf(appts[id].date) == m
  }

  /** The doctor has no appointment at all on this day. */
  ghost predicate DayEmpty(appts: map<Id, Appointment>, doctorId: Id, day: int) {
    forall id :: id in appts ==> !OnDay(appts[id], doctorId, day)
  }

  /** A slot minute is free exactly when it is a slot and no appointment of the doctor lies in it that day. */
  lemma FreeIffUnbookedMinute(total: seq<string>, appts: map<Id, Appointment>, doctorId: Id, day: int)
    ensures var free := FreeSlots(total, BookedTimes(appts, doctorId, day, None));
      forall m: MinuteOfDay {:trigger Hhmm(m)} ::
        Hhmm(m) in free <==> Hhmm(m) in total && !BookedAt(appts, doctorId, day, m)
    ensures DayEmpty(appts, doctorId, day) ==> BookedTimes(appts, doctorId, day, None) == {}
  {
    var booked := BookedTimes(appts, doctorId, day, None);
    assert forall m: MinuteOfDay {:trigger Hhmm(m)} :: Hhmm(m) in booked <==> BookedAt(appts, doctorId, day, m);
  }

  /**
    `doctorTimings`: the date query is required, the doctor must exist; the
    total slots come from the working hours, and the free slots are those
    whose minute holds no appointment of this doctor on this day. Only that
    doctor's appointments on that day count, and with none the free slots are
    all the slots.
  */
  method DoctorTimings(dir: Directory, st: Store, doctorId: Id, date: Option<int>) returns (r: Timings)
    ensures r.DateRequired? <==> date.None?
    ensures r.DoctorNotFound? <==> date.Some? && doctorId !in dir.doctors
    ensures r.Availability? ==> date.Some? && doctorId in dir.doctors
    ensures r.Availability? ==> r.totalSlots == DaySlots(dir.doctors[doctorId].workingHours)
    ensures r.Availability? ==> IsSubsequence(r.freeSlots, r.totalSlots)
    ensures r.Availability? ==> forall m: MinuteOfDay {:trigger Hhmm(m)} ::
      Hhmm(m) in r.freeSlots <==> Hhmm(m) in r.totalSlots && !BookedAt(st.appointments, doctorId, date.value, m)
    ensures r.Availability? && DayEmpty(st.appointments, doctorId, date.value) ==> r.freeSlots == r.totalSlots
  {
    if date.None? {
      return DateRequired;
    }
    if doctorId !in dir.doctors {
      return DoctorNotFound;
    }
    var wh := dir.doctors[doctorId].workingHours;
    var total: seq<string> := [];
    match (ParseHhmm(wh.start), ParseHhmm(wh.end)) {
      case (Some(s), Some(e)) => total := GenerateSlots(s, e);
      case _ =>
    }
    assert total == DaySlots(wh);
    var booked := BookedTimes(st.appointments, doctorId, date.value, None);
    var free := FreeSlots(total, booked);
    FreeSlotsExact(total, booked);
    FreeIffUnbookedMinute(total, st.appointments, doctorId, date.value);
    r := Availability(free, total);
  }

  /** The documented example: working hours 09:00-11:00 give four slots. */
  lemma MorningSlots()
    ensures DaySlots(WorkingHours("09:00", "11:00")) == ["09:00", "09:30", "10:00", "10:30"]
  {
    var r := DaySlots(WorkingHours("09:00", "11:00"));
    assert ParseHhmm("09:00") == Some(540) && ParseHhmm("11:00") == Some(660);
    assert SteppedSlots(r, 540, 660);
    assert |r| == 4 by {
      assert SlotCount(540, 660) == 4;
    }
    assert r[0] == "09:00" by {
      assert r[0] == Hhmm(540);
    }
    assert r[1] == "09:30" by {
      assert r[1] == Hhmm(570);
    }
    assert r[2] == "10:00" by {
      assert r[2] == Hhmm(600);
    }
    assert r[3] == "10:30" by {
      assert r[3] == Hhmm(630);
    }
  }


  /** The documented example, continued: a booking at 10:00 removes exactly that slot. */
  lemma MorningFreeSlots()
    ensures FreeSlots(["09:00", "09:30", "10:00", "10:30"], {"10:00"}) == ["09:00", "09:30", "10:30"]
  {
    var b: set<string> := {"10:00"};
    var s3 := ["10:30"];
    var s2 := ["10:00"] + s3;
    var s1 := ["09:30"] + s2;
    var s0 := ["09:00"] + s1;
    assert FreeSlots(s3, b) == s3 by {
      assert "10:30" !in b;
      assert s3[1..] == [];
    }
    assert FreeSlots(s2, b) == s3 by {
      assert s2[0] in b && s2[1..] == s3;
    }
    assert FreeSlots(s1, b) == ["09:30"] + s3 by {
      assert s1[0] !in b && s1[1..] == s2;
    }
    assert FreeSlots(s0, b) == ["09:00", "09:30"] + s3 by {
      assert s0[0] !in b && s0[1..] == s1;
    }
    assert s0 == ["09:00", "09:30", "10:00", "10:30"];
  }
}
