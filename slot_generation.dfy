/** Generation of appointment slots from a doctor's working hours: the slots
    of one date, of a range of dates, the check of a single instant, and the
    creation of bookable appointment rows for the free slots of a date. */
module SlotGeneration {
  import opened Common
  import opened Entities
  import opened Seqs
  import opened Repositories
  import opened LeaveQueries

  /** A candidate slot [startTime, endTime) as the generator reports it. */
  datatype AvailableSlot = AvailableSlot(
    startTime: int,
    endTime: int,
    durationMinutes: int,
    doctorId: int,
    isAvailable: bool,
    unavailabilityReason: Option<string>)

  datatype SlotError = DoctorNotFound(doctorId: int)

  const DefaultDurationMinutes := 30
  const AlreadyBooked := "Already Booked"
  const AvailableSlotReason := "Available Appointment Slot"

  /** The doctor's slot length, 30 minutes when none is configured. */
  function DurationOf(doctor: Doctor): int {
    if doctor.appointmentDurationMinutes.Some? then doctor.appointmentDurationMinutes.value else DefaultDurationMinutes
  }

  /** The queried doctor's slot length is positive; an unknown doctor needs
      none, and no other doctor's length matters. With a length of zero the
      generator's loop never ends; with a negative one it walks backwards. */
  predicate DurationPositive(doctors: map<int, Doctor>, doctorId: int) {
    doctorId in doctors ==> DurationOf(doctors[doctorId]) > 0
  }

  /** isWorkingHourEffective: the date lies within the block's effective
      bounds, both inclusive, a missing bound being unbounded. */
  predicate IsWorkingHourEffective(wh: WorkingHour, date: int) {
    && (wh.effectiveStartDate.None? || date >= wh.effectiveStartDate.value)
    && (wh.effectiveEndDate.None? || date <= wh.effectiveEndDate.value)
  }

  /** No appointment in `existing`, taken to last `d` minutes, overlaps
      [start, start + d). */
  predicate NoneOverlap(existing: map<int, Appointment>, start: int, d: int) {
    forall id :: id in existing ==>
      !Overlapping(start, start + d, existing[id].appointmentTime, existing[id].appointmentTime + d)
  }

  /** The slot at minute `cur` of `date`, marked against `existing`. */
  function MakeSlot(doctorId: int, date: int, cur: int, d: int, existing: map<int, Appointment>): AvailableSlot {
    var start := At(date, cur);
    var free := NoneOverlap(existing, start, d);
    AvailableSlot(start, start + d, d, doctorId, free, if free then None else Some(AlreadyBooked))
  }

  /** A slot of length `d` for `doctorId`, available exactly when nothing in
      `existing` overlaps it, and carrying the reason "Already Booked" exactly
      when it is not available. */
  predicate Marked(s: AvailableSlot, doctorId: int, d: int, existing: map<int, Appointment>) {
    && s.durationMinutes == d && s.endTime == s.startTime + d && s.doctorId == doctorId
    && (s.isAvailable <==> NoneOverlap(existing, s.startTime, d))
    && s.unavailabilityReason == (if s.isAvailable then None else Some(AlreadyBooked))
  }

  /* ------------------------------------------------------------------
     One working-hour block
     ------------------------------------------------------------------ */

  /** The slots from minute `cur` while a whole slot still fits before
      `end`: no partial slot at the end of a block. */
  function SlotsFrom(doctorId: int, date: int, cur: int, end: int, d: int, existing: map<int, Appointment>): seq<AvailableSlot>
    requires d > 0
    decreases end - cur
  {
    if cur + d <= end then [MakeSlot(doctorId, date, cur, d, existing)] + SlotsFrom(doctorId, date, cur + d, end, d, existing)
    else []
  }

  /** The slots of one block are back to back from the block's start, all of
      length `d`, none ending after the block's end, and correctly marked. */
  lemma {:induction false} SlotsFromShape(doctorId: int, date: int, cur: int, end: int, d: int, existing: map<int, Appointment>)
    requires d > 0
    ensures var r := SlotsFrom(doctorId, date, cur, end, d, existing);
      && (r != [] ==> r[0].startTime == At(date, cur))
      && (forall i :: 0 <= i < |r| - 1 ==> r[i + 1].startTime == r[i].endTime)
      && (forall i :: 0 <= i < |r| ==> At(date, cur) <= r[i].startTime && r[i].endTime <= At(date, end))
      && (forall i :: 0 <= i < |r| ==> Marked(r[i], doctorId, d, existing))
    decreases end - cur
  {
    if cur + d <= end {
      SlotsFromShape(doctorId, date, cur + d, end, d, existing);
    }
  }

  /** A block of `end - cur` minutes yields the largest number of whole
      slots that fit in it, (end - cur) / d. */
  lemma {:induction false} SlotsFromCount(doctorId: int, date: int, cur: int, end: int, d: int, existing: map<int, Appointment>)
    requires d > 0 && cur <= end
    ensures var n := |SlotsFrom(doctorId, date, cur, end, d, existing)|;
      n * d <= end - cur < (n + 1) * d
    decreases end - cur
  {
    if cur + d <= end {
      SlotsFromCount(doctorId, date, cur + d, end, d, existing);
      var m := |SlotsFrom(doctorId, date, cur + d, end, d, existing)|;
      assert (m + 1) * d == m * d + d;
      assert (m + 2) * d == (m + 1) * d + d;
    }
  }

  /** The slots of a block on the date, none when the block is not in effect. */
  function BlockSlots(doctorId: int, date: int, wh: WorkingHour, d: int, existing: map<int, Appointment>): seq<AvailableSlot>
    requires d > 0
  {
    if IsWorkingHourEffective(wh, date) then SlotsFrom(doctorId, date, wh.startTime, wh.endTime, d, existing) else []
  }

  /** The slots of the blocks in order. */
  function HoursSlots(doctorId: int, date: int, hours: seq<WorkingHour>, d: int, existing: map<int, Appointment>): seq<AvailableSlot>
    requires d > 0
    decreases |hours|
  {
    if hours == [] then []
    else HoursSlots(doctorId, date, hours[..|hours| - 1], d, existing) + BlockSlots(doctorId, date, hours[|hours| - 1], d, existing)
  }

  /** The slot lies inside an effective block of `hours` on `date`. */
  predicate InsideSomeBlock(s: AvailableSlot, hours: seq<WorkingHour>, date: int) {
    exists k :: 0 <= k < |hours| && IsWorkingHourEffective(hours[k], date)
      && At(date, hours[k].startTime) <= s.startTime && s.endTime <= At(date, hours[k].endTime)
  }

  /** Every slot of a sequence of blocks is correctly marked and lies inside
      one of the blocks that are in effect on the date. */
  lemma {:induction false} HoursSlotsShape(doctorId: int, date: int, hours: seq<WorkingHour>, d: int, existing: map<int, Appointment>)
    requires d > 0
    ensures forall i :: 0 <= i < |HoursSlots(doctorId, date, hours, d, existing)| ==>
      var s := HoursSlots(doctorId, date, hours, d, existing)[i];
      Marked(s, doctorId, d, existing) && InsideSomeBlock(s, hours, date)
    decreases |hours|
  {
    if hours != [] {
      var init := hours[..|hours| - 1];
      var last := hours[|hours| - 1];
      HoursSlotsShape(doctorId, date, init, d, existing);
      var front := HoursSlots(doctorId, date, init, d, existing);
      var back := BlockSlots(doctorId, date, last, d, existing);
      if IsWorkingHourEffective(last, date) {
        SlotsFromShape(doctorId, date, last.startTime, last.endTime, d, existing);
      }
      forall i | 0 <= i < |front + back|
        ensures Marked((front + back)[i], doctorId, d, existing) && InsideSomeBlock((front + back)[i], hours, date)
      {
        if i < |front| {
          var s := front[i];
          var k :| 0 <= k < |init| && IsWorkingHourEffective(init[k], date)
            && At(date, init[k].startTime) <= s.startTime && s.endTime <= At(date, init[k].endTime);
          assert hours[k] == init[k];
        } else {
          assert (front + back)[i] == back[i - |front|];
          assert hours[|hours| - 1] == last;
        }
      }
    }
  }

  /* ------------------------------------------------------------------
     One date, and a range of dates
     ------------------------------------------------------------------ */

  /** The doctor's appointments on `date` (from the start of the day to the
      last minute of it). */
  function DayAppointments(appointments: map<int, Appointment>, doctorId: int, date: int): map<int, Appointment> {
    AppointmentsBetween(appointments, doctorId, At(date, 0), At(date, MinutesPerDay - 1))
  }

  /** generateAvailableSlots as a value: an unknown doctor is an error; a
      doctor on leave, or without working hours on that weekday, has no slots;
      otherwise the slots of the weekday's blocks in order of start time. */
  function DaySlots(doctors: map<int, Doctor>, leaves: seq<DoctorLeave>, hourRows: seq<WorkingHour>,
                    appointments: map<int, Appointment>, doctorId: int, date: int): (r: Result<seq<AvailableSlot>, SlotError>)
    requires DurationPositive(doctors, doctorId)
    ensures r.Failure? <==> doctorId !in doctors
    ensures r.Failure? ==> r.error == DoctorNotFound(doctorId)
    ensures r.Success? && IsDoctorOnLeave(leaves, doctorId, date) ==> r.value == []
  {
    if doctorId !in doctors then Failure(DoctorNotFound(doctorId))
    else if IsDoctorOnLeave(leaves, doctorId, date) then Success([])
    else
      var hours := SameDayHours(hourRows, doctorId, DayOfWeek(date));
      if hours == [] then Success([])
      else Success(HoursSlots(doctorId, date, hours, DurationOf(doctors[doctorId]),
                              DayAppointments(appointments, doctorId, date)))
  }

  /** The slots of the doctor's blocks for the weekday of `date` are
      correctly marked and each lies inside one of those blocks that is in
      effect on the date. */
  lemma {:induction false} WeekdaySlotsInsideRows(hourRows: seq<WorkingHour>, doctorId: int, date: int, d: int,
                                                  existing: map<int, Appointment>)
    requires d > 0
    ensures var slots := HoursSlots(doctorId, date, SameDayHours(hourRows, doctorId, DayOfWeek(date)), d, existing);
      forall s :: s in slots ==>
        && Marked(s, doctorId, d, existing)
        && exists wh :: (wh in hourRows && wh.doctorId == doctorId && wh.dayOfWeek == DayOfWeek(date)
                         && IsWorkingHourEffective(wh, date)
                         && At(date, wh.startTime) <= s.startTime && s.endTime <= At(date, wh.endTime))
  {
    var hours := SameDayHours(hourRows, doctorId, DayOfWeek(date));
    var slots := HoursSlots(doctorId, date, hours, d, existing);
    HoursSlotsShape(doctorId, date, hours, d, existing);
    forall s | s in slots
      ensures exists wh :: (wh in hourRows && wh.doctorId == doctorId && wh.dayOfWeek == DayOfWeek(date)
                            && IsWorkingHourEffective(wh, date)
                            && At(date, wh.startTime) <= s.startTime && s.endTime <= At(date, wh.endTime))
    {
      var i :| 0 <= i < |slots| && slots[i] == s;
      var k :| 0 <= k < |hours| && IsWorkingHourEffective(hours[k], date)
        && At(date, hours[k].startTime) <= s.startTime && s.endTime <= At(date, hours[k].endTime);
      assert hours[k] in hours;
    }
  }

  /** The slots of a known doctor on a date: none on a day of leave; otherwise
      each has the doctor's slot length (30 minutes by default), falls on that
      date inside an effective block of the doctor for that weekday, and is
      available exactly when none of the doctor's appointments of that day
      overlaps it. */
  lemma DaySlotsProperties(doctors: map<int, Doctor>, leaves: seq<DoctorLeave>, hourRows: seq<WorkingHour>,
                           appointments: map<int, Appointment>, doctorId: int, date: int)
    requires doctorId in doctors && DurationPositive(doctors, doctorId)
    ensures DaySlots(doctors, leaves, hourRows, appointments, doctorId, date).Success?
    ensures IsDoctorOnLeave(leaves, doctorId, date) ==> DaySlots(doctors, leaves, hourRows, appointments, doctorId, date).value == []
    ensures doctors[doctorId].appointmentDurationMinutes.None? ==>
      forall s :: s in DaySlots(doctors, leaves, hourRows, appointments, doctorId, date).value ==> s.durationMinutes == 30
    ensures forall s :: s in DaySlots(doctors, leaves, hourRows, appointments, doctorId, date).value ==>
      && Marked(s, doctorId, DurationOf(doctors[doctorId]), DayAppointments(appointments, doctorId, date))
      && exists wh :: (wh in hourRows && wh.doctorId == doctorId && wh.dayOfWeek == DayOfWeek(date)
                       && IsWorkingHourEffective(wh, date)
                       && At(date, wh.startTime) <= s.startTime && s.endTime <= At(date, wh.endTime))
  {
    WeekdaySlotsInsideRows(hourRows, doctorId, date, DurationOf(doctors[doctorId]), DayAppointments(appointments, doctorId, date));
  }

  /** The per-date results from `start` to `end` inclusive, concatenated;
      the first failing date ends the walk, and an empty range gives nothing. */
  function Concatenated(days: int -> Result<seq<AvailableSlot>, SlotError>, start: int, end: int): Result<seq<AvailableSlot>, SlotError>
    decreases end - start
  {
    if start > end then Success([])
    else match days(start)
      case Failure(e) => Failure(e)
      case Success(first) =>
        match Concatenated(days, start + 1, end)
          case Failure(e) => Failure(e)
          case Success(rest) => Success(first + rest)
  }

  /** generateAvailableSlots of the doctor as a function of the date. */
  function DayResults(doctors: map<int, Doctor>, leaves: seq<DoctorLeave>, hourRows: seq<WorkingHour>,
                      appointments: map<int, Appointment>, doctorId: int): int -> Result<seq<AvailableSlot>, SlotError>
    requires DurationPositive(doctors, doctorId)
  {
    date => DaySlots(doctors, leaves, hourRows, appointments, doctorId, date)
  }

  /** generateAvailableSlotsForDateRange as a value: the day results from
      `start` to `end` inclusive, concatenated. */
  function RangeSlots(doctors: map<int, Doctor>, leaves: seq<DoctorLeave>, hourRows: seq<WorkingHour>,
                      appointments: map<int, Appointment>, doctorId: int, start: int, end: int): Result<seq<AvailableSlot>, SlotError>
    requires DurationPositive(doctors, doctorId)
  {
    Concatenated(DayResults(doctors, leaves, hourRows, appointments, doctorId), start, end)
  }

  /** One step of the walk over the dates of a range. */
  lemma ConcatenatedStep(days: int -> Result<seq<AvailableSlot>, SlotError>, cur: int, end: int, acc: seq<AvailableSlot>)
    requires cur <= end
    ensures Prepend(acc, Concatenated(days, cur, end))
      == if days(cur).Failure? then Failure(days(cur).error)
         else Prepend(acc + days(cur).value, Concatenated(days, cur + 1, end))
  {
    var rest := Concatenated(days, cur + 1, end);
    if days(cur).Success? && rest.Success? {
      assert acc + (days(cur).value + rest.value) == (acc + days(cur).value) + rest.value;
    }
  }

  /** An unknown doctor makes a non-empty range fail. */
  lemma RangeSlotsUnknownDoctor(doctors: map<int, Doctor>, leaves: seq<DoctorLeave>, hourRows: seq<WorkingHour>,
                                appointments: map<int, Appointment>, doctorId: int, start: int, end: int)
    requires doctorId !in doctors && start <= end
    ensures RangeSlots(doctors, leaves, hourRows, appointments, doctorId, start, end) == Failure(DoctorNotFound(doctorId))
  {
  }

  /** `s` is one of the slots generated for the doctor on `date`. */
  predicate SlotOfDay(doctors: map<int, Doctor>, leaves: seq<DoctorLeave>, hourRows: seq<WorkingHour>,
                      appointments: map<int, Appointment>, doctorId: int, date: int, s: AvailableSlot)
    requires DurationPositive(doctors, doctorId)
  {
    var day := DaySlots(doctors, leaves, hourRows, appointments, doctorId, date);
    day.Success? && s in day.value
  }

  /** For a known doctor the range result is the concatenation of the day
      results: a slot belongs to it exactly when it belongs to the result of
      some day of the range. */
  lemma {:induction false} RangeSlotsIsUnionOfDays(doctors: map<int, Doctor>, leaves: seq<DoctorLeave>, hourRows: seq<WorkingHour>,
                                                   appointments: map<int, Appointment>, doctorId: int, start: int, end: int)
    requires doctorId in doctors && DurationPositive(doctors, doctorId)
    ensures RangeSlots(doctors, leaves, hourRows, appointments, doctorId, start, end).Success?
    ensures forall s :: s in RangeSlots(doctors, leaves, hourRows, appointments, doctorId, start, end).value <==>
      exists date :: start <= date <= end && SlotOfDay(doctors, leaves, hourRows, appointments, doctorId, date, s)
    decreases end - start
  {
    if start <= end {
      RangeSlotsIsUnionOfDays(doctors, leaves, hourRows, appointments, doctorId, start + 1, end);
      var day := DaySlots(doctors, leaves, hourRows, appointments, doctorId, start);
      assert day.Success?;
      var rest := RangeSlots(doctors, leaves, hourRows, appointments, doctorId, start + 1, end).value;
      assert RangeSlots(doctors, leaves, hourRows, appointments, doctorId, start, end) == Success(day.value + rest);
      forall s, date | start <= date <= end && SlotOfDay(doctors, leaves, hourRows, appointments, doctorId, date, s)
        ensures s in day.value + rest
      {
        if date != start {
          assert start + 1 <= date <= end && SlotOfDay(doctors, leaves, hourRows, appointments, doctorId, date, s);
        }
      }
      forall s | s in day.value + rest
        ensures exists date :: start <= date <= end && SlotOfDay(doctors, leaves, hourRows, appointments, doctorId, date, s)
      {
        if s in day.value {
          assert SlotOfDay(doctors, leaves, hourRows, appointments, doctorId, start, s);
        } else {
          var date :| start + 1 <= date <= end && SlotOfDay(doctors, leaves, hourRows, appointments, doctorId, date, s);
          assert start <= date <= end;
        }
      }
    }
  }

  /* ------------------------------------------------------------------
     The check of a single instant
     ------------------------------------------------------------------ */

  /** Some block of `hours` in effect on `date` has `time` in [start, end). */
  predicate CoversTime(hours: seq<WorkingHour>, date: int, time: int) {
    exists k :: 0 <= k < |hours| && IsWorkingHourEffective(hours[k], date)
                && hours[k].startTime <= time < hours[k].endTime
  }

  /** isSlotAvailable as a value: not on a day of leave; the time of day must
      fall in [start, end) of an effective block of that weekday; an unknown
      doctor is then an error; otherwise no appointment of the doctor whose
      time lies in [t - d, t + d] may overlap [t, t + d). */
  function SlotAvailability(doctors: map<int, Doctor>, leaves: seq<DoctorLeave>, hourRows: seq<WorkingHour>,
                            appointments: map<int, Appointment>, doctorId: int, dateTime: int): (r: Result<bool, SlotError>)
    ensures r.Failure? ==> r.error == DoctorNotFound(doctorId) && doctorId !in doctors
    ensures IsDoctorOnLeave(leaves, doctorId, DateOf(dateTime)) ==> r == Success(false)
  {
    var date := DateOf(dateTime);
    var time := TimeOf(dateTime);
    if IsDoctorOnLeave(leaves, doctorId, date) then Success(false)
    else
      var hours := SameDayHours(hourRows, doctorId, DayOfWeek(date));
      if !CoversTime(hours, date, time) then Success(false)
      else if doctorId !in doctors then Failure(DoctorNotFound(doctorId))
      else
        var d := DurationOf(doctors[doctorId]);
        Success(NoneOverlap(AppointmentsBetween(appointments, doctorId, dateTime - d, dateTime + d), dateTime, d))
  }

  /** The appointments of one doctor. */
  function DoctorAppointments(appointments: map<int, Appointment>, doctorId: int): map<int, Appointment> {
    map id | id in appointments && appointments[id].doctorId == doctorId :: appointments[id]
  }

  /** Looking only at appointments within `d` minutes of the instant loses
      nothing: the windowed answer is the answer over all of the doctor's
      appointments. */
  lemma WindowedCheckIsExact(appointments: map<int, Appointment>, doctorId: int, t: int, d: int)
    ensures NoneOverlap(AppointmentsBetween(appointments, doctorId, t - d, t + d), t, d)
        <==> NoneOverlap(DoctorAppointments(appointments, doctorId), t, d)
  {
    var window := AppointmentsBetween(appointments, doctorId, t - d, t + d);
    var all := DoctorAppointments(appointments, doctorId);
    forall id | id in window ensures id in all && all[id] == window[id] {
    }
    forall id | id in all && Overlapping(t, t + d, all[id].appointmentTime, all[id].appointmentTime + d)
      ensures id in window && window[id] == all[id]
    {
    }
  }

  /** The time of day of `dateTime` falls in [start, end) of one of the
      doctor's blocks for that weekday that is in effect on that date. */
  predicate InWorkingHours(hourRows: seq<WorkingHour>, doctorId: int, dateTime: int) {
    exists wh :: wh in hourRows && wh.doctorId == doctorId && wh.dayOfWeek == DayOfWeek(DateOf(dateTime))
      && IsWorkingHourEffective(wh, DateOf(dateTime)) && wh.startTime <= TimeOf(dateTime) < wh.endTime
  }

  /** Searching the weekday query's result finds a block exactly when the
      doctor has an effective block of that weekday covering the instant. */
  lemma CoversTimeIffInWorkingHours(hourRows: seq<WorkingHour>, doctorId: int, dateTime: int)
    ensures CoversTime(SameDayHours(hourRows, doctorId, DayOfWeek(DateOf(dateTime))), DateOf(dateTime), TimeOf(dateTime))
        <==> InWorkingHours(hourRows, doctorId, dateTime)
  {
    var date, time := DateOf(dateTime), TimeOf(dateTime);
    var hours := SameDayHours(hourRows, doctorId, DayOfWeek(date));
    if CoversTime(hours, date, time) {
      var k :| 0 <= k < |hours| && IsWorkingHourEffective(hours[k], date) && hours[k].startTime <= time < hours[k].endTime;
      assert hours[k] in hourRows;
    }
    if InWorkingHours(hourRows, doctorId, dateTime) {
      var wh :| wh in hourRows && wh.doctorId == doctorId && wh.dayOfWeek == DayOfWeek(date)
        && IsWorkingHourEffective(wh, date) && wh.startTime <= time < wh.endTime;
      var i :| 0 <= i < |hourRows| && hourRows[i] == wh;
      assert hourRows[i] in hours;
      var k :| 0 <= k < |hours| && hours[k] == wh;
    }
  }

  /** The single-instant check answers yes exactly when the doctor is not on
      leave that date, the instant falls in an effective block of the
      weekday, the doctor is known, and none of all the doctor's
      appointments overlaps [t, t + d); it fails exactly when the first two
      hold and the doctor is unknown. */
  lemma SlotAvailabilityMeaning(doctors: map<int, Doctor>, leaves: seq<DoctorLeave>, hourRows: seq<WorkingHour>,
                                appointments: map<int, Appointment>, doctorId: int, dateTime: int)
    ensures var r := SlotAvailability(doctors, leaves, hourRows, appointments, doctorId, dateTime);
      && (r == Success(true) <==>
           && !IsDoctorOnLeave(leaves, doctorId, DateOf(dateTime))
           && InWorkingHours(hourRows, doctorId, dateTime)
           && doctorId in doctors
           && NoneOverlap(DoctorAppointments(appointments, doctorId), dateTime, DurationOf(doctors[doctorId])))
      && (r.Failure? <==>
           && !IsDoctorOnLeave(leaves, doctorId, DateOf(dateTime))
           && InWorkingHours(hourRows, doctorId, dateTime)
           && doctorId !in doctors)
  {
    CoversTimeIffInWorkingHours(hourRows, doctorId, dateTime);
    if doctorId in doctors {
      WindowedCheckIsExact(appointments, doctorId, dateTime, DurationOf(doctors[doctorId]));
    }
  }

  /* ------------------------------------------------------------------
     The service
     ------------------------------------------------------------------ */

  class AppointmentSlotGenerationService {
    const doctorRepository: DoctorRepository
    const workingHourRepository: WorkingHourRepository
    const doctorLeaveRepository: DoctorLeaveRepository
    const appointmentRepository: AppointmentRepository

    constructor (doctorRepository: DoctorRepository, workingHourRepository: WorkingHourRepository,
                 doctorLeaveRepository: DoctorLeaveRepository, appointmentRepository: AppointmentRepository)
      ensures this.doctorRepository == doctorRepository && this.workingHourRepository == workingHourRepository
      ensures this.doctorLeaveRepository == doctorLeaveRepository && this.appointmentRepository == appointmentRepository
    {
      this.doctorRepository := doctorRepository;
      this.workingHourRepository := workingHourRepository;
      this.doctorLeaveRepository := doctorLeaveRepository;
      this.appointmentRepository := appointmentRepository;
    }

    /** generateAvailableSlots: walks each effective block of the weekday in
        steps of the slot length, collecting the slots of the date. */
    method GenerateAvailableSlots(doctorId: int, date: int) returns (r: Result<seq<AvailableSlot>, SlotError>)
      requires DurationPositive(doctorRepository.rows, doctorId)
      ensures r == DaySlots(doctorRepository.rows, doctorLeaveRepository.rows, workingHourRepository.rows,
                            appointmentRepository.rows, doctorId, date)
    {
      r := GenerateDay(doctorRepository.rows, doctorLeaveRepository.rows, workingHourRepository.rows,
                       appointmentRepository.rows, doctorId, date);
    }

    /** generateAvailableSlotsForDateRange: the day results from `startDate`
        to `endDate` inclusive, one date after the other. */
    method GenerateAvailableSlotsForDateRange(doctorId: int, startDate: int, endDate: int)
      returns (r: Result<seq<AvailableSlot>, SlotError>)
      requires DurationPositive(doctorRepository.rows, doctorId)
      ensures r == RangeSlots(doctorRepository.rows, doctorLeaveRepository.rows, workingHourRepository.rows,
                              appointmentRepository.rows, doctorId, startDate, endDate)
    {
      r := WalkDates(DayResults(doctorRepository.rows, doctorLeaveRepository.rows, workingHourRepository.rows,
                                appointmentRepository.rows, doctorId), startDate, endDate);
    }

    /** autoGenerateAndCreateSlots: stores one bookable row (status
        AVAILABLE, no patient, reason "Available Appointment Slot") per
        available slot of the date, in order, and returns them. */
    method AutoGenerateAndCreateSlots(doctorId: int, date: int) returns (r: Result<seq<Appointment>, SlotError>)
      requires DurationPositive(doctorRepository.rows, doctorId) && appointmentRepository.Valid()
      modifies appointmentRepository
      ensures appointmentRepository.Valid()
      ensures var day := DaySlots(doctorRepository.rows, doctorLeaveRepository.rows, workingHourRepository.rows,
                                  old(appointmentRepository.rows), doctorId, date);
        && (day.Failure? ==> r == Failure(day.error) && appointmentRepository.rows == old(appointmentRepository.rows))
        && (day.Success? ==> r.Success? && CreatedFor(r.value, Filter(day.value, IsAvailableSlot), doctorId,
                                                     old(appointmentRepository.rows), appointmentRepository.rows))
    {
      ghost var doctors, leaves, hourRows, before :=
        doctorRepository.rows, doctorLeaveRepository.rows, workingHourRepository.rows, appointmentRepository.rows;
      var generated := GenerateAvailableSlots(doctorId, date);
      assert generated == DaySlots(doctors, leaves, hourRows, before, doctorId, date);
      if generated.Failure? {
        return Failure(generated.error);
      }
      var slotsToCreate := Filter(generated.value, IsAvailableSlot);
      var created := CreateSlotRows(appointmentRepository, slotsToCreate, doctorId);
      return Success(created);
    }
  }

  /** The insert loop of autoGenerateAndCreateSlots: one saved row per slot,
      in order. */
  method CreateSlotRows(repo: AppointmentRepository, slotsToCreate: seq<AvailableSlot>, doctorId: int)
    returns (created: seq<Appointment>)
    requires repo.Valid()
    modifies repo
    ensures repo.Valid()
    ensures CreatedFor(created, slotsToCreate, doctorId, old(repo.rows), repo.rows)
  {
    ghost var before := repo.rows;
    created := [];
    var k := 0;
    while k < |slotsToCreate|
      invariant 0 <= k <= |slotsToCreate|
      invariant repo.Valid()
      invariant CreatedFor(created, slotsToCreate[..k], doctorId, before, repo.rows)
    {
      ghost var mid := repo.rows;
      var saved := repo.Insert(NewSlotRow(doctorId, slotsToCreate[k].startTime));
      CreatedForStep(created, slotsToCreate[..k], doctorId, before, mid, saved, slotsToCreate[k], repo.rows);
      assert slotsToCreate[..k] + [slotsToCreate[k]] == slotsToCreate[..k + 1];
      created := created + [saved];
      k := k + 1;
    }
    assert slotsToCreate[..k] == slotsToCreate;
  }

  /** The steps of generateAvailableSlots on the repositories' contents: the
      doctor lookup, the leave check, the weekday's blocks, the slot length
      and the day's appointments, then the block loop. */
  method GenerateDay(doctors: map<int, Doctor>, leaves: seq<DoctorLeave>, hourRows: seq<WorkingHour>,
                     appointments: map<int, Appointment>, doctorId: int, date: int)
    returns (r: Result<seq<AvailableSlot>, SlotError>)
    requires DurationPositive(doctors, doctorId)
    ensures r == DaySlots(doctors, leaves, hourRows, appointments, doctorId, date)
  {
    if doctorId !in doctors {
      return Failure(DoctorNotFound(doctorId));
    }
    var doctor := doctors[doctorId];
    if IsDoctorOnLeave(leaves, doctorId, date) {
      return Success([]);
    }
    var workingHours := SameDayHours(hourRows, doctorId, DayOfWeek(date));
    if workingHours == [] {
      return Success([]);
    }
    var d := DurationOf(doctor);
    var existing := DayAppointments(appointments, doctorId, date);
    var slots := CollectSlots(doctorId, date, workingHours, d, existing);
    return Success(slots);
  }

  /** The date loop of generateAvailableSlotsForDateRange: the result of
      `days` for each date from `startDate` to `endDate` inclusive, one date
      after the other, collected in order; a failure ends the loop. */
  method WalkDates(days: int -> Result<seq<AvailableSlot>, SlotError>, startDate: int, endDate: int)
    returns (r: Result<seq<AvailableSlot>, SlotError>)
    ensures r == Concatenated(days, startDate, endDate)
  {
    var allSlots: seq<AvailableSlot> := [];
    var currentDate := startDate;
    ghost var whole := Concatenated(days, startDate, endDate);
    PrependNothing(whole);
    while currentDate <= endDate
      invariant whole == Prepend(allSlots, Concatenated(days, currentDate, endDate))
      decreases endDate - currentDate
    {
      var day := days(currentDate);
      ConcatenatedStep(days, currentDate, endDate, allSlots);
      if day.Failure? {
        return Failure(day.error);
      }
      allSlots := allSlots + day.value;
      currentDate := currentDate + 1;
    }
    assert allSlots + [] == allSlots;
    return Success(allSlots);
  }

  /** The block loop of generateAvailableSlots: for each block in order,
      the slots of that block. */
  method CollectSlots(doctorId: int, date: int, workingHours: seq<WorkingHour>, d: int, existing: map<int, Appointment>)
    returns (slots: seq<AvailableSlot>)
    requires d > 0
    ensures slots == HoursSlots(doctorId, date, workingHours, d, existing)
  {
    slots := [];
    var k := 0;
    while k < |workingHours|
      invariant 0 <= k <= |workingHours|
      invariant slots == HoursSlots(doctorId, date, workingHours[..k], d, existing)
    {
      assert workingHours[..k + 1][..k] == workingHours[..k];
      var block := WalkBlock(doctorId, date, workingHours[k], d, existing);
      slots := slots + block;
      k := k + 1;
    }
    assert workingHours[..k] == workingHours;
  }

  /** The inner loop: when the block is in effect, a slot per step of `d`
      minutes from its start while a whole slot fits before its end. */
  method WalkBlock(doctorId: int, date: int, wh: WorkingHour, d: int, existing: map<int, Appointment>)
    returns (slots: seq<AvailableSlot>)
    requires d > 0
    ensures slots == BlockSlots(doctorId, date, wh, d, existing)
  {
    slots := [];
    if !IsWorkingHourEffective(wh, date) {
      return;
    }
    var cur := wh.startTime;
    while cur + d <= wh.endTime
      invariant SlotsFrom(doctorId, date, wh.startTime, wh.endTime, d, existing)
                == slots + SlotsFrom(doctorId, date, cur, wh.endTime, d, existing)
      decreases wh.endTime - cur
    {
      var slot := MakeSlot(doctorId, date, cur, d, existing);
      slots := slots + [slot];
      cur := cur + d;
    }
  }

  lemma PrependNothing(r: Result<seq<AvailableSlot>, SlotError>)
    ensures Prepend([], r) == r
  {
    if r.Success? {
      assert [] + r.value == r.value;
    }
  }

  function Prepend(prefix: seq<AvailableSlot>, r: Result<seq<AvailableSlot>, SlotError>): Result<seq<AvailableSlot>, SlotError> {
    match r
      case Failure(e) => Failure(e)
      case Success(rest) => Success(prefix + rest)
  }

  function IsAvailableSlot(s: AvailableSlot): bool {
    s.isAvailable
  }

  /** The row stored for a free slot starting at `time`. */
  function NewSlotRow(doctorId: int, time: int): Appointment {
    Appointment(0, doctorId, None, time, Some(AvailableSlotReason), Available, None, None)
  }

  function IdsOf(rows: seq<Appointment>): set<int> {
    set i | 0 <= i < |rows| :: rows[i].id
  }

  /** `created` holds one new row per slot of `slots`, in order, each under a
      fresh identity; the table after is the table before plus those rows. */
  ghost predicate CreatedFor(created: seq<Appointment>, slots: seq<AvailableSlot>, doctorId: int,
                             before: map<int, Appointment>, after: map<int, Appointment>) {
    && |created| == |slots|
    && (forall i :: 0 <= i < |created| ==> created[i] == NewSlotRow(doctorId, slots[i].startTime).(id := created[i].id))
    && (forall i :: 0 <= i < |created| ==> created[i].id !in before && created[i].id in after && after[created[i].id] == created[i])
    && (forall i, j :: 0 <= i < j < |created| ==> created[i].id != created[j].id)
    && after.Keys == before.Keys + IdsOf(created)
    && (forall id :: id in before ==> after[id] == before[id])
  }

  /** Inserting the row of one more slot under a fresh identity extends the
      record of created rows by that row. */
  lemma CreatedForStep(created: seq<Appointment>, slots: seq<AvailableSlot>, doctorId: int,
                       before: map<int, Appointment>, mid: map<int, Appointment>,
                       saved: Appointment, slot: AvailableSlot, after: map<int, Appointment>)
    requires CreatedFor(created, slots, doctorId, before, mid)
    requires saved == NewSlotRow(doctorId, slot.startTime).(id := saved.id) && saved.id !in mid
    requires after == mid[saved.id := saved]
    ensures CreatedFor(created + [saved], slots + [slot], doctorId, before, after)
  {
    var c := created + [saved];
    assert forall i :: 0 <= i < |created| ==> c[i] == created[i];
    IdsOfSnoc(created, saved);
  }

  lemma IdsOfSnoc(created: seq<Appointment>, saved: Appointment)
    ensures IdsOf(created + [saved]) == IdsOf(created) + {saved.id}
  {
    var c := created + [saved];
    forall x | x in IdsOf(c) ensures x in IdsOf(created) + {saved.id} {
      var i :| 0 <= i < |c| && c[i].id == x;
      if i < |created| {
        assert created[i].id == x;
      }
    }
    forall x | x in IdsOf(created) ensures x in IdsOf(c) {
      var i :| 0 <= i < |created| && created[i].id == x;
      assert c[i].id == x;
    }
    assert c[|created|].id == saved.id;
  }

  /* ------------------------------------------------------------------
     The loop guard as written
     ------------------------------------------------------------------ */

  /** The guard of the block loop as written: the time of day `cur + d`,
      taken modulo a day as LocalTime.plusMinutes does, is not after `end`. */
  predicate WrappedGuard(cur: int, d: int, end: int) {
    (cur + d) % MinutesPerDay <= end
  }

  /** The loop's step as written: the next start, modulo a day. */
  function WrappedStep(cur: int, d: int): int {
    (cur + d) % MinutesPerDay
  }

  /** Inside one day the guard as written and the guard of SlotsFrom agree. */
  lemma GuardsAgreeBeforeMidnight(cur: int, d: int, end: int)
    requires 0 <= cur && 0 < d && cur + d < MinutesPerDay
    ensures WrappedGuard(cur, d, end) <==> cur + d <= end
    ensures WrappedStep(cur, d) == cur + d
  {
  }

  /** The loop as written never ends on a block 23:00-23:59 with 60-minute
      slots: from 23:00 the guard holds on every whole hour and the step
      maps whole hours to whole hours. Its first slot already runs to
      midnight, past the block's end. */
  lemma WrappedLoopNeverEnds()
    ensures WrappedGuard(1380, 60, 1439) && At(0, 1380) + 60 > At(0, 1439)
    ensures forall cur :: 0 <= cur < MinutesPerDay && cur % 60 == 0 ==>
      && WrappedGuard(cur, 60, 1439)
      && 0 <= WrappedStep(cur, 60) < MinutesPerDay && WrappedStep(cur, 60) % 60 == 0
  {
    forall cur | 0 <= cur < MinutesPerDay && cur % 60 == 0
      ensures WrappedGuard(cur, 60, 1439)
      ensures 0 <= WrappedStep(cur, 60) < MinutesPerDay && WrappedStep(cur, 60) % 60 == 0
    {
      if cur + 60 < MinutesPerDay {
        assert WrappedStep(cur, 60) == cur + 60;
      } else {
        assert cur == 1380;
        assert WrappedStep(cur, 60) == 0;
      }
    }
  }

  /** In general, once the walk as written reaches a start whose slot would
      run past midnight while the wrapped end is not after the block's end,
      the guard as written admits that slot although it ends after the
      block's end, which the guard of SlotsFrom refuses, and the next start
      jumps back to an earlier time of the same day. */
  lemma WrappedLoopCrossesMidnight(cur: int, d: int, end: int)
    requires 0 <= cur < MinutesPerDay && 0 < d < MinutesPerDay && end < MinutesPerDay
    requires cur + d >= MinutesPerDay && cur + d - MinutesPerDay <= end
    ensures WrappedGuard(cur, d, end) && !(cur + d <= end)
    ensures WrappedStep(cur, d) == cur + d - MinutesPerDay < cur
  {
  }

  /** On the same block the guard of SlotsFrom admits no slot, since a
      60-minute slot from 23:00 does not fit before 23:59. */
  lemma CorrectedLoopStops(doctorId: int, date: int, existing: map<int, Appointment>)
    ensures SlotsFrom(doctorId, date, 1380, 1439, 60, existing) == []
  {
  }
}
