/** The working-hour service: a doctor's weekly blocks of working time,
    created, updated and deleted under two rules per doctor and weekday —
    blocks do not overlap (touching is allowed) and sequence numbers are
    unique. Times of day are minutes since midnight. */
module WorkingHours {
  import opened Common
  import opened Entities
  import opened Seqs
  import opened Repositories

  /** A block as requested; either time may be missing. */
  datatype WorkingHourCreate = WorkingHourCreate(dayOfWeek: int, startTime: Option<int>, endTime: Option<int>, sequence: int)

  /** The failures the service reports, one per distinct message. */
  datatype HourError =
    | DoctorNotFound(doctorId: int)
    | TimesRequired
    | EndNotAfterStart
    | OverlapsExisting
    | DuplicateSequence
    | HourNotFound(doctorId: int, id: int)

  /** validateTimes: both times present and the end strictly after the start. */
  function ValidateTimes(start: Option<int>, end: Option<int>): (e: Option<HourError>)
    ensures e.None? <==> start.Some? && end.Some? && start.value < end.value
    ensures e.Some? ==> (e.value == TimesRequired <==> start.None? || end.None?)
    ensures e.Some? ==> e.value in {TimesRequired, EndNotAfterStart}
  {
    if start.None? || end.None? then Some(TimesRequired)
    else if !(end.value > start.value) then Some(EndNotAfterStart)
    else None
  }

  /** One stored block clashes with the requested one: it overlaps it, or it
      carries the same sequence number. The overlap is reported first. */
  function Clash(wh: WorkingHour, start: int, end: int, sequence: int): Option<HourError> {
    if Overlapping(wh.startTime, wh.endTime, start, end) then Some(OverlapsExisting)
    else if wh.sequence == sequence then Some(DuplicateSequence)
    else None
  }

  /** The first clash along `hours`, skipping the block being updated. */
  function FirstConflict(hours: seq<WorkingHour>, excludeId: Option<int>, start: int, end: int, sequence: int): Option<HourError>
  {
    if hours == [] then None
    else if excludeId == Some(hours[0].id) then FirstConflict(hours[1..], excludeId, start, end, sequence)
    else if Clash(hours[0], start, end, sequence).Some? then Clash(hours[0], start, end, sequence)
    else FirstConflict(hours[1..], excludeId, start, end, sequence)
  }

  /** The block fits among `wh`: no overlap and a different sequence. */
  predicate Compatible(wh: WorkingHour, start: int, end: int, sequence: int) {
    !Overlapping(wh.startTime, wh.endTime, start, end) && wh.sequence != sequence
  }

  /** The walk finds no clash exactly when every block other than the one
      being updated is compatible, and a clash it finds is one of the two
      kinds. */
  lemma {:induction false} FirstConflictMeaning(hours: seq<WorkingHour>, excludeId: Option<int>, start: int, end: int, sequence: int)
    ensures FirstConflict(hours, excludeId, start, end, sequence).None?
        <==> forall i :: 0 <= i < |hours| && excludeId != Some(hours[i].id) ==> Compatible(hours[i], start, end, sequence)
    ensures FirstConflict(hours, excludeId, start, end, sequence).Some? ==>
      FirstConflict(hours, excludeId, start, end, sequence).value in {OverlapsExisting, DuplicateSequence}
    decreases |hours|
  {
    if hours != [] {
      FirstConflictMeaning(hours[1..], excludeId, start, end, sequence);
      assert forall i :: 1 <= i < |hours| ==> hours[i] == hours[1..][i - 1];
    }
  }

  /** Rules of the schedule: every block ends after it starts and, for each
      doctor and weekday, blocks do not overlap and have distinct sequence
      numbers. */
  ghost predicate ScheduleConsistent(rows: seq<WorkingHour>) {
    && (forall i :: 0 <= i < |rows| ==> rows[i].startTime < rows[i].endTime)
    && (forall i, j ::
          (0 <= i < |rows| && 0 <= j < |rows| && i != j
           && rows[i].doctorId == rows[j].doctorId && rows[i].dayOfWeek == rows[j].dayOfWeek) ==>
            Compatible(rows[i], rows[j].startTime, rows[j].endTime, rows[j].sequence))
  }

  /** Everything create and update check, in their order after the lookup. */
  function HourCheck(rows: seq<WorkingHour>, doctorId: int, excludeId: Option<int>, dto: WorkingHourCreate): Option<HourError> {
    match ValidateTimes(dto.startTime, dto.endTime)
    case Some(e) => Some(e)
    case None => FirstConflict(SameDayHours(rows, doctorId, dto.dayOfWeek), excludeId, dto.startTime.value, dto.endTime.value, dto.sequence)
  }

  /** The block create stores for a request (its identity is assigned when
      it is stored); it carries no limits on the dates it is effective. */
  function NewHour(doctorId: int, dto: WorkingHourCreate): WorkingHour
    requires dto.startTime.Some? && dto.endTime.Some?
  {
    WorkingHour(0, doctorId, dto.dayOfWeek, dto.startTime.value, dto.endTime.value, dto.sequence, None, None)
  }

  /** The block update stores: the request's day, times and sequence over
      the existing block, whose identity, doctor and effective dates stay. */
  function Placed(wh: WorkingHour, dto: WorkingHourCreate): WorkingHour
    requires dto.startTime.Some? && dto.endTime.Some?
  {
    wh.(dayOfWeek := dto.dayOfWeek, startTime := dto.startTime.value, endTime := dto.endTime.value, sequence := dto.sequence)
  }

  /** A block that passed the checks ends after it starts and is compatible
      with every other block of the doctor on that weekday. */
  lemma AcceptedIsCompatible(rows: seq<WorkingHour>, doctorId: int, excludeId: Option<int>, dto: WorkingHourCreate, j: nat)
    requires HourCheck(rows, doctorId, excludeId, dto).None?
    requires j < |rows| && rows[j].doctorId == doctorId && rows[j].dayOfWeek == dto.dayOfWeek && excludeId != Some(rows[j].id)
    ensures dto.startTime.Some? && dto.endTime.Some? && dto.startTime.value < dto.endTime.value
    ensures Compatible(rows[j], dto.startTime.value, dto.endTime.value, dto.sequence)
    ensures Compatible(NewHour(doctorId, dto), rows[j].startTime, rows[j].endTime, rows[j].sequence)
  {
    var hours := SameDayHours(rows, doctorId, dto.dayOfWeek);
    FirstConflictMeaning(hours, excludeId, dto.startTime.value, dto.endTime.value, dto.sequence);
    var k :| 0 <= k < |hours| && hours[k] == rows[j];
    OverlappingSymmetric(rows[j].startTime, rows[j].endTime, dto.startTime.value, dto.endTime.value);
  }

  /** Adding a block that passed the checks keeps the schedule consistent. */
  lemma CreateKeepsSchedule(rows: seq<WorkingHour>, doctorId: int, dto: WorkingHourCreate, id: int)
    requires ScheduleConsistent(rows) && HourCheck(rows, doctorId, None, dto).None?
    ensures dto.startTime.Some? && dto.endTime.Some?
    ensures ScheduleConsistent(rows + [NewHour(doctorId, dto).(id := id)])
  {
    var wh := NewHour(doctorId, dto).(id := id);
    var rows' := rows + [wh];
    assert ValidateTimes(dto.startTime, dto.endTime).None?;
    forall i, j | 0 <= i < |rows'| && 0 <= j < |rows'| && i != j
        && rows'[i].doctorId == rows'[j].doctorId && rows'[i].dayOfWeek == rows'[j].dayOfWeek
      ensures Compatible(rows'[i], rows'[j].startTime, rows'[j].endTime, rows'[j].sequence)
    {
      if j == |rows| {
        AcceptedIsCompatible(rows, doctorId, None, dto, i);
      } else if i == |rows| {
        AcceptedIsCompatible(rows, doctorId, None, dto, j);
      }
    }
  }

  /** Rewriting a block with a request that passed the checks (the block
      itself skipped) keeps the schedule consistent. */
  lemma UpdateKeepsSchedule(rows: seq<WorkingHour>, doctorId: int, i: nat, dto: WorkingHourCreate)
    requires ScheduleConsistent(rows)
    requires forall a, b :: 0 <= a < b < |rows| ==> rows[a].id != rows[b].id
    requires i < |rows| && rows[i].doctorId == doctorId
    requires HourCheck(rows, doctorId, Some(rows[i].id), dto).None?
    ensures dto.startTime.Some? && dto.endTime.Some?
    ensures ScheduleConsistent(rows[i := Placed(rows[i], dto)])
  {
    var wh := Placed(rows[i], dto);
    var rows' := rows[i := wh];
    assert ValidateTimes(dto.startTime, dto.endTime).None?;
    forall a, b | 0 <= a < |rows'| && 0 <= b < |rows'| && a != b
        && rows'[a].doctorId == rows'[b].doctorId && rows'[a].dayOfWeek == rows'[b].dayOfWeek
      ensures Compatible(rows'[a], rows'[b].startTime, rows'[b].endTime, rows'[b].sequence)
    {
      if b == i {
        AcceptedIsCompatible(rows, doctorId, Some(rows[i].id), dto, a);
      } else if a == i {
        AcceptedIsCompatible(rows, doctorId, Some(rows[i].id), dto, b);
      }
    }
  }

  /** Removing a block keeps the schedule consistent. */
  lemma DeleteKeepsSchedule(rows: seq<WorkingHour>, i: nat)
    requires ScheduleConsistent(rows) && i < |rows|
    ensures ScheduleConsistent(RemoveAt(rows, i))
  {
    var rows' := RemoveAt(rows, i);
    forall a, b | 0 <= a < |rows'| && 0 <= b < |rows'| && a != b
        && rows'[a].doctorId == rows'[b].doctorId && rows'[a].dayOfWeek == rows'[b].dayOfWeek
      ensures Compatible(rows'[a], rows'[b].startTime, rows'[b].endTime, rows'[b].sequence)
    {
      var a0 := if a < i then a else a + 1;
      var b0 := if b < i then b else b + 1;
      assert rows'[a] == rows[a0] && rows'[b] == rows[b0];
    }
  }

  /** One step of the walk: the first clash from position `i` on. */
  lemma FirstConflictStep(hours: seq<WorkingHour>, i: nat, excludeId: Option<int>, start: int, end: int, sequence: int)
    requires i < |hours|
    ensures FirstConflict(hours[i..], excludeId, start, end, sequence)
      == if excludeId == Some(hours[i].id) then FirstConflict(hours[i + 1..], excludeId, start, end, sequence)
         else if Clash(hours[i], start, end, sequence).Some? then Clash(hours[i], start, end, sequence)
         else FirstConflict(hours[i + 1..], excludeId, start, end, sequence)
  {
    assert hours[i..][1..] == hours[i + 1..];
  }

  /** The loop of validateOverlap over the same-day blocks: skip the block
      being updated, report an overlap, then a repeated sequence number. */
  method WalkSameDay(sameDay: seq<WorkingHour>, excludeId: Option<int>, start: int, end: int, sequence: int)
    returns (e: Option<HourError>)
    ensures e == FirstConflict(sameDay, excludeId, start, end, sequence)
  {
    var i := 0;
    assert sameDay[0..] == sameDay;
    while i < |sameDay|
      invariant 0 <= i <= |sameDay|
      invariant FirstConflict(sameDay[i..], excludeId, start, end, sequence)
                == FirstConflict(sameDay, excludeId, start, end, sequence)
    {
      var wh := sameDay[i];
      FirstConflictStep(sameDay, i, excludeId, start, end, sequence);
      if excludeId.Some? && wh.id == excludeId.value {
        i := i + 1;
        continue;
      }
      if Overlapping(wh.startTime, wh.endTime, start, end) {
        return Some(OverlapsExisting);
      }
      if wh.sequence == sequence {
        return Some(DuplicateSequence);
      }
      i := i + 1;
    }
    return None;
  }

  class WorkingHourService {
    const workingHourRepository: WorkingHourRepository
    const doctorRepository: DoctorRepository

    constructor (workingHourRepository: WorkingHourRepository, doctorRepository: DoctorRepository)
      ensures this.workingHourRepository == workingHourRepository && this.doctorRepository == doctorRepository
    {
      this.workingHourRepository := workingHourRepository;
      this.doctorRepository := doctorRepository;
    }

    /** validateOverlap: walks the doctor's blocks of that weekday in order of
        start time, skipping the block being updated, and stops at the first
        one that overlaps the request or repeats its sequence number. */
    method ValidateOverlap(doctorId: int, excludeId: Option<int>, dto: WorkingHourCreate) returns (e: Option<HourError>)
      requires dto.startTime.Some? && dto.endTime.Some?
      ensures e == FirstConflict(SameDayHours(workingHourRepository.rows, doctorId, dto.dayOfWeek), excludeId,
                                 dto.startTime.value, dto.endTime.value, dto.sequence)
    {
      var sameDay := SameDayHours(workingHourRepository.rows, doctorId, dto.dayOfWeek);
      e := WalkSameDay(sameDay, excludeId, dto.startTime.value, dto.endTime.value, dto.sequence);
    }

    /** create: refuses an unknown doctor, then a request failing the time or
        the overlap checks; otherwise stores the new block. */
    method Create(doctorId: int, dto: WorkingHourCreate) returns (r: Result<WorkingHour, HourError>)
      requires workingHourRepository.Valid()
      modifies workingHourRepository
      ensures workingHourRepository.Valid()
      ensures ScheduleConsistent(old(workingHourRepository.rows)) ==> ScheduleConsistent(workingHourRepository.rows)
      ensures doctorId !in doctorRepository.rows ==>
        r == Failure(DoctorNotFound(doctorId)) && workingHourRepository.rows == old(workingHourRepository.rows)
      ensures doctorId in doctorRepository.rows && HourCheck(old(workingHourRepository.rows), doctorId, None, dto).Some? ==>
        && r == Failure(HourCheck(old(workingHourRepository.rows), doctorId, None, dto).value)
        && workingHourRepository.rows == old(workingHourRepository.rows)
      ensures doctorId in doctorRepository.rows && HourCheck(old(workingHourRepository.rows), doctorId, None, dto).None? ==>
        && dto.startTime.Some? && dto.endTime.Some?
        && r.Success?
        && r.value == NewHour(doctorId, dto).(id := r.value.id)
        && (forall i :: 0 <= i < |old(workingHourRepository.rows)| ==> old(workingHourRepository.rows)[i].id != r.value.id)
        && workingHourRepository.rows == old(workingHourRepository.rows) + [r.value]
    {
      if doctorId !in doctorRepository.rows {
        return Failure(DoctorNotFound(doctorId));
      }
      var timesError := ValidateTimes(dto.startTime, dto.endTime);
      if timesError.Some? {
        return Failure(timesError.value);
      }
      var overlapError := ValidateOverlap(doctorId, None, dto);
      if overlapError.Some? {
        return Failure(overlapError.value);
      }
      ghost var before := workingHourRepository.rows;
      var wh := WorkingHour(0, doctorId, dto.dayOfWeek, dto.startTime.value, dto.endTime.value, dto.sequence, None, None);
      var saved := workingHourRepository.Insert(wh);
      if ScheduleConsistent(before) {
        CreateKeepsSchedule(before, doctorId, dto, saved.id);
      }
      return Success(saved);
    }

    /** update: refuses a block the doctor does not have, then a request
        failing the time or the overlap checks (the block itself skipped);
        otherwise rewrites the block's day, times and sequence. */
    method Update(doctorId: int, id: int, dto: WorkingHourCreate) returns (r: Result<WorkingHour, HourError>)
      requires workingHourRepository.Valid()
      modifies workingHourRepository
      ensures workingHourRepository.Valid()
      ensures ScheduleConsistent(old(workingHourRepository.rows)) ==> ScheduleConsistent(workingHourRepository.rows)
      ensures match FindHour(old(workingHourRepository.rows), id, doctorId)
        case None => r == Failure(HourNotFound(doctorId, id)) && workingHourRepository.rows == old(workingHourRepository.rows)
        case Some(i) =>
          && (HourCheck(old(workingHourRepository.rows), doctorId, Some(id), dto).Some? ==>
                && r == Failure(HourCheck(old(workingHourRepository.rows), doctorId, Some(id), dto).value)
                && workingHourRepository.rows == old(workingHourRepository.rows))
          && (HourCheck(old(workingHourRepository.rows), doctorId, Some(id), dto).None? ==>
                && dto.startTime.Some? && dto.endTime.Some?
                && r == Success(Placed(old(workingHourRepository.rows)[i], dto))
                && workingHourRepository.rows == old(workingHourRepository.rows)[i := r.value])
    {
      var found := FindHour(workingHourRepository.rows, id, doctorId);
      if found.None? {
        return Failure(HourNotFound(doctorId, id));
      }
      var i := found.value;
      var existing := workingHourRepository.rows[i];
      var timesError := ValidateTimes(dto.startTime, dto.endTime);
      if timesError.Some? {
        return Failure(timesError.value);
      }
      var overlapError := ValidateOverlap(doctorId, Some(id), dto);
      if overlapError.Some? {
        return Failure(overlapError.value);
      }
      ghost var before := workingHourRepository.rows;
      var updated := existing.(dayOfWeek := dto.dayOfWeek, startTime := dto.startTime.value,
                               endTime := dto.endTime.value, sequence := dto.sequence);
      workingHourRepository.Save(i, updated);
      if ScheduleConsistent(before) {
        UpdateKeepsSchedule(before, doctorId, i, dto);
      }
      return Success(updated);
    }

    /** delete: refuses a block the doctor does not have; otherwise removes it. */
    method Delete(doctorId: int, id: int) returns (error: Option<HourError>)
      requires workingHourRepository.Valid()
      modifies workingHourRepository
      ensures workingHourRepository.Valid()
      ensures ScheduleConsistent(old(workingHourRepository.rows)) ==> ScheduleConsistent(workingHourRepository.rows)
      ensures match FindHour(old(workingHourRepository.rows), id, doctorId)
        case None => error == Some(HourNotFound(doctorId, id)) && workingHourRepository.rows == old(workingHourRepository.rows)
        case Some(i) => error.None? && workingHourRepository.rows == RemoveAt(old(workingHourRepository.rows), i)
    {
      var found := FindHour(workingHourRepository.rows, id, doctorId);
      if found.None? {
        return Some(HourNotFound(doctorId, id));
      }
      ghost var before := workingHourRepository.rows;
      workingHourRepository.DeleteAt(found.value);
      if ScheduleConsistent(before) {
        DeleteKeepsSchedule(before, found.value);
      }
      return None;
    }
  }
}
