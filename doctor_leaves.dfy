/** The doctor-leave service: requesting a leave, approving or rejecting it,
    cancelling it and deleting it, together with the lifecycle these
    operations give a leave. The clock is the parameter `now` (a minute
    instant; its date is `DateOf(now)`). */
module DoctorLeaves {
  import opened Common
  import opened Entities
  import opened Seqs
  import opened Repositories
  import opened LeaveQueries

  /** A leave request. */
  datatype LeaveCreate = LeaveCreate(
    doctorId: int,
    leaveType: LeaveType,
    startDate: int,
    endDate: int,
    reason: Option<string>,
    isHalfDay: Option<bool>)

  /** An administrator's decision on a request. */
  datatype LeaveApproval = LeaveApproval(status: LeaveStatus, approvedBy: Option<string>, adminNotes: Option<string>)

  /** The failures the service reports, one per distinct message. */
  datatype LeaveError =
    | DoctorNotFound(doctorId: int)
    | EndBeforeStart
    | PastDate
    | ApprovedLeaveExists
    | LeaveNotFound(leaveId: int)
    | NotPending
    | InvalidDecision
    | NotOwnLeave
    | AlreadyClosed

  /* ------------------------------------------------------------------
     The lifecycle
     ------------------------------------------------------------------ */

  /** The status changes the service can make: a pending request is
      approved, rejected or cancelled; an approved leave can be cancelled.
      Rejected and cancelled leaves are final. */
  predicate CanTransition(from: LeaveStatus, to: LeaveStatus) {
    || (from == LeavePending && to in {LeaveApproved, LeaveRejected, LeaveCancelled})
    || (from == LeaveApproved && to == LeaveCancelled)
  }

  /** Why updateLeaveStatus refuses a decision, if it does. */
  function DecisionCheck(l: DoctorLeave, approval: LeaveApproval): Option<LeaveError> {
    if l.status != LeavePending then Some(NotPending)
    else if approval.status != LeaveApproved && approval.status != LeaveRejected then Some(InvalidDecision)
    else None
  }

  /** The leave after a decision: status, approver, time and notes recorded. */
  function Decided(l: DoctorLeave, approval: LeaveApproval, now: int): DoctorLeave {
    l.(status := approval.status, approvedBy := approval.approvedBy, approvedAt := Some(now), adminNotes := approval.adminNotes)
  }

  /** Why cancelLeave refuses, if it does. */
  function CancelCheck(l: DoctorLeave, doctorId: int): Option<LeaveError> {
    if l.doctorId != doctorId then Some(NotOwnLeave)
    else if l.status == LeaveCancelled || l.status == LeaveRejected then Some(AlreadyClosed)
    else None
  }

  /** A decision and a cancellation make exactly the status changes of the
      lifecycle, and every change of the lifecycle is made by one of them. */
  lemma LifecycleIsExactlyTheOperations(l: DoctorLeave, to: LeaveStatus, now: int)
    ensures CanTransition(l.status, to)
        <==> (|| (exists approval :: DecisionCheck(l, approval).None? && approval.status == to)
              || (to == LeaveCancelled && CancelCheck(l, l.doctorId).None?))
    ensures forall approval :: DecisionCheck(l, approval).None? ==> CanTransition(l.status, Decided(l, approval, now).status)
    ensures forall doctorId :: CancelCheck(l, doctorId).None? ==> CanTransition(l.status, LeaveCancelled)
  {
    if CanTransition(l.status, to) && to != LeaveCancelled {
      assert DecisionCheck(l, LeaveApproval(to, None, None)).None?;
    }
  }

  /** Rejected and cancelled leaves admit no further change. */
  lemma ClosedLeavesAreFinal(l: DoctorLeave, approval: LeaveApproval, doctorId: int)
    requires l.status == LeaveRejected || l.status == LeaveCancelled
    ensures DecisionCheck(l, approval) == Some(NotPending)
    ensures CancelCheck(l, doctorId).Some?
  {
  }

  /* ------------------------------------------------------------------
     Creating a request
     ------------------------------------------------------------------ */

  /** Why createLeaveRequest refuses, if it does; `today` is the current date. */
  function CreateCheck(doctors: map<int, Doctor>, rows: seq<DoctorLeave>, dto: LeaveCreate, today: int): Option<LeaveError> {
    if dto.doctorId !in doctors then Some(DoctorNotFound(dto.doctorId))
    else if dto.endDate < dto.startDate then Some(EndBeforeStart)
    else if dto.startDate < today then Some(PastDate)
    else if FindApprovedLeavesByDoctorAndDateRange(rows, dto.doctorId, dto.startDate, dto.endDate) != [] then Some(ApprovedLeaveExists)
    else None
  }

  /** The stored leave of an accepted request (its identity is assigned when
      it is stored): PENDING, requested at `now`, with no decision yet. */
  function NewLeave(dto: LeaveCreate, now: int): DoctorLeave {
    DoctorLeave(0, dto.doctorId, dto.leaveType, dto.startDate, dto.endDate, dto.reason, LeavePending, now,
                None, None, None, dto.isHalfDay)
  }

  /** Every stored leave ends no earlier than it starts. */
  ghost predicate DatesOrdered(rows: seq<DoctorLeave>) {
    forall i :: 0 <= i < |rows| ==> rows[i].startDate <= rows[i].endDate
  }

  /** A request is accepted exactly when the doctor exists, the range is well
      formed, it does not start in the past and the doctor is on approved
      leave on none of its dates. */
  lemma {:induction false} CreateCheckMeaning(doctors: map<int, Doctor>, rows: seq<DoctorLeave>, dto: LeaveCreate, today: int)
    requires DatesOrdered(rows)
    ensures CreateCheck(doctors, rows, dto, today).None?
        <==> (&& dto.doctorId in doctors
              && dto.startDate <= dto.endDate
              && today <= dto.startDate
              && forall d :: dto.startDate <= d <= dto.endDate ==> !IsDoctorOnLeave(rows, dto.doctorId, d))
  {
    if dto.startDate <= dto.endDate {
      ApprovedRangeQueryMeansOverlap(rows, dto.doctorId, dto.startDate, dto.endDate);
    }
  }

  /** A new request, being PENDING, puts nobody on leave: availability is the
      same before and after it is stored, for every doctor and date. */
  lemma NewRequestChangesNoAvailability(rows: seq<DoctorLeave>, dto: LeaveCreate, now: int, id: int, doctorId: int, date: int)
    ensures IsDoctorOnLeave(rows + [NewLeave(dto, now).(id := id)], doctorId, date) <==> IsDoctorOnLeave(rows, doctorId, date)
  {
    UnapprovedLeaveIsInert(rows, NewLeave(dto, now).(id := id), doctorId, date);
  }

  /** Replacing a leave by one that is not APPROVED (a rejection or a
      cancellation) never puts a doctor on leave who was not already. */
  lemma {:induction false} OnlyApprovalPutsDoctorOnLeave(rows: seq<DoctorLeave>, i: nat, l: DoctorLeave, doctorId: int, date: int)
    requires i < |rows| && l.status != LeaveApproved
    ensures IsDoctorOnLeave(rows[i := l], doctorId, date) ==> IsDoctorOnLeave(rows, doctorId, date)
  {
    if IsDoctorOnLeave(rows[i := l], doctorId, date) {
      var k :| 0 <= k < |rows[i := l]| && Blocks(rows[i := l][k], doctorId, date);
      assert k != i && Blocks(rows[k], doctorId, date);
    }
  }

  /** Removing a leave never puts a doctor on leave. */
  lemma {:induction false} DeletionPutsNobodyOnLeave(rows: seq<DoctorLeave>, i: nat, doctorId: int, date: int)
    requires i < |rows|
    ensures IsDoctorOnLeave(RemoveAt(rows, i), doctorId, date) ==> IsDoctorOnLeave(rows, doctorId, date)
  {
    if IsDoctorOnLeave(RemoveAt(rows, i), doctorId, date) {
      var k :| 0 <= k < |RemoveAt(rows, i)| && Blocks(RemoveAt(rows, i)[k], doctorId, date);
      if k < i {
        assert Blocks(rows[k], doctorId, date);
      } else {
        assert Blocks(rows[k + 1], doctorId, date);
      }
    }
  }

  /** getLeaveById */
  function GetLeaveById(rows: seq<DoctorLeave>, leaveId: int): (r: Result<DoctorLeave, LeaveError>)
    ensures r.Success? <==> exists i :: 0 <= i < |rows| && rows[i].id == leaveId
    ensures r.Success? ==> r.value in rows && r.value.id == leaveId
    ensures r.Failure? ==> r.error == LeaveNotFound(leaveId)
  {
    match FindLeave(rows, leaveId)
    case None => Failure(LeaveNotFound(leaveId))
    case Some(i) => Success(rows[i])
  }

  /* ------------------------------------------------------------------
     The service
     ------------------------------------------------------------------ */

  class DoctorLeaveService {
    const leaveRepository: DoctorLeaveRepository
    const doctorRepository: DoctorRepository

    constructor (leaveRepository: DoctorLeaveRepository, doctorRepository: DoctorRepository)
      ensures this.leaveRepository == leaveRepository && this.doctorRepository == doctorRepository
    {
      this.leaveRepository := leaveRepository;
      this.doctorRepository := doctorRepository;
    }

    /** createLeaveRequest: refuses an unknown doctor, a range ending before
        it starts, a start in the past and a range meeting an approved leave
        of the doctor; otherwise stores a PENDING leave under a new identity. */
    method CreateLeaveRequest(dto: LeaveCreate, now: int) returns (r: Result<DoctorLeave, LeaveError>)
      requires leaveRepository.Valid()
      modifies leaveRepository
      ensures leaveRepository.Valid()
      ensures DatesOrdered(old(leaveRepository.rows)) ==> DatesOrdered(leaveRepository.rows)
      ensures var check := CreateCheck(doctorRepository.rows, old(leaveRepository.rows), dto, DateOf(now));
        && (check.Some? ==> r == Failure(check.value) && leaveRepository.rows == old(leaveRepository.rows))
        && (check.None? ==>
              && r.Success?
              && r.value == NewLeave(dto, now).(id := r.value.id)
              && FindLeave(old(leaveRepository.rows), r.value.id).None?
              && leaveRepository.rows == old(leaveRepository.rows) + [r.value])
    {
      if dto.doctorId !in doctorRepository.rows {
        return Failure(DoctorNotFound(dto.doctorId));
      }
      if dto.endDate < dto.startDate {
        return Failure(EndBeforeStart);
      }
      if dto.startDate < DateOf(now) {
        return Failure(PastDate);
      }
      var overlappingLeaves := FindApprovedLeavesByDoctorAndDateRange(leaveRepository.rows, dto.doctorId, dto.startDate, dto.endDate);
      if overlappingLeaves != [] {
        return Failure(ApprovedLeaveExists);
      }
      var leave := DoctorLeave(0, dto.doctorId, dto.leaveType, dto.startDate, dto.endDate, dto.reason, LeavePending, now,
                               None, None, None, dto.isHalfDay);
      var saved := leaveRepository.Insert(leave);
      return Success(saved);
    }

    /** updateLeaveStatus: refuses an unknown leave, one that is no longer
        PENDING and a decision other than APPROVED or REJECTED; otherwise
        records the decision. */
    method UpdateLeaveStatus(leaveId: int, approval: LeaveApproval, now: int) returns (r: Result<DoctorLeave, LeaveError>)
      requires leaveRepository.Valid()
      modifies leaveRepository
      ensures leaveRepository.Valid()
      ensures DatesOrdered(old(leaveRepository.rows)) ==> DatesOrdered(leaveRepository.rows)
      ensures match FindLeave(old(leaveRepository.rows), leaveId)
        case None => r == Failure(LeaveNotFound(leaveId)) && leaveRepository.rows == old(leaveRepository.rows)
        case Some(i) =>
          var l := old(leaveRepository.rows)[i];
          && (DecisionCheck(l, approval).Some? ==>
                r == Failure(DecisionCheck(l, approval).value) && leaveRepository.rows == old(leaveRepository.rows))
          && (DecisionCheck(l, approval).None? ==>
                r == Success(Decided(l, approval, now)) && leaveRepository.rows == old(leaveRepository.rows)[i := r.value])
    {
      var found := FindLeave(leaveRepository.rows, leaveId);
      if found.None? {
        return Failure(LeaveNotFound(leaveId));
      }
      var i := found.value;
      var leave := leaveRepository.rows[i];
      if leave.status != LeavePending {
        return Failure(NotPending);
      }
      if approval.status != LeaveApproved && approval.status != LeaveRejected {
        return Failure(InvalidDecision);
      }
      var updated := leave.(status := approval.status, approvedBy := approval.approvedBy,
                            approvedAt := Some(now), adminNotes := approval.adminNotes);
      leaveRepository.Save(i, updated);
      return Success(updated);
    }

    /** cancelLeave: refuses an unknown leave, another doctor's leave and a
        leave already CANCELLED or REJECTED; otherwise only the status
        changes, to CANCELLED. */
    method CancelLeave(leaveId: int, doctorId: int) returns (r: Result<DoctorLeave, LeaveError>)
      requires leaveRepository.Valid()
      modifies leaveRepository
      ensures leaveRepository.Valid()
      ensures DatesOrdered(old(leaveRepository.rows)) ==> DatesOrdered(leaveRepository.rows)
      ensures match FindLeave(old(leaveRepository.rows), leaveId)
        case None => r == Failure(LeaveNotFound(leaveId)) && leaveRepository.rows == old(leaveRepository.rows)
        case Some(i) =>
          var l := old(leaveRepository.rows)[i];
          && (CancelCheck(l, doctorId).Some? ==>
                r == Failure(CancelCheck(l, doctorId).value) && leaveRepository.rows == old(leaveRepository.rows))
          && (CancelCheck(l, doctorId).None? ==>
                r == Success(l.(status := LeaveCancelled)) && leaveRepository.rows == old(leaveRepository.rows)[i := r.value])
    {
      var found := FindLeave(leaveRepository.rows, leaveId);
      if found.None? {
        return Failure(LeaveNotFound(leaveId));
      }
      var i := found.value;
      var leave := leaveRepository.rows[i];
      if leave.doctorId != doctorId {
        return Failure(NotOwnLeave);
      }
      if leave.status == LeaveCancelled || leave.status == LeaveRejected {
        return Failure(AlreadyClosed);
      }
      var updated := leave.(status := LeaveCancelled);
      leaveRepository.Save(i, updated);
      return Success(updated);
    }

    /** deleteLeave: refuses an unknown leave; otherwise removes it, whatever
        its status. */
    method DeleteLeave(leaveId: int) returns (error: Option<LeaveError>)
      requires leaveRepository.Valid()
      modifies leaveRepository
      ensures leaveRepository.Valid()
      ensures DatesOrdered(old(leaveRepository.rows)) ==> DatesOrdered(leaveRepository.rows)
      ensures match FindLeave(old(leaveRepository.rows), leaveId)
        case None => error == Some(LeaveNotFound(leaveId)) && leaveRepository.rows == old(leaveRepository.rows)
        case Some(i) => error.None? && leaveRepository.rows == RemoveAt(old(leaveRepository.rows), i)
      ensures forall l :: l in leaveRepository.rows ==> l.id != leaveId
    {
      var found := FindLeave(leaveRepository.rows, leaveId);
      if found.None? {
        return Some(LeaveNotFound(leaveId));
      }
      leaveRepository.DeleteAt(found.value);
      return None;
    }
  }
}
