/** Booking a reserved slot together with its payment, the bounded retry
    around a lost optimistic-lock race, standalone payment creation and
    payment cancellation. The clock is the parameter `now`; the random UUID
    behind a transaction id is the parameter `uuid`; whether an attempt loses
    the race is read from the oracle `lostRace`, one entry per attempt. */
module Payments {
  import opened Common
  import opened Entities
  import opened Repositories
  import opened LeaveQueries
  import Reservation

  /** The booking request. */
  datatype BookingWithPayment = BookingWithPayment(
    appointmentId: int,
    patientId: int,
    paymentMethod: PaymentMethod,
    amount: int,
    cardDetails: Option<string>,
    notes: Option<string>)

  /** The standalone payment request. */
  datatype PaymentCreate = PaymentCreate(
    appointmentId: int,
    paymentMethod: PaymentMethod,
    amount: int,
    cardDetails: Option<string>,
    notes: Option<string>)

  datatype BookingResponse = BookingResponse(appointment: Appointment, payment: Payment, message: string)

  /** The failures the service reports, one per distinct message. */
  datatype PaymentError =
    | AppointmentNotFound(appointmentId: int)
    | SlotNotAvailable(status: AppointmentStatus)
    | ReservedByAnotherUser
    | ReservationExpired
    | DoctorOnLeave(date: int)
    | PatientNotFound(patientId: int)
    | PaymentAlreadyExists
    | JustBookedByAnotherUser
    | FailedAfterMultipleAttempts
    | PaymentNotFound(paymentId: int)
    | PaymentAlreadyCancelled

  /** What one booking attempt ends in. */
  datatype AttemptOutcome = Done(response: BookingResponse) | Rejected(error: PaymentError) | LostRace

  const MaxRetries := 3
  const BookingNote := "Booked appointment with payment"

  /* ------------------------------------------------------------------
     The checks of a booking, in the order the service makes them
     ------------------------------------------------------------------ */

  /** The first check a booking fails, or None when it passes them all. */
  function BookingCheck(appointments: map<int, Appointment>, leaves: seq<DoctorLeave>, patientIds: set<int>,
                        payments: map<int, Payment>, dto: BookingWithPayment, now: int): Option<PaymentError>
  {
    if dto.appointmentId !in appointments then Some(AppointmentNotFound(dto.appointmentId))
    else
      var a := appointments[dto.appointmentId];
      if a.status != Available then Some(SlotNotAvailable(a.status))
      else if a.reservedByPatientId.Some? && a.reservedByPatientId.value != dto.patientId then Some(ReservedByAnotherUser)
      else if a.reservedByPatientId.Some? && a.reservationExpiresAt.Some? && a.reservationExpiresAt.value < now then
        Some(ReservationExpired)
      else if IsDoctorOnLeave(leaves, a.doctorId, DateOf(a.appointmentTime)) then Some(DoctorOnLeave(DateOf(a.appointmentTime)))
      else if dto.patientId !in patientIds then Some(PatientNotFound(dto.patientId))
      else if HasPaymentFor(payments, a.id) then Some(PaymentAlreadyExists)
      else None
  }

  /** The conditions under which a booking may go ahead, stated together:
      the slot exists and is AVAILABLE, it is unlocked or locked by the
      caller with a lock that has not run out, the doctor is not on leave on
      its date, the patient exists and no payment exists for the slot. */
  predicate BookingAllowed(appointments: map<int, Appointment>, leaves: seq<DoctorLeave>, patientIds: set<int>,
                           payments: map<int, Payment>, dto: BookingWithPayment, now: int)
  {
    && dto.appointmentId in appointments
    && var a := appointments[dto.appointmentId];
    && a.status == Available
    && (a.reservedByPatientId.None?
        || (a.reservedByPatientId == Some(dto.patientId)
            && !(a.reservationExpiresAt.Some? && a.reservationExpiresAt.value < now)))
    && !IsDoctorOnLeave(leaves, a.doctorId, DateOf(a.appointmentTime))
    && dto.patientId in patientIds
    && !HasPaymentFor(payments, a.id)
  }

  /** The chain of checks rejects a booking exactly when one of the
      conditions fails, and then names the first failing one. */
  lemma BookingCheckMatchesConditions(appointments: map<int, Appointment>, leaves: seq<DoctorLeave>, patientIds: set<int>,
                                      payments: map<int, Payment>, dto: BookingWithPayment, now: int)
    ensures BookingCheck(appointments, leaves, patientIds, payments, dto, now).None?
        <==> BookingAllowed(appointments, leaves, patientIds, payments, dto, now)
    ensures dto.appointmentId in appointments && appointments[dto.appointmentId].status != Available ==>
      BookingCheck(appointments, leaves, patientIds, payments, dto, now) == Some(SlotNotAvailable(appointments[dto.appointmentId].status))
  {
  }

  /** A lock held by another patient stops the booking even after it has
      expired; once the sweep has cleared the expired lock, that check no
      longer stands in the way. */
  lemma ExpiredForeignLockBlocksUntilSwept(appointments: map<int, Appointment>, leaves: seq<DoctorLeave>, patientIds: set<int>,
                                           payments: map<int, Payment>, dto: BookingWithPayment, now: int)
    requires dto.appointmentId in appointments
    requires var a := appointments[dto.appointmentId];
      && a.status == Available && a.patientId.None?
      && a.reservedByPatientId.Some? && a.reservedByPatientId.value != dto.patientId
      && a.reservationExpiresAt.Some? && a.reservationExpiresAt.value < now
    ensures BookingCheck(appointments, leaves, patientIds, payments, dto, now) == Some(ReservedByAnotherUser)
    ensures var swept := appointments[dto.appointmentId := Reservation.Swept(appointments[dto.appointmentId], now)];
      BookingCheck(swept, leaves, patientIds, payments, dto, now) != Some(ReservedByAnotherUser)
      && BookingCheck(swept, leaves, patientIds, payments, dto, now) != Some(ReservationExpired)
  {
  }

  /** A slot the caller has just reserved passes the lock checks of a booking
      made before the reservation runs out. */
  lemma FreshReservationPassesLockChecks(appointments: map<int, Appointment>, leaves: seq<DoctorLeave>, patientIds: set<int>,
                                         payments: map<int, Payment>, dto: BookingWithPayment, t: int, now: int)
    requires dto.appointmentId in appointments && t <= now <= t + Reservation.ReservationDurationMinutes
    requires appointments[dto.appointmentId].status == Available
    ensures var reserved := appointments[dto.appointmentId := Reservation.Reserved(appointments[dto.appointmentId], dto.patientId, t)];
      BookingCheck(reserved, leaves, patientIds, payments, dto, now) != Some(ReservedByAnotherUser)
      && BookingCheck(reserved, leaves, patientIds, payments, dto, now) != Some(ReservationExpired)
  {
  }

  /* ------------------------------------------------------------------
     What a successful booking writes
     ------------------------------------------------------------------ */

  /** The slot after booking: the patient set, status BOOKED, lock cleared. */
  function BookedRow(a: Appointment, patientId: int): Appointment {
    a.(patientId := Some(patientId), status := Booked, reservedByPatientId := None, reservationExpiresAt := None)
  }

  /** The audit tag of a patient, "PATIENT:" followed by the id in decimal. */
  function ActorTag(patientId: int): (tag: string)
    ensures |tag| > 8 && tag[..8] == "PATIENT:"
  {
    "PATIENT:" + IntToString(patientId)
  }

  /** Different patients leave different tags in the audit trail. */
  lemma ActorTagInjective(p: int, q: int)
    requires ActorTag(p) == ActorTag(q)
    ensures p == q
  {
    assert IntToString(p) == ActorTag(p)[8..] == ActorTag(q)[8..] == IntToString(q);
    IntToStringInjective(p, q);
  }

  function BookingHistory(a: Appointment, patientId: int, now: int): StatusHistoryEntry {
    StatusHistoryEntry(a.id, a.status, Booked, now, ActorTag(patientId), BookingNote)
  }

  /** Java's toUpperCase on the characters a UUID is written with. */
  function UpperChar(c: char): char {
    if 'a' <= c <= 'z' then (c as int - 32) as char else c
  }

  /** generateTransactionId: "TXN-" and the first eight characters of the
      UUID text, upper-cased. */
  function TransactionId(uuid: string): (id: string)
    requires |uuid| >= 8
    ensures |id| == 12 && id[..4] == "TXN-"
    ensures forall i :: 0 <= i < 8 ==> id[4 + i] == UpperChar(uuid[i])
    ensures forall i :: 4 <= i < 12 ==> !('a' <= id[i] <= 'z')
  {
    "TXN-" + seq(8, i requires 0 <= i < 8 => UpperChar(uuid[i]))
  }

  /** CASH stays PENDING until paid at the clinic; any other method is taken
      as paid at once. */
  function StatusFor(pm: PaymentMethod): PaymentStatus {
    if pm == Cash then PaymentPending else PaymentCompleted
  }

  function PaidAtFor(pm: PaymentMethod, now: int): Option<int> {
    if pm == Cash then None else Some(now)
  }

  /** A new payment row (its identity is assigned when it is stored). */
  function NewPayment(appointmentId: int, pm: PaymentMethod, amount: int, cardDetails: Option<string>,
                      notes: Option<string>, uuid: string, now: int): Payment
    requires |uuid| >= 8
  {
    Payment(0, appointmentId, pm, StatusFor(pm), amount, TransactionId(uuid), cardDetails, now,
            PaidAtFor(pm, now), notes)
  }

  /** A CASH payment is PENDING with no payment time; any other is COMPLETED
      and paid at `now`. */
  lemma PaymentStatusByMethod(appointmentId: int, pm: PaymentMethod, amount: int, cardDetails: Option<string>,
                              notes: Option<string>, uuid: string, now: int)
    requires |uuid| >= 8
    ensures var p := NewPayment(appointmentId, pm, amount, cardDetails, notes, uuid, now);
      && (pm == Cash <==> p.paymentStatus == PaymentPending)
      && (pm == Cash <==> p.paidAt.None?)
      && (pm != Cash ==> p.paymentStatus == PaymentCompleted && p.paidAt == Some(now))
      && p.createdAt == now
  {
  }

  function BookingMessage(pm: PaymentMethod): string {
    "Appointment booked successfully with " + (if pm == Cash then "cash payment (pending at clinic)" else "card payment")
  }

  /** The new state and the response of a booking that went through. */
  ghost predicate BookingApplied(appointments: map<int, Appointment>, history: seq<StatusHistoryEntry>, payments: map<int, Payment>,
                                 appointments': map<int, Appointment>, history': seq<StatusHistoryEntry>, payments': map<int, Payment>,
                                 dto: BookingWithPayment, uuid: string, now: int, response: BookingResponse)
    requires |uuid| >= 8
  {
    && dto.appointmentId in appointments
    && var a := appointments[dto.appointmentId];
    && appointments' == appointments[dto.appointmentId := BookedRow(a, dto.patientId)]
    && history' == history + [BookingHistory(a, dto.patientId, now)]
    && response.payment == NewPayment(a.id, dto.paymentMethod, dto.amount, dto.cardDetails, dto.notes, uuid, now).(id := response.payment.id)
    && response.payment.id !in payments
    && payments' == payments[response.payment.id := response.payment]
    && response.appointment == BookedRow(a, dto.patientId)
    && response.message == BookingMessage(dto.paymentMethod)
  }

  /** Once a booking has gone through, every later booking of the same slot,
      by anyone, is refused because the slot is no longer AVAILABLE. */
  lemma BookedSlotCannotBeBookedAgain(appointments: map<int, Appointment>, history: seq<StatusHistoryEntry>, payments: map<int, Payment>,
                                      appointments': map<int, Appointment>, history': seq<StatusHistoryEntry>, payments': map<int, Payment>,
                                      dto: BookingWithPayment, uuid: string, now: int, response: BookingResponse,
                                      leaves: seq<DoctorLeave>, patientIds: set<int>, other: BookingWithPayment, later: int)
    requires |uuid| >= 8
    requires BookingApplied(appointments, history, payments, appointments', history', payments', dto, uuid, now, response)
    requires other.appointmentId == dto.appointmentId
    ensures BookingCheck(appointments', leaves, patientIds, payments', other, later) == Some(SlotNotAvailable(Booked))
    ensures Reservation.LockConsistent(appointments'[dto.appointmentId])
    ensures HasPaymentFor(payments', appointments[dto.appointmentId].id)
  {
    assert payments'[response.payment.id].appointmentId == appointments[dto.appointmentId].id;
  }

  /** The attempt numbers whose save loses the race. */
  predicate LostAt(lostRace: seq<bool>, attempt: nat) {
    attempt < |lostRace| && lostRace[attempt]
  }

  /** Every one of the allowed attempts loses the race. */
  predicate LosesEveryAttempt(lostRace: seq<bool>) {
    forall attempt :: 0 <= attempt < MaxRetries ==> LostAt(lostRace, attempt)
  }

  /* ------------------------------------------------------------------
     The service
     ------------------------------------------------------------------ */

  class PaymentService {
    const paymentRepository: PaymentRepository
    const appointmentRepository: AppointmentRepository
    const patientRepository: PatientRepository
    const statusHistoryRepository: StatusHistoryRepository
    const doctorLeaveRepository: DoctorLeaveRepository

    constructor (paymentRepository: PaymentRepository, appointmentRepository: AppointmentRepository,
                 patientRepository: PatientRepository, statusHistoryRepository: StatusHistoryRepository,
                 doctorLeaveRepository: DoctorLeaveRepository)
      ensures this.paymentRepository == paymentRepository && this.appointmentRepository == appointmentRepository
      ensures this.patientRepository == patientRepository && this.statusHistoryRepository == statusHistoryRepository
      ensures this.doctorLeaveRepository == doctorLeaveRepository
    {
      this.paymentRepository := paymentRepository;
      this.appointmentRepository := appointmentRepository;
      this.patientRepository := patientRepository;
      this.statusHistoryRepository := statusHistoryRepository;
      this.doctorLeaveRepository := doctorLeaveRepository;
    }

    ghost predicate Valid()
      reads this, appointmentRepository, paymentRepository
    {
      appointmentRepository.Valid() && paymentRepository.Valid()
    }

    /** processPayment: fails for an unknown appointment or one that already
        has a payment; otherwise stores a new payment for it. The status of
        the appointment is not looked at. */
    method ProcessPayment(dto: PaymentCreate, uuid: string, now: int) returns (r: Result<Payment, PaymentError>)
      requires Valid() && |uuid| >= 8
      modifies paymentRepository
      ensures Valid()
      ensures dto.appointmentId !in appointmentRepository.rows ==>
        r == Failure(AppointmentNotFound(dto.appointmentId)) && paymentRepository.rows == old(paymentRepository.rows)
      ensures dto.appointmentId in appointmentRepository.rows && HasPaymentFor(old(paymentRepository.rows), dto.appointmentId) ==>
        r == Failure(PaymentAlreadyExists) && paymentRepository.rows == old(paymentRepository.rows)
      ensures dto.appointmentId in appointmentRepository.rows && !HasPaymentFor(old(paymentRepository.rows), dto.appointmentId) ==>
        && r.Success?
        && r.value == NewPayment(dto.appointmentId, dto.paymentMethod, dto.amount, dto.cardDetails, dto.notes, uuid, now).(id := r.value.id)
        && r.value.id !in old(paymentRepository.rows)
        && paymentRepository.rows == old(paymentRepository.rows)[r.value.id := r.value]
    {
      if dto.appointmentId !in appointmentRepository.rows {
        return Failure(AppointmentNotFound(dto.appointmentId));
      }
      var appointment := appointmentRepository.rows[dto.appointmentId];
      if HasPaymentFor(paymentRepository.rows, appointment.id) {
        return Failure(PaymentAlreadyExists);
      }
      var payment := NewPayment(appointment.id, dto.paymentMethod, dto.amount, dto.cardDetails, dto.notes, uuid, now);
      var saved := paymentRepository.Insert(payment);
      return Success(saved);
    }

    /** One attempt: the checks in order; then, unless the save of the slot
        loses the race (which rolls the attempt back), the slot is booked,
        one history entry and one payment are written. */
    method AttemptBookingWithPayment(dto: BookingWithPayment, uuid: string, now: int, lost: bool) returns (outcome: AttemptOutcome)
      requires Valid() && |uuid| >= 8
      modifies appointmentRepository, statusHistoryRepository, paymentRepository
      ensures Valid()
      ensures var check := BookingCheck(old(appointmentRepository.rows), doctorLeaveRepository.rows, patientRepository.ids,
                                        old(paymentRepository.rows), dto, now);
        && (check.Some? ==> outcome == Rejected(check.value))
        && (check.None? && lost ==> outcome == LostRace)
        && (check.None? && !lost ==>
              && outcome.Done?
              && BookingApplied(old(appointmentRepository.rows), old(statusHistoryRepository.entries), old(paymentRepository.rows),
                                appointmentRepository.rows, statusHistoryRepository.entries, paymentRepository.rows,
                                dto, uuid, now, outcome.response))
        && (!outcome.Done? ==> && appointmentRepository.rows == old(appointmentRepository.rows)
                                 && statusHistoryRepository.entries == old(statusHistoryRepository.entries)
                                 && paymentRepository.rows == old(paymentRepository.rows))
    {
      if dto.appointmentId !in appointmentRepository.rows {
        return Rejected(AppointmentNotFound(dto.appointmentId));
      }
      var appointment := appointmentRepository.rows[dto.appointmentId];
      if appointment.status != Available {
        return Rejected(SlotNotAvailable(appointment.status));
      }
      if appointment.reservedByPatientId.Some? {
        if appointment.reservedByPatientId.value != dto.patientId {
          return Rejected(ReservedByAnotherUser);
        }
        if appointment.reservationExpiresAt.Some? && appointment.reservationExpiresAt.value < now {
          return Rejected(ReservationExpired);
        }
      }
      var appointmentDate := DateOf(appointment.appointmentTime);
      if IsDoctorOnLeave(doctorLeaveRepository.rows, appointment.doctorId, appointmentDate) {
        return Rejected(DoctorOnLeave(appointmentDate));
      }
      if dto.patientId !in patientRepository.ids {
        return Rejected(PatientNotFound(dto.patientId));
      }
      if HasPaymentFor(paymentRepository.rows, appointment.id) {
        return Rejected(PaymentAlreadyExists);
      }
      if lost {
        return LostRace;
      }
      var fromStatus := appointment.status;
      var booked := appointment.(patientId := Some(dto.patientId), status := Booked,
                                 reservedByPatientId := None, reservationExpiresAt := None);
      appointmentRepository.Save(booked);
      statusHistoryRepository.Append(StatusHistoryEntry(booked.id, fromStatus, Booked, now, ActorTag(dto.patientId), BookingNote));
      var payment := NewPayment(booked.id, dto.paymentMethod, dto.amount, dto.cardDetails, dto.notes, uuid, now);
      var savedPayment := paymentRepository.Insert(payment);
      var message := "Appointment booked successfully with "
                     + (if dto.paymentMethod == Cash then "cash payment (pending at clinic)" else "card payment");
      return Done(BookingResponse(booked, savedPayment, message));
    }

    /** bookAppointmentWithPayment: up to three attempts; only a lost race
        leads to another attempt, and three lost races end in "just booked by
        another user". Any other failure ends the booking at once. */
    method BookAppointmentWithPayment(dto: BookingWithPayment, uuid: string, now: int, lostRace: seq<bool>)
      returns (r: Result<BookingResponse, PaymentError>)
      requires Valid() && |uuid| >= 8
      modifies appointmentRepository, statusHistoryRepository, paymentRepository
      ensures Valid()
      ensures var check := BookingCheck(old(appointmentRepository.rows), doctorLeaveRepository.rows, patientRepository.ids,
                                        old(paymentRepository.rows), dto, now);
        && (check.Some? ==> r == Failure(check.value))
        && (check.None? && LosesEveryAttempt(lostRace) ==> r == Failure(JustBookedByAnotherUser))
        && (check.None? && !LosesEveryAttempt(lostRace) ==>
              && r.Success?
              && BookingApplied(old(appointmentRepository.rows), old(statusHistoryRepository.entries), old(paymentRepository.rows),
                                appointmentRepository.rows, statusHistoryRepository.entries, paymentRepository.rows,
                                dto, uuid, now, r.value))
        && (r.Failure? ==> && appointmentRepository.rows == old(appointmentRepository.rows)
                           && statusHistoryRepository.entries == old(statusHistoryRepository.entries)
                           && paymentRepository.rows == old(paymentRepository.rows))
    {
      var retryCount := 0;
      while retryCount < MaxRetries
        invariant 0 <= retryCount < MaxRetries
        invariant Valid()
        invariant forall attempt :: 0 <= attempt < retryCount ==> LostAt(lostRace, attempt)
        invariant BookingCheck(appointmentRepository.rows, doctorLeaveRepository.rows, patientRepository.ids,
                               paymentRepository.rows, dto, now).None?
                  || retryCount == 0
        invariant appointmentRepository.rows == old(appointmentRepository.rows)
        invariant statusHistoryRepository.entries == old(statusHistoryRepository.entries)
        invariant paymentRepository.rows == old(paymentRepository.rows)
      {
        var outcome := AttemptBookingWithPayment(dto, uuid, now, LostAt(lostRace, retryCount));
        match outcome {
          case Done(response) =>
            return Success(response);
          case Rejected(error) =>
            return Failure(error);
          case LostRace =>
            retryCount := retryCount + 1;
            if retryCount >= MaxRetries {
              return Failure(JustBookedByAnotherUser);
            }
        }
      }
      r := Failure(FailedAfterMultipleAttempts);
    }

    /** cancelPayment: fails for an unknown payment or one already
        cancelled; otherwise only its status changes, to CANCELLED. */
    method CancelPayment(paymentId: int) returns (r: Result<Payment, PaymentError>)
      requires paymentRepository.Valid()
      modifies paymentRepository
      ensures paymentRepository.Valid()
      ensures paymentId !in old(paymentRepository.rows) ==>
        r == Failure(PaymentNotFound(paymentId)) && paymentRepository.rows == old(paymentRepository.rows)
      ensures paymentId in old(paymentRepository.rows) && old(paymentRepository.rows)[paymentId].paymentStatus == PaymentCancelled ==>
        r == Failure(PaymentAlreadyCancelled) && paymentRepository.rows == old(paymentRepository.rows)
      ensures paymentId in old(paymentRepository.rows) && old(paymentRepository.rows)[paymentId].paymentStatus != PaymentCancelled ==>
        && r == Success(old(paymentRepository.rows)[paymentId].(paymentStatus := PaymentCancelled))
        && paymentRepository.rows == old(paymentRepository.rows)[paymentId := r.value]
    {
      if paymentId !in paymentRepository.rows {
        return Failure(PaymentNotFound(paymentId));
      }
      var payment := paymentRepository.rows[paymentId];
      if payment.paymentStatus == PaymentCancelled {
        return Failure(PaymentAlreadyCancelled);
      }
      var cancelled := payment.(paymentStatus := PaymentCancelled);
      paymentRepository.Save(cancelled);
      return Success(cancelled);
    }
  }
}
