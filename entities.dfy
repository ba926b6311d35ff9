/** The persisted records of the clinic, as values. Nullable columns are
    Options; dates are day numbers, instants are minutes and times of day are
    minutes since midnight (see module Common). */
module Entities {
  import opened Common

  datatype AppointmentStatus = Available | Booked | Confirmed | Cancelled | Completed

  /** An appointment row. A row with status Available and no patient is a
      bookable slot; `reservedByPatientId` and `reservationExpiresAt` form the
      temporary reservation lock taken while a patient pays. */
  datatype Appointment = Appointment(
    id: int,
    doctorId: int,
    patientId: Option<int>,
    appointmentTime: int,
    reason: Option<string>,
    status: AppointmentStatus,
    reservedByPatientId: Option<int>,
    reservationExpiresAt: Option<int>)

  /** The source tells only CASH apart from every other method. */
  datatype PaymentMethod = Cash | OtherMethod(name: string)

  datatype PaymentStatus = PaymentPending | PaymentCompleted | PaymentCancelled

  /** A payment; the amount (a decimal in the source) is an opaque integer. */
  datatype Payment = Payment(
    id: int,
    appointmentId: int,
    paymentMethod: PaymentMethod,
    paymentStatus: PaymentStatus,
    amount: int,
    transactionId: string,
    cardDetails: Option<string>,
    createdAt: int,
    paidAt: Option<int>,
    notes: Option<string>)

  /** One audit row per status change of an appointment. */
  datatype StatusHistoryEntry = StatusHistoryEntry(
    appointmentId: int,
    fromStatus: AppointmentStatus,
    toStatus: AppointmentStatus,
    changedAt: int,
    changedBy: string,
    note: string)

  datatype LeaveStatus = LeavePending | LeaveApproved | LeaveRejected | LeaveCancelled

  datatype LeaveType = SickLeave | Vacation | Emergency | Conference | Personal | Maternity | Paternity | OtherLeave

  datatype DoctorLeave = DoctorLeave(
    id: int,
    doctorId: int,
    leaveType: LeaveType,
    startDate: int,
    endDate: int,
    reason: Option<string>,
    status: LeaveStatus,
    requestedAt: int,
    approvedBy: Option<string>,
    approvedAt: Option<int>,
    adminNotes: Option<string>,
    isHalfDay: Option<bool>)

  /** A recurring block of working time on one weekday (1 = Monday ... 7 =
      Sunday), optionally limited to a range of dates (inclusive bounds). */
  datatype WorkingHour = WorkingHour(
    id: int,
    doctorId: int,
    dayOfWeek: int,
    startTime: int,
    endTime: int,
    sequence: int,
    effectiveStartDate: Option<int>,
    effectiveEndDate: Option<int>)

  /** The doctor's configured slot length, when set. */
  datatype Doctor = Doctor(id: int, appointmentDurationMinutes: Option<int>)
}
