/** The temporary reservation lock a patient takes on an appointment slot
    while paying for it: reserve (with renewal and takeover of an expired
    lock), release, the availability check, and the periodic sweep that clears
    expired locks. The clock is the parameter `now`. */
module Reservation {
  import opened Common
  import opened Entities
  import opened Repositories
  import opened Seqs

  /** How long a reservation lasts, in minutes. */
  const ReservationDurationMinutes := 5

  /* ------------------------------------------------------------------
     The lock on one row
     ------------------------------------------------------------------ */

  /** Another patient holds a lock that is still running at `now`. A lock
      whose expiry is missing, or equal to `now`, does not stop anyone. */
  predicate HeldByAnother(a: Appointment, patientId: int, now: int) {
    && a.reservedByPatientId.Some?
    && a.reservationExpiresAt.Some? && a.reservationExpiresAt.value > now
    && a.reservedByPatientId.value != patientId
  }

  /** reserveSlot succeeds on this row. */
  predicate CanReserve(a: Appointment, patientId: int, now: int) {
    a.patientId.None? && !HeldByAnother(a, patientId, now)
  }

  /** The row after a successful reservation. */
  function Reserved(a: Appointment, patientId: int, now: int): Appointment {
    a.(reservedByPatientId := Some(patientId), reservationExpiresAt := Some(now + ReservationDurationMinutes))
  }

  /** Both lock fields cleared together. */
  function Unlocked(a: Appointment): Appointment {
    a.(reservedByPatientId := None, reservationExpiresAt := None)
  }

  /** The row after releaseReservation: only the holder of the lock on an
      unbooked slot clears it; in every other case nothing changes. */
  function Released(a: Appointment, patientId: int): (r: Appointment)
    ensures r == a.(reservedByPatientId := r.reservedByPatientId, reservationExpiresAt := r.reservationExpiresAt)
    ensures r.reservedByPatientId.Some? ==> r.reservedByPatientId != Some(patientId) || a.patientId.Some?
  {
    if a.patientId.None? && a.reservedByPatientId == Some(patientId) then Unlocked(a) else a
  }

  /** isSlotAvailable on this row: unbooked, and either unlocked, locked with
      an expiry strictly before `now`, or locked by the asking patient. */
  predicate AvailableFor(a: Appointment, patientId: int, now: int) {
    && a.patientId.None?
    && (|| a.reservedByPatientId.None?
        || (a.reservationExpiresAt.Some? && a.reservationExpiresAt.value < now)
        || a.reservedByPatientId == Some(patientId))
  }

  /** The sweep clears this row's lock: its expiry lies before `now` and the
      slot is unbooked. */
  predicate Expired(a: Appointment, now: int) {
    a.reservationExpiresAt.Some? && a.reservationExpiresAt.value < now && a.patientId.None?
  }

  function Swept(a: Appointment, now: int): (r: Appointment)
    ensures r == a.(reservedByPatientId := r.reservedByPatientId, reservationExpiresAt := r.reservationExpiresAt)
    ensures !Expired(r, now)
  {
    if Expired(a, now) then Unlocked(a) else a
  }

  /** The lock fields are set and cleared together, and only an unbooked
      slot carries a lock. */
  predicate LockConsistent(a: Appointment) {
    && (a.reservedByPatientId.Some? <==> a.reservationExpiresAt.Some?)
    && (a.reservedByPatientId.Some? ==> a.patientId.None?)
  }

  /* ------------------------------------------------------------------
     Properties of the lock
     ------------------------------------------------------------------ */

  /** Once patient `p` holds the lock taken at `t`, another patient cannot
      reserve before `t + 5` and can from `t + 5` on; `p` can renew at any time. */
  lemma ReservationExclusive(a: Appointment, p: int, q: int, t: int, later: int)
    requires CanReserve(a, p, t) && p != q && t <= later
    ensures CanReserve(Reserved(a, p, t), q, later) <==> later >= t + ReservationDurationMinutes
    ensures CanReserve(Reserved(a, p, t), p, later)
    ensures Reserved(Reserved(a, p, t), p, later).reservationExpiresAt == Some(later + ReservationDurationMinutes)
  {
  }

  /** Release and the sweep are idempotent. */
  lemma ReleaseAndSweepIdempotent(a: Appointment, p: int, now: int)
    ensures Released(Released(a, p), p) == Released(a, p)
    ensures Swept(Swept(a, now), now) == Swept(a, now)
  {
  }

  /** The availability check never promises more than reserveSlot grants; the
      two disagree only on a lock of another patient whose expiry is missing
      or is exactly `now`, which reserveSlot takes over and isSlotAvailable
      still reports as taken. */
  lemma AvailabilityVersusReserve(a: Appointment, p: int, now: int)
    ensures AvailableFor(a, p, now) ==> CanReserve(a, p, now)
    ensures CanReserve(a, p, now) && !AvailableFor(a, p, now)
        <==> && a.patientId.None?
             && a.reservedByPatientId.Some? && a.reservedByPatientId.value != p
             && (a.reservationExpiresAt.None? || a.reservationExpiresAt.value == now)
  {
  }

  /** Every operation on the lock keeps the lock fields consistent. */
  lemma LockConsistencyPreserved(a: Appointment, p: int, now: int)
    requires LockConsistent(a)
    ensures CanReserve(a, p, now) ==> LockConsistent(Reserved(a, p, now))
    ensures LockConsistent(Released(a, p))
    ensures LockConsistent(Swept(a, now))
  {
  }

  /* ------------------------------------------------------------------
     The service
     ------------------------------------------------------------------ */

  class AppointmentReservationService {
    const appointmentRepository: AppointmentRepository

    constructor (appointmentRepository: AppointmentRepository)
      ensures this.appointmentRepository == appointmentRepository
    {
      this.appointmentRepository := appointmentRepository;
    }

    /** reserveSlot: false, with nothing changed, for an unknown slot, a
        booked slot, or one another patient holds; otherwise the caller holds
        the lock until `now + 5` (new lock, renewal or takeover). */
    method ReserveSlot(appointmentId: int, patientId: int, now: int) returns (reserved: bool)
      requires appointmentRepository.Valid()
      modifies appointmentRepository
      ensures appointmentRepository.Valid()
      ensures reserved <==> (appointmentId in old(appointmentRepository.rows)
                             && CanReserve(old(appointmentRepository.rows)[appointmentId], patientId, now))
      ensures reserved ==> appointmentRepository.rows
                           == old(appointmentRepository.rows)[appointmentId := Reserved(old(appointmentRepository.rows)[appointmentId], patientId, now)]
      ensures !reserved ==> appointmentRepository.rows == old(appointmentRepository.rows)
    {
      if appointmentId !in appointmentRepository.rows {
        return false;
      }
      var appointment := appointmentRepository.rows[appointmentId];
      if appointment.patientId.Some? {
        return false;
      }
      if appointment.reservedByPatientId.Some? {
        if appointment.reservationExpiresAt.Some? && appointment.reservationExpiresAt.value > now {
          if appointment.reservedByPatientId.value != patientId {
            return false;
          }
        }
      }
      appointmentRepository.Save(appointment.(reservedByPatientId := Some(patientId),
                                              reservationExpiresAt := Some(now + ReservationDurationMinutes)));
      return true;
    }

    /** releaseReservation: never fails; clears both lock fields when the
        caller holds the lock on an unbooked slot, and changes nothing otherwise. */
    method ReleaseReservation(appointmentId: int, patientId: int)
      requires appointmentRepository.Valid()
      modifies appointmentRepository
      ensures appointmentRepository.Valid()
      ensures appointmentId !in old(appointmentRepository.rows) ==> appointmentRepository.rows == old(appointmentRepository.rows)
      ensures appointmentId in old(appointmentRepository.rows) ==>
                appointmentRepository.rows
                == old(appointmentRepository.rows)[appointmentId := Released(old(appointmentRepository.rows)[appointmentId], patientId)]
    {
      if appointmentId !in appointmentRepository.rows {
        return;
      }
      var appointment := appointmentRepository.rows[appointmentId];
      if appointment.patientId.Some? {
        return;
      }
      if appointment.reservedByPatientId.Some? && appointment.reservedByPatientId.value == patientId {
        appointmentRepository.Save(appointment.(reservedByPatientId := None, reservationExpiresAt := None));
      }
    }

    /** isSlotAvailable: false for an unknown or booked slot; true when the
        slot is unlocked, its lock expired before `now`, or the caller holds it. */
    method IsSlotAvailable(appointmentId: int, patientId: int, now: int) returns (available: bool)
      ensures available <==> appointmentId in appointmentRepository.rows
                             && AvailableFor(appointmentRepository.rows[appointmentId], patientId, now)
    {
      if appointmentId !in appointmentRepository.rows {
        return false;
      }
      var appointment := appointmentRepository.rows[appointmentId];
      if appointment.patientId.Some? {
        return false;
      }
      if appointment.reservedByPatientId.Some? {
        if appointment.reservationExpiresAt.Some? && appointment.reservationExpiresAt.value < now {
          return true;
        }
        if appointment.reservedByPatientId.value == patientId {
          return true;
        }
        return false;
      }
      return true;
    }

    /** cleanupExpiredReservations: visits every row and clears the lock of
        exactly those unbooked rows whose expiry lies before `now`. */
    method CleanupExpiredReservations(now: int)
      requires appointmentRepository.Valid()
      modifies appointmentRepository
      ensures appointmentRepository.Valid()
      ensures appointmentRepository.rows.Keys == old(appointmentRepository.rows).Keys
      ensures forall id :: id in appointmentRepository.rows ==>
                appointmentRepository.rows[id] == Swept(old(appointmentRepository.rows)[id], now)
    {
      ghost var before := appointmentRepository.rows;
      var pending := appointmentRepository.rows.Keys;
      while pending != {}
        invariant appointmentRepository.Valid()
        invariant pending <= before.Keys
        invariant appointmentRepository.rows.Keys == before.Keys
        invariant forall id :: id in pending ==> appointmentRepository.rows[id] == before[id]
        invariant forall id :: id in before && id !in pending ==> appointmentRepository.rows[id] == Swept(before[id], now)
        decreases pending
      {
        NonEmptyHasMember(pending);
        var key :| key in pending;
        var appointment := appointmentRepository.rows[key];
        if appointment.reservationExpiresAt.Some? && appointment.reservationExpiresAt.value < now
           && appointment.patientId.None? {
          appointmentRepository.Save(appointment.(reservedByPatientId := None, reservationExpiresAt := None));
        }
        pending := pending - {key};
      }
    }
  }
}
