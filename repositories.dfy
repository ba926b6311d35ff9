/** The persistence layer: one class per repository, holding its table, and
    the derived queries the services issue against those tables.
    Appointments and payments are looked up by key only, so their tables are
    maps from id to row. Leaves and working hours are read through queries
    with an ORDER BY, so their tables are sequences in storage order. Every
    repository that inserts rows hands out identities from a counter, as an
    IDENTITY column does. */
module Repositories {
  import opened Common
  import opened Entities
  import opened Seqs

  /* ---------------------------------------------------------------- appointments */

  class AppointmentRepository {
    var rows: map<int, Appointment>
    var nextId: int

    ghost predicate Valid()
      reads this
    {
      forall id :: id in rows ==> rows[id].id == id && id < nextId
    }

    constructor ()
      ensures Valid() && rows == map[]
    {
      rows, nextId := map[], 1;
    }

    /** Writes back a row that exists. */
    method Save(a: Appointment)
      requires Valid() && a.id in rows
      modifies this
      ensures Valid() && nextId == old(nextId)
      ensures rows == old(rows)[a.id := a]
    {
      rows := rows[a.id := a];
    }

    /** Inserts a new row under a fresh identity. */
    method Insert(a: Appointment) returns (saved: Appointment)
      requires Valid()
      modifies this
      ensures Valid()
      ensures saved == a.(id := saved.id) && saved.id !in old(rows)
      ensures rows == old(rows)[saved.id := saved]
    {
      saved := a.(id := nextId);
      rows := rows[nextId := saved];
      nextId := nextId + 1;
    }
  }

  /** findByDoctorIdAndAppointmentTimeBetween: the doctor's appointments whose
      time lies in [from, to], both ends included. */
  function AppointmentsBetween(rows: map<int, Appointment>, doctorId: int, from: int, to: int): (r: map<int, Appointment>)
    ensures forall id :: id in r <==> id in rows && rows[id].doctorId == doctorId && from <= rows[id].appointmentTime <= to
    ensures forall id :: id in r ==> r[id] == rows[id]
  {
    map id | id in rows && rows[id].doctorId == doctorId && from <= rows[id].appointmentTime <= to :: rows[id]
  }

  /* ---------------------------------------------------------------- payments */

  /** findByAppointmentId(...).isPresent() */
  predicate HasPaymentFor(rows: map<int, Payment>, appointmentId: int) {
    exists id :: id in rows && rows[id].appointmentId == appointmentId
  }

  class PaymentRepository {
    var rows: map<int, Payment>
    var nextId: int

    /** Identities are keys, and the appointment column is unique. */
    ghost predicate Valid()
      reads this
    {
      && (forall id :: id in rows ==> rows[id].id == id && id < nextId)
      && (forall i, j :: i in rows && j in rows && rows[i].appointmentId == rows[j].appointmentId ==> i == j)
    }

    constructor ()
      ensures Valid() && rows == map[]
    {
      rows, nextId := map[], 1;
    }

    method Save(p: Payment)
      requires Valid() && p.id in rows && rows[p.id].appointmentId == p.appointmentId
      modifies this
      ensures Valid() && nextId == old(nextId)
      ensures rows == old(rows)[p.id := p]
    {
      rows := rows[p.id := p];
    }

    /** Inserts a payment; the unique constraint on the appointment column
        admits it only for an appointment that has none yet. */
    method Insert(p: Payment) returns (saved: Payment)
      requires Valid() && !HasPaymentFor(rows, p.appointmentId)
      modifies this
      ensures Valid()
      ensures saved == p.(id := saved.id) && saved.id !in old(rows)
      ensures rows == old(rows)[saved.id := saved]
    {
      saved := p.(id := nextId);
      rows := rows[nextId := saved];
      nextId := nextId + 1;
    }
  }

  /* ---------------------------------------------------------------- history, patients, doctors */

  class StatusHistoryRepository {
    var entries: seq<StatusHistoryEntry>

    constructor ()
      ensures entries == []
    {
      entries := [];
    }

    method Append(e: StatusHistoryEntry)
      modifies this
      ensures entries == old(entries) + [e]
    {
      entries := entries + [e];
    }
  }

  /** Only the existence of a patient matters to the core. */
  class PatientRepository {
    var ids: set<int>

    constructor (ids: set<int>)
      ensures this.ids == ids
    {
      this.ids := ids;
    }
  }

  class DoctorRepository {
    var rows: map<int, Doctor>

    constructor (rows: map<int, Doctor>)
      ensures this.rows == rows
    {
      this.rows := rows;
    }
  }

  /* ---------------------------------------------------------------- doctor leaves */

  ghost predicate DistinctLeaveIds(rows: seq<DoctorLeave>, nextId: int) {
    && (forall i, j :: 0 <= i < j < |rows| ==> rows[i].id != rows[j].id)
    && (forall i :: 0 <= i < |rows| ==> rows[i].id < nextId)
  }

  /** findById: the position of the leave with that id. */
  function FindLeave(rows: seq<DoctorLeave>, id: int): (r: Option<nat>)
    ensures r.Some? ==> r.value < |rows| && rows[r.value].id == id
    ensures r.None? ==> forall i :: 0 <= i < |rows| ==> rows[i].id != id
  {
    IndexWhere(rows, (l: DoctorLeave) => l.id == id)
  }

  class DoctorLeaveRepository {
    var rows: seq<DoctorLeave>
    var nextId: int

    ghost predicate Valid()
      reads this
    {
      DistinctLeaveIds(rows, nextId)
    }

    constructor ()
      ensures Valid() && rows == []
    {
      rows, nextId := [], 1;
    }

    method Insert(l: DoctorLeave) returns (saved: DoctorLeave)
      requires Valid()
      modifies this
      ensures Valid()
      ensures saved == l.(id := saved.id) && FindLeave(old(rows), saved.id).None?
      ensures rows == old(rows) + [saved]
    {
      saved := l.(id := nextId);
      rows := rows + [saved];
      nextId := nextId + 1;
    }

    /** Writes back the row at position `i`, which holds the same identity. */
    method Save(i: nat, l: DoctorLeave)
      requires Valid() && i < |rows| && rows[i].id == l.id
      modifies this
      ensures Valid() && nextId == old(nextId)
      ensures rows == old(rows)[i := l]
    {
      rows := rows[i := l];
    }

    method DeleteAt(i: nat)
      requires Valid() && i < |rows|
      modifies this
      ensures Valid() && nextId == old(nextId)
      ensures rows == RemoveAt(old(rows), i)
    {
      rows := RemoveAt(rows, i);
    }
  }

  /* ---------------------------------------------------------------- working hours */

  ghost predicate DistinctHourIds(rows: seq<WorkingHour>, nextId: int) {
    && (forall i, j :: 0 <= i < j < |rows| ==> rows[i].id != rows[j].id)
    && (forall i :: 0 <= i < |rows| ==> rows[i].id < nextId)
  }

  /** findByIdAndDoctorId: the position of that doctor's working hour with that id. */
  function FindHour(rows: seq<WorkingHour>, id: int, doctorId: int): (r: Option<nat>)
    ensures r.Some? ==> r.value < |rows| && rows[r.value].id == id && rows[r.value].doctorId == doctorId
    ensures r.None? ==> forall i :: 0 <= i < |rows| ==> !(rows[i].id == id && rows[i].doctorId == doctorId)
  {
    IndexWhere(rows, (wh: WorkingHour) => wh.id == id && wh.doctorId == doctorId)
  }

  /** findByDoctorIdAndDayOfWeekOrderByStartTimeAsc */
  function SameDayHours(rows: seq<WorkingHour>, doctorId: int, dayOfWeek: int): (r: seq<WorkingHour>)
    ensures forall wh :: wh in r <==> wh in rows && wh.doctorId == doctorId && wh.dayOfWeek == dayOfWeek
    ensures forall i, j :: 0 <= i < j < |r| ==> r[i].startTime <= r[j].startTime
  {
    SelectOrdered(rows, (wh: WorkingHour) => wh.doctorId == doctorId && wh.dayOfWeek == dayOfWeek,
                  (wh: WorkingHour) => wh.startTime)
  }

  class WorkingHourRepository {
    var rows: seq<WorkingHour>
    var nextId: int

    ghost predicate Valid()
      reads this
    {
      DistinctHourIds(rows, nextId)
    }

    constructor ()
      ensures Valid() && rows == []
    {
      rows, nextId := [], 1;
    }

    method Insert(wh: WorkingHour) returns (saved: WorkingHour)
      requires Valid()
      modifies this
      ensures Valid()
      ensures saved == wh.(id := saved.id) && forall i :: 0 <= i < |old(rows)| ==> old(rows)[i].id != saved.id
      ensures rows == old(rows) + [saved]
    {
      saved := wh.(id := nextId);
      rows := rows + [saved];
      nextId := nextId + 1;
    }

    method Save(i: nat, wh: WorkingHour)
      requires Valid() && i < |rows| && rows[i].id == wh.id
      modifies this
      ensures Valid() && nextId == old(nextId)
      ensures rows == old(rows)[i := wh]
    {
      rows := rows[i := wh];
    }

    method DeleteAt(i: nat)
      requires Valid() && i < |rows|
      modifies this
      ensures Valid() && nextId == old(nextId)
      ensures rows == RemoveAt(old(rows), i)
    {
      rows := RemoveAt(rows, i);
    }
  }
}
