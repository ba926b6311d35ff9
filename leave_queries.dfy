/** The declarative queries of the doctor-leave repository: whether a doctor
    is on leave on a date, and the leaves that fall into a range of dates. */
module LeaveQueries {
  import opened Common
  import opened Entities
  import opened Seqs

  /** `date BETWEEN startDate AND endDate`: both ends included. */
  predicate Covers(l: DoctorLeave, date: int) {
    l.startDate <= date <= l.endDate
  }

  /** A leave counts against a doctor's availability on a date only when it
      is approved and covers that date. */
  predicate Blocks(l: DoctorLeave, doctorId: int, date: int) {
    l.doctorId == doctorId && l.status == LeaveApproved && Covers(l, date)
  }

  /** isDoctorOnLeave: some leave of the doctor blocks the date. */
  predicate IsDoctorOnLeave(rows: seq<DoctorLeave>, doctorId: int, date: int) {
    exists i :: 0 <= i < |rows| && Blocks(rows[i], doctorId, date)
  }

  /** Pending, rejected and cancelled leaves never put a doctor on leave:
      removing every leave that is not approved leaves the answer unchanged. */
  lemma OnlyApprovedLeavesCount(rows: seq<DoctorLeave>, doctorId: int, date: int)
    ensures IsDoctorOnLeave(rows, doctorId, date)
        <==> IsDoctorOnLeave(Filter(rows, (l: DoctorLeave) => l.status == LeaveApproved), doctorId, date)
  {
    var approved := Filter(rows, (l: DoctorLeave) => l.status == LeaveApproved);
    if IsDoctorOnLeave(rows, doctorId, date) {
      var i :| 0 <= i < |rows| && Blocks(rows[i], doctorId, date);
      assert rows[i] in approved;
      var k :| 0 <= k < |approved| && approved[k] == rows[i];
      assert Blocks(approved[k], doctorId, date);
    }
    if IsDoctorOnLeave(approved, doctorId, date) {
      var k :| 0 <= k < |approved| && Blocks(approved[k], doctorId, date);
      assert approved[k] in rows;
      var i :| 0 <= i < |rows| && rows[i] == approved[k];
      assert Blocks(rows[i], doctorId, date);
    }
  }

  /** A leave in any status other than approved can be added to the table
      without changing whether anyone is on leave. */
  lemma UnapprovedLeaveIsInert(rows: seq<DoctorLeave>, l: DoctorLeave, doctorId: int, date: int)
    requires l.status != LeaveApproved
    ensures IsDoctorOnLeave(rows + [l], doctorId, date) <==> IsDoctorOnLeave(rows, doctorId, date)
  {
    if IsDoctorOnLeave(rows + [l], doctorId, date) {
      var i :| 0 <= i < |rows + [l]| && Blocks((rows + [l])[i], doctorId, date);
      assert i < |rows| && Blocks(rows[i], doctorId, date);
    }
    if IsDoctorOnLeave(rows, doctorId, date) {
      var i :| 0 <= i < |rows| && Blocks(rows[i], doctorId, date);
      assert Blocks((rows + [l])[i], doctorId, date);
    }
  }

  /** The range condition of both range queries: the leave starts in
      [s, e], ends in [s, e], or spans all of [s, e]. */
  predicate InDateRange(l: DoctorLeave, s: int, e: int) {
    || (s <= l.startDate <= e)
    || (s <= l.endDate <= e)
    || (l.startDate <= s && l.endDate >= e)
  }

  /** For well-formed ranges the three-way condition is exactly the overlap of
      the closed intervals [startDate, endDate] and [s, e]. */
  lemma InDateRangeIsClosedOverlap(l: DoctorLeave, s: int, e: int)
    requires l.startDate <= l.endDate && s <= e
    ensures InDateRange(l, s, e) <==> (l.startDate <= e && s <= l.endDate)
  {
  }

  /** A leave selected for a range covers some date of that range. */
  lemma InDateRangeSharesDate(l: DoctorLeave, s: int, e: int)
    requires l.startDate <= l.endDate && s <= e && InDateRange(l, s, e)
    ensures Covers(l, if l.startDate <= s then s else l.startDate)
    ensures s <= (if l.startDate <= s then s else l.startDate) <= e
  {
  }

  predicate ApprovedInRange(l: DoctorLeave, doctorId: int, s: int, e: int) {
    l.doctorId == doctorId && l.status == LeaveApproved && InDateRange(l, s, e)
  }

  /** findApprovedLeavesByDoctorAndDateRange (no ORDER BY: storage order). */
  function FindApprovedLeavesByDoctorAndDateRange(rows: seq<DoctorLeave>, doctorId: int, s: int, e: int): (r: seq<DoctorLeave>)
    ensures forall i :: 0 <= i < |r| ==> r[i] in rows && ApprovedInRange(r[i], doctorId, s, e)
    ensures forall i :: 0 <= i < |rows| && ApprovedInRange(rows[i], doctorId, s, e) ==> rows[i] in r
  {
    Filter(rows, (l: DoctorLeave) => ApprovedInRange(l, doctorId, s, e))
  }

  /** findLeavesByDateRange: every leave in the range whatever its doctor and
      status, ordered by start date. */
  function FindLeavesByDateRange(rows: seq<DoctorLeave>, s: int, e: int): (r: seq<DoctorLeave>)
    ensures forall l :: l in r <==> l in rows && InDateRange(l, s, e)
    ensures forall i, j :: 0 <= i < j < |r| ==> r[i].startDate <= r[j].startDate
    ensures multiset(r) == multiset(Filter(rows, (l: DoctorLeave) => InDateRange(l, s, e)))
  {
    SelectOrdered(rows, (l: DoctorLeave) => InDateRange(l, s, e), (l: DoctorLeave) => l.startDate)
  }

  /** findByDoctorIdOrderByStartDateDesc: the doctor's leaves, latest start first. */
  function FindByDoctorIdOrderByStartDateDesc(rows: seq<DoctorLeave>, doctorId: int): (r: seq<DoctorLeave>)
    ensures forall l :: l in r <==> l in rows && l.doctorId == doctorId
    ensures forall i, j :: 0 <= i < j < |r| ==> r[i].startDate >= r[j].startDate
    ensures multiset(r) == multiset(Filter(rows, (l: DoctorLeave) => l.doctorId == doctorId))
  {
    SelectOrdered(rows, (l: DoctorLeave) => l.doctorId == doctorId, (l: DoctorLeave) => -l.startDate)
  }

  /** findByStatusOrderByRequestedAtDesc: the leaves in one status, latest
      request first. */
  function FindByStatusOrderByRequestedAtDesc(rows: seq<DoctorLeave>, status: LeaveStatus): (r: seq<DoctorLeave>)
    ensures forall l :: l in r <==> l in rows && l.status == status
    ensures forall i, j :: 0 <= i < j < |r| ==> r[i].requestedAt >= r[j].requestedAt
    ensures multiset(r) == multiset(Filter(rows, (l: DoctorLeave) => l.status == status))
  {
    SelectOrdered(rows, (l: DoctorLeave) => l.status == status, (l: DoctorLeave) => -l.requestedAt)
  }

  /** findByDoctorIdAndStatusOrderByStartDateDesc */
  function FindByDoctorIdAndStatusOrderByStartDateDesc(rows: seq<DoctorLeave>, doctorId: int, status: LeaveStatus)
    : (r: seq<DoctorLeave>)
    ensures forall l :: l in r <==> l in rows && l.doctorId == doctorId && l.status == status
    ensures forall i, j :: 0 <= i < j < |r| ==> r[i].startDate >= r[j].startDate
    ensures multiset(r) == multiset(Filter(rows, (l: DoctorLeave) => l.doctorId == doctorId && l.status == status))
  {
    SelectOrdered(rows, (l: DoctorLeave) => l.doctorId == doctorId && l.status == status, (l: DoctorLeave) => -l.startDate)
  }

  /** The approved-range query answers "some approved leave of the doctor
      overlaps [s, e]" exactly when the range is well formed. */
  lemma ApprovedRangeQueryMeansOverlap(rows: seq<DoctorLeave>, doctorId: int, s: int, e: int)
    requires s <= e
    requires forall i :: 0 <= i < |rows| ==> rows[i].startDate <= rows[i].endDate
    ensures FindApprovedLeavesByDoctorAndDateRange(rows, doctorId, s, e) != []
        <==> exists d :: s <= d <= e && IsDoctorOnLeave(rows, doctorId, d)
  {
    var r := FindApprovedLeavesByDoctorAndDateRange(rows, doctorId, s, e);
    if r != [] {
      var l := r[0];
      var i :| 0 <= i < |rows| && rows[i] == l;
      var d := if l.startDate <= s then s else l.startDate;
      InDateRangeSharesDate(l, s, e);
      assert Blocks(rows[i], doctorId, d);
      assert s <= d <= e && IsDoctorOnLeave(rows, doctorId, d);
    }
    if exists d :: s <= d <= e && IsDoctorOnLeave(rows, doctorId, d) {
      var d :| s <= d <= e && IsDoctorOnLeave(rows, doctorId, d);
      var i :| 0 <= i < |rows| && Blocks(rows[i], doctorId, d);
      assert ApprovedInRange(rows[i], doctorId, s, e);
      assert rows[i] in r;
      assert r != [];
    }
  }
}
