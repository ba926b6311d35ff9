# Clinic appointment core, modelled in Dafny

This project models the core of a clinic's appointment back end:

- **Reservation lock.** A patient holds a slot for five minutes while paying. The lock can be reserved, renewed or taken over once it has expired. It can be released, and a periodic sweep clears expired locks.
- **Booking with payment.** One operation books a slot and creates its payment. It checks its preconditions in order, and an attempt that loses an optimistic-lock race is retried at most three times. Payments can also be created on their own and cancelled.
- **Slot generation.** Candidate slots are derived from a doctor's weekly working hours, approved leave and existing appointments. This is done for one date or a range of dates, or as the check of a single instant. Bookable rows are created for the free slots.
- **Leave lifecycle.** A doctor requests a leave; it is approved or rejected, cancelled or deleted. The repository queries decide whether a doctor is on leave.
- **Working-hour schedule.** Each doctor's blocks must not overlap on the same weekday, and each block's sequence number must be unique for that day.

Representation:

- Every service is a class whose `const` fields are the repositories it uses.
- Every repository is a class whose table is a field.
  - Appointments and payments are `map`s from identity to row, because they are only read by key.
  - Leaves and working hours are `seq`s in storage order, because their queries sort them.
- A date is a day number.
- A time of day is a number of minutes since midnight.
- An instant is `date * 1440 + minute`.
- Day 0 is Thursday 1970-01-01, and weekdays run from 1 (Monday) to 7 (Sunday).

Each service method is proved against a specification function on the repository contents. The promised properties are proved as lemmas about those functions: exclusivity of the lock, the order of the booking checks, mutual exclusion of bookings, the shape and count of the generated slots, the leave lifecycle, and the non-overlap invariant of the schedule.

Some inputs that the source obtains from its environment are parameters here:

- The clock is the parameter `now`.
- The random UUID behind a transaction id is the parameter `uuid`.
- Whether a booking attempt loses the optimistic-lock race is read from an oracle `lostRace: seq<bool>`, with one entry per attempt.

Files:

| file | contents |
|---|---|
| common.dfy | `Option`, `Result`, time encoding, interval overlap, decimal rendering of ids |
| seqs.dfy | filter, stable sort, ordered selection, first index, removal at a position |
| entities.dfy | appointments, payments, history entries, leaves, working hours, doctors |
| repositories.dfy | repository classes and the derived queries on appointments, payments and working hours |
| leave_queries.dfy | the doctor-leave repository's queries |
| reservation.dfy | the reservation service |
| slot_generation.dfy | the slot generation service |
| payments.dfy | the payment service |
| doctor_leaves.dfy | the doctor-leave service |
| working_hours.dfy | the working-hour service |

## Model

| member | source | states |
|---|---|---|
| Common.AtRoundTrip | src/main/java/com/doctor/appointment/service/AppointmentSlotGenerationServiceImpl.java:82 | The instant made from a date and a time of day gives back that date and that time of day. |
| Common.DayOfWeek | src/main/java/com/doctor/appointment/service/AppointmentSlotGenerationServiceImpl.java:51 | The weekday of a date lies in 1..7, and 1970-01-01 is a Thursday. |
| Common.DayOfWeekCycle | src/main/java/com/doctor/appointment/service/AppointmentSlotGenerationServiceImpl.java:51 | Weekdays repeat every seven days, and the next date has the next weekday, with Sunday followed by Monday. |
| Common.Overlapping | src/main/java/com/doctor/appointment/service/AppointmentSlotGenerationServiceImpl.java:218-223 | Definition of the strict overlap test: each interval starts before the other ends, so intervals that only touch do not overlap. The working-hour service uses the same test (WorkingHourServiceImpl.java:107-109). |
| Common.OverlappingSymmetric | src/main/java/com/doctor/appointment/service/AppointmentSlotGenerationServiceImpl.java:218-223 | The strict overlap test gives the same answer whichever interval comes first. |
| Common.AdjacentNotOverlapping | src/main/java/com/doctor/appointment/service/AppointmentSlotGenerationServiceImpl.java:213-223 | Intervals that only touch do not overlap. |
| Common.NatToString | src/main/java/com/doctor/appointment/service/PaymentServiceImpl.java:162 | A non-negative id renders as a non-empty string of digits with no leading zero. |
| Common.ParseNatToString | src/main/java/com/doctor/appointment/service/PaymentServiceImpl.java:162 | Reading the digits back gives the number: rendering is invertible. |
| Common.IntToString | src/main/java/com/doctor/appointment/service/PaymentServiceImpl.java:162 | An id renders with a leading '-' exactly when it is negative. |
| Common.NatToStringInjective | src/main/java/com/doctor/appointment/service/PaymentServiceImpl.java:162 | Different non-negative numbers render differently. |
| Common.IntToStringInjective | src/main/java/com/doctor/appointment/service/PaymentServiceImpl.java:162 | Different ids render differently. |
| Seqs.Filter | src/main/java/com/doctor/appointment/repository/DoctorLeaveRepository.java:33-38 | The selection is no longer than its input. It holds exactly the input rows that meet the condition, each as often as the input holds it. |
| Seqs.SortBy | src/main/java/com/doctor/appointment/repository/DoctorLeaveRepository.java:49 | The result is sorted by the key and is a permutation of the input (equal multisets). |
| Seqs.SelectOrdered | src/main/java/com/doctor/appointment/repository/DoctorLeaveRepository.java:45-52 | A query with a WHERE and an ORDER BY returns exactly the matching rows, sorted, each as often as it is stored. |
| Seqs.IndexWhere | src/main/java/com/doctor/appointment/service/DoctorLeaveServiceImpl.java:94-95 | The first position whose row matches the condition; none exactly when no row matches. |
| Seqs.RemoveAt | src/main/java/com/doctor/appointment/service/DoctorLeaveServiceImpl.java:163 | Removing a position keeps the rows before it and shifts the rows after it down by one. |
| Repositories.AppointmentRepository.Save | src/main/java/com/doctor/appointment/service/AppointmentReservationService.java:61 | Writing back an existing row replaces exactly that row and keeps the ids consistent. |
| Repositories.AppointmentRepository.Insert | src/main/java/com/doctor/appointment/service/AppointmentSlotGenerationServiceImpl.java:193 | A new row is stored under a fresh id, and nothing else changes. |
| Repositories.AppointmentsBetween | src/main/java/com/doctor/appointment/repository/AppointmentRepository.java:20-23 | Returns exactly the doctor's appointments whose time lies in [from, to], both ends included. |
| Repositories.PaymentRepository.Save | src/main/java/com/doctor/appointment/service/PaymentServiceImpl.java:242 | Replaces one payment in place and keeps the appointment column unique. |
| Repositories.PaymentRepository.Insert | src/main/java/com/doctor/appointment/model/Payment.java:20-22 | Stores a payment under a fresh id. The unique constraint on the appointment column admits it only when the appointment has no payment yet. |
| Repositories.StatusHistoryRepository.Append | src/main/java/com/doctor/appointment/service/PaymentServiceImpl.java:164 | The history only grows, by the one new entry. |
| Repositories.FindLeave | src/main/java/com/doctor/appointment/service/DoctorLeaveServiceImpl.java:86-87 | Finds the position of the leave with the id, or reports that no leave has it. |
| Repositories.DoctorLeaveRepository.Insert | src/main/java/com/doctor/appointment/service/DoctorLeaveServiceImpl.java:66 | Appends the leave under an id that no stored leave has. |
| Repositories.DoctorLeaveRepository.Save | src/main/java/com/doctor/appointment/service/DoctorLeaveServiceImpl.java:113 | Replaces the leave in place and keeps the ids distinct. |
| Repositories.DoctorLeaveRepository.DeleteAt | src/main/java/com/doctor/appointment/service/DoctorLeaveServiceImpl.java:163 | Removes exactly that leave. |
| Repositories.FindHour | src/main/java/com/doctor/appointment/repository/WorkingHourRepository.java:13 | Finds the position of the doctor's block with the id, or reports that the doctor has none. |
| Repositories.SameDayHours | src/main/java/com/doctor/appointment/repository/WorkingHourRepository.java:12 | Returns exactly the doctor's blocks on the weekday, in order of start time. |
| Repositories.WorkingHourRepository.Insert | src/main/java/com/doctor/appointment/service/WorkingHourServiceImpl.java:54 | Appends the block under an id that no stored block has. |
| Repositories.WorkingHourRepository.Save | src/main/java/com/doctor/appointment/service/WorkingHourServiceImpl.java:72 | Replaces the block in place and keeps the ids distinct. |
| Repositories.WorkingHourRepository.DeleteAt | src/main/java/com/doctor/appointment/service/WorkingHourServiceImpl.java:81 | Removes exactly that block. |
| LeaveQueries.IsDoctorOnLeave | src/main/java/com/doctor/appointment/repository/DoctorLeaveRepository.java:26-30 | Definition: some stored leave of the doctor is APPROVED and its start and end dates enclose the date, both ends included. |
| LeaveQueries.OnlyApprovedLeavesCount | src/main/java/com/doctor/appointment/repository/DoctorLeaveRepository.java:26-30 | Whether a doctor is on leave depends only on the approved leaves: dropping every other leave changes no answer. |
| LeaveQueries.UnapprovedLeaveIsInert | src/main/java/com/doctor/appointment/repository/DoctorLeaveRepository.java:28 | Adding a leave that is pending, rejected or cancelled changes no answer. |
| LeaveQueries.InDateRange | src/main/java/com/doctor/appointment/repository/DoctorLeaveRepository.java:36-38 | Definition of the range condition: the leave starts in the range, ends in it, or spans all of it, every bound included. |
| LeaveQueries.InDateRangeIsClosedOverlap | src/main/java/com/doctor/appointment/repository/DoctorLeaveRepository.java:36-38 | For well-formed ranges, the three-way range condition is exactly the overlap of the closed intervals. |
| LeaveQueries.InDateRangeSharesDate | src/main/java/com/doctor/appointment/repository/DoctorLeaveRepository.java:36-38 | A leave selected for a range covers a named date inside that range. |
| LeaveQueries.FindApprovedLeavesByDoctorAndDateRange | src/main/java/com/doctor/appointment/repository/DoctorLeaveRepository.java:33-42 | Returns exactly the doctor's approved leaves that meet the range. |
| LeaveQueries.FindLeavesByDateRange | src/main/java/com/doctor/appointment/repository/DoctorLeaveRepository.java:45-52 | Returns every leave that meets the range, whatever its doctor or status, sorted by start date, with each leave as often as it is stored. |
| LeaveQueries.FindByDoctorIdOrderByStartDateDesc | src/main/java/com/doctor/appointment/repository/DoctorLeaveRepository.java:17 | Returns exactly the doctor's leaves, latest start first. |
| LeaveQueries.FindByStatusOrderByRequestedAtDesc | src/main/java/com/doctor/appointment/repository/DoctorLeaveRepository.java:20 | Returns exactly the leaves in that status, latest request first. |
| LeaveQueries.FindByDoctorIdAndStatusOrderByStartDateDesc | src/main/java/com/doctor/appointment/repository/DoctorLeaveRepository.java:23 | Returns exactly the doctor's leaves in that status, latest start first. |
| LeaveQueries.ApprovedRangeQueryMeansOverlap | src/main/java/com/doctor/appointment/repository/DoctorLeaveRepository.java:33-42 | The approved-range query is non-empty exactly when the doctor is on leave on some date of the range. |
| Reservation.CanReserve | src/main/java/com/doctor/appointment/service/AppointmentReservationService.java:42-56 | Definition: reserveSlot accepts an unbooked row unless another patient holds a lock on it whose expiry is strictly after now. |
| Reservation.AvailableFor | src/main/java/com/doctor/appointment/service/AppointmentReservationService.java:118-139 | Definition: the row is unbooked, and it is unlocked, or its lock expired strictly before now, or the asking patient holds the lock. |
| Reservation.Released | src/main/java/com/doctor/appointment/service/AppointmentReservationService.java:84-94 | Release changes only the two lock fields, and afterwards the caller holds no lock on an unbooked slot. |
| Reservation.Swept | src/main/java/com/doctor/appointment/service/AppointmentReservationService.java:150-155 | The sweep changes only the two lock fields of a row, and afterwards the row carries no expired lock on an unbooked slot. |
| Reservation.ReservationExclusive | src/main/java/com/doctor/appointment/service/AppointmentReservationService.java:46-60 | After p reserves at t, any other patient can reserve exactly from t + 5 minutes on. p can renew at any time, which moves the expiry to five minutes after the renewal. |
| Reservation.ReleaseAndSweepIdempotent | src/main/java/com/doctor/appointment/service/AppointmentReservationService.java:72-162 | Releasing twice, or sweeping twice, has the effect of doing it once. |
| Reservation.AvailabilityVersusReserve | src/main/java/com/doctor/appointment/service/AppointmentReservationService.java:108-140 | isSlotAvailable never promises what reserveSlot would refuse. The two disagree exactly on another patient's lock whose expiry is missing or equal to now. |
| Reservation.LockConsistencyPreserved | src/main/java/com/doctor/appointment/service/AppointmentReservationService.java:59-60 | Reserve, release and sweep keep the two lock fields set or cleared together, and no booked slot carries a lock. |
| Reservation.AppointmentReservationService.ReserveSlot | src/main/java/com/doctor/appointment/service/AppointmentReservationService.java:30-64 | Returns true exactly when the slot exists, is unbooked and holds no running lock of another patient. Then the caller holds the lock until now + 5; otherwise nothing changes. |
| Reservation.AppointmentReservationService.ReleaseReservation | src/main/java/com/doctor/appointment/service/AppointmentReservationService.java:71-100 | Clears both lock fields only when the caller holds the lock on an unbooked slot. Otherwise, including for an unknown slot, nothing changes. |
| Reservation.AppointmentReservationService.IsSlotAvailable | src/main/java/com/doctor/appointment/service/AppointmentReservationService.java:108-140 | True exactly when the slot exists, is unbooked, and is unlocked, its lock expired before now, or the caller holds the lock. |
| Reservation.AppointmentReservationService.CleanupExpiredReservations | src/main/java/com/doctor/appointment/service/AppointmentReservationService.java:145-162 | Every row becomes its swept form: the lock is cleared exactly on unbooked rows whose expiry lies before now. The set of rows does not change. |
| SlotGeneration.IsWorkingHourEffective | src/main/java/com/doctor/appointment/service/AppointmentSlotGenerationServiceImpl.java:203-211 | Definition: the date is neither before the block's effective start nor after its effective end, a missing bound being no limit. |
| SlotGeneration.SlotsFromShape | src/main/java/com/doctor/appointment/service/AppointmentSlotGenerationServiceImpl.java:78-109 | A block's slots run back to back from the block's start. None ends after the block's end, and each is marked available exactly when no appointment overlaps it, with "Already Booked" otherwise. |
| SlotGeneration.SlotsFromCount | src/main/java/com/doctor/appointment/service/AppointmentSlotGenerationServiceImpl.java:81 | A block yields the largest whole number of slots that fit in it, with no partial slot at the end. |
| SlotGeneration.HoursSlotsShape | src/main/java/com/doctor/appointment/service/AppointmentSlotGenerationServiceImpl.java:72-110 | Every slot of a day is correctly marked and lies inside an effective block. |
| SlotGeneration.DaySlots | src/main/java/com/doctor/appointment/service/AppointmentSlotGenerationServiceImpl.java:37-113 | The day's generation fails exactly when the doctor is unknown, with "doctor not found", and gives no slots on a day of leave. |
| SlotGeneration.WeekdaySlotsInsideRows | src/main/java/com/doctor/appointment/service/AppointmentSlotGenerationServiceImpl.java:50-110 | Every slot generated from the weekday query's blocks is correctly marked and lies inside one of the doctor's stored blocks for that weekday that is in effect on the date. |
| SlotGeneration.DaySlotsProperties | src/main/java/com/doctor/appointment/service/AppointmentSlotGenerationServiceImpl.java:37-113 | For a known doctor: no slots on a day of approved leave, a 30-minute default length, every slot correctly marked and inside an effective block of that weekday. |
| SlotGeneration.RangeSlots | src/main/java/com/doctor/appointment/service/AppointmentSlotGenerationServiceImpl.java:116-126 | Definition: the day results from the first date to the last inclusive, concatenated in date order, the first failure ending it. Its properties are stated by RangeSlotsUnknownDoctor and RangeSlotsIsUnionOfDays. |
| SlotGeneration.ConcatenatedStep | src/main/java/com/doctor/appointment/service/AppointmentSlotGenerationServiceImpl.java:119-123 | One more date of the walk: a failing date ends the whole result with its failure, and otherwise its slots follow those gathered so far and come before the rest of the range. |
| SlotGeneration.RangeSlotsUnknownDoctor | src/main/java/com/doctor/appointment/service/AppointmentSlotGenerationServiceImpl.java:41-42 | An unknown doctor makes a non-empty range fail with "doctor not found". |
| SlotGeneration.RangeSlotsIsUnionOfDays | src/main/java/com/doctor/appointment/service/AppointmentSlotGenerationServiceImpl.java:116-126 | For a known doctor, a slot is in the range result exactly when it is a slot of some date of the range. |
| SlotGeneration.WindowedCheckIsExact | src/main/java/com/doctor/appointment/service/AppointmentSlotGenerationServiceImpl.java:159-165 | Looking only at appointments within d minutes of the instant gives the same answer as looking at all of the doctor's appointments. |
| SlotGeneration.CoversTimeIffInWorkingHours | src/main/java/com/doctor/appointment/service/AppointmentSlotGenerationServiceImpl.java:138-145 | Searching the weekday's blocks finds one exactly when the doctor has a block of that weekday in effect on the date whose [start, end) holds the time of day. |
| SlotGeneration.SlotAvailability | src/main/java/com/doctor/appointment/service/AppointmentSlotGenerationServiceImpl.java:128-166 | The single-instant check fails only for an unknown doctor, with "doctor not found", and answers no on a day of leave. |
| SlotGeneration.SlotAvailabilityMeaning | src/main/java/com/doctor/appointment/service/AppointmentSlotGenerationServiceImpl.java:128-166 | The single-instant check says yes exactly when the doctor is not on leave that date, the instant falls in an effective block of the weekday, the doctor is known, and none of all the doctor's appointments overlaps the slot starting then. It fails with "doctor not found" exactly when the first two hold and the doctor is unknown. |
| SlotGeneration.AppointmentSlotGenerationService.GenerateAvailableSlots | src/main/java/com/doctor/appointment/service/AppointmentSlotGenerationServiceImpl.java:36-113 | The result equals the day specification on the repository contents. |
| SlotGeneration.GenerateDay | src/main/java/com/doctor/appointment/service/AppointmentSlotGenerationServiceImpl.java:37-113 | The lookup, leave check, weekday query, slot length, day's appointments and block loops give exactly the day specification. |
| SlotGeneration.CollectSlots | src/main/java/com/doctor/appointment/service/AppointmentSlotGenerationServiceImpl.java:72-110 | The nested block loops produce exactly the concatenated slots of the blocks in order. |
| SlotGeneration.WalkBlock | src/main/java/com/doctor/appointment/service/AppointmentSlotGenerationServiceImpl.java:74-109 | The inner loop yields exactly the block's slots: none when the block is not in effect, otherwise one per step of the slot length while a whole slot fits. |
| SlotGeneration.AppointmentSlotGenerationService.GenerateAvailableSlotsForDateRange | src/main/java/com/doctor/appointment/service/AppointmentSlotGenerationServiceImpl.java:115-126 | The result equals the range specification: the day results from start to end, concatenated. |
| SlotGeneration.WalkDates | src/main/java/com/doctor/appointment/service/AppointmentSlotGenerationServiceImpl.java:119-125 | The date loop, for any per-date result, gives the results of the dates from start to end inclusive concatenated in date order, or the first failure. |
| SlotGeneration.AppointmentSlotGenerationService.AutoGenerateAndCreateSlots | src/main/java/com/doctor/appointment/service/AppointmentSlotGenerationServiceImpl.java:168-198 | Fails like the day generation. Otherwise it stores one AVAILABLE row with reason "Available Appointment Slot" per available slot, in order, under fresh distinct ids. Existing rows are unchanged. |
| SlotGeneration.CreateSlotRows | src/main/java/com/doctor/appointment/service/AppointmentSlotGenerationServiceImpl.java:185-195 | Stores one new AVAILABLE row per slot, in order, each under a fresh id; nothing already stored changes and nothing else is added. |
| SlotGeneration.CreatedForStep | src/main/java/com/doctor/appointment/service/AppointmentSlotGenerationServiceImpl.java:186-195 | Storing one more slot's row under a fresh id extends the created-rows relation by that row. |
| SlotGeneration.IdsOfSnoc | src/main/java/com/doctor/appointment/service/AppointmentSlotGenerationServiceImpl.java:193-194 | Appending a saved row adds exactly its id to the ids of the rows created so far. |
| SlotGeneration.GuardsAgreeBeforeMidnight | src/main/java/com/doctor/appointment/service/AppointmentSlotGenerationServiceImpl.java:81 | While a slot ends before midnight, the loop guard as written agrees with the corrected guard. |
| SlotGeneration.WrappedLoopNeverEnds | src/main/java/com/doctor/appointment/service/AppointmentSlotGenerationServiceImpl.java:81-108 | On a 23:00-23:59 block with 60-minute slots, the guard as written admits a slot that ends past the block. It holds on every whole hour, and the step stays on whole hours, so the loop never ends. |
| SlotGeneration.WrappedLoopCrossesMidnight | src/main/java/com/doctor/appointment/service/AppointmentSlotGenerationServiceImpl.java:81-108 | Whenever the walk as written reaches a start whose slot would cross midnight, and the wrapped end is not after the block's end, the guard admits that slot. The slot ends after the block's end, the corrected guard refuses it, and the next start jumps back to an earlier time of day. |
| SlotGeneration.CorrectedLoopStops | src/main/java/com/doctor/appointment/service/AppointmentSlotGenerationServiceImpl.java:81 | With the corrected guard, the same block yields no slot. |
| Payments.BookingCheck | src/main/java/com/doctor/appointment/service/PaymentServiceImpl.java:105-142 | Definition: the first failing check in the code's order. The order is unknown slot, not AVAILABLE, another patient's lock, own expired lock, doctor on leave, unknown patient, and existing payment. |
| Payments.NewPayment | src/main/java/com/doctor/appointment/service/PaymentServiceImpl.java:166-182 | Definition: the payment row built from the request, with the transaction id, the status chosen by the method, and the payment time. |
| Payments.BookingCheckMatchesConditions | src/main/java/com/doctor/appointment/service/PaymentServiceImpl.java:105-142 | The ordered chain of checks passes exactly when all booking conditions hold together, and a slot that is not AVAILABLE is reported as such. |
| Payments.ExpiredForeignLockBlocksUntilSwept | src/main/java/com/doctor/appointment/service/PaymentServiceImpl.java:114-122 | Another patient's lock blocks booking even after it has expired. Once the sweep has cleared it, neither lock check refuses. |
| Payments.FreshReservationPassesLockChecks | src/main/java/com/doctor/appointment/service/PaymentServiceImpl.java:114-122 | A booking made within five minutes of the caller's own reservation passes both lock checks. |
| Payments.ActorTag | src/main/java/com/doctor/appointment/service/PaymentServiceImpl.java:162 | The history actor is "PATIENT:" followed by at least one more character. |
| Payments.ActorTagInjective | src/main/java/com/doctor/appointment/service/PaymentServiceImpl.java:162 | Different patients leave different actor tags. |
| Payments.TransactionId | src/main/java/com/doctor/appointment/service/PaymentServiceImpl.java:248-250 | "TXN-" followed by the first eight characters of the UUID text upper-cased: 12 characters, with no lower-case letter after the prefix. |
| Payments.PaymentStatusByMethod | src/main/java/com/doctor/appointment/service/PaymentServiceImpl.java:175-182 | CASH is exactly the method that leaves a payment PENDING with no payment time. Any other method is COMPLETED and paid now, and creation time is now. |
| Payments.BookedSlotCannotBeBookedAgain | src/main/java/com/doctor/appointment/service/PaymentServiceImpl.java:144-184 | After a booking, every later booking of the slot is refused as not AVAILABLE (BOOKED). The booked row carries no lock, and a payment for it exists. |
| Payments.PaymentService.ProcessPayment | src/main/java/com/doctor/appointment/service/PaymentServiceImpl.java:34-70 | Fails for an unknown appointment, then for one that already has a payment. Otherwise it stores exactly one new payment built from the request, whatever the appointment's status. |
| Payments.PaymentService.AttemptBookingWithPayment | src/main/java/com/doctor/appointment/service/PaymentServiceImpl.java:103-197 | Returns the first failing check with nothing changed. If the race is lost, nothing changes. Otherwise the slot is booked and one history entry and one payment are added, with the response message by method. |
| Payments.PaymentService.BookAppointmentWithPayment | src/main/java/com/doctor/appointment/service/PaymentServiceImpl.java:72-101 | A failing check ends the booking at once. Three lost races end in "just booked by another user" with nothing changed. Otherwise the booking is applied exactly once. |
| Payments.PaymentService.CancelPayment | src/main/java/com/doctor/appointment/service/PaymentServiceImpl.java:231-246 | Fails for an unknown payment or one already cancelled. Otherwise only its status becomes CANCELLED. |
| DoctorLeaves.CreateCheck | src/main/java/com/doctor/appointment/service/DoctorLeaveServiceImpl.java:32-54 | Definition: the first failing check of a leave request. The order is unknown doctor, end before start, start in the past, and an approved leave meeting the range. |
| DoctorLeaves.DecisionCheck | src/main/java/com/doctor/appointment/service/DoctorLeaveServiceImpl.java:98-106 | Definition: a decision is refused on a leave that is not PENDING, then for any decision other than APPROVED or REJECTED. |
| DoctorLeaves.CancelCheck | src/main/java/com/doctor/appointment/service/DoctorLeaveServiceImpl.java:124-131 | Definition: a cancellation is refused for another doctor's leave, then for a leave already CANCELLED or REJECTED. |
| DoctorLeaves.LifecycleIsExactlyTheOperations | src/main/java/com/doctor/appointment/service/DoctorLeaveServiceImpl.java:97-133 | The lifecycle (PENDING to APPROVED, REJECTED or CANCELLED; APPROVED to CANCELLED) is exactly the set of status changes that decisions and cancellations can make. |
| DoctorLeaves.ClosedLeavesAreFinal | src/main/java/com/doctor/appointment/service/DoctorLeaveServiceImpl.java:93-133 | A rejected or cancelled leave can be neither decided nor cancelled again. |
| DoctorLeaves.CreateCheckMeaning | src/main/java/com/doctor/appointment/service/DoctorLeaveServiceImpl.java:32-54 | A request is accepted exactly when the doctor exists, the range is well formed, it does not start in the past, and the doctor is on approved leave on none of its dates. |
| DoctorLeaves.NewRequestChangesNoAvailability | src/main/java/com/doctor/appointment/service/DoctorLeaveServiceImpl.java:64 | A newly created (PENDING) leave changes no doctor's availability on any date. |
| DoctorLeaves.OnlyApprovalPutsDoctorOnLeave | src/main/java/com/doctor/appointment/service/DoctorLeaveServiceImpl.java:108-133 | A rejection or a cancellation never puts a doctor on leave. |
| DoctorLeaves.DeletionPutsNobodyOnLeave | src/main/java/com/doctor/appointment/service/DoctorLeaveServiceImpl.java:163 | Deleting a leave never puts a doctor on leave. |
| DoctorLeaves.GetLeaveById | src/main/java/com/doctor/appointment/service/DoctorLeaveServiceImpl.java:84-89 | Succeeds exactly when a leave has the id, and returns that leave; otherwise it reports "leave not found". |
| DoctorLeaves.DoctorLeaveService.CreateLeaveRequest | src/main/java/com/doctor/appointment/service/DoctorLeaveServiceImpl.java:29-68 | Refuses with the first failing check and nothing changed. Otherwise it appends a PENDING leave, requested now, with no decision, under a fresh id. Well-ordered dates are preserved. |
| DoctorLeaves.DoctorLeaveService.UpdateLeaveStatus | src/main/java/com/doctor/appointment/service/DoctorLeaveServiceImpl.java:91-115 | Refuses an unknown leave, a leave that is not PENDING, or a decision other than APPROVED or REJECTED. Otherwise it records status, approver, time and notes on that leave only. |
| DoctorLeaves.DoctorLeaveService.CancelLeave | src/main/java/com/doctor/appointment/service/DoctorLeaveServiceImpl.java:117-136 | Refuses an unknown leave, another doctor's leave, or a closed leave. Otherwise only that leave's status becomes CANCELLED. |
| DoctorLeaves.DoctorLeaveService.DeleteLeave | src/main/java/com/doctor/appointment/service/DoctorLeaveServiceImpl.java:157-164 | Refuses an unknown id. Otherwise it removes the leave, whatever its status, and no stored leave keeps the id. |
| WorkingHours.ValidateTimes | src/main/java/com/doctor/appointment/service/WorkingHourServiceImpl.java:84-91 | Passes exactly when both times are present and the end is strictly after the start. A missing time is reported before a bad order. |
| WorkingHours.FirstConflict | src/main/java/com/doctor/appointment/service/WorkingHourServiceImpl.java:93-105 | Definition: walking the blocks in order and skipping the excluded id, the first clash found. An overlap is reported before a shared sequence number. |
| WorkingHours.HourCheck | src/main/java/com/doctor/appointment/service/WorkingHourServiceImpl.java:44-45 | Definition: the time validation first, then the overlap walk over the doctor's blocks on the request's weekday. |
| WorkingHours.FirstConflictMeaning | src/main/java/com/doctor/appointment/service/WorkingHourServiceImpl.java:93-105 | The walk finds no clash exactly when every same-day block other than the one being updated neither overlaps the request nor shares its sequence number. |
| WorkingHours.AcceptedIsCompatible | src/main/java/com/doctor/appointment/service/WorkingHourServiceImpl.java:97-109 | A request that passed the checks is compatible, in both directions, with every other block of the doctor on that weekday. |
| WorkingHours.CreateKeepsSchedule | src/main/java/com/doctor/appointment/service/WorkingHourServiceImpl.java:44-54 | Adding an accepted block keeps the schedule free of overlaps and duplicate sequence numbers. |
| WorkingHours.UpdateKeepsSchedule | src/main/java/com/doctor/appointment/service/WorkingHourServiceImpl.java:64-72 | Rewriting a block with an accepted request keeps the schedule consistent. |
| WorkingHours.DeleteKeepsSchedule | src/main/java/com/doctor/appointment/service/WorkingHourServiceImpl.java:78-82 | Removing a block keeps the schedule consistent. |
| WorkingHours.WorkingHourService.ValidateOverlap | src/main/java/com/doctor/appointment/service/WorkingHourServiceImpl.java:93-105 | Walks the same-day blocks in start order, skipping the excluded id, and returns the first clash: an overlap is reported before a duplicate sequence. |
| WorkingHours.WalkSameDay | src/main/java/com/doctor/appointment/service/WorkingHourServiceImpl.java:95-104 | The loop over the same-day blocks returns exactly the first clash in start order, skipping the excluded id, or none. |
| WorkingHours.FirstConflictStep | src/main/java/com/doctor/appointment/service/WorkingHourServiceImpl.java:95-104 | The first clash from a position is that block's clash when it is not excluded and clashes, and otherwise the first clash from the next position. |
| WorkingHours.WorkingHourService.Create | src/main/java/com/doctor/appointment/service/WorkingHourServiceImpl.java:38-56 | Refuses an unknown doctor, then a request failing the time or overlap checks. Otherwise it appends the block under a fresh id. The schedule invariant is preserved. |
| WorkingHours.WorkingHourService.Update | src/main/java/com/doctor/appointment/service/WorkingHourServiceImpl.java:58-74 | Refuses a block the doctor does not have, then a failing request, with the block itself excluded. Otherwise it rewrites day, times and sequence in place. The schedule invariant is preserved. |
| WorkingHours.WorkingHourService.Delete | src/main/java/com/doctor/appointment/service/WorkingHourServiceImpl.java:76-82 | Refuses a block the doctor does not have; otherwise it removes exactly that block. |

## Left out

- Concurrency is modelled by an oracle, not interleavings. Transactions, isolation levels and version columns are not modelled. A lost optimistic-lock race is a per-attempt flag that rolls the attempt back, and the retry sees the same state. The concurrent writer that caused the race is not modelled.
- The 100 ms × attempt back-off is not modelled, nor the "booking process interrupted" error when the sleep is interrupted (PaymentServiceImpl.java:91-96). They involve thread timing only.
- Payments.PaymentService.BookAppointmentWithPayment: the final "failed after multiple attempts" error (PaymentServiceImpl.java:100) is kept, but it is unreachable. The loop either returns or reports "just booked" on its third lost race.
- The exceptions swallowed by releaseReservation and by each row of cleanupExpiredReservations are not modelled. They can only come from concurrent writers, so both operations are modelled as always completing.
- Times are whole minutes. Seconds are not modelled, so the day window of slot generation ends at 23:59 rather than 23:59:59.
- Amounts are opaque integers rather than BigDecimal.
- Payment methods other than CASH are one constructor, because the code only distinguishes CASH from the rest.
- Names and DTO conversion (`doctorName`, "Unknown", ModelMapper) are left out because they are presentation only. Logging is left out.
- The appointment id attached to an occupied slot (AppointmentSlotGenerationServiceImpl.java:100-104) is left out. It is taken from the first match of a query without ORDER BY, so which appointment it names is unspecified.
- SlotGeneration.DurationPositive: slot generation (DaySlots, RangeSlots, GenerateDay, GenerateAvailableSlots, GenerateAvailableSlotsForDateRange, AutoGenerateAndCreateSlots) requires the queried doctor's slot length to be positive; no other doctor's length is constrained, and the single-instant check requires nothing. With a length of zero the source's block loop never ends, because the time never advances. With a negative length `plusMinutes` walks backwards and wraps at midnight: the loop emits slots that end before they start, and it may or may not stop, depending on the block. Both cases are excluded rather than modelled.
- WorkingHours: a missing weekday in a working-hour request is not modelled; the weekday is always present.
- WorkingHours: `short` wrap-around of the sequence number is not modelled.
- The working-hour entity class is not part of this model. Its fields are taken from their uses in the services.
- Read-only getters that only convert query results are not modelled as separate members. These are getPaymentById, getPaymentByAppointmentId, getPaymentsByPatientId, getPaymentsByDoctorId, getLeavesByDoctorId, getLeavesByStatus, getApprovedLeavesByDoctorAndDateRange, getLeavesByDateRange, isDoctorOnLeave, and the working-hour `list`. Each one is the repository query it calls, and those queries are modelled where the core uses them.
- The appointment status transition table is not modelled, because no implementation of it exists in the code. Only the AVAILABLE to BOOKED change made by booking, with its history entry, is modelled.
- Where the design description and the code disagree, the code is followed:
  - Booking refuses a slot locked by another patient even after that lock has expired (`Payments.ExpiredForeignLockBlocksUntilSwept`). The booking goes through only after the sweep has cleared the lock, or after the caller has taken the lock over with reserveSlot.
  - The patient's existence is checked between the leave check and the payment check.
  - processPayment does not look at the appointment's status.
  - Creating a leave checks only against leaves that are already approved. Approving a request does not check overlap, so two approved leaves of one doctor can overlap.

## Findings

| source | as written | input that shows it | evidently intended | confidence | as-written member | corrected member |
|---|---|---|---|---|---|---|
| src/main/java/com/doctor/appointment/service/AppointmentSlotGenerationServiceImpl.java:81-108 | The block loop compares `currentTime.plusMinutes(d)` with the block's end. LocalTime wraps at midnight, so a slot that would end at or after 24:00 compares as early in the day. | A working hour 23:00-23:59 with 60-minute slots. The guard admits 23:00-24:00, which ends past the block. The next start is 00:00, and every later whole hour passes the guard again, so the loop never ends. More generally, whenever the walk reaches a start whose slot would cross midnight and the wrapped end is not after the block's end, that slot is emitted past the block's end and the walk jumps back to early morning (SlotGeneration.WrappedLoopCrossesMidnight); a block 20:00-23:30 with 30-minute slots also cycles forever. | Only slots that end by the block's end, so the loop stops at the end of the block. | not executed | SlotGeneration.WrappedLoopNeverEnds | SlotGeneration.CorrectedLoopStops |
