/** The booking engine: what counts as a conflicting booking, the absence
    lock, the student cancellation window, the pre-save validation of a new
    booking, and the two transactions that write rows, `CreateBooking` and
    `Cancel`. Each transaction either succeeds as a whole or leaves every
    table as it was. */
module Bookings {
  import opened Wrappers
  import opened Clock
  import opened Tables
  import Subjects

  const CancellationWindowHours: int := 4
  const CancellationWindowMessage: string := "Cancellation is not allowed within 4 hours of the scheduled slot."

  const NotAvailableMessage: string := "This slot is not available"
  const PastSlotMessage: string := "Cannot book a slot in the past"
  const AfterSevenMessage: string := "You cannot book slots for today after 7pm. Please book for tomorrow."
  const SameDayConflictMessage: string := "You already have a booking for this subject on this day."
  const FutureConflictMessage: string := "You already have a booking for this subject."
  const NoLongerAvailableMessage: string := "This slot is no longer available"
  const AlreadyBookedMessage: string := "This slot is already booked"
  const OnlyConfirmedMessage: string := "Only confirmed bookings can be cancelled"
  const MissingDateMessage: string := "slot_date is required for same_day conflict checks"
  const InvalidScopeMessage: string := "Invalid scope; expected 'same_day' or 'future'"
  /** The unique slot column refuses a second row for the same slot. */
  const DuplicateRowMessage: string := "IntegrityError: duplicate booking row for slot"

  function BlockedMessage(subject: string): string {
    "Booking for " + subject + " is blocked because you were marked absent. "
      + "Your faculty must allow rebooking before you can book another slot."
  }

  /** The absence refusal begins with a "B", so it differs from every
      other refusal of the engine. */
  lemma BlockedMessageStart(subject: string)
    ensures BlockedMessage(subject)[0] == 'B'
    ensures BlockedMessage(subject) != NoLongerAvailableMessage && BlockedMessage(subject) != AlreadyBookedMessage
  {
    assert NoLongerAvailableMessage[0] == 'T' && AlreadyBookedMessage[0] == 'T';
  }

  // ---------------------------------------------------------------------
  // Conflicts

  /** The window a conflict check looks at. */
  datatype Scope = SameDay(day: int) | Future(now: int)

  /** The scope argument of the conflict query, or the ValueError it raises. */
  function ParseScope(scope: string, slotDate: Option<int>, now: int): (r: Result<Scope>)
    ensures r.Ok? <==> (scope == "same_day" && slotDate.Some?) || scope == "future"
    ensures r.Ok? && scope == "same_day" ==> r.value == SameDay(slotDate.value)
    ensures r.Ok? && scope == "future" ==> r.value == Future(now)
  {
    if scope == "same_day" then
      if slotDate.None? then Err(MissingDateMessage) else Ok(SameDay(slotDate.value))
    else if scope == "future" then Ok(Future(now))
    else Err(InvalidScopeMessage)
  }

  predicate InScope(sc: Scope, start: int) {
    match sc
    case SameDay(d) => Day(start) == d
    case Future(now) => start > now
  }

  /** Filters of the conflict query: the student's own row, on a slot whose
      stored subject equals `subject`, confirmed or absent, inside the
      scope, and not the excluded row. */
  predicate Conflicting(t: Tables, s: SlotId, student: UserId, subject: string, sc: Scope, exclude: Option<BookingId>) {
    && s in t.bookings && s in t.slots
    && t.bookings[s].student == student
    && t.slots[s].subject == subject
    && (t.bookings[s].status == Confirmed || t.bookings[s].status == Absent)
    && (exclude.None? || t.bookings[s].id != exclude.value)
    && InScope(sc, t.slots[s].start)
  }

  /** The slots whose bookings the conflict query returns. */
  function ConflictSet(t: Tables, student: UserId, subject: string, sc: Scope, exclude: Option<BookingId>): (r: set<SlotId>)
    ensures r <= t.bookings.Keys
    ensures forall s :: s in r <==> Conflicting(t, s, student, subject, sc, exclude)
  {
    set s | s in t.bookings && Conflicting(t, s, student, subject, sc, exclude)
  }

  /** `validate_no_conflict`: fails with `message` when the query returns a
      row, and with the ValueError's message when the scope is unusable. */
  function ValidateNoConflict(t: Tables, student: UserId, subject: string, scope: string, slotDate: Option<int>,
                              now: int, exclude: Option<BookingId>, message: string): (r: Outcome)
    ensures ParseScope(scope, slotDate, now).Err? ==> r == Fail(ParseScope(scope, slotDate, now).error)
    ensures ParseScope(scope, slotDate, now).Ok? ==>
      (r == Pass <==> ConflictSet(t, student, subject, ParseScope(scope, slotDate, now).value, exclude) == {})
    ensures r.Fail? && ParseScope(scope, slotDate, now).Ok? ==> r.error == message
  {
    match ParseScope(scope, slotDate, now)
    case Err(e) => Fail(e)
    case Ok(sc) => if ConflictSet(t, student, subject, sc, exclude) == {} then Pass else Fail(message)
  }

  /** The future-scoped check the create path makes. */
  lemma FutureCheck(t: Tables, student: UserId, subject: string, now: int, message: string)
    ensures ValidateNoConflict(t, student, subject, "future", None, now, None, message)
      == if ConflictSet(t, student, subject, Future(now), None) == {} then Pass else Fail(message)
  {
    assert ParseScope("future", None, now) == Ok(Future(now));
  }

  /** The day-scoped check the pre-save validation makes. */
  lemma SameDayCheck(t: Tables, student: UserId, subject: string, day: int, now: int, exclude: Option<BookingId>, message: string)
    ensures ValidateNoConflict(t, student, subject, "same_day", Some(day), now, exclude, message)
      == if ConflictSet(t, student, subject, SameDay(day), exclude) == {} then Pass else Fail(message)
  {
    assert ParseScope("same_day", Some(day), now) == Ok(SameDay(day));
  }

  /** Cancelled and completed rows never conflict, in any scope. */
  lemma InactiveNeverConflicts(t: Tables, s: SlotId, student: UserId, subject: string, sc: Scope, exclude: Option<BookingId>)
    requires s in t.bookings && (t.bookings[s].status == Cancelled || t.bookings[s].status == Completed)
    ensures s !in ConflictSet(t, student, subject, sc, exclude)
  {
  }

  /** A booking whose slot has already started never blocks a future-scoped check. */
  lemma PastNeverConflicts(t: Tables, s: SlotId, student: UserId, subject: string, now: int, exclude: Option<BookingId>)
    requires s in t.slots && t.slots[s].start <= now
    ensures s !in ConflictSet(t, student, subject, Future(now), exclude)
  {
  }

  /** Other students' bookings never conflict. */
  lemma OthersNeverConflict(t: Tables, s: SlotId, student: UserId, subject: string, sc: Scope, exclude: Option<BookingId>)
    requires s in t.bookings && t.bookings[s].student != student
    ensures s !in ConflictSet(t, student, subject, sc, exclude)
  {
  }

  /** A confirmed or absent future booking of the student in the subject
      is a conflict for the future scope. */
  lemma ActiveFutureConflicts(t: Tables, s: SlotId, student: UserId, subject: string, now: int)
    requires s in t.bookings && s in t.slots
    requires t.bookings[s].student == student && t.slots[s].subject == subject
    requires t.bookings[s].status == Confirmed || t.bookings[s].status == Absent
    requires t.slots[s].start > now
    ensures ValidateNoConflict(t, student, subject, "future", None, now, None, FutureConflictMessage) == Fail(FutureConflictMessage)
  {
    assert s in ConflictSet(t, student, subject, Future(now), None);
  }

  // ---------------------------------------------------------------------
  // Absence lock

  /** A row of the latest-absence query: the student's absent booking on a
      slot with this subject, owned by a faculty member whose external id
      equals `teacher` (both NULL counts as equal, as `IS NULL` does). */
  predicate AbsentRow(t: Tables, s: SlotId, student: UserId, subject: string, teacher: Option<string>) {
    && s in t.bookings && s in t.slots && t.slots[s].faculty in t.users
    && t.bookings[s].student == student
    && t.bookings[s].status == Absent
    && t.slots[s].subject == subject
    && t.users[t.slots[s].faculty].pblUserId == teacher
  }

  /** `absent_at or updated_at` */
  function AbsentTime(b: Booking): int {
    if b.absentAt.Some? then b.absentAt.value else b.updatedAt
  }

  /** Whether `a` sorts no later than `b` under
      `ORDER BY absent_at DESC, updated_at DESC` with NULLs first, which is
      how PostgreSQL orders descending columns. */
  predicate Precedes(a: Booking, b: Booking) {
    match (a.absentAt, b.absentAt)
    case (None, Some(_)) => true
    case (Some(_), None) => false
    case (None, None) => a.updatedAt >= b.updatedAt
    case (Some(x), Some(y)) => x > y || (x == y && a.updatedAt >= b.updatedAt)
  }

  /** `s` is a row `.first()` may return. */
  ghost predicate FirstAbsent(t: Tables, s: SlotId, student: UserId, subject: string, teacher: Option<string>) {
    AbsentRow(t, s, student, subject, teacher)
      && forall s2 :: AbsentRow(t, s2, student, subject, teacher) ==> Precedes(t.bookings[s], t.bookings[s2])
  }

  /** The `updated_at` of the student's permission for the subject, when it
      was granted by `teacher`. */
  function PermissionTime(t: Tables, student: UserId, subject: string, teacher: Option<string>): (r: Option<int>)
    ensures r.Some? <==> (student, subject) in t.permissions && teacher == Some(t.permissions[(student, subject)].teacher)
  {
    if (student, subject) in t.permissions && teacher == Some(t.permissions[(student, subject)].teacher)
    then Some(t.permissions[(student, subject)].updatedAt)
    else None
  }

  /** Whether some absence is later than `p`, measured the way the first
      row of the ordered query is chosen: NULL absence times sort first, so
      when any exists only those rows decide. */
  predicate AbsenceAfter(t: Tables, student: UserId, subject: string, teacher: Option<string>, p: int) {
    if exists s :: s in t.bookings && AbsentRow(t, s, student, subject, teacher) && t.bookings[s].absentAt.None? then
      exists s :: s in t.bookings && AbsentRow(t, s, student, subject, teacher) && t.bookings[s].absentAt.None? && p < t.bookings[s].updatedAt
    else
      exists s :: s in t.bookings && AbsentRow(t, s, student, subject, teacher) && p < AbsentTime(t.bookings[s])
  }

  /** The absence lock: there is an absent booking for this (student,
      subject, teacher) and the permission is missing or older than the
      latest absence. */
  predicate AbsenceLocked(t: Tables, student: UserId, subject: string, teacher: Option<string>) {
    && (exists s :: s in t.bookings && AbsentRow(t, s, student, subject, teacher))
    && (PermissionTime(t, student, subject, teacher).None?
        || AbsenceAfter(t, student, subject, teacher, PermissionTime(t, student, subject, teacher).value))
  }

  lemma PrecedesTotal(a: Booking, b: Booking)
    ensures Precedes(a, b) || Precedes(b, a)
  {
  }

  lemma PrecedesTransitive(a: Booking, b: Booking, c: Booking)
    requires Precedes(a, b) && Precedes(b, c)
    ensures Precedes(a, c)
  {
  }

  /** A non-empty finite set of rows has a first one in the query order. */
  lemma {:induction false} FirstOfSet(rows: set<SlotId>, bk: map<SlotId, Booking>) returns (m: SlotId)
    requires rows != {} && rows <= bk.Keys
    ensures m in rows && forall x :: x in rows ==> Precedes(bk[m], bk[x])
    decreases |rows|
  {
    var x :| x in rows;
    var rest := rows - {x};
    if rest == {} {
      assert rows == {x};
      m := x;
    } else {
      var m' := FirstOfSet(rest, bk);
      PrecedesTotal(bk[x], bk[m']);
      if Precedes(bk[x], bk[m']) {
        m := x;
        forall y | y in rows
          ensures Precedes(bk[m], bk[y])
        {
          if y != x {
            PrecedesTransitive(bk[x], bk[m'], bk[y]);
          }
        }
      } else {
        m := m';
      }
    }
  }

  /** Whenever an absent row exists, the ordered query has a first row. */
  lemma FirstAbsentExists(t: Tables, student: UserId, subject: string, teacher: Option<string>) returns (m: SlotId)
    requires exists s :: s in t.bookings && AbsentRow(t, s, student, subject, teacher)
    ensures FirstAbsent(t, m, student, subject, teacher)
  {
    var rows := set s | s in t.bookings && AbsentRow(t, s, student, subject, teacher);
    var w: SlotId :| w in t.bookings && AbsentRow(t, w, student, subject, teacher);
    assert w in rows;
    m := FirstOfSet(rows, t.bookings);
  }

  /** The closed form of the lock agrees with the source's reading of it:
      take the first row of the ordered query, and block when there is no
      permission or the permission predates that row's absence time. */
  lemma AbsenceLockedReference(t: Tables, student: UserId, subject: string, teacher: Option<string>, first: SlotId)
    requires FirstAbsent(t, first, student, subject, teacher)
    ensures AbsenceLocked(t, student, subject, teacher) <==>
      PermissionTime(t, student, subject, teacher).None?
      || PermissionTime(t, student, subject, teacher).value < AbsentTime(t.bookings[first])
  {
    var pt := PermissionTime(t, student, subject, teacher);
    if pt.Some? {
      var p := pt.value;
      var f := t.bookings[first];
      if exists s :: s in t.bookings && AbsentRow(t, s, student, subject, teacher) && t.bookings[s].absentAt.None? {
        var n :| AbsentRow(t, n, student, subject, teacher) && t.bookings[n].absentAt.None?;
        assert Precedes(f, t.bookings[n]);
        assert f.absentAt.None?;
        if p < AbsentTime(f) {
          assert AbsentRow(t, first, student, subject, teacher) && f.absentAt.None? && p < f.updatedAt;
        }
      } else {
        if p < AbsentTime(f) {
          assert AbsentRow(t, first, student, subject, teacher) && p < AbsentTime(f);
        }
        if AbsenceAfter(t, student, subject, teacher, p) {
          var s :| AbsentRow(t, s, student, subject, teacher) && p < AbsentTime(t.bookings[s]);
          assert Precedes(f, t.bookings[s]);
        }
      }
    }
  }

  /** No absent booking, no lock. */
  lemma NoAbsenceNoLock(t: Tables, student: UserId, subject: string, teacher: Option<string>)
    requires forall s :: s in t.bookings && t.bookings[s].student == student ==> t.bookings[s].status != Absent
    ensures !AbsenceLocked(t, student, subject, teacher)
  {
  }

  /** An absence with no permission locks. */
  lemma AbsenceWithoutPermissionLocks(t: Tables, s: SlotId, student: UserId, subject: string, teacher: Option<string>)
    requires AbsentRow(t, s, student, subject, teacher)
    requires (student, subject) !in t.permissions
    ensures AbsenceLocked(t, student, subject, teacher)
  {
  }

  /** A permission from the same teacher dated at or after every absence
      unlocks. */
  lemma FreshPermissionUnlocks(t: Tables, student: UserId, subject: string, teacher: Option<string>)
    requires (student, subject) in t.permissions && teacher == Some(t.permissions[(student, subject)].teacher)
    requires forall s :: AbsentRow(t, s, student, subject, teacher) ==>
      AbsentTime(t.bookings[s]) <= t.permissions[(student, subject)].updatedAt
    ensures !AbsenceLocked(t, student, subject, teacher)
  {
  }

  /** A permission older than the latest absence does not unlock. */
  lemma StalePermissionLocks(t: Tables, first: SlotId, student: UserId, subject: string, teacher: Option<string>)
    requires FirstAbsent(t, first, student, subject, teacher)
    requires (student, subject) in t.permissions
    requires t.permissions[(student, subject)].updatedAt < AbsentTime(t.bookings[first])
    ensures AbsenceLocked(t, student, subject, teacher)
  {
    AbsenceLockedReference(t, student, subject, teacher, first);
  }

  /** A permission granted by another teacher does not unlock. */
  lemma OtherTeachersPermissionLocks(t: Tables, s: SlotId, student: UserId, subject: string, teacher: Option<string>)
    requires AbsentRow(t, s, student, subject, teacher)
    requires (student, subject) in t.permissions && teacher != Some(t.permissions[(student, subject)].teacher)
    ensures AbsenceLocked(t, student, subject, teacher)
  {
  }

  /** Writing another student's booking row does not change whether this
      student is locked. */
  lemma OthersAbsenceIrrelevant(t: Tables, sid: SlotId, b: Booking, student: UserId, subject: string, teacher: Option<string>)
    requires b.student != student
    requires sid in t.bookings ==> t.bookings[sid].student != student
    ensures AbsenceLocked(t.(bookings := t.bookings[sid := b]), student, subject, teacher)
        == AbsenceLocked(t, student, subject, teacher)
  {
    var t' := t.(bookings := t.bookings[sid := b]);
    forall s
      ensures AbsentRow(t', s, student, subject, teacher) <==> AbsentRow(t, s, student, subject, teacher)
      ensures AbsentRow(t, s, student, subject, teacher) ==> t'.bookings[s] == t.bookings[s]
    {
      if s == sid {
        assert !AbsentRow(t', s, student, subject, teacher) && !AbsentRow(t, s, student, subject, teacher);
      }
    }
    assert PermissionTime(t', student, subject, teacher) == PermissionTime(t, student, subject, teacher);
  }

  // ---------------------------------------------------------------------
  // Cancellation window

  /** `can_cancel`: the booking is confirmed and `now` is strictly before
      four hours ahead of the slot's start. */
  predicate CanCancel(b: Booking, slot: Slot, now: int) {
    b.status == Confirmed && now < slot.start - CancellationWindowHours * MinutesPerHour
  }

  /** The window boundary: 241 minutes ahead may cancel, 240 may not. */
  lemma CanCancelBoundary(b: Booking, slot: Slot, now: int)
    requires b.status == Confirmed
    ensures (slot.start - now == 241) ==> CanCancel(b, slot, now)
    ensures (slot.start - now == 240) ==> !CanCancel(b, slot, now)
    ensures CanCancel(b, slot, now) <==> slot.start - now > 240
  {
  }

  lemma OnlyConfirmedCanCancel(b: Booking, slot: Slot, now: int)
    requires b.status != Confirmed
    ensures !CanCancel(b, slot, now)
  {
  }

  /** Someone who may cancel now could also have cancelled earlier. */
  lemma CanCancelEarlier(b: Booking, slot: Slot, now: int, earlier: int)
    requires CanCancel(b, slot, now) && earlier <= now
    ensures CanCancel(b, slot, earlier)
  {
  }

  // ---------------------------------------------------------------------
  // Pre-save validation of a new booking

  /** `normalize_subject(slot.subject)` */
  function SlotSubject(t: Tables, slotId: SlotId): string
    requires slotId in t.slots
  {
    Subjects.Normalize(t.slots[slotId].subject)
  }

  /** `slot.faculty.pbl_user_id` */
  function SlotTeacher(t: Tables, slotId: SlotId): Option<string>
    requires slotId in t.slots && t.slots[slotId].faculty in t.users
  {
    t.users[t.slots[slotId].faculty].pblUserId
  }

  /** The checks of `clean()` for a row not yet saved (`pk` None), in
      order, once the slot's subject and teacher are resolved; a saved row
      passes unchecked. */
  function CleanWith(t: Tables, slotId: SlotId, student: UserId, subject: string, teacher: Option<string>,
                     pk: Option<BookingId>, now: int): Outcome
    requires slotId in t.slots
  {
    if pk.Some? then Pass
    else
      var slot := t.slots[slotId];
      if !slot.isAvailable then Fail(NotAvailableMessage)
      else if slot.start <= now then Fail(PastSlotMessage)
      else if Hour(now) >= 19 && Day(slot.start) == Day(now) then Fail(AfterSevenMessage)
      else
        var conflict := ValidateNoConflict(t, student, subject, "same_day", Some(Day(slot.start)), now, pk, SameDayConflictMessage);
        if conflict.Fail? then conflict
        else if AbsenceLocked(t, student, subject, teacher) then Fail(BlockedMessage(subject))
        else Pass
  }

  /** `clean()` on a booking of `student` for the slot: the checks run with
      the slot's normalised subject and its faculty's external id. */
  function Clean(t: Tables, slotId: SlotId, student: UserId, pk: Option<BookingId>, now: int): Outcome
    requires slotId in t.slots && t.slots[slotId].faculty in t.users
  {
    CleanWith(t, slotId, student, SlotSubject(t, slotId), SlotTeacher(t, slotId), pk, now)
  }

  /** What `clean()` accepts, in one statement: a saved row, or a new one
      passing every check. */
  lemma CleanPassIff(t: Tables, slotId: SlotId, student: UserId, subject: string, teacher: Option<string>,
                     pk: Option<BookingId>, now: int)
    requires slotId in t.slots
    ensures var slot := t.slots[slotId];
      CleanWith(t, slotId, student, subject, teacher, pk, now) == Pass <==>
        pk.Some? ||
        (&& slot.isAvailable
         && slot.start > now
         && !(Hour(now) >= 19 && Day(slot.start) == Day(now))
         && ConflictSet(t, student, subject, SameDay(Day(slot.start)), None) == {}
         && !AbsenceLocked(t, student, subject, teacher))
  {
    SameDayCheck(t, student, subject, Day(t.slots[slotId].start), now, pk, SameDayConflictMessage);
  }

  /** The checks fire in the order written: each failure message belongs to
      the first check that fails. */
  lemma CleanOrder(t: Tables, slotId: SlotId, student: UserId, subject: string, teacher: Option<string>, now: int)
    requires slotId in t.slots
    ensures var r := CleanWith(t, slotId, student, subject, teacher, None, now);
      var slot := t.slots[slotId];
      && (!slot.isAvailable ==> r == Fail(NotAvailableMessage))
      && ((slot.isAvailable && slot.start <= now) ==> r == Fail(PastSlotMessage))
      && ((slot.isAvailable && slot.start > now && Hour(now) >= 19 && Day(slot.start) == Day(now))
          ==> r == Fail(AfterSevenMessage))
      && ((slot.isAvailable && slot.start > now && !(Hour(now) >= 19 && Day(slot.start) == Day(now))
           && ConflictSet(t, student, subject, SameDay(Day(slot.start)), None) != {})
          ==> r == Fail(SameDayConflictMessage))
  {
    SameDayCheck(t, student, subject, Day(t.slots[slotId].start), now, None, SameDayConflictMessage);
  }

  /** The 19:00 rule refuses exactly today's slots once the hour is 19 or
      later: before 19:00, or for a slot on another day, it never fires. */
  lemma CleanSevenPmRule(t: Tables, slotId: SlotId, student: UserId, subject: string, teacher: Option<string>, now: int)
    requires slotId in t.slots
    requires Hour(now) < 19 || Day(t.slots[slotId].start) != Day(now)
    ensures CleanWith(t, slotId, student, subject, teacher, None, now) != Fail(AfterSevenMessage)
  {
    SameDayCheck(t, student, subject, Day(t.slots[slotId].start), now, None, SameDayConflictMessage);
    assert |BlockedMessage(subject)| > |AfterSevenMessage|;
    assert |SameDayConflictMessage| != |AfterSevenMessage|;
    assert |NotAvailableMessage| != |AfterSevenMessage|;
    assert |PastSlotMessage| != |AfterSevenMessage|;
  }

  // ---------------------------------------------------------------------
  // create_booking

  /** The checks `create_booking` makes before writing, in order, once the
      slot's `subject` and `teacher` are resolved; the last one is the
      database's refusal of a second row for the slot. */
  function CreateCheck(t: Tables, slotId: SlotId, student: UserId, subject: string, teacher: Option<string>, now: int): Outcome
    requires slotId in t.slots
  {
    if !t.slots[slotId].isAvailable then Fail(NoLongerAvailableMessage)
    else if slotId in t.bookings && t.bookings[slotId].status == Confirmed then Fail(AlreadyBookedMessage)
    else
      var conflict := ValidateNoConflict(t, student, subject, "future", None, now, None, FutureConflictMessage);
      if conflict.Fail? then conflict
      else if AbsenceLocked(t, student, subject, teacher) then Fail(BlockedMessage(subject))
      else if slotId in t.bookings && t.bookings[slotId].status != Cancelled then Fail(DuplicateRowMessage)
      else Pass
  }

  /** The row a successful create leaves on the slot: the cancelled row
      recycled for the student, or a new confirmed row with `freshId`. */
  function BookedRow(t: Tables, slotId: SlotId, student: UserId, now: int, freshId: BookingId): (b: Booking)
    ensures b.student == student && b.status == Confirmed && b.cancelledAt.None? && b.reason == "" && b.updatedAt == now
    ensures slotId in t.bookings ==> b.id == t.bookings[slotId].id && b.absentAt == t.bookings[slotId].absentAt
    ensures slotId !in t.bookings ==> b.id == freshId && b.absentAt.None?
  {
    if slotId in t.bookings then
      t.bookings[slotId].(student := student, status := Confirmed, cancelledAt := None, reason := "", updatedAt := now)
    else Booking(freshId, student, Confirmed, None, "", None, now)
  }

  /** The tables with `row` stored on the slot and the slot closed. */
  function Booked(t: Tables, slotId: SlotId, row: Booking): Tables
    requires slotId in t.slots
  {
    t.(bookings := t.bookings[slotId := row], slots := t.slots[slotId := t.slots[slotId].(isAvailable := false)])
  }

  /** The locked section of `create_booking` with the slot's subject and
      teacher already resolved. */
  function CreateWith(t: Tables, slotId: SlotId, student: UserId, subject: string, teacher: Option<string>,
                      now: int, freshId: BookingId): (Tables, Result<BookingId>)
    requires slotId in t.slots
  {
    var check := CreateCheck(t, slotId, student, subject, teacher, now);
    if check.Fail? then (t, Err(check.error))
    else
      var row := BookedRow(t, slotId, student, now, freshId);
      (Booked(t, slotId, row), Ok(row.id))
  }

  /** The tables and result after `create_booking(slot, student)` at `now`:
      the locked section run with the slot's normalised subject and its
      faculty's external id. `freshId` is the id a newly inserted row
      receives. The lemmas below are stated for `CreateWith` with any
      subject and teacher, so they hold for this one. */
  function CreateBookingSpec(t: Tables, slotId: SlotId, student: UserId, now: int, freshId: BookingId): (Tables, Result<BookingId>)
    requires slotId in t.slots && t.slots[slotId].faculty in t.users
  {
    CreateWith(t, slotId, student, SlotSubject(t, slotId), SlotTeacher(t, slotId), now, freshId)
  }

  /** Every failed create leaves the tables exactly as they were. */
  lemma CreateErrUnchanged(t: Tables, slotId: SlotId, student: UserId, subject: string, teacher: Option<string>,
                           now: int, freshId: BookingId)
    requires slotId in t.slots
    ensures CreateWith(t, slotId, student, subject, teacher, now, freshId).1.Err? ==>
      CreateWith(t, slotId, student, subject, teacher, now, freshId).0 == t
  {
  }

  /** The guards in order: availability, an already confirmed row, a
      future conflict in the subject, the absence lock. */
  lemma CreateGuards(t: Tables, slotId: SlotId, student: UserId, subject: string, teacher: Option<string>,
                     now: int, freshId: BookingId)
    requires slotId in t.slots
    ensures var r := CreateWith(t, slotId, student, subject, teacher, now, freshId).1;
      var open := t.slots[slotId].isAvailable && !(slotId in t.bookings && t.bookings[slotId].status == Confirmed);
      var noConflict := ConflictSet(t, student, subject, Future(now), None) == {};
      && (!t.slots[slotId].isAvailable ==> r == Err(NoLongerAvailableMessage))
      && ((t.slots[slotId].isAvailable && slotId in t.bookings && t.bookings[slotId].status == Confirmed)
          ==> r == Err(AlreadyBookedMessage))
      && ((open && !noConflict) ==> r == Err(FutureConflictMessage))
      && ((open && noConflict && AbsenceLocked(t, student, subject, teacher)) ==> r == Err(BlockedMessage(subject)))
  {
    FutureCheck(t, student, subject, now, FutureConflictMessage);
  }

  /** On an offered slot the engine never answers "no longer available". */
  lemma CreateOpenRefusals(t: Tables, slotId: SlotId, student: UserId, subject: string, teacher: Option<string>,
                           now: int, freshId: BookingId)
    requires slotId in t.slots && t.slots[slotId].isAvailable
    ensures CreateWith(t, slotId, student, subject, teacher, now, freshId).1 != Err(NoLongerAvailableMessage)
  {
    CreateGuards(t, slotId, student, subject, teacher, now, freshId);
    CreateOkIff(t, slotId, student, subject, teacher, now, freshId);
    BlockedMessageStart(subject);
  }

  /** A create succeeds exactly when the slot is open, the student has no
      future booking in the subject, is not locked out by an absence, and
      the slot has no row or only a cancelled one. */
  lemma CreateOkIff(t: Tables, slotId: SlotId, student: UserId, subject: string, teacher: Option<string>,
                    now: int, freshId: BookingId)
    requires slotId in t.slots
    ensures CreateWith(t, slotId, student, subject, teacher, now, freshId).1.Ok? <==>
      && t.slots[slotId].isAvailable
      && (slotId in t.bookings ==> t.bookings[slotId].status == Cancelled)
      && ConflictSet(t, student, subject, Future(now), None) == {}
      && !AbsenceLocked(t, student, subject, teacher)
  {
    FutureCheck(t, student, subject, now, FutureConflictMessage);
  }

  /** What a successful create writes: the slot's row is a confirmed
      booking of the student with no cancellation data, a recycled row
      keeps its id and absence time, a new row takes `freshId`, the slot is
      closed, and no other row of any table changes. */
  lemma CreateSuccess(t: Tables, slotId: SlotId, student: UserId, subject: string, teacher: Option<string>,
                      now: int, freshId: BookingId)
    requires slotId in t.slots
    requires CreateWith(t, slotId, student, subject, teacher, now, freshId).1.Ok?
    ensures var (t', r) := CreateWith(t, slotId, student, subject, teacher, now, freshId);
      && (slotId in t.bookings ==> r.value == t.bookings[slotId].id && t'.bookings[slotId].absentAt == t.bookings[slotId].absentAt)
      && (slotId !in t.bookings ==> r.value == freshId && t'.bookings[slotId].absentAt.None?)
      && slotId in t'.bookings
      && t'.bookings[slotId].id == r.value
      && t'.bookings[slotId].student == student
      && t'.bookings[slotId].status == Confirmed
      && t'.bookings[slotId].cancelledAt.None? && t'.bookings[slotId].reason == ""
      && t'.bookings[slotId].updatedAt == now
      && t'.slots == t.slots[slotId := t.slots[slotId].(isAvailable := false)]
      && (forall s :: s in t.bookings && s != slotId ==> s in t'.bookings && t'.bookings[s] == t.bookings[s])
      && t'.bookings.Keys == t.bookings.Keys + {slotId}
      && t'.users == t.users && t'.permissions == t.permissions && t'.assignments == t.assignments
  {
    assert CreateCheck(t, slotId, student, subject, teacher, now) == Pass;
  }

  /** A completed or absent row cannot be replaced: a slot holding one is
      refused, at the latest by the one-row-per-slot constraint. */
  lemma CreateOverUsedRowFails(t: Tables, slotId: SlotId, student: UserId, subject: string, teacher: Option<string>,
                               now: int, freshId: BookingId)
    requires slotId in t.slots && slotId in t.bookings
    requires t.bookings[slotId].status == Completed || t.bookings[slotId].status == Absent
    ensures CreateWith(t, slotId, student, subject, teacher, now, freshId).1.Err?
  {
    CreateOkIff(t, slotId, student, subject, teacher, now, freshId);
  }

  /** Storing a row with an unused id on a slot keeps referential integrity. */
  lemma BookedPreservesValid(t: Tables, slotId: SlotId, row: Booking)
    requires Valid(t) && slotId in t.slots && row.student in t.users
    requires slotId in t.bookings ==> row.id == t.bookings[slotId].id
    requires slotId !in t.bookings ==> !IdInUse(t, row.id)
    ensures Valid(Booked(t, slotId, row))
  {
    var t' := Booked(t, slotId, row);
    forall s1, s2 | s1 in t'.bookings && s2 in t'.bookings && s1 != s2
      ensures t'.bookings[s1].id != t'.bookings[s2].id
    {
      if s1 == slotId && slotId !in t.bookings {
        assert !(s2 in t.bookings && t.bookings[s2].id == row.id);
      } else if s2 == slotId && slotId !in t.bookings {
        assert !(s1 in t.bookings && t.bookings[s1].id == row.id);
      }
    }
  }

  /** A create by an existing student keeps referential integrity, given
      an id no row has. */
  lemma CreatePreservesValid(t: Tables, slotId: SlotId, student: UserId, subject: string, teacher: Option<string>,
                             now: int, freshId: BookingId)
    requires Valid(t) && !IdInUse(t, freshId) && slotId in t.slots && student in t.users
    ensures Valid(CreateWith(t, slotId, student, subject, teacher, now, freshId).0)
  {
    if CreateCheck(t, slotId, student, subject, teacher, now) == Pass {
      BookedPreservesValid(t, slotId, BookedRow(t, slotId, student, now, freshId));
    }
  }

  /** Closing a slot while storing a confirmed row on it keeps "confirmed
      implies unavailable". */
  lemma BookedPreservesConsistent(t: Tables, slotId: SlotId, row: Booking)
    requires Consistent(t) && slotId in t.slots
    ensures Consistent(Booked(t, slotId, row))
  {
    var t' := Booked(t, slotId, row);
    forall s | s in t'.bookings && s in t'.slots && t'.bookings[s].status == Confirmed
      ensures !t'.slots[s].isAvailable
    {
      if s != slotId {
        assert t'.bookings[s] == t.bookings[s] && t'.slots[s] == t.slots[s];
      }
    }
  }

  /** A create keeps "confirmed implies unavailable". */
  lemma CreatePreservesConsistent(t: Tables, slotId: SlotId, student: UserId, subject: string, teacher: Option<string>,
                                  now: int, freshId: BookingId)
    requires Consistent(t) && slotId in t.slots
    ensures Consistent(CreateWith(t, slotId, student, subject, teacher, now, freshId).0)
  {
    if CreateCheck(t, slotId, student, subject, teacher, now) == Pass {
      BookedPreservesConsistent(t, slotId, BookedRow(t, slotId, student, now, freshId));
    }
  }

  /** No double booking: right after a successful create, any student's
      create on the same slot fails as unavailable. */
  lemma NoDoubleBooking(t: Tables, slotId: SlotId, student: UserId, subject: string, teacher: Option<string>,
                        now: int, id1: BookingId,
                        other: UserId, subject2: string, teacher2: Option<string>, later: int, id2: BookingId)
    requires slotId in t.slots
    requires CreateWith(t, slotId, student, subject, teacher, now, id1).1.Ok?
    ensures var t' := CreateWith(t, slotId, student, subject, teacher, now, id1).0;
      slotId in t'.slots
      && CreateWith(t', slotId, other, subject2, teacher2, later, id2).1 == Err(NoLongerAvailableMessage)
  {
    assert CreateCheck(t, slotId, student, subject, teacher, now) == Pass;
  }

  /** The transaction itself: subject and teacher are resolved, the guards
      run, then the row is recycled or inserted and the slot is marked
      unavailable. */
  method CreateBooking(db: Database, slotId: SlotId, student: UserId, now: int, freshId: BookingId) returns (r: Result<BookingId>)
    requires slotId in db.slots && db.slots[slotId].faculty in db.users
    modifies db
    ensures (db.State(), r) == CreateBookingSpec(old(db.State()), slotId, student, now, freshId)
  {
    var subject := SlotSubject(db.State(), slotId);
    var teacher := SlotTeacher(db.State(), slotId);
    r := CreateLocked(db, slotId, student, subject, teacher, now, freshId);
  }

  /** The part of the transaction that runs under the slot and student
      locks. */
  method CreateLocked(db: Database, slotId: SlotId, student: UserId, subject: string, teacher: Option<string>,
                      now: int, freshId: BookingId) returns (r: Result<BookingId>)
    requires slotId in db.slots
    modifies db
    ensures db.State() == CreateWith(old(db.State()), slotId, student, subject, teacher, now, freshId).0
    ensures r == CreateWith(old(db.State()), slotId, student, subject, teacher, now, freshId).1
  {
    var t := db.State();
    var slot := t.slots[slotId];
    if !slot.isAvailable {
      return Err(NoLongerAvailableMessage);
    }
    var existing: Option<Booking> := if slotId in t.bookings then Some(t.bookings[slotId]) else None;
    if existing.Some? && existing.value.status == Confirmed {
      return Err(AlreadyBookedMessage);
    }
    FutureCheck(t, student, subject, now, FutureConflictMessage);
    var conflict := ValidateNoConflict(t, student, subject, "future", None, now, None, FutureConflictMessage);
    if conflict.Fail? {
      assert CreateCheck(t, slotId, student, subject, teacher, now) == conflict;
      return Err(conflict.error);
    }
    if AbsenceLocked(t, student, subject, teacher) {
      assert CreateCheck(t, slotId, student, subject, teacher, now) == Fail(BlockedMessage(subject));
      return Err(BlockedMessage(subject));
    }
    var row: Booking;
    if existing.Some? && existing.value.status == Cancelled {
      row := existing.value;
      row := row.(student := student, status := Confirmed, cancelledAt := None, reason := "", updatedAt := now);
    } else if existing.Some? {
      assert CreateCheck(t, slotId, student, subject, teacher, now) == Fail(DuplicateRowMessage);
      return Err(DuplicateRowMessage);
    } else {
      row := Booking(freshId, student, Confirmed, None, "", None, now);
    }
    assert CreateCheck(t, slotId, student, subject, teacher, now) == Pass;
    assert row == BookedRow(t, slotId, student, now, freshId);
    db.bookings := db.bookings[slotId := row];
    db.slots := db.slots[slotId := slot.(isAvailable := false)];
    assert db.State() == Booked(t, slotId, row);
    r := Ok(row.id);
  }

  // ---------------------------------------------------------------------
  // cancel

  /** The tables and result after `cancel(reason, force=force)` on the
      booking row of `slotId` at `now`. */
  function CancelSpec(t: Tables, slotId: SlotId, reason: string, force: bool, now: int): (Tables, Result<BookingId>)
    requires slotId in t.bookings && slotId in t.slots
  {
    var b := t.bookings[slotId];
    var slot := t.slots[slotId];
    if b.status != Confirmed then (t, Err(OnlyConfirmedMessage))
    else if !force && !CanCancel(b, slot, now) then (t, Err(CancellationWindowMessage))
    else
      var row := b.(status := Cancelled, cancelledAt := Some(now), reason := reason, updatedAt := now);
      (t.(bookings := t.bookings[slotId := row], slots := t.slots[slotId := slot.(isAvailable := true)]), Ok(b.id))
  }

  /** When cancel succeeds and when it fails: only a confirmed row can be
      cancelled; without `force` the four-hour window must hold; `force`
      bypasses only the window. */
  lemma CancelOutcome(t: Tables, slotId: SlotId, reason: string, force: bool, now: int)
    requires slotId in t.bookings && slotId in t.slots
    ensures var r := CancelSpec(t, slotId, reason, force, now).1;
      var b := t.bookings[slotId];
      && (b.status != Confirmed ==> r == Err(OnlyConfirmedMessage))
      && (b.status == Confirmed && !force && !CanCancel(b, t.slots[slotId], now) ==> r == Err(CancellationWindowMessage))
      && (r.Ok? <==> b.status == Confirmed && (force || now < t.slots[slotId].start - 240))
      && (r.Err? ==> CancelSpec(t, slotId, reason, force, now).0 == t)
  {
  }

  /** A successful cancel records status, time and reason on the same row,
      reopens the slot, and changes nothing else. */
  lemma CancelSuccess(t: Tables, slotId: SlotId, reason: string, force: bool, now: int)
    requires slotId in t.bookings && slotId in t.slots
    requires CancelSpec(t, slotId, reason, force, now).1.Ok?
    ensures var (t', r) := CancelSpec(t, slotId, reason, force, now);
      && r.value == t.bookings[slotId].id
      && t'.bookings[slotId] == t.bookings[slotId].(status := Cancelled, cancelledAt := Some(now), reason := reason, updatedAt := now)
      && t'.slots[slotId].isAvailable
      && t'.slots[slotId] == t.slots[slotId].(isAvailable := true)
      && t'.bookings.Keys == t.bookings.Keys && t'.slots.Keys == t.slots.Keys
      && (forall s :: s in t.bookings && s != slotId ==> t'.bookings[s] == t.bookings[s])
      && (forall s :: s in t.slots && s != slotId ==> t'.slots[s] == t.slots[s])
      && t'.users == t.users && t'.permissions == t.permissions && t'.assignments == t.assignments
  {
  }

  lemma CancelPreservesValid(t: Tables, slotId: SlotId, reason: string, force: bool, now: int)
    requires Valid(t) && slotId in t.bookings && slotId in t.slots
    ensures Valid(CancelSpec(t, slotId, reason, force, now).0)
  {
    var (t', r) := CancelSpec(t, slotId, reason, force, now);
    if r.Ok? {
      CancelSuccess(t, slotId, reason, force, now);
      assert t'.bookings.Keys == t.bookings.Keys;
      forall s1, s2 | s1 in t'.bookings && s2 in t'.bookings && s1 != s2
        ensures t'.bookings[s1].id != t'.bookings[s2].id
      {
      }
    }
  }

  lemma CancelPreservesConsistent(t: Tables, slotId: SlotId, reason: string, force: bool, now: int)
    requires Consistent(t) && slotId in t.bookings && slotId in t.slots
    ensures Consistent(CancelSpec(t, slotId, reason, force, now).0)
  {
  }

  /** Cancel then rebook: after a successful cancel, the next successful
      create on the slot recycles the same booking id. */
  lemma CancelThenRebookReusesId(t: Tables, slotId: SlotId, reason: string, force: bool, now: int,
                                 student: UserId, subject: string, teacher: Option<string>, later: int, freshId: BookingId)
    requires slotId in t.bookings && slotId in t.slots
    requires CancelSpec(t, slotId, reason, force, now).1.Ok?
    ensures var t' := CancelSpec(t, slotId, reason, force, now).0;
      slotId in t'.slots
      && (CreateWith(t', slotId, student, subject, teacher, later, freshId).1.Ok? ==>
            CreateWith(t', slotId, student, subject, teacher, later, freshId).1.value == t.bookings[slotId].id)
  {
    var t' := CancelSpec(t, slotId, reason, force, now).0;
    CancelSuccess(t, slotId, reason, force, now);
    if CreateWith(t', slotId, student, subject, teacher, later, freshId).1.Ok? {
      CreateSuccess(t', slotId, student, subject, teacher, later, freshId);
    }
  }

  /** Cancel then rebook: the only guards that can still refuse the slot
      are the booking student's own conflict and absence lock. */
  lemma CancelThenRebookAccepted(t: Tables, slotId: SlotId, reason: string, force: bool, now: int,
                                 student: UserId, subject: string, teacher: Option<string>, later: int, freshId: BookingId)
    requires slotId in t.bookings && slotId in t.slots
    requires CancelSpec(t, slotId, reason, force, now).1.Ok?
    ensures var t' := CancelSpec(t, slotId, reason, force, now).0;
      slotId in t'.slots
      && ((ConflictSet(t', student, subject, Future(later), None) == {} && !AbsenceLocked(t', student, subject, teacher))
          ==> CreateWith(t', slotId, student, subject, teacher, later, freshId).1 == Ok(t.bookings[slotId].id))
  {
    var t' := CancelSpec(t, slotId, reason, force, now).0;
    CancelSuccess(t, slotId, reason, force, now);
    CreateOkIff(t', slotId, student, subject, teacher, later, freshId);
    if CreateWith(t', slotId, student, subject, teacher, later, freshId).1.Ok? {
      CreateSuccess(t', slotId, student, subject, teacher, later, freshId);
    }
  }

  /** The transaction: the status and window checks, then the row and the
      slot are updated. */
  method Cancel(db: Database, slotId: SlotId, reason: string, force: bool, now: int) returns (r: Result<BookingId>)
    requires slotId in db.bookings && slotId in db.slots
    modifies db
    ensures (db.State(), r) == CancelSpec(old(db.State()), slotId, reason, force, now)
  {
    var b := db.bookings[slotId];
    if b.status != Confirmed {
      return Err(OnlyConfirmedMessage);
    }
    if !force && !CanCancel(b, db.slots[slotId], now) {
      return Err(CancellationWindowMessage);
    }
    b := b.(status := Cancelled, cancelledAt := Some(now), reason := reason, updatedAt := now);
    db.bookings := db.bookings[slotId := b];
    var slot := db.slots[slotId];
    db.slots := db.slots[slotId := slot.(isAvailable := true)];
    r := Ok(b.id);
  }
}
