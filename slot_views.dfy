/** The faculty side of the slot views: listing one's own slots with the
    date and future filters, deleting a slot or the whole of today's slots
    without losing booking history, and reading or setting the sticky
    faculty subject. */
module SlotViews {
  import opened Wrappers
  import opened Text
  import opened Clock
  import opened Tables
  import Subjects
  import SlotRules

  const NotFoundMessage: string := "Not found."
  const HistoryMessage: string := "Cannot delete a slot that has booking history"
  const AlreadyConfiguredMessage: string := "Subject is already configured and cannot be changed."
  const SubjectRequiredMessage: string := "Subject is required"
  const SubjectLockedMessage: string := "Subject cannot be changed once slots exist."

  function ConfirmedTodayMessage(count: int): string {
    "Cannot delete today's slots because you have " + IntToString(count)
      + " confirmed booking(s). Cancel those bookings first."
  }

  // ---------------------------------------------------------------------
  // list

  /** The `date` query parameter as a day number; None when it is absent
      (""), or when it does not parse, in which case it is ignored. */
  function DateFilter(dateParam: string): (r: Option<int>)
    ensures r.Some? <==> ParseDate(dateParam).Some?
  {
    if dateParam == "" then None
    else
      match ParseDate(dateParam)
      case None => None
      case Some(dt) => Some(DayNumber(dt))
  }

  /** `future_only`, which defaults to "true" and is compared lower-cased. */
  predicate FutureOnly(param: Option<string>) {
    Lower(if param.None? then "true" else param.value) == "true"
  }

  /** `FacultySlotViewSet.list`: the faculty's own slots, within the day
      window [midnight, midnight + 1 day) when a date is given, and
      starting after now unless `future_only` says otherwise. */
  function FacultyList(t: Tables, faculty: UserId, dateParam: string, futureParam: Option<string>, now: int): set<SlotId> {
    var day := DateFilter(dateParam);
    set s | s in t.slots && t.slots[s].faculty == faculty
              && (day.Some? ==> Midnight(day.value) <= t.slots[s].start < Midnight(day.value) + MinutesPerDay)
              && (FutureOnly(futureParam) ==> t.slots[s].start > now)
  }

  /** A listed slot is one of the faculty's, on the requested calendar day
      when a valid date is given, and in the future when asked for. */
  lemma FacultyListIff(t: Tables, faculty: UserId, dateParam: string, futureParam: Option<string>, now: int, s: SlotId)
    ensures s in FacultyList(t, faculty, dateParam, futureParam, now) <==>
      && s in t.slots && t.slots[s].faculty == faculty
      && (ParseDate(dateParam).Some? ==> Day(t.slots[s].start) == DayNumber(ParseDate(dateParam).value))
      && (FutureOnly(futureParam) ==> t.slots[s].start > now)
  {
    if s in t.slots && ParseDate(dateParam).Some? {
      DayWindow(t.slots[s].start, DayNumber(ParseDate(dateParam).value));
    }
  }

  /** A date that does not parse filters nothing. */
  lemma FacultyListIgnoresBadDate(t: Tables, faculty: UserId, dateParam: string, futureParam: Option<string>, now: int)
    requires ParseDate(dateParam).None?
    ensures FacultyList(t, faculty, dateParam, futureParam, now) == FacultyList(t, faculty, "", futureParam, now)
  {
  }

  /** The ISO form of a date filters by that date. */
  lemma FacultyListByIsoDate(dt: Date)
    requires ValidDate(dt)
    ensures DateFilter(FormatDate(dt)) == Some(DayNumber(dt))
  {
    ParseFormat(dt);
  }

  /** The future filter is on by default and in any capitalisation of
      "true", and off for anything else. */
  lemma FutureOnlyCases(other: string)
    requires Lower(other) != "true"
    ensures FutureOnly(None) && FutureOnly(Some("True")) && FutureOnly(Some("TRUE"))
    ensures !FutureOnly(Some(other))
  {
  }

  // ---------------------------------------------------------------------
  // destroy

  /** A booking whose row must be kept: confirmed, completed or absent. */
  predicate HasHistory(t: Tables, s: SlotId) {
    s in t.bookings && t.bookings[s].status in {Confirmed, Completed, Absent}
  }

  /** Every row with history is still there, unchanged. */
  predicate HistoryKept(t: Tables, t': Tables) {
    forall s :: s in t.bookings && HasHistory(t, s) ==>
      && s in t'.bookings && t'.bookings[s] == t.bookings[s]
      && (s in t.slots ==> s in t'.slots && t'.slots[s] == t.slots[s])
  }

  /** Deleting slots deletes their booking rows with them. */
  function RemoveSlots(t: Tables, gone: set<SlotId>): Tables {
    t.(slots := t.slots - gone, bookings := t.bookings - gone)
  }

  /** `destroy`: a slot of another faculty member is not found; a slot with
      booking history is refused; otherwise it goes, with its row. */
  function DestroySpec(t: Tables, faculty: UserId, slotId: SlotId): (Tables, Outcome) {
    if slotId !in t.slots || t.slots[slotId].faculty != faculty then (t, Fail(NotFoundMessage))
    else if HasHistory(t, slotId) then (t, Fail(HistoryMessage))
    else (RemoveSlots(t, {slotId}), Pass)
  }

  /** Deletion happens exactly for an own slot that is open or whose booking
      was cancelled; then that slot and its row, and nothing else, go. */
  lemma DestroyOutcome(t: Tables, faculty: UserId, slotId: SlotId)
    ensures var (t', r) := DestroySpec(t, faculty, slotId);
      && (r == Pass <==> slotId in t.slots && t.slots[slotId].faculty == faculty
                           && (slotId !in t.bookings || t.bookings[slotId].status == Cancelled))
      && (r == Fail(HistoryMessage) <==> slotId in t.slots && t.slots[slotId].faculty == faculty && HasHistory(t, slotId))
      && (r != Pass ==> t' == t)
      && (r == Pass ==> t'.slots.Keys == t.slots.Keys - {slotId} && t'.bookings.Keys == t.bookings.Keys - {slotId}
                        && (forall s :: s in t'.slots ==> t'.slots[s] == t.slots[s])
                        && (forall s :: s in t'.bookings ==> t'.bookings[s] == t.bookings[s])
                        && t'.users == t.users && t'.permissions == t.permissions && t'.assignments == t.assignments)
      && HistoryKept(t, t')
  {
  }

  /** Removing slots together with their rows keeps the tables valid and
      consistent. */
  lemma RemoveSlotsPreserves(t: Tables, gone: set<SlotId>)
    requires Valid(t) && Consistent(t)
    ensures Valid(RemoveSlots(t, gone)) && Consistent(RemoveSlots(t, gone))
  {
  }

  method Destroy(db: Database, faculty: UserId, slotId: SlotId) returns (r: Outcome)
    modifies db
    ensures (db.State(), r) == DestroySpec(old(db.State()), faculty, slotId)
  {
    if slotId !in db.slots || db.slots[slotId].faculty != faculty {
      return Fail(NotFoundMessage);
    }
    if slotId in db.bookings && db.bookings[slotId].status in {Confirmed, Completed, Absent} {
      return Fail(HistoryMessage);
    }
    db.slots := db.slots - {slotId};
    db.bookings := db.bookings - {slotId};
    r := Pass;
  }

  // ---------------------------------------------------------------------
  // delete_todays_slots

  /** The faculty's slots starting in [today 00:00, +1 day). */
  function TodaysSlots(t: Tables, faculty: UserId, today: int): (r: set<SlotId>)
    ensures r <= t.slots.Keys
  {
    set s | s in t.slots && t.slots[s].faculty == faculty
              && Midnight(today) <= t.slots[s].start < Midnight(today) + MinutesPerDay
  }

  function ConfirmedToday(t: Tables, faculty: UserId, today: int): (r: set<SlotId>)
    ensures r <= TodaysSlots(t, faculty, today)
  {
    set s | s in TodaysSlots(t, faculty, today) && SlotRules.HasBooking(t, s)
  }

  function DeletableToday(t: Tables, faculty: UserId, today: int): (r: set<SlotId>)
    ensures r <= TodaysSlots(t, faculty, today)
  {
    set s | s in TodaysSlots(t, faculty, today) && !HasHistory(t, s)
  }

  /** `deleted_count` counts the deleted slots and the booking rows deleted
      with them; `skipped_count` is today's total less the deletable ones. */
  datatype DeleteReport = DeleteReport(deleted: int, skipped: int)

  /** `delete_todays_slots`: refused while any of today's slots holds a
      confirmed booking; otherwise today's open and cancelled slots go. */
  function DeleteTodaySpec(t: Tables, faculty: UserId, now: int): (Tables, Result<DeleteReport>) {
    var today := Day(now);
    var confirmed := ConfirmedToday(t, faculty, today);
    if |confirmed| > 0 then (t, Err(ConfirmedTodayMessage(|confirmed|)))
    else
      var gone := DeletableToday(t, faculty, today);
      (RemoveSlots(t, gone),
       Ok(DeleteReport(|gone| + |gone * t.bookings.Keys|, |TodaysSlots(t, faculty, today)| - |gone|)))
  }

  /** With a confirmed booking today nothing is deleted and the count of
      such bookings is reported. */
  lemma DeleteTodayRefused(t: Tables, faculty: UserId, now: int, s: SlotId)
    requires s in t.slots && t.slots[s].faculty == faculty && Day(t.slots[s].start) == Day(now) && SlotRules.HasBooking(t, s)
    ensures DeleteTodaySpec(t, faculty, now)
      == (t, Err(ConfirmedTodayMessage(|ConfirmedToday(t, faculty, Day(now))|)))
  {
    DayWindow(t.slots[s].start, Day(now));
    assert s in ConfirmedToday(t, faculty, Day(now));
  }

  /** Removing today's deletable slots removes exactly the faculty's slots
      of today without history, and leaves everything else as it was. */
  lemma RemoveTodayExact(t: Tables, faculty: UserId, today: int)
    ensures var t' := RemoveSlots(t, DeletableToday(t, faculty, today));
      && (forall s :: s in t.slots ==>
            (s !in t'.slots <==> t.slots[s].faculty == faculty && Day(t.slots[s].start) == today && !HasHistory(t, s)))
      && (forall s :: s in t'.slots ==> s in t.slots && t'.slots[s] == t.slots[s])
      && (forall s :: s in t'.bookings ==> s in t.bookings && t'.bookings[s] == t.bookings[s])
      && HistoryKept(t, t')
      && t'.users == t.users && t'.permissions == t.permissions && t'.assignments == t.assignments
  {
    var t' := RemoveSlots(t, DeletableToday(t, faculty, today));
    forall s | s in t.slots
      ensures s !in t'.slots <==> t.slots[s].faculty == faculty && Day(t.slots[s].start) == today && !HasHistory(t, s)
    {
      DayWindow(t.slots[s].start, today);
    }
  }

  lemma CardDifference<T>(a: set<T>, b: set<T>)
    requires b <= a
    ensures |a - b| == |a| - |b|
  {
    assert a == (a - b) + b;
  }

  /** Without a confirmed booking today, the deletable slots go and the
      counts are reported. */
  lemma DeleteTodayOk(t: Tables, faculty: UserId, now: int)
    requires ConfirmedToday(t, faculty, Day(now)) == {}
    ensures var gone := DeletableToday(t, faculty, Day(now));
      DeleteTodaySpec(t, faculty, now)
        == (RemoveSlots(t, gone), Ok(DeleteReport(|gone| + |gone * t.bookings.Keys|, |TodaysSlots(t, faculty, Day(now)) - gone|)))
  {
    CardDifference(TodaysSlots(t, faculty, Day(now)), DeletableToday(t, faculty, Day(now)));
  }

  /** Otherwise exactly the faculty's slots of today without history are
      deleted, and other faculty's slots, other days and the rows with
      history stay as they were. The skipped count is the number of today's
      slots kept, and the deleted count is at least the number of slots
      deleted. */
  lemma DeleteTodayExact(t: Tables, faculty: UserId, now: int)
    requires forall s :: s in t.slots && t.slots[s].faculty == faculty && Day(t.slots[s].start) == Day(now) ==> !SlotRules.HasBooking(t, s)
    ensures var (t', r) := DeleteTodaySpec(t, faculty, now);
      && r.Ok?
      && (forall s :: s in t.slots ==>
            (s !in t'.slots <==> t.slots[s].faculty == faculty && Day(t.slots[s].start) == Day(now) && !HasHistory(t, s)))
      && (forall s :: s in t'.slots ==> s in t.slots && t'.slots[s] == t.slots[s])
      && HistoryKept(t, t')
      && t'.users == t.users && t'.permissions == t.permissions && t'.assignments == t.assignments
      && r.value.skipped == |TodaysSlots(t, faculty, Day(now)) - DeletableToday(t, faculty, Day(now))|
      && r.value.deleted >= |t.slots.Keys - t'.slots.Keys|
  {
    var today := Day(now);
    assert ConfirmedToday(t, faculty, today) == {} by {
      forall s | s in ConfirmedToday(t, faculty, today) ensures false {
        DayWindow(t.slots[s].start, today);
      }
    }
    DeleteTodayOk(t, faculty, now);
    RemoveTodayExact(t, faculty, today);
    var gone := DeletableToday(t, faculty, today);
    assert t.slots.Keys - RemoveSlots(t, gone).slots.Keys == gone;
  }

  /** `queryset.delete()`: the slots go, and their booking rows with them. */
  method DeleteRows(db: Database, gone: set<SlotId>)
    modifies db
    ensures db.State() == RemoveSlots(old(db.State()), gone)
  {
    db.slots := db.slots - gone;
    db.bookings := db.bookings - gone;
  }

  method DeleteTodaysSlots(db: Database, faculty: UserId, now: int) returns (r: Result<DeleteReport>)
    modifies db
    ensures db.State() == DeleteTodaySpec(old(db.State()), faculty, now).0
    ensures r == DeleteTodaySpec(old(db.State()), faculty, now).1
  {
    var today := Day(now);
    var confirmed := ConfirmedToday(db.State(), faculty, today);
    if |confirmed| > 0 {
      r := Err(ConfirmedTodayMessage(|confirmed|));
    } else {
      assert confirmed == {};
      DeleteTodayOk(db.State(), faculty, now);
      var report := DeleteDeletable(db, faculty, today);
      r := Ok(report);
    }
  }

  /** Past the confirmed-booking check: today's deletable slots go, and
      the counts are reported. */
  method DeleteDeletable(db: Database, faculty: UserId, today: int) returns (r: DeleteReport)
    modifies db
    ensures var t := old(db.State());
      var gone := DeletableToday(t, faculty, today);
      && db.State() == RemoveSlots(t, gone)
      && r == DeleteReport(|gone| + |gone * t.bookings.Keys|, |TodaysSlots(t, faculty, today)| - |gone|)
  {
    var t := db.State();
    var deletable := DeletableToday(t, faculty, today);
    var total := |TodaysSlots(t, faculty, today)|;
    var deleted := |deletable| + |deletable * t.bookings.Keys|;
    DeleteRows(db, deletable);
    r := DeleteReport(deleted, total - |deletable|);
  }

  // ---------------------------------------------------------------------
  // The `subject` action

  /** The distinct allowed subjects of the faculty's slots, here normalised
      rather than only stripped. */
  function NormalizedSubjects(t: Tables, faculty: UserId): (r: set<string>)
    ensures r <= Subjects.Allowed
  {
    set s | s in t.slots && t.slots[s].faculty == faculty && Subjects.Normalize(t.slots[s].subject) in Subjects.Allowed
      :: Subjects.Normalize(t.slots[s].subject)
  }

  /** `sorted(set(...))` of those subjects. */
  function SortedNormalizedSubjects(t: Tables, faculty: UserId): (r: seq<string>)
    ensures forall x :: x in r ==> x in Subjects.Allowed
  {
    SlotRules.AllowedListDistinct();
    SlotRules.InOrder(Subjects.AllowedList, NormalizedSubjects(t, faculty))
  }

  /** POST once the configured and requested subjects are normalised,
      whether the request is allowed is known, and the slot subjects are
      listed. */
  function SubjectPostWith(t: Tables, faculty: UserId, configured: string, requested: string, requestedAllowed: bool,
                           existing: seq<string>): (r: (Tables, Result<string>))
    requires faculty in t.users
    ensures r.0.users.Keys == t.users.Keys
  {
    if configured != "" then (t, Err(AlreadyConfiguredMessage))
    else if requested == "" then (t, Err(SubjectRequiredMessage))
    else if !requestedAllowed then (t, Err(SlotRules.InvalidSubjectMessage))
    else if |existing| == 1 && existing[0] != requested then (t, Err(SubjectLockedMessage))
    else if |existing| > 1 then (t, Err(SlotRules.InvalidMappingMessage))
    else (SlotRules.Backfill(t, faculty, requested), Ok(requested))
  }

  /** POST `subject`: set the faculty subject once. */
  function SubjectPostSpec(t: Tables, faculty: UserId, requestedSubject: string): (Tables, Result<string>)
    requires faculty in t.users
  {
    var requested := Subjects.Normalize(requestedSubject);
    SubjectPostWith(t, faculty, Subjects.Normalize(t.users[faculty].facultySubject), requested,
                    Subjects.IsAllowed(requested), SortedNormalizedSubjects(t, faculty))
  }

  /** GET once the configured subject is normalised and the slot subjects
      are listed. The backfill here is not guarded. */
  function SubjectGetWith(t: Tables, faculty: UserId, configured: string, existing: seq<string>): (r: (Tables, Result<Option<string>>))
    requires faculty in t.users
    ensures r.0.users.Keys == t.users.Keys
  {
    if configured != "" then
      if configured !in Subjects.Allowed then (t, Err(SlotRules.InvalidConfiguredMessage))
      else (t, Ok(Some(configured)))
    else if |existing| == 0 then (t, Ok(None))
    else if |existing| != 1 then (t, Err(SlotRules.InvalidMappingMessage))
    else (SlotRules.Backfill(t, faculty, existing[0]), Ok(Some(existing[0])))
  }

  /** GET `subject`: the configured subject, else the one derived from the
      slots (and backfilled), else not set (`Ok(None)`). */
  function SubjectGetSpec(t: Tables, faculty: UserId): (Tables, Result<Option<string>>)
    requires faculty in t.users
  {
    SubjectGetWith(t, faculty, Subjects.Normalize(t.users[faculty].facultySubject), SortedNormalizedSubjects(t, faculty))
  }

  /** POST succeeds exactly when nothing is configured, an allowed subject
      is requested and the slots carry no other subject; then only the
      faculty's subject is written. */
  lemma SubjectPostIff(t: Tables, faculty: UserId, configured: string, requested: string, requestedAllowed: bool,
                       existing: seq<string>)
    requires faculty in t.users
    ensures var (t', r) := SubjectPostWith(t, faculty, configured, requested, requestedAllowed, existing);
      && (r.Ok? <==> configured == "" && requested != "" && requestedAllowed && (existing == [] || existing == [requested]))
      && (r.Ok? ==> r.value == requested && t' == SlotRules.Backfill(t, faculty, requested))
      && (r.Err? ==> t' == t)
      && (configured != "" ==> r == Err(AlreadyConfiguredMessage))
      && (configured == "" && |existing| > 1 && requested != "" && requestedAllowed ==> r == Err(SlotRules.InvalidMappingMessage))
  {
    if |existing| == 1 {
      assert existing == [existing[0]];
    }
  }

  /** What GET returns and writes: the configured subject, or the
      refusal of one outside the allow-list; otherwise not set, the single
      slot subject (backfilled), or the mapping error for several. */
  lemma SubjectGetCases(t: Tables, faculty: UserId, configured: string, existing: seq<string>)
    requires faculty in t.users
    ensures var (t', r) := SubjectGetWith(t, faculty, configured, existing);
      && (configured != "" && configured in Subjects.Allowed ==> t' == t && r == Ok(Some(configured)))
      && (configured == "" && existing == [] ==> t' == t && r == Ok(None))
      && (configured == "" && |existing| == 1 ==> t' == SlotRules.Backfill(t, faculty, existing[0]) && r == Ok(Some(existing[0])))
      && (configured != "" && configured !in Subjects.Allowed ==> t' == t && r == Err(SlotRules.InvalidConfiguredMessage))
      && (configured == "" && |existing| > 1 ==> t' == t && r == Err(SlotRules.InvalidMappingMessage))
      && (r.Err? ==> t' == t)
  {
  }

  /** The allowed check on a normalised request is membership. */
  lemma RequestAllowed(requestedSubject: string)
    ensures Subjects.IsAllowed(Subjects.Normalize(requestedSubject)) <==> Subjects.Normalize(requestedSubject) in Subjects.Allowed
  {
    Subjects.NormalizeIdempotent(requestedSubject);
  }

  /** Once a subject is configured, POST refuses and writes nothing. */
  lemma PostWhenConfigured(t: Tables, faculty: UserId, configured: string, requested: string, requestedAllowed: bool,
                           existing: seq<string>)
    requires faculty in t.users && configured != ""
    ensures SubjectPostWith(t, faculty, configured, requested, requestedAllowed, existing) == (t, Err(AlreadyConfiguredMessage))
  {
  }

  /** Once an allowed subject is configured, GET returns it and writes
      nothing. */
  lemma GetWhenConfigured(t: Tables, faculty: UserId, configured: string, existing: seq<string>)
    requires faculty in t.users && configured in Subjects.Allowed
    ensures SubjectGetWith(t, faculty, configured, existing) == (t, Ok(Some(configured)))
  {
    assert |configured| > 0;
  }

  /** A subject set by POST is an allowed subject, stored in the faculty
      row. */
  lemma SubjectPostStores(t: Tables, faculty: UserId, requestedSubject: string)
    requires faculty in t.users
    requires SubjectPostSpec(t, faculty, requestedSubject).1.Ok?
    ensures var (t', r) := SubjectPostSpec(t, faculty, requestedSubject);
      && r.value in Subjects.Allowed
      && faculty in t'.users && t'.users[faculty].facultySubject == r.value
      && Subjects.Normalize(t'.users[faculty].facultySubject) == r.value
  {
    var requested := Subjects.Normalize(requestedSubject);
    PostWithStores(t, faculty, Subjects.Normalize(t.users[faculty].facultySubject), requested,
                   Subjects.IsAllowed(requested), SortedNormalizedSubjects(t, faculty));
    RequestAllowed(requestedSubject);
    SlotRules.NormalizeAllowed(requested);
  }

  /** A successful POST stores the requested subject, which was allowed. */
  lemma PostWithStores(t: Tables, faculty: UserId, configured: string, requested: string, requestedAllowed: bool,
                       existing: seq<string>)
    requires faculty in t.users
    requires SubjectPostWith(t, faculty, configured, requested, requestedAllowed, existing).1.Ok?
    ensures var (t', r) := SubjectPostWith(t, faculty, configured, requested, requestedAllowed, existing);
      && r.value == requested && requestedAllowed
      && faculty in t'.users && t'.users[faculty].facultySubject == requested
  {
  }

  /** Once the faculty row holds a non-blank subject, POST refuses and
      writes nothing; with `SubjectPostStores` this makes POST succeed at
      most once. */
  lemma SubjectPostRefusedWhenSet(t: Tables, faculty: UserId, requestedSubject: string)
    requires faculty in t.users && !Blank(t.users[faculty].facultySubject)
    ensures SubjectPostSpec(t, faculty, requestedSubject) == (t, Err(AlreadyConfiguredMessage))
  {
  }

  /** A subject set by POST is what GET then returns, without writing. */
  lemma SubjectPostThenGet(t: Tables, faculty: UserId, requestedSubject: string)
    requires faculty in t.users
    requires SubjectPostSpec(t, faculty, requestedSubject).1.Ok?
    ensures var (t', r) := SubjectPostSpec(t, faculty, requestedSubject);
      faculty in t'.users && SubjectGetSpec(t', faculty) == (t', Ok(Some(r.value)))
  {
    var (t', r) := SubjectPostSpec(t, faculty, requestedSubject);
    SubjectPostStores(t, faculty, requestedSubject);
    GetWhenConfigured(t', faculty, r.value, SortedNormalizedSubjects(t', faculty));
  }

  /** A subject set by POST is what slot creation then resolves to. */
  lemma SubjectPostThenResolve(t: Tables, faculty: UserId, requestedSubject: string, bulkSubject: string, saved: bool)
    requires faculty in t.users
    requires SubjectPostSpec(t, faculty, requestedSubject).1.Ok?
    ensures var (t', r) := SubjectPostSpec(t, faculty, requestedSubject);
      && faculty in t'.users
      && SlotRules.ResolveSubjectSpec(t', faculty, bulkSubject, saved).0 == t'
      && (SlotRules.ResolveSubjectSpec(t', faculty, bulkSubject, saved).1.Ok? ==>
            SlotRules.ResolveSubjectSpec(t', faculty, bulkSubject, saved).1.value == r.value)
  {
    var (t', r) := SubjectPostSpec(t, faculty, requestedSubject);
    SubjectPostStores(t, faculty, requestedSubject);
    SlotRules.ResolveSticky(t', faculty, bulkSubject, saved);
  }

  /** What GET answers with is allowed, and stored in the faculty row. */
  lemma SubjectGetStores(t: Tables, faculty: UserId)
    requires faculty in t.users
    requires SubjectGetSpec(t, faculty).1.Ok? && SubjectGetSpec(t, faculty).1.value.Some?
    ensures var (t', r) := SubjectGetSpec(t, faculty);
      && r.value.value in Subjects.Allowed
      && faculty in t'.users && Subjects.Normalize(t'.users[faculty].facultySubject) == r.value.value
  {
    var (t', r) := SubjectGetSpec(t, faculty);
    var x := r.value.value;
    var configured := Subjects.Normalize(t.users[faculty].facultySubject);
    var e := SortedNormalizedSubjects(t, faculty);
    if configured == "" {
      assert |e| == 1 && x == e[0] && x in e;
      assert t' == SlotRules.Backfill(t, faculty, x);
      SlotRules.NormalizeAllowed(x);
    } else {
      assert t' == t;
    }
  }

  /** GET is idempotent: once it has answered with a subject, asking again
      gives the same answer and writes nothing. */
  lemma SubjectGetIdempotent(t: Tables, faculty: UserId)
    requires faculty in t.users
    requires SubjectGetSpec(t, faculty).1.Ok? && SubjectGetSpec(t, faculty).1.value.Some?
    ensures var (t', r) := SubjectGetSpec(t, faculty);
      faculty in t'.users && SubjectGetSpec(t', faculty) == (t', r)
  {
    var (t', r) := SubjectGetSpec(t, faculty);
    SubjectGetStores(t, faculty);
    GetWhenConfigured(t', faculty, r.value.value, SortedNormalizedSubjects(t', faculty));
  }

  /** POST `subject`, writing the faculty row. */
  method SubjectPost(db: Database, faculty: UserId, requestedSubject: string) returns (r: Result<string>)
    requires faculty in db.users
    modifies db
    ensures (db.State(), r) == SubjectPostSpec(old(db.State()), faculty, requestedSubject)
  {
    var configured := Subjects.Normalize(db.users[faculty].facultySubject);
    var requested := Subjects.Normalize(requestedSubject);
    var allowed := Subjects.IsAllowed(requested);
    var existing := SortedNormalizedSubjects(db.State(), faculty);
    r := PostSubject(db, faculty, configured, requested, allowed, existing);
  }

  /** The body of the POST once its inputs are computed. */
  method PostSubject(db: Database, faculty: UserId, configured: string, requested: string, allowed: bool,
                     existing: seq<string>) returns (r: Result<string>)
    requires faculty in db.users
    modifies db
    ensures (db.State(), r) == SubjectPostWith(old(db.State()), faculty, configured, requested, allowed, existing)
  {
    if configured != "" {
      return Err(AlreadyConfiguredMessage);
    }
    if requested == "" {
      return Err(SubjectRequiredMessage);
    }
    if !allowed {
      return Err(SlotRules.InvalidSubjectMessage);
    }
    if |existing| == 1 && existing[0] != requested {
      return Err(SubjectLockedMessage);
    }
    if |existing| > 1 {
      return Err(SlotRules.InvalidMappingMessage);
    }
    var row := db.users[faculty];
    db.users := db.users[faculty := row.(facultySubject := requested)];
    r := Ok(requested);
  }

  /** GET `subject`, backfilling the faculty row when derived. */
  method SubjectGet(db: Database, faculty: UserId) returns (r: Result<Option<string>>)
    requires faculty in db.users
    modifies db
    ensures (db.State(), r) == SubjectGetSpec(old(db.State()), faculty)
  {
    var configured := Subjects.Normalize(db.users[faculty].facultySubject);
    var subjects := SortedNormalizedSubjects(db.State(), faculty);
    r := GetSubject(db, faculty, configured, subjects);
  }

  /** The body of the GET once its inputs are computed. */
  method GetSubject(db: Database, faculty: UserId, configured: string, subjects: seq<string>) returns (r: Result<Option<string>>)
    requires faculty in db.users
    modifies db
    ensures (db.State(), r) == SubjectGetWith(old(db.State()), faculty, configured, subjects)
  {
    if configured != "" {
      if configured !in Subjects.Allowed {
        return Err(SlotRules.InvalidConfiguredMessage);
      }
      return Ok(Some(configured));
    }
    if |subjects| == 0 {
      return Ok(None);
    }
    if |subjects| != 1 {
      return Err(SlotRules.InvalidMappingMessage);
    }
    var row := db.users[faculty];
    db.users := db.users[faculty := row.(facultySubject := subjects[0])];
    r := Ok(Some(subjects[0]));
  }
}
