# PBL scheduler: slot and booking lifecycle in Dafny

This project models the scheduling core of the PBL scheduler backend, a
Django service where faculty publish time slots and students book them.

**Booking engine.** The core of the model is the engine in
`backend/bookings/models.py`:
- the four guards of `create_booking`, in order: availability, an
  already-confirmed row, a future booking in the same subject, and the absence
  lock;
- recycling of a cancelled booking row;
- `cancel`, with the student's four-hour window and the faculty `force`
  bypass;
- the stricter `clean()` pre-check, with the 19:00 same-day rule;
- the conflict query with its two scopes.

**Everything around it.**
- The subject normalizer (`backend/core/subjects.py`).
- The slot serializers (`backend/slots/serializers.py`):
  - bulk validation and the tiling loop `generate_slots`;
  - single-slot validation;
  - the sticky one-subject-per-faculty resolution.
- The slot views (`backend/slots/views.py`):
  - the faculty listing;
  - `destroy` and `delete_todays_slots`;
  - the `subject` endpoint;
  - the student view's mentor merge and visibility filter;
  - `teacher_status`.
- The booking request validators (`backend/bookings/serializers.py`).
- The SSO payload parsing and the assignment sync
  (`backend/authentication/sso_service.py`).
- The external profile assembly (`backend/core/pbl_external.py`).
- The faculty sync command
  (`backend/core/management/commands/sync_faculty_from_pbl.py`).

**How it is modelled.**
- **Tables.** They are Dafny maps: users, slots, one booking row per slot
  keyed by slot, rebooking permissions keyed by (student, subject), and
  teacher assignments keyed by (student, subject). They live in the fields
  of the class `Tables.Database`.
- **State changes.** Every operation that writes rows is a module-level
  method that takes the `Tables.Database` object and declares
  `modifies db`. The method is proved equal to a pure transition function on the
  `Tables` value (`CreateBookingSpec`, `CancelSpec`, `DestroySpec`,
  `DeleteTodaySpec`, ...), and the lemmas state the source's promises about
  those functions.
- **Time.** Time is integer minutes and `now` is a parameter. `Day` and
  `Hour` stand in for the server's local date and hour.
- **Outside calls.** The outside world is passed in as values: HTTP
  payloads, the local roster lookup, fresh UUIDs and the clock.

Module map:

| module | models |
|---|---|
| `Wrappers`, `Text`, `Json`, `Clock` | `Result`/`Option`; Python's `strip`/`split`/`lower` over ASCII; decoded JSON values and Python truthiness; integer-minute time and `strptime('%Y-%m-%d')` |
| `Tables` | the rows and the `Database` class |
| `Subjects` | `backend/core/subjects.py` |
| `Bookings` | `backend/bookings/models.py` |
| `SlotRules` | `backend/slots/serializers.py` |
| `SlotViews`, `StudentSlots` | `backend/slots/views.py` (faculty and student view sets) |
| `BookingRequests` | `backend/bookings/serializers.py` |
| `Sso`, `SsoSync` | `backend/authentication/sso_service.py` (parsing, then assignment sync) |
| `PblExternal` | `backend/core/pbl_external.py` |
| `FacultySync` | `backend/core/management/commands/sync_faculty_from_pbl.py` |

## Model

| member | source | states |
|---|---|---|
| Subjects.FindCanonical | backend/core/subjects.py:46-48 | the search returns a listed subject whose key is the given key, or None when no listed subject has that key |
| Subjects.Normalize | backend/core/subjects.py:38-55 | the result is "" exactly for blank input; otherwise it is an allowed subject or the stripped input |
| Subjects.AllowedListIsAllowed | backend/core/subjects.py:12-18 | the sorted list the search walks holds exactly the allowed subjects, and "" is not one |
| Subjects.AliasTargetsAllowed | backend/core/subjects.py:21-30 | every alias target is an allowed subject |
| Subjects.AliasKeysNotAllowedKeys | backend/core/subjects.py:21-30 | no alias key is the key of an allowed subject, so the alias lookup is only reached for non-canonical input |
| Subjects.NormKeyOfWord | backend/core/subjects.py:33-35 | the key of a single whitespace-free word is the word lower-cased |
| Subjects.AllowedKeys | backend/core/subjects.py:12-18 | each allowed subject's key, and which subject owns each key |
| Subjects.DistinctKeys | backend/core/subjects.py:46-48 | two allowed subjects with the same key are equal |
| Subjects.NormKeyStrip | backend/core/subjects.py:33-35 | stripping first does not change the key |
| Subjects.BlankKey | backend/core/subjects.py:33-35 | blank input has the empty key |
| Subjects.OwnerOfKey | backend/core/subjects.py:46-48 | every allowed key is owned by an allowed subject |
| Subjects.OrderIrrelevant | backend/core/subjects.py:46-48 | searching the allow-list in any order finds the same subject, so the set's iteration order does not matter |
| Subjects.CanonicalMatch | backend/core/subjects.py:43-48 | input whose key is an allowed subject's key normalises to that subject |
| Subjects.AliasMatch | backend/core/subjects.py:50-53 | input whose key is an alias key normalises to the alias target |
| Subjects.UnknownUnchanged | backend/core/subjects.py:55-59 | non-blank input matching no key and no alias comes back stripped and is not allowed |
| Subjects.IsAllowedIff | backend/core/subjects.py:58-59 | `is_allowed_subject` holds exactly when the key is an allowed subject's key or an alias key |
| Subjects.NormalizeIdempotent | backend/core/subjects.py:38-55 | normalising twice equals normalising once |
| Subjects.ExampleSpacedLowerCase | backend/core/subjects.py:33-48 | "  compiler   design " normalises to "Compiler Design" |
| Subjects.ExampleLowerJava | backend/core/subjects.py:45-48 | "java" normalises to "JAVA" |
| Subjects.ExampleAliasFswd | backend/core/subjects.py:50-53 | "FSWD" and "fswd" normalise to "Web Development" |
| Subjects.ExampleAliasCd | backend/core/subjects.py:50-53 | "cd" normalises to "Compiler Design" |
| Subjects.ExampleUnknown | backend/core/subjects.py:55-59 | "unknown-subject" comes back unchanged and is not allowed |
| Clock.Hour | backend/bookings/models.py:168-170 | the hour of an instant lies in 0..23 |
| Clock.DayWindow | backend/slots/views.py:295-304 | an instant falls on day d exactly when it lies in [midnight of d, midnight + 1 day) |
| Clock.ParseDate | backend/slots/views.py:56-58 | a parsed date is a real calendar date (years 1..9999, month 1..12, day within the month) |
| Clock.ParseFormat | backend/slots/views.py:56-58 | every valid date parses back from its zero-padded ISO form |
| Clock.ParseUnpadded | backend/slots/views.py:56-58 | `%m` and `%d` also accept unpadded fields: "2024-1-5" parses |
| Clock.ParseRejectsFebruary30 | backend/slots/views.py:56-68 | a day past the end of the month does not parse |
| Clock.ParseRejectsMonth13 | backend/slots/views.py:56-68 | "2024-13-01" does not parse |
| Clock.ParseRejectsTrailing | backend/slots/views.py:56-68 | trailing characters make the parse fail |
| Bookings.ParseScope | backend/bookings/models.py:116-124 | the scope is accepted exactly for "same_day" with a date or for "future"; otherwise the matching ValueError text |
| Bookings.ConflictSet | backend/bookings/models.py:107-122 | a slot is in the set exactly when its row is the student's, confirmed or absent, in the subject, not the excluded row, and in scope |
| Bookings.ValidateNoConflict | backend/bookings/models.py:127-150 | a scope error propagates; otherwise the check fails with the given message exactly when the conflict set is non-empty |
| Bookings.FutureCheck | backend/bookings/models.py:121-122 | the future-scoped check fails exactly when some conflicting slot starts after now |
| Bookings.SameDayCheck | backend/bookings/models.py:116-119 | the day-scoped check fails exactly when some conflicting slot starts on that day |
| Bookings.InactiveNeverConflicts | backend/bookings/models.py:107-111 | cancelled and completed rows never conflict, in any scope |
| Bookings.PastNeverConflicts | backend/bookings/models.py:121-122 | a booking whose slot has already started never blocks a future-scoped check |
| Bookings.OthersNeverConflict | backend/bookings/models.py:107-109 | other students' bookings never conflict |
| Bookings.ActiveFutureConflicts | backend/bookings/models.py:267-278 | a confirmed or absent future booking of the student in the subject makes the create-path check fail |
| Bookings.PermissionTime | backend/bookings/models.py:295-303 | a permission time exists exactly when the (student, subject) permission exists and names the slot's teacher |
| Bookings.PrecedesTotal | backend/bookings/models.py:289 | the `-absent_at, -updated_at` order is total |
| Bookings.PrecedesTransitive | backend/bookings/models.py:289 | the order is transitive |
| Bookings.FirstOfSet | backend/bookings/models.py:289-290 | a non-empty set of rows has a first row in that order |
| Bookings.FirstAbsentExists | backend/bookings/models.py:281-291 | whenever an absent row exists, `.first()` returns one |
| Bookings.AbsenceLockedReference | backend/bookings/models.py:293-309 | the lock holds exactly when there is no matching permission, or the permission predates the first row's `absent_at or updated_at` |
| Bookings.NoAbsenceNoLock | backend/bookings/models.py:293 | a student with no absent booking is never locked |
| Bookings.AbsenceWithoutPermissionLocks | backend/bookings/models.py:305 | an absence with no permission locks |
| Bookings.FreshPermissionUnlocks | backend/bookings/models.py:305 | a permission of the same teacher dated at or after every absence unlocks |
| Bookings.StalePermissionLocks | backend/bookings/models.py:305 | a permission older than the latest absence does not unlock |
| Bookings.OtherTeachersPermissionLocks | backend/bookings/models.py:295-305 | a permission naming another teacher does not unlock |
| Bookings.OthersAbsenceIrrelevant | backend/bookings/models.py:280-288 | writing another student's row does not change whether this student is locked |
| Bookings.CanCancelBoundary | backend/bookings/models.py:212-226 | a confirmed booking may be cancelled exactly when more than 240 minutes remain: 241 may, 240 may not |
| Bookings.OnlyConfirmedCanCancel | backend/bookings/models.py:220-221 | a row that is not confirmed can never be cancelled |
| Bookings.CanCancelEarlier | backend/bookings/models.py:223-226 | whoever may cancel now could have cancelled at any earlier time |
| Bookings.CleanPassIff | backend/bookings/models.py:152-210 | `clean()` accepts exactly a saved row, or a new row whose slot is open and in the future, outside the 19:00 rule, with no same-day conflict and no absence lock |
| Bookings.CleanOrder | backend/bookings/models.py:158-181 | the failures come in order: not available, in the past, after 19:00 today, same-day conflict |
| Bookings.CleanSevenPmRule | backend/bookings/models.py:166-172 | before 19:00, or for a slot on another day, the 19:00 refusal never fires |
| Bookings.BookedRow | backend/bookings/models.py:311-333 | the stored row is a confirmed booking of the student with no cancellation data; a cancelled row keeps its id and absence time, otherwise the fresh id is used |
| Bookings.CreateErrUnchanged | backend/bookings/models.py:233-309 | every failed create leaves all tables unchanged |
| Bookings.CreateGuards | backend/bookings/models.py:253-309 | the guards, in order: "no longer available", "already booked", the future conflict, the absence lock |
| Bookings.CreateOpenRefusals | backend/bookings/models.py:253-255 | on an available slot the engine never answers "no longer available" |
| Bookings.CreateOkIff | backend/bookings/models.py:253-333 | a create succeeds exactly when the slot is available, has no row or a cancelled one, the student has no future conflict, and is not locked |
| Bookings.CreateSuccess | backend/bookings/models.py:311-339 | a successful create stores a confirmed row for the student, reuses a cancelled row's id or takes the fresh id, closes only that slot, and changes nothing else |
| Bookings.CreateOverUsedRowFails | backend/bookings/models.py:327-333 | an available slot holding a completed or absent row is refused, at the latest by the one-row-per-slot constraint |
| Bookings.BookedPreservesValid | backend/bookings/models.py:311-337 | storing a row with an unused id keeps referential integrity and unique booking ids |
| Bookings.CreatePreservesValid | backend/bookings/models.py:233-339 | a create by an existing student with an unused fresh id keeps the tables valid |
| Bookings.BookedPreservesConsistent | backend/bookings/models.py:335-337 | closing a slot while booking it keeps "a confirmed slot is unavailable" |
| Bookings.CreatePreservesConsistent | backend/bookings/models.py:233-339 | a create keeps "a confirmed slot is unavailable" |
| Bookings.NoDoubleBooking | backend/bookings/models.py:253-337 | right after a successful create, any create on the same slot fails as no longer available |
| Bookings.CreateBooking | backend/bookings/models.py:233-339 | the transaction's new tables and result are those of the specification function |
| Bookings.CreateLocked | backend/bookings/models.py:250-339 | the locked section's new tables and result are those of the guard-then-write function |
| Bookings.CancelOutcome | backend/bookings/models.py:341-352 | only a confirmed row can be cancelled; without `force` more than four hours must remain; `force` bypasses only the window; a failure changes nothing |
| Bookings.CancelSuccess | backend/bookings/models.py:354-363 | a successful cancel records cancelled, now and the reason on the same row, reopens the slot, and changes nothing else |
| Bookings.CancelPreservesValid | backend/bookings/models.py:354-361 | cancel keeps the tables valid |
| Bookings.CancelPreservesConsistent | backend/bookings/models.py:354-361 | cancel keeps "a confirmed slot is unavailable" |
| Bookings.CancelThenRebookReusesId | backend/bookings/models.py:311-326 | after a cancel, a successful rebooking of the slot reuses the same booking id |
| Bookings.CancelThenRebookAccepted | backend/bookings/models.py:253-326 | after a cancel, only the student's own conflict or absence lock can refuse that slot |
| Bookings.Cancel | backend/bookings/models.py:341-363 | the transaction's new tables and result are those of the specification function |
| SlotViews.DateFilter | backend/slots/views.py:55-68 | a day filter is applied exactly when the `date` parameter parses; otherwise, and when it is absent, it is ignored |
| SlotViews.FacultyListIff | backend/slots/views.py:44-72 | a slot is listed exactly when it is the faculty's own, falls on the requested calendar day when a valid date is given, and starts after now when `future_only` is on |
| SlotViews.FacultyListIgnoresBadDate | backend/slots/views.py:56-68 | an unparsable date filters nothing |
| SlotViews.FacultyListByIsoDate | backend/slots/views.py:56-66 | the ISO form of a date filters by that date |
| SlotViews.FutureOnlyCases | backend/slots/views.py:71 | `future_only` is on by default and for any capitalisation of "true", and off for anything else |
| SlotViews.DestroyOutcome | backend/slots/views.py:77-95 | an own slot is deleted exactly when it has no row or a cancelled one, and then only it and its row go; "booking history" is answered exactly for confirmed, completed or absent rows; a refusal changes nothing; history rows are kept |
| SlotViews.RemoveSlotsPreserves | backend/slots/views.py:94 | deleting slots together with their rows keeps the tables valid and consistent |
| SlotViews.Destroy | backend/slots/views.py:77-95 | the view's new tables and result are those of the specification function |
| SlotViews.TodaysSlots | backend/slots/views.py:295-304 | today's slots are slots of the table |
| SlotViews.ConfirmedToday | backend/slots/views.py:306 | the confirmed slots of today are among today's slots |
| SlotViews.DeletableToday | backend/slots/views.py:321-327 | the deletable slots are among today's slots |
| SlotViews.DeleteTodayRefused | backend/slots/views.py:306-318 | with a confirmed booking today nothing is deleted and the number of confirmed bookings is reported |
| SlotViews.RemoveTodayExact | backend/slots/views.py:321-333 | removing the deletable slots removes exactly the faculty's slots of today without history; everything else is as it was |
| SlotViews.DeleteTodayOk | backend/slots/views.py:320-340 | without a confirmed booking today the deletable slots go, `skipped_count` is today's slots minus the deletable ones, and the deleted count includes the cascaded rows |
| SlotViews.DeleteTodayExact | backend/slots/views.py:294-340 | when none of today's slots is confirmed, exactly the faculty's slots of today without history are deleted; other faculty, other days and history rows stay; the skipped and deleted counts are as reported |
| SlotViews.DeleteRows | backend/slots/views.py:332-333 | the delete removes the slots and their booking rows |
| SlotViews.DeleteDeletable | backend/slots/views.py:320-340 | the new tables lack exactly the deletable slots, and the report carries the counts |
| SlotViews.DeleteTodaysSlots | backend/slots/views.py:283-340 | the view's new tables and result are those of the specification function |
| SlotViews.NormalizedSubjects | backend/slots/views.py:178-185 | the derived subjects are allowed subjects |
| SlotViews.SortedNormalizedSubjects | backend/slots/views.py:185 | the sorted list holds only allowed subjects |
| SlotViews.SubjectPostWith | backend/slots/views.py:153-216 | POST never adds or removes users |
| SlotViews.SubjectGetWith | backend/slots/views.py:218-281 | GET never adds or removes users |
| SlotViews.SubjectPostIff | backend/slots/views.py:153-216 | POST succeeds exactly when nothing is configured, an allowed subject is requested, and the slots carry no other subject; then only the faculty's subject is written; a configured subject and several slot subjects give their own errors; a refusal writes nothing |
| SlotViews.SubjectGetCases | backend/slots/views.py:218-281 | GET returns the configured allowed subject without writing, or refuses a configured subject outside the allow-list; with none configured it returns `not_set` when there are no slot subjects, the single slot subject (backfilled), or the mapping error when there are several; an error writes nothing |
| SlotViews.RequestAllowed | backend/slots/views.py:165-171 | the allowed check on a normalised request is membership in the allow-list |
| SlotViews.PostWhenConfigured | backend/slots/views.py:154-163 | once a subject is configured, POST refuses and writes nothing |
| SlotViews.GetWhenConfigured | backend/slots/views.py:219-237 | once an allowed subject is configured, GET returns it and writes nothing |
| SlotViews.SubjectPostStores | backend/slots/views.py:207-216 | a subject set by POST is an allowed subject stored in the faculty row |
| SlotViews.PostWithStores | backend/slots/views.py:207-216 | a successful POST stores the requested subject, which was allowed |
| SlotViews.SubjectPostRefusedWhenSet | backend/slots/views.py:154-163 | once the faculty row holds a non-blank subject, POST refuses and writes nothing, so POST succeeds at most once |
| SlotViews.SubjectPostThenGet | backend/slots/views.py:207-237 | the subject set by POST is what GET then returns, without writing |
| SlotViews.SubjectPostThenResolve | backend/slots/views.py:207-208 | the subject set by POST is what slot creation then resolves to, without a further write |
| SlotViews.SubjectGetStores | backend/slots/views.py:270-281 | an answered subject is allowed and is what the faculty row then holds |
| SlotViews.SubjectGetIdempotent | backend/slots/views.py:218-281 | once GET has answered with a subject, asking again gives the same answer and writes nothing |
| SlotViews.SubjectPost | backend/slots/views.py:153-216 | the view's new tables and result are those of the POST specification |
| SlotViews.PostSubject | backend/slots/views.py:165-216 | the POST body's new tables and result are those of its specification once the inputs are computed |
| SlotViews.SubjectGet | backend/slots/views.py:218-281 | the view's new tables and result are those of the GET specification |
| SlotViews.GetSubject | backend/slots/views.py:239-281 | the GET body's new tables and result are those of its specification once the inputs are computed |
| SlotRules.BookedSlotsClosed | backend/slots/serializers.py:30-32 | in consistent tables a slot showing `has_booking` is not offered for booking |
| SlotRules.OverlapsSymmetric | backend/slots/serializers.py:66 | the assumed half-open overlap test is symmetric |
| SlotRules.AdjacentDisjoint | backend/slots/serializers.py:207-225 | back-to-back intervals do not overlap |
| SlotRules.ValidateSlot | backend/slots/serializers.py:39-71 | a single slot is accepted exactly when it starts in the future, its stripped subject has at most 100 characters, it ends after it starts, and it overlaps none of the faculty's other slots |
| SlotRules.ValidSlotKeepsDisjoint | backend/slots/serializers.py:51-71 | storing a validated new slot keeps every faculty's slots pairwise disjoint |
| SlotRules.ValidUpdateKeepsDisjoint | backend/slots/serializers.py:63-69 | moving a slot to validated times, excluding itself from the check, keeps the slots disjoint |
| SlotRules.StoredSubjects | backend/slots/serializers.py:78-86 | the faculty's stored subjects, only stripped, are allowed subjects |
| SlotRules.InOrder | backend/slots/serializers.py:87 | the sorted list holds exactly the subjects found, at most one entry per listed name |
| SlotRules.InOrderDistinct | backend/slots/serializers.py:87 | the sorted list has no repeats |
| SlotRules.AllowedListDistinct | backend/core/subjects.py:12-18 | the sorted allow-list has no repeats and holds exactly the allowed subjects |
| SlotRules.SortedCases | backend/slots/serializers.py:87-95 | the decision is None for no subject, that subject for exactly one, and the mapping error for two or more |
| SlotRules.ExistingSubjectCases | backend/slots/serializers.py:73-95 | `_get_existing_faculty_subject` is None exactly when no allowed subject appears, x exactly when only x appears, and the mapping error exactly when two distinct subjects appear |
| SlotRules.ResolveOk | backend/slots/serializers.py:106-128 | a resolved subject equals the request when one was made, and is the configured subject when there is one, otherwise the existing one |
| SlotRules.ResolveErrors | backend/slots/serializers.py:106-132 | the refusals, each with its message: invalid request, invalid configured subject, fixed subject, not configured, the mapping error |
| SlotRules.ResolveWrites | backend/slots/serializers.py:118-125 | the only write is the backfill of the existing subject, made when nothing is configured and the save succeeds |
| SlotRules.ResolveSpecOk | backend/slots/serializers.py:97-132 | a resolved subject is allowed; without a configured subject it is the single stored subject, and any backfill stores exactly it |
| SlotRules.NormalizeAllowed | backend/core/subjects.py:45-48 | an allowed subject normalises to itself |
| SlotRules.ResolveConfigured | backend/slots/serializers.py:110-116 | once an allowed subject is configured, resolution writes nothing and returns only that subject, always when the request is empty or equal |
| SlotRules.ResolveSticky | backend/slots/serializers.py:97-116 | once the stored subject is allowed, every later resolution writes nothing and returns only it |
| SlotRules.BackfillMakesSticky | backend/slots/serializers.py:118-128 | after a successful backfill every later resolution writes nothing and returns only the backfilled subject |
| SlotRules.ResolveSubject | backend/slots/serializers.py:97-132 | the method's new tables and result are those of the specification function |
| SlotRules.Resolve | backend/slots/serializers.py:106-132 | the body's new tables and result are those of its specification once the subjects are normalised |
| SlotRules.BulkValidateIff | backend/slots/serializers.py:152-187 | a bulk request is accepted exactly when the stripped subject is at most 100 characters and blank or allowed verbatim, the start is in the future, the duration and break are legal choices, and the window is non-empty and fits one slot |
| SlotRules.BulkRejectsUnlisted | backend/slots/serializers.py:170-172 | a non-blank stripped subject that is not an allowed name verbatim is refused once the other fields pass |
| SlotRules.BulkRejectsAlias | backend/slots/serializers.py:170-172 | the alias "cd" is refused by the bulk check although the normalizer accepts it |
| SlotRules.CdUnlisted | backend/slots/serializers.py:170-171 | "cd" is its own stripped form and is not an allowed name |
| SlotRules.GeneratedStep | backend/slots/serializers.py:207-225 | one turn of the loop: the kept candidate is followed by the slots generated from the next start |
| SlotRules.MultipleShift | backend/slots/serializers.py:225 | moving a grid offset by one step keeps it on the grid |
| SlotRules.OnGridShift | backend/slots/serializers.py:225 | a slot on the grid from the next start is on the grid from the current start |
| SlotRules.GeneratedShape | backend/slots/serializers.py:204-227 | every generated slot lasts the slot duration, lies in the window, starts at start + k * (duration + break), has the faculty and the resolved subject, is available, and overlaps no stored slot |
| SlotRules.GeneratedOrdered | backend/slots/serializers.py:204-227 | generated slots are in start order, each at least the break before the next |
| SlotRules.GeneratedDisjoint | backend/slots/serializers.py:204-227 | generated slots are pairwise disjoint |
| SlotRules.GeneratedComplete | backend/slots/serializers.py:207-222 | every grid candidate that fits the window and overlaps no stored slot is generated, so only overlaps are skipped |
| SlotRules.ExampleTiling | backend/slots/serializers.py:204-227 | a 60-minute window with 15-minute slots and 5-minute breaks yields exactly 0-15, 20-35 and 40-55 |
| SlotRules.TileStep | backend/slots/serializers.py:207-225 | the loop invariant survives one turn |
| SlotRules.Tile | backend/slots/serializers.py:204-227 | the loop returns exactly the generated slots |
| SlotRules.GenerateSlots | backend/slots/serializers.py:189-227 | the method's new tables and result are those of resolving the subject and then tiling |
| StudentSlots.CleanEmails | backend/slots/views.py:421 | the cleaned list is no longer than its input |
| StudentSlots.CleanSnoc | backend/slots/views.py:421 | cleaning one more entry appends its stripped form, or nothing when it is blank |
| StudentSlots.DedupSnoc | backend/slots/views.py:423-424 | one more entry is kept exactly when its lower-cased form has not been seen |
| StudentSlots.KeysSnoc | backend/slots/views.py:423-424 | one more entry adds its lower-cased form to the seen keys |
| StudentSlots.CleanAppend | backend/slots/views.py:404-421 | cleaning distributes over the concatenation of the local and external lists |
| StudentSlots.CleanedEntry | backend/slots/views.py:421 | a kept entry is stripped and non-blank |
| StudentSlots.CleanEmailsClean | backend/slots/views.py:421 | every cleaned entry is stripped and non-blank |
| StudentSlots.CleanedFromSnoc | backend/slots/views.py:421 | the entries one more input can supply |
| StudentSlots.CleanEmailsFrom | backend/slots/views.py:421 | the cleaned entries are exactly the stripped forms of the non-blank inputs |
| StudentSlots.DedupProperties | backend/slots/views.py:423-424 | de-duplication keeps every key, keeps no two entries with the same lower-cased form, and keeps for each key the first entry carrying it |
| StudentSlots.KeyAbsent | backend/slots/views.py:423-424 | a key missing from a list has no first entry there, and a found first entry carries the key |
| StudentSlots.DedupPrefix | backend/slots/views.py:423-424 | de-duplicating a longer list extends the de-duplication of its prefix |
| StudentSlots.DedupSubset | backend/slots/views.py:423-424 | de-duplication only drops entries |
| StudentSlots.MergedClean | backend/slots/views.py:404-424 | every merged mentor is stripped and non-blank |
| StudentSlots.MergedUnique | backend/slots/views.py:404-424 | no two merged mentors differ only in case; every cleaned input's key is present, through the first entry that carries it |
| StudentSlots.MergedLocalFirst | backend/slots/views.py:404-419 | the assignment-derived mentors come first, as merged on their own |
| StudentSlots.LocalMentorsAssigned | backend/slots/views.py:404-421 | when the local list holds exactly the assigned faculty e-mails, every local mentor is the stripped form of one of them |
| StudentSlots.AssignedEmailMerged | backend/slots/views.py:404-424 | an assigned faculty e-mail that is stripped and non-blank, and that no other assigned e-mail equals up to case, survives the merge |
| StudentSlots.AssignedFacultyVisible | backend/slots/views.py:404-442 | an open, future, unbooked slot of an available faculty member whose external id is among the student's assigned teacher ids is visible, when that member's e-mail is stripped and unique up to case among the assigned e-mails |
| StudentSlots.MergedEmptyIff | backend/slots/views.py:421-427 | the merged list is empty, so no slot is visible, exactly when every input is blank |
| StudentSlots.CleanList | backend/slots/views.py:421 | the loop returns the cleaned list |
| StudentSlots.DedupList | backend/slots/views.py:423-424 | the `seen`-set loop returns the de-duplicated list |
| StudentSlots.MergeMentorEmails | backend/slots/views.py:404-424 | the merge returns the de-duplication of the cleaned local-then-external list |
| StudentSlots.VisibleIff | backend/slots/views.py:426-442 | a slot is visible exactly when it passes the booking request's slot checks (present, open, ahead of now, not booked) and its faculty is a listed mentor who is available |
| StudentSlots.VisibleExternalAuthorised | backend/slots/views.py:404-442 | a slot visible through the external profile's mentors passes both the slot checks and the mentor check of a booking request carrying those mentors |
| StudentSlots.VisibleLocalOnlyRefused | backend/bookings/serializers.py:94-113 | a slot visible only through a local teacher assignment passes the slot checks but is refused by the booking request, which reads only the external profile's mentors |
| StudentSlots.ExternalSource | backend/slots/views.py:404-424 | a merged mentor taken from the external list is the stripped form of some non-blank entry of that list |
| StudentSlots.EntryAuthorises | backend/bookings/serializers.py:94-113 | a non-blank mentor entry whose stripped form is the slot faculty's e-mail makes the mentor check pass |
| StudentSlots.VisibleConsistent | backend/slots/views.py:429-440 | in consistent tables the confirmed-booking exclusion is implied by the availability filter |
| StudentSlots.BusyMentorHidden | backend/slots/views.py:434 | a busy mentor's slots are never shown |
| StudentSlots.StudentListIff | backend/slots/views.py:523-546 | a listed slot is a visible slot on the requested day when a valid date is given |
| StudentSlots.Single | backend/slots/views.py:499 | the member of a one-element set |
| StudentSlots.StatusRowsProperties | backend/slots/views.py:485-511 | the lookup fails exactly when some mentor's e-mail belongs to two faculty rows; otherwise there is one row per mentor, in order |
| StudentSlots.AnyBusyIff | backend/slots/views.py:478-521 | with mentors, "any teacher busy" holds exactly when some mentor has no faculty row or a faculty row that is not available |
| StudentSlots.TeacherStatuses | backend/slots/views.py:444-521 | the loop's result is that of the specification function |
| StudentSlots.StatusRowsErr | backend/slots/views.py:486-511 | a failed prefix fails the whole list with the same error |
| BookingRequests.ValidateSlotId | backend/bookings/serializers.py:59-78 | the pre-checks pass exactly when the slot exists, is available, starts after now, and has no confirmed booking; the first three failures come in that order with their messages |
| BookingRequests.AlreadyBookedUnreachable | backend/bookings/serializers.py:68-76 | in consistent tables the already-booked check never decides, because the availability check refuses first |
| BookingRequests.CanonIgnoresCase | backend/bookings/serializers.py:96-109 | the comparison ignores letter case and outer whitespace |
| BookingRequests.CanonEmptyIff | backend/bookings/serializers.py:97-99 | a canonical address is empty exactly when the raw one is blank |
| BookingRequests.CanonShape | backend/bookings/serializers.py:96-100 | the canonical form of a usable address is non-empty, stripped and lower-case |
| BookingRequests.MentorSetMembers | backend/bookings/serializers.py:94-100 | the mentor set holds exactly the stripped, lower-cased forms of the non-null, non-blank entries |
| BookingRequests.MentorSetShape | backend/bookings/serializers.py:96-100 | every member of the mentor set is non-empty, stripped and lower-case |
| BookingRequests.MentorSetEmptyIff | backend/bookings/serializers.py:96-101 | the mentor set is empty exactly when every entry is null or blank |
| BookingRequests.LowerEntries | backend/bookings/serializers.py:95-100 | lower-casing the entries keeps their number |
| BookingRequests.LowerEntryCanon | backend/bookings/serializers.py:96-100 | lower-casing an entry keeps it usable or unusable and keeps its canonical form |
| BookingRequests.MentorIgnoresCaseAt | backend/bookings/serializers.py:96-100 | an address is in both mentor sets or in neither |
| BookingRequests.MentorSetIgnoresCase | backend/bookings/serializers.py:96-100 | the mentor set does not depend on the capitalisation of the profile's entries |
| BookingRequests.ValidateMentors | backend/bookings/serializers.py:94-115 | an empty mentor set fails with the "contact support" error; every failure is that error or "not authorized" |
| BookingRequests.AuthorisedIff | backend/bookings/serializers.py:109-115 | a booking is authorised exactly when the faculty's canonical e-mail is non-empty and some usable entry equals it up to case and outer whitespace |
| BookingRequests.AuthorisationIgnoresCase | backend/bookings/serializers.py:96-115 | re-capitalising the mentor list never changes the decision |
| BookingRequests.AuthorisationIgnoresFacultyCase | backend/bookings/serializers.py:109-115 | re-capitalising or padding the faculty's own e-mail never changes the decision |
| BookingRequests.MentorsPassIff | backend/bookings/serializers.py:101-115 | the mentor check passes exactly when the faculty's e-mail is in the mentor set |
| BookingRequests.RequestWith | backend/bookings/serializers.py:59-124 | a refused request leaves every table unchanged |
| BookingRequests.RequestWithOk | backend/bookings/serializers.py:59-124 | a request succeeds exactly when the pre-checks, the mentor check and the engine all pass |
| BookingRequests.RequestOkIff | backend/bookings/serializers.py:59-124 | a request succeeds exactly when the slot is ahead, the faculty is one of the mentors, and the booking engine accepts |
| BookingRequests.RequestSuccess | backend/bookings/serializers.py:117-124 | a successful request leaves a confirmed row for the student on a future slot of one of the student's mentors |
| BookingRequests.NoLongerAvailableUnreachable | backend/bookings/serializers.py:68-69 | because the slot pre-checks run first, a request never fails with the engine's "no longer available" |
| BookingRequests.RequestReachesEngine | backend/bookings/serializers.py:117-124 | once both checks pass, the request is exactly the engine's `create_booking` with no further checks |
| BookingRequests.RequestBooking | backend/bookings/serializers.py:54-124 | the method's new tables and result are those of the specification function |
| BookingRequests.ValidateCancel | backend/bookings/serializers.py:127-142 | cancel validation passes exactly when the stripped reason has at most 500 characters and `can_cancel` holds; there is no force path |
| BookingRequests.ValidateCancelAgrees | backend/bookings/serializers.py:132-142 | for an acceptable reason, the check refuses with exactly the message a student cancel would fail with, and passes exactly when it would succeed |
| BookingRequests.ValidatedCancelForced | backend/bookings/serializers.py:132-142 | whatever the check lets through, a faculty-forced cancel accepts as well |
| Sso.RawRoleClean | backend/authentication/sso_service.py:49 | the role word that is compared has been trimmed and lower-cased |
| Sso.RoleOf | backend/authentication/sso_service.py:51-65 | the decision on a role word is always `faculty`, `student` or no role |
| Sso.NormalizeRole | backend/authentication/sso_service.py:43-65 | a normalised role is `faculty`, `student` or none; the call raises exactly when the role value (role, else type) is truthy but not a string |
| Sso.FlagWins | backend/authentication/sso_service.py:51-55 | a faculty flag set to `True` makes the user faculty whatever the role says |
| Sso.RoleTable | backend/authentication/sso_service.py:57-65 | with no flag set, the four staff words give faculty, the three learner words and the empty word give student, and every other word gives no role |
| Sso.RoleIgnoresCase | backend/authentication/sso_service.py:49 | a role given as text is matched after trimming and lower-casing it |
| Sso.MissingRoleIsStudent | backend/authentication/sso_service.py:61-63 | a payload with neither a role nor a type, and no flag, is a student |
| Sso.MockVerify | backend/authentication/sso_service.py:77-121 | an accepted mock token starts with `mock_` and has a supported role, and it carries a roll number exactly when the role is student |
| Sso.MockRoundTrip | backend/authentication/sso_service.py:90-119 | a full token built from a supported role, with an id and an e-mail free of `_`, parses back to exactly those fields whatever the name |
| Sso.MockShortToken | backend/authentication/sso_service.py:92-104 | `mock_student` and `mock_faculty` give their fixed default identities |
| Sso.MockRejects | backend/authentication/sso_service.py:86-88 | a token without the prefix is refused, and so is one that splits into three or four parts |
| Sso.MockTokenRequest | backend/authentication/views.py:203-215 | the mock endpoint issues a token exactly when the role is missing or is one of the two supported roles |
| Sso.DefaultRoleIsStudent | backend/authentication/views.py:203 | without a role parameter the endpoint acts as if the role were student |
| Sso.UnderscoreIdMisparsed | backend/authentication/views.py:215 | an id of the form `<role>_<d>` does not survive the token: the parser reads the role word as the id and `d` as the e-mail |
| Sso.DefaultTokenMisparsed | backend/authentication/views.py:206 | a token issued with the endpoint's default id parses back with the role word as the id, "001" as the e-mail and the e-mail inside the name |
| Sso.FixedDefaultUserId | backend/authentication/views.py:206 | the corrected default id has no `_` for either role |
| Sso.FixedMockTokenRequest | backend/authentication/views.py:203-215 | with the corrected default, tokens are issued for the same requests as before |
| Sso.FixedTokenRoundTrip | backend/authentication/views.py:203-215 | with the corrected default, every issued token (defaults included) parses back to the role, id, e-mail and name it was built from |
| Sso.UserPayload | backend/authentication/sso_service.py:182-185 | the user payload is the nested `user` dict when that is a non-empty dict, and otherwise the whole body |
| Sso.RollOf | backend/authentication/sso_service.py:209-218 | a roll read from the alias chain is already trimmed |
| Sso.Roll | backend/authentication/sso_service.py:209-231 | a roll number, when present, is non-empty and trimmed |
| Sso.AcceptedIff | backend/authentication/sso_service.py:178-203 | a verify response is accepted exactly when the body is a dict, `valid` is truthy and the user payload passes the field checks |
| Sso.UserAcceptedIff | backend/authentication/sso_service.py:188-203 | the user payload passes exactly when it has `id` and `email`, the e-mail is a non-blank string, the id is truthy and not blank, and the role normalises to a supported role |
| Sso.AcceptedShape | backend/authentication/sso_service.py:194-243 | an accepted response yields the `str` of the id, the stripped e-mail, a supported role, the e-mail's local part as the name when the name is missing or empty, the roll by the alias chain, and the raw payloads |
| Sso.RollPrefersUser | backend/authentication/sso_service.py:221 | a roll found on the user payload wins over one at top level |
| Sso.TopLevelFallback | backend/authentication/sso_service.py:183-185 | a body with no nested user dict, or an empty one, is read at top level |
| SsoSync.FacultyByEmail | backend/authentication/sso_service.py:299-305 | the faculty matched by e-mail all have a non-empty external id |
| SsoSync.Least | backend/authentication/sso_service.py:304 | `.first()` picks a member of the set no greater than any other |
| SsoSync.HasLeast | backend/authentication/sso_service.py:304 | every non-empty set of user ids has a least member |
| SsoSync.ResolveTeacherCases | backend/authentication/sso_service.py:289-309 | a non-blank teacher id wins; otherwise a non-blank e-mail resolves to a matching local faculty's external id, or to the e-mail itself when no faculty matches; the result is empty exactly when both are blank |
| SsoSync.PairFor | backend/authentication/sso_service.py:311-319 | a pair is recorded exactly when the cleaned subject and the resolved teacher are both non-empty, and it is exactly that pair |
| SsoSync.ItemPairs | backend/authentication/sso_service.py:358-394 | each item of a list yields its own pair, one per item |
| SsoSync.Payloads | backend/authentication/sso_service.py:268-271 | the payloads read are the whole payload first and at most one more |
| SsoSync.UpsertGood | backend/authentication/sso_service.py:311-319 | an upsert keeps the sync invariant and only adds to the found pairs |
| SsoSync.PruneGood | backend/authentication/sso_service.py:398-400 | the snapshot prune keeps the sync invariant and the found pairs |
| SsoSync.UpsertAllGood | backend/authentication/sso_service.py:358-394 | the upserts of a list keep the sync invariant |
| SsoSync.ListStepGood | backend/authentication/sso_service.py:354-400 | one list key, with its prune check, keeps the sync invariant |
| SsoSync.KeysStepGood | backend/authentication/sso_service.py:346-400 | all six list keys together keep the sync invariant |
| SsoSync.PayloadsStepGood | backend/authentication/sso_service.py:321-400 | all payloads together keep the sync invariant |
| SsoSync.SyncProperties | backend/authentication/sso_service.py:252-400 | other students' rows are untouched; each found subject has a row naming a teacher found for it; after a prune the student keeps rows only for found subjects; without a prune no other row of the student changed |
| SsoSync.NonDictPayloadUnchanged | backend/authentication/sso_service.py:263-264 | a payload that is not a dict changes nothing and finds nothing |
| SsoSync.UpsertLastWins | backend/authentication/sso_service.py:318-319 | after an upsert the subject's row names that upsert's teacher, and the pair is recorded as found |
| SsoSync.UpsertPair | backend/authentication/sso_service.py:311-319 | the method writes the row and records the pair exactly as the upsert function says, and changes no other table |
| SsoSync.UpsertPairs | backend/authentication/sso_service.py:358-394 | the loop over a list's items ends in the state the specification gives, and changes no other table |
| SsoSync.SyncList | backend/authentication/sso_service.py:354-400 | one list key ends in the specification's state, prune included |
| SsoSync.SyncKeys | backend/authentication/sso_service.py:346-400 | the loop over the list keys ends in the specification's state |
| SsoSync.SyncPayload | backend/authentication/sso_service.py:321-400 | one payload ends in the specification's state |
| SsoSync.SyncStudentAssignments | backend/authentication/sso_service.py:252-400 | the live sync changes only the assignment table, and changes it exactly as the specification does |
| SsoSync.UpsertUser | backend/authentication/sso_service.py:451-460 | a successful user upsert leaves the assignments alone and returns a user that exists |
| SsoSync.LoginWritesUser | backend/authentication/sso_service.py:451-479 | the returned user is the e-mail's existing row, or a new one when none exists, and carries the given name, role and external id |
| SsoSync.SyncErrorSwallowed | backend/authentication/sso_service.py:469-479 | an exception in the sync never fails the login: the same user comes back with the same user table |
| SsoSync.FacultyLoginNoSync | backend/authentication/sso_service.py:469 | a faculty login writes no assignment |
| SsoSync.GetOrCreateUser | backend/authentication/sso_service.py:440-479 | the live login succeeds exactly when the specification does and leaves its tables; on an error nothing changes |
| PblExternal.SafeChars | backend/core/pbl_external.py:17-22 | the e-mail keeps its length and none of the four replaced characters is left |
| PblExternal.MockGroupId | backend/core/pbl_external.py:15-24 | the mock team id is the prefixed, made-safe normalised e-mail cut to at most 255 characters |
| PblExternal.MockGroupIdShape | backend/core/pbl_external.py:15-24 | the id always starts with `mock_team_`, holds none of `@ . + -`, and is the whole uncut form when that fits |
| PblExternal.MockGroupIdCanonical | backend/core/pbl_external.py:16 | the id does not depend on letter case or outer whitespace |
| PblExternal.SameNormSameId | backend/core/pbl_external.py:16-24 | two e-mails that normalise alike get the same mock team id |
| PblExternal.NormEmailCanonical | backend/core/pbl_external.py:16 | e-mail normalisation ignores case and outer whitespace and is idempotent |
| PblExternal.BodyGet | backend/core/pbl_external.py:156-157 | reading a field of the response fails exactly when the body (after `or {}`) is not a dict |
| PblExternal.ListField | backend/core/pbl_external.py:157-158 | the field's list when it holds one, else the empty list; it fails exactly when the body is not a dict |
| PblExternal.ListGuards | backend/core/pbl_external.py:156-176 | a failed call, or a body whose field is not a list, gives the empty list |
| PblExternal.GetTeamByEmail | backend/core/pbl_external.py:179-189 | a blank e-mail gives no team; in mock mode the team is the mock team id of the normalised e-mail |
| PblExternal.MockTeamId | backend/core/pbl_external.py:184-185 | in mock mode the team id equals the mock group id of the e-mail as given |
| PblExternal.FirstMatchFirst | backend/core/pbl_external.py:231-239 | a match is a matching record with no matching record before it; no match means no dict record has the e-mail |
| PblExternal.FindStudent | backend/core/pbl_external.py:231-239 | the search loop with its early exit returns what the search function says |
| PblExternal.KeptStripped | backend/core/pbl_external.py:247 | a kept mentor entry is already stripped |
| PblExternal.NonEmpty | backend/core/pbl_external.py:247 | filtering never lengthens the list |
| PblExternal.CleanMentors | backend/core/pbl_external.py:247 | cleaning never lengthens the list |
| PblExternal.NonEmptyFrom | backend/core/pbl_external.py:247 | every entry that survives the filter is non-empty and was in the input |
| PblExternal.CleanMentorsAppend | backend/core/pbl_external.py:247 | cleaning works entry by entry: the cleaning of a concatenation is the concatenation of the cleanings |
| PblExternal.CleanMentorsClean | backend/core/pbl_external.py:247 | every cleaned mentor entry is non-blank and stripped |
| PblExternal.CleanMentorsOne | backend/core/pbl_external.py:247 | a single string is kept, stripped, exactly when it is not blank |
| PblExternal.SourceOrder | backend/core/pbl_external.py:253-295 | the configured order tries one or two sources and never the same source twice |
| PblExternal.DefaultOrder | backend/core/pbl_external.py:254-255 | an empty setting means external first, then local |
| PblExternal.UnknownSettingDefault | backend/core/pbl_external.py:287-295 | any setting that is not `local`, `external` or `local_then_external` once trimmed and lower-cased means external first, then local |
| PblExternal.SettingNormalised | backend/core/pbl_external.py:253-255 | trimming or lower-casing the setting does not change the order chosen |
| PblExternal.PaddedSettingSelects | backend/core/pbl_external.py:253-295 | the padded, capitalised setting ` Local ` selects the local source alone |
| PblExternal.ResolveKeepsSet | backend/core/pbl_external.py:263-264 | once a group id is set, later sources leave the group alone |
| PblExternal.GroupPrecedence | backend/core/pbl_external.py:261-295 | the group id is set exactly when some source in the order supplies one, and then it is the first such source's id |
| PblExternal.ResolveGroupSteps | backend/core/pbl_external.py:287-295 | the dispatch on the setting, calling the helpers in turn, gives the group the precedence function gives |
| PblExternal.EmptyProfiles | backend/core/pbl_external.py:227-243 | a blank e-mail, or one that no student record carries, gives the empty profile |
| PblExternal.ProfileFromFirstMatch | backend/core/pbl_external.py:231-303 | a found profile comes from the first matching record, carries its cleaned mentor list, and takes its group from the first supplying source |
| PblExternal.FoundGroup | backend/core/pbl_external.py:245-303 | the profile built for a record carries its cleaned mentors and that record, and follows source precedence for the group |
| PblExternal.GetStudentExternalProfile | backend/core/pbl_external.py:192-307 | the method returns exactly the profile the specification function gives |
| FacultySync.TextField | backend/core/management/commands/sync_faculty_from_pbl.py:69-70 | reading a text field raises exactly when its value is truthy but not a string; otherwise a string value is returned as is and any falsy non-string gives "" |
| FacultySync.PblIdOf | backend/core/management/commands/sync_faculty_from_pbl.py:71-72 | the external id is stripped; it is `str(id)` stripped when `id` is truthy, and otherwise `pbl_user_id` stringified and stripped, or "" when that is `None` |
| FacultySync.RowOf | backend/core/management/commands/sync_faculty_from_pbl.py:74-81 | a record is kept exactly when its e-mail and id are both non-empty; the kept row carries them, and a blank name becomes the e-mail's local part |
| FacultySync.CleanRecordWellFormed | backend/core/management/commands/sync_faculty_from_pbl.py:64-81 | a kept record came from a dict and has a lower-cased, stripped, non-empty e-mail and a stripped, non-empty id |
| FacultySync.EmptyNameKept | backend/core/management/commands/sync_faculty_from_pbl.py:74-81 | a record with e-mail `@x`, no name and id `5` is kept with an empty name, since the text before `@` is empty |
| FacultySync.RowOfWellFormed | backend/core/management/commands/sync_faculty_from_pbl.py:69-81 | a row built from a normalised e-mail and a stripped id is well formed |
| FacultySync.Cleaned | backend/core/management/commands/sync_faculty_from_pbl.py:64-81 | there is one cleaning outcome per fetched record |
| FacultySync.CollectCounts | backend/core/management/commands/sync_faculty_from_pbl.py:62-81 | skipped plus kept equals the number of outcomes, and every kept row is the outcome of some record |
| FacultySync.CleanAllCounts | backend/core/management/commands/sync_faculty_from_pbl.py:62-81 | every fetched record is either skipped or cleaned, so skipped + cleaned = fetched, and every cleaned row is well formed |
| FacultySync.CollectErr | backend/core/management/commands/sync_faculty_from_pbl.py:64-81 | the loop raises exactly when some outcome is an error |
| FacultySync.CleanAllErr | backend/core/management/commands/sync_faculty_from_pbl.py:64-81 | cleaning raises exactly when some record's fields raise |
| FacultySync.ByEmailKeys | backend/core/management/commands/sync_faculty_from_pbl.py:88-92 | `by_email`, and so `target_emails`, has exactly the cleaned e-mails as keys |
| FacultySync.ByEmailLast | backend/core/management/commands/sync_faculty_from_pbl.py:88-90 | last-wins de-duplication: each e-mail maps to the last cleaned row that carries it |
| FacultySync.OrderDistinct | backend/core/management/commands/sync_faculty_from_pbl.py:88-90 | the dict's insertion order lists every key exactly once |
| FacultySync.DictValues | backend/core/management/commands/sync_faculty_from_pbl.py:132 | the values in dict order are as many as the keys |
| FacultySync.DictValuesLast | backend/core/management/commands/sync_faculty_from_pbl.py:88-132 | the rows written have distinct e-mails, each is the last row for its e-mail, and every e-mail's last row is among them |
| FacultySync.EmailsCard | backend/core/management/commands/sync_faculty_from_pbl.py:92 | there are no more distinct e-mails than cleaned rows |
| FacultySync.Existing | backend/core/management/commands/sync_faculty_from_pbl.py:120 | the existing e-mails are a subset of the targets |
| FacultySync.DryRunSplit | backend/core/management/commands/sync_faculty_from_pbl.py:120-122 | would-create and would-update partition the targets, and a would-create e-mail has no user yet |
| FacultySync.UpsertCreates | backend/core/management/commands/sync_faculty_from_pbl.py:101-116 | an upsert fails exactly when several users share the e-mail, creates exactly when none has it, and writes only the users table |
| FacultySync.UpsertHolds | backend/core/management/commands/sync_faculty_from_pbl.py:103-111 | after an upsert the e-mail has exactly one user, and that user carries the row's name, faculty role and external id |
| FacultySync.UpsertFrame | backend/core/management/commands/sync_faculty_from_pbl.py:103-111 | users with any other e-mail are unchanged, and the only new user is under the fresh id |
| FacultySync.RunAllCounts | backend/core/management/commands/sync_faculty_from_pbl.py:101-133 | a successful write loop counts each row once as created or updated, writes only the users table, and adds users only under the new ids |
| FacultySync.RunAllPlaces | backend/core/management/commands/sync_faculty_from_pbl.py:131-133 | with distinct e-mails and fresh ids, each row's e-mail ends with exactly one user carrying that row |
| FacultySync.NewIdUnused | backend/core/management/commands/sync_faculty_from_pbl.py:131-133 | the id reserved for the next row is still unused after the earlier rows |
| FacultySync.PlacesStep | backend/core/management/commands/sync_faculty_from_pbl.py:132-133 | one more upsert keeps the earlier rows in place and places its own |
| FacultySync.KeptUser | backend/core/management/commands/sync_faculty_from_pbl.py:103-111 | a user holding another e-mail's row survives an upsert and stays that e-mail's only user |
| FacultySync.NoWriteOutcomes | backend/core/management/commands/sync_faculty_from_pbl.py:55-129 | no faculty, no valid record and dry run each happen exactly in their own case and write nothing |
| FacultySync.DryRunCounts | backend/core/management/commands/sync_faculty_from_pbl.py:118-122 | would-create plus would-update equals the number of distinct e-mails, which is at most the number of cleaned rows |
| FacultySync.ReportCounts | backend/core/management/commands/sync_faculty_from_pbl.py:62-133 | in a dry run the estimates, and in a real run the created and updated counts, add up to `valid`, which is at most fetched minus skipped |
| FacultySync.SyncedRows | backend/core/management/commands/sync_faculty_from_pbl.py:131-139 | after a real run only the users table has changed, and each cleaned e-mail has exactly one user, carrying the last cleaned row for it as faculty |
| FacultySync.UpsertOne | backend/core/management/commands/sync_faculty_from_pbl.py:101-116 | the live upsert returns whether it created and leaves the tables as the specification does; on an error nothing changes |
| FacultySync.CleanFaculty | backend/core/management/commands/sync_faculty_from_pbl.py:62-81 | the cleaning loop returns the cleaned rows and the skipped count that the specification gives |
| FacultySync.CollectLoop | backend/core/management/commands/sync_faculty_from_pbl.py:64-81 | the loop over outcomes equals its fold, its early error exit included |
| FacultySync.CollectPrefixErr | backend/core/management/commands/sync_faculty_from_pbl.py:64-81 | an outcome that raises ends the whole loop with that error |
| FacultySync.Dedup | backend/core/management/commands/sync_faculty_from_pbl.py:88-90 | the `by_email` loop builds the last-wins map and the dict's insertion order |
| FacultySync.WriteRows | backend/core/management/commands/sync_faculty_from_pbl.py:131-133 | the write loop's counts and new table are the specification's; on an error the transaction leaves the tables as they were |
| FacultySync.RunPrefixErr | backend/core/management/commands/sync_faculty_from_pbl.py:131-133 | a failing upsert fails the whole run with that error |
| FacultySync.Handle | backend/core/management/commands/sync_faculty_from_pbl.py:31-139 | the command returns the report and leaves the tables that the specification gives; on an error nothing changes |

## Left out

- Concurrency: the row locks (`select_for_update`) and the transactions are modelled as single atomic steps over the tables. There is no multi-client interleaving in a sequential model.
- Overlap: `Slot.check_overlap` (in `slots/models.py`) is not part of this model. The model assumes the test is one on half-open intervals: two slots of one faculty overlap when each starts before the other ends, with the excluded id left out.
- Time zones and dates: `localdate`, `make_aware` and `.date()`/`.hour` are the integer functions `Day` and `Hour` of local minutes. `total_seconds()/60` is an integer difference of minutes.
- Strings: Python's Unicode-aware `strip`, `split`, `lower`, `title` and `casefold` are modelled over ASCII. `str()` of a list or dict is a fixed, non-blank placeholder rather than its `repr`.
- HTTP, JSON decoding and JWT minting. The `requests.get` half of `_real_verify`, `_get_json` and `generate_tokens` are left out. Their results enter the model as decoded `Json.Value`s, or as `None` for a failed call.
- Caching: `cache.get`/`cache.set` in `pbl_external.py` and `sso_service.py` only memoise or store debug data (`_cache_last_sso_payload_debug`). A cached profile is not modelled.
- Fresh keys: booking UUIDs and new user ids come from the database. They are parameters (`freshId`, `newIds`) that the callers must keep unused.
- Cancellation window: `can_cancel` follows the code's four-hour constant (`backend/bookings/models.py:26`), not the docstring's eight hours (line 217).
- Completed or absent rows: an available slot whose row is completed or absent is modelled as the failure the one-to-one constraint raises on the second insert. The exact database error text is not modelled.
- Latest absence: the "latest absent" booking is picked as PostgreSQL orders it, with a NULL `absent_at` first under descending order. Other databases may differ.
- `is_available_for_booking`: it is still read and written by the views, although a migration removes the column. It is modelled as a plain boolean field of the user.
- Deleted count: `deleted_count` is the count `delete()` returns, so it includes the cascaded booking rows. The model reports it as slots plus rows and does not equate it with a slot count.
- Updated-at stamps: the `updated_at` of users and assignments is not stored.
- Order of query results: the order in which the database returns assigned e-mails is taken as given: the local mentor list is an input whose set of entries the lemmas tie to `StudentSlots.AssignedEmails`. `.first()` on an unordered query is the row with the least key.
- Serializer errors: DRF collects every field's errors, but the slot serializers are modelled as reporting the first failing field in declaration order. `ChoiceField` coercion of the status filter is not modelled.
- Unused subject: the `subject` that `validate` reads (`backend/bookings/serializers.py:91`) is never used, so it is not an input.
- Mentors: the mentor e-mails a request is checked against are `Option<string>` entries, where `None` stands for a NULL column.
- Assignments: `StudentTeacherAssignment.create_or_update_assignment` is not part of this model. It is an upsert keyed on (student, subject). `get_assigned_teacher_ids` is `StudentSlots.AssignedTeacherIds`, the set of teacher ids of the student's assignment rows.
- Logging and the management command's `stdout`/`stderr` messages, including the `SSO_MODE` and `PBL_API_URL`/`PBL_API_KEY` warnings.
- User columns: `university_roll_number` and `is_active` are not columns of the modelled user. The login's roll number and `is_active=True`, and the faculty command's `--deactivate-missing` option, are therefore left out.
- Login defaults: a new user's `availableForBooking` takes the default value `true`. An exception in the sync is the `syncRaises` input, and in that case the model writes no assignment at all; a real partial sync would keep the rows it had written before raising.
- Mock mode of the external API: the database branches of `get_students`, `get_faculty` and `_mock_student_profile` are left out. The mock team id (`_mock_group_id`) and the mock branch of `get_team_by_email` are modelled.
- Local roster: the local roster lookup (`core.group_roster`, which is not part of this model) is the input `info`, and an exception it raises is read as `None`.
- E-mail matching: the faculty command's `update_or_create` matches the e-mail exactly, as the model's e-mail lookup does. Database collation is not modelled.
- Faculty cleaning: cleaning is stated over each record's outcome, computed record by record. The loop stops at the first record whose fields raise.
- Views outside the core: the `availability` action and the response shaping of `bulk_create`. The `debug` endpoint and `SSOPayloadDebugView` are aggregate debugging views.
- Redirects and URL building in `backend/authentication/views.py`. Only the mock token endpoint's token text (lines 203-215) is modelled.
- StudentSlots.AssignedFacultyVisible: requires the faculty member's e-mail to be unique up to case among the assigned e-mails, because the case-insensitive de-duplication keeps only the first spelling and the exact e-mail filter then hides the slots of a second faculty member whose e-mail differs only in case.
- Bookings.Clean: the primary key is the input `pk`, and `None` selects the new-booking checks (`backend/bookings/models.py:154`). Because `Booking.id` defaults to `uuid.uuid4` (line 30), Django fills it when the object is built, so in practice those checks probably never run from `full_clean()`. The model follows the code as written and does not model the default.
- JSON numbers with a fraction: `Json.Value` has no float case, so a payload number such as `12.0` is not representable. In the source an `id` of `12.0` becomes the text `"12.0"` through `str()` (`backend/core/management/commands/sync_faculty_from_pbl.py:72`), and a `valid` of `0.0` is falsy; neither case is modelled.
- Mentor sources of a booking: the student's slot list merges local teacher assignments with the external profile's mentors, but a booking request checks only the external mentors. `StudentSlots.VisibleLocalOnlyRefused` states that gap as the code has it; no corrected merge is modelled.

## Findings

| source | as written | input that shows it | evidently intended | confidence | as-written member | corrected member |
|---|---|---|---|---|---|---|
| backend/authentication/views.py:206 | the mock endpoint's default user id is `f'{role}_001'`; the token `mock_{role}_{user_id}_{email}_{name}` is split on `_` by `_mock_verify` (`backend/authentication/sso_service.py:90,106-108`) | `role=student` with no `user_id`: the token `mock_student_student_001_test.student@example.com_Test Student` parses to id `student`, e-mail `001` and name `test.student@example.com_Test Student` | a default id without `_` (for example `student-001`), so that a token issued with the defaults parses back to what it was built from | not executed | Sso.DefaultTokenMisparsed | Sso.FixedTokenRoundTrip |
