/** The slot serializers: whether a slot shows as booked, validation of a
    single slot and of a bulk request, the one-subject-per-faculty rule and
    its sticky resolution, and the tiling of a time window into slots. */
module SlotRules {
  import opened Wrappers
  import opened Text
  import opened Tables
  import Subjects

  const StartInPastMessage: string := "Start time must be in the future"
  const EndBeforeStartMessage: string := "End time must be after start time"
  const OverlapMessage: string := "This time slot overlaps with an existing slot"
  const InvalidSubjectMessage: string := "Invalid subject"
  const InvalidConfiguredMessage: string := "Invalid configured subject"
  const FixedSubjectMessage: string := "Subject is fixed and cannot be changed."
  const NotConfiguredMessage: string := "Faculty subject not configured. Please set your subject first."
  const InvalidMappingMessage: string := "Invalid faculty subject mapping: faculty must be assigned to exactly one subject."
  const SubjectTooLongMessage: string := "Ensure this field has no more than 100 characters."

  function TooShortMessage(duration: int): string {
    "Time range is too short for a " + IntToString(duration) + "-minute slot"
  }

  function InvalidChoiceMessage(value: int): string {
    "\"" + IntToString(value) + "\" is not a valid choice."
  }

  // ---------------------------------------------------------------------
  // has_booking

  /** `has_booking`: the slot has a booking row and it is confirmed. */
  predicate HasBooking(t: Tables, s: SlotId) {
    s in t.bookings && t.bookings[s].status == Confirmed
  }

  /** In consistent tables a slot showing as booked is not offered. */
  lemma BookedSlotsClosed(t: Tables, s: SlotId)
    requires Consistent(t) && s in t.slots && HasBooking(t, s)
    ensures !t.slots[s].isAvailable
  {
  }

  // ---------------------------------------------------------------------
  // Overlap

  /** Half-open intervals [a1, b1) and [a2, b2) share a minute. This is
      the assumed meaning of `Slot.check_overlap`. */
  predicate Overlaps(a1: int, b1: int, a2: int, b2: int) {
    a1 < b2 && a2 < b1
  }

  /** `Slot.check_overlap(faculty, start, end, exclude_id)`: some other
      slot of the faculty overlaps [start, end). */
  predicate CheckOverlap(t: Tables, faculty: UserId, start: int, end: int, exclude: Option<SlotId>) {
    exists s :: s in t.slots && t.slots[s].faculty == faculty && (exclude.None? || s != exclude.value)
      && Overlaps(t.slots[s].start, t.slots[s].end, start, end)
  }

  /** No two slots of one faculty member overlap. */
  predicate FacultyDisjoint(t: Tables) {
    forall s1, s2 :: s1 in t.slots && s2 in t.slots && s1 != s2 && t.slots[s1].faculty == t.slots[s2].faculty
      ==> !Overlaps(t.slots[s1].start, t.slots[s1].end, t.slots[s2].start, t.slots[s2].end)
  }

  lemma OverlapsSymmetric(a1: int, b1: int, a2: int, b2: int)
    ensures Overlaps(a1, b1, a2, b2) == Overlaps(a2, b2, a1, b1)
  {
  }

  /** Back-to-back intervals do not overlap. */
  lemma AdjacentDisjoint(a: int, b: int, c: int)
    requires a < b < c
    ensures !Overlaps(a, b, b, c)
  {
  }

  // ---------------------------------------------------------------------
  // Single slot validation

  /** `SlotCreateSerializer`: the field checks on the start time and on the
      trimmed subject's length, then `validate` on the pair, excluding the
      slot itself on update. */
  function ValidateSlot(t: Tables, faculty: UserId, subject: string, start: int, end: int, exclude: Option<SlotId>, now: int): (r: Outcome)
    ensures r == Pass <==> start > now && |Strip(subject)| <= 100 && start < end && !CheckOverlap(t, faculty, start, end, exclude)
  {
    if start <= now then Fail(StartInPastMessage)
    else if |Strip(subject)| > 100 then Fail(SubjectTooLongMessage)
    else if start >= end then Fail(EndBeforeStartMessage)
    else if CheckOverlap(t, faculty, start, end, exclude) then Fail(OverlapMessage)
    else Pass
  }

  /** A slot that passes validation can be stored under a new id without
      breaking the faculty's disjointness. */
  lemma ValidSlotKeepsDisjoint(t: Tables, id: SlotId, faculty: UserId, subject: string, start: int, end: int, now: int)
    requires FacultyDisjoint(t) && id !in t.slots
    requires ValidateSlot(t, faculty, subject, start, end, None, now) == Pass
    ensures FacultyDisjoint(t.(slots := t.slots[id := Slot(faculty, subject, start, end, true)]))
  {
    var t' := t.(slots := t.slots[id := Slot(faculty, subject, start, end, true)]);
    forall s1, s2 | s1 in t'.slots && s2 in t'.slots && s1 != s2 && t'.slots[s1].faculty == t'.slots[s2].faculty
      ensures !Overlaps(t'.slots[s1].start, t'.slots[s1].end, t'.slots[s2].start, t'.slots[s2].end)
    {
      if s1 == id {
        assert !Overlaps(t.slots[s2].start, t.slots[s2].end, start, end);
      } else if s2 == id {
        assert !Overlaps(t.slots[s1].start, t.slots[s1].end, start, end);
      }
    }
  }

  /** Updating a slot to times that pass validation with the slot itself
      excluded keeps the faculty's disjointness. */
  lemma ValidUpdateKeepsDisjoint(t: Tables, id: SlotId, subject: string, start: int, end: int, now: int)
    requires FacultyDisjoint(t) && id in t.slots
    requires ValidateSlot(t, t.slots[id].faculty, subject, start, end, Some(id), now) == Pass
    ensures FacultyDisjoint(t.(slots := t.slots[id := t.slots[id].(start := start, end := end)]))
  {
    var t' := t.(slots := t.slots[id := t.slots[id].(start := start, end := end)]);
    forall s1, s2 | s1 in t'.slots && s2 in t'.slots && s1 != s2 && t'.slots[s1].faculty == t'.slots[s2].faculty
      ensures !Overlaps(t'.slots[s1].start, t'.slots[s1].end, t'.slots[s2].start, t'.slots[s2].end)
    {
      if s1 == id {
        assert !Overlaps(t.slots[s2].start, t.slots[s2].end, start, end);
      } else if s2 == id {
        assert !Overlaps(t.slots[s1].start, t.slots[s1].end, start, end);
      }
    }
  }

  // ---------------------------------------------------------------------
  // The faculty's existing subject

  /** The distinct stored subjects of the faculty's slots, stripped, with
      blanks and anything outside the allow-list dropped. */
  function StoredSubjects(t: Tables, faculty: UserId): (r: set<string>)
    ensures r <= Subjects.Allowed
  {
    set s | s in t.slots && t.slots[s].faculty == faculty && !Blank(t.slots[s].subject)
              && Strip(t.slots[s].subject) in Subjects.Allowed :: Strip(t.slots[s].subject)
  }

  /** The members of `e`, in the order of `list`. */
  function InOrder(list: seq<string>, e: set<string>): (r: seq<string>)
    ensures forall x :: x in r <==> x in list && x in e
    ensures |r| <= |list|
  {
    if list == [] then []
    else (if list[0] in e then [list[0]] else []) + InOrder(list[1..], e)
  }

  predicate Distinct(list: seq<string>) {
    forall i, j :: 0 <= i < j < |list| ==> list[i] != list[j]
  }

  lemma {:induction false} InOrderDistinct(list: seq<string>, e: set<string>)
    requires Distinct(list)
    ensures Distinct(InOrder(list, e))
  {
    if list != [] {
      assert Distinct(list[1..]) by {
        forall i, j | 0 <= i < j < |list[1..]| ensures list[1..][i] != list[1..][j] {
          assert list[1..][i] == list[i + 1] && list[1..][j] == list[j + 1];
        }
      }
      InOrderDistinct(list[1..], e);
      var rest := InOrder(list[1..], e);
      forall x | x in rest ensures x != list[0] {
        var k :| 0 <= k < |list[1..]| && list[1..][k] == x;
        assert list[k + 1] == x;
      }
    }
  }

  lemma AllowedListDistinct()
    ensures Distinct(Subjects.AllowedList)
    ensures forall x :: x in Subjects.AllowedList <==> x in Subjects.Allowed
  {
  }

  /** `sorted(set(existing))`: the allow-list is kept in sort order, so the
      stored subjects listed in its order are the sorted list. */
  function SortedStoredSubjects(t: Tables, faculty: UserId): seq<string> {
    InOrder(Subjects.AllowedList, StoredSubjects(t, faculty))
  }

  /** The decision on the sorted list of distinct subjects. */
  function FromSorted(existing: seq<string>): Result<Option<string>> {
    if |existing| == 0 then Ok(None)
    else if |existing| != 1 then Err(InvalidMappingMessage)
    else Ok(Some(existing[0]))
  }

  /** `_get_existing_faculty_subject`: None without an allowed subject, the
      subject when there is exactly one, an error when there are more. */
  function ExistingFacultySubject(t: Tables, faculty: UserId): Result<Option<string>> {
    FromSorted(SortedStoredSubjects(t, faculty))
  }

  /** The three outcomes of the decision, for any list without repeats,
      in terms of the set it is filtered by. */
  lemma SortedCases(list: seq<string>, e: set<string>)
    requires Distinct(list) && forall x :: x in e ==> x in list
    ensures FromSorted(InOrder(list, e)) == Ok(None) <==> e == {}
    ensures forall x :: FromSorted(InOrder(list, e)) == Ok(Some(x)) <==> e == {x}
    ensures FromSorted(InOrder(list, e)).Err? <==> exists x, y :: x in e && y in e && x != y
    ensures FromSorted(InOrder(list, e)).Err? ==> FromSorted(InOrder(list, e)).error == InvalidMappingMessage
  {
    var r := InOrder(list, e);
    InOrderDistinct(list, e);
    assert forall x :: x in r <==> x in e;
    if |r| == 0 {
      assert e == {};
    } else if |r| == 1 {
      assert e == {r[0]};
    } else {
      assert r[0] in e && r[1] in e && r[0] != r[1];
    }
    if exists x, y :: x in e && y in e && x != y {
      var x, y :| x in e && y in e && x != y;
      assert x in r && y in r;
    }
  }

  /** The three outcomes, in terms of the set of stored subjects. */
  lemma ExistingSubjectCases(t: Tables, faculty: UserId)
    ensures ExistingFacultySubject(t, faculty) == Ok(None) <==> StoredSubjects(t, faculty) == {}
    ensures forall x :: ExistingFacultySubject(t, faculty) == Ok(Some(x)) <==> StoredSubjects(t, faculty) == {x}
    ensures ExistingFacultySubject(t, faculty).Err? <==>
      exists x, y :: x in StoredSubjects(t, faculty) && y in StoredSubjects(t, faculty) && x != y
    ensures ExistingFacultySubject(t, faculty).Err? ==> ExistingFacultySubject(t, faculty).error == InvalidMappingMessage
  {
    AllowedListDistinct();
    SortedCases(Subjects.AllowedList, StoredSubjects(t, faculty));
  }

  // ---------------------------------------------------------------------
  // Sticky subject resolution

  /** The faculty row with its subject backfilled. */
  function Backfill(t: Tables, faculty: UserId, subject: string): Tables
    requires faculty in t.users
  {
    t.(users := t.users[faculty := t.users[faculty].(facultySubject := subject)])
  }

  /** `_resolve_subject` once the requested and configured subjects are
      normalised and the faculty's existing subject has been looked up;
      `saved` says whether the backfill write succeeded (a failed write is
      swallowed). The backfill is written before the fixed-subject check,
      so it stays even when that check fails. */
  function ResolveWith(t: Tables, faculty: UserId, requested: string, configured: string,
                       existing: Result<Option<string>>, saved: bool): (Tables, Result<string>)
    requires faculty in t.users
  {
    if requested != "" && requested !in Subjects.Allowed then (t, Err(InvalidSubjectMessage))
    else if configured != "" then
      if configured !in Subjects.Allowed then (t, Err(InvalidConfiguredMessage))
      else if requested != "" && requested != configured then (t, Err(FixedSubjectMessage))
      else (t, Ok(configured))
    else
      match existing
      case Err(e) => (t, Err(e))
      case Ok(None) => (t, Err(NotConfiguredMessage))
      case Ok(Some(subject)) =>
        var t' := if saved then Backfill(t, faculty, subject) else t;
        if requested != "" && requested != subject then (t', Err(FixedSubjectMessage))
        else (t', Ok(subject))
  }

  /** `_resolve_subject(faculty, requested)` on the tables. */
  function ResolveSubjectSpec(t: Tables, faculty: UserId, requested: string, saved: bool): (Tables, Result<string>)
    requires faculty in t.users
  {
    ResolveWith(t, faculty, Subjects.Normalize(requested), Subjects.Normalize(t.users[faculty].facultySubject),
                ExistingFacultySubject(t, faculty), saved)
  }

  /** What a resolved subject is: equal to the request when one was made;
      the configured subject when there is one, otherwise the faculty's
      existing subject. */
  lemma ResolveOk(t: Tables, faculty: UserId, requested: string, configured: string,
                  existing: Result<Option<string>>, saved: bool)
    requires faculty in t.users
    requires ResolveWith(t, faculty, requested, configured, existing, saved).1.Ok?
    ensures var x := ResolveWith(t, faculty, requested, configured, existing, saved).1.value;
      && (requested == "" || requested == x)
      && (configured != "" ==> x == configured && x in Subjects.Allowed)
      && (configured == "" ==> existing == Ok(Some(x)))
  {
  }

  /** The refusals of `_resolve_subject`, each with its message. */
  lemma ResolveErrors(t: Tables, faculty: UserId, requested: string, configured: string,
                      existing: Result<Option<string>>, saved: bool)
    requires faculty in t.users
    ensures var r := ResolveWith(t, faculty, requested, configured, existing, saved).1;
      && ((requested != "" && requested !in Subjects.Allowed) ==> r == Err(InvalidSubjectMessage))
      && ((requested == "" || requested in Subjects.Allowed) && configured != "" && configured !in Subjects.Allowed
          ==> r == Err(InvalidConfiguredMessage))
      && ((requested in Subjects.Allowed && configured in Subjects.Allowed && requested != configured)
          ==> r == Err(FixedSubjectMessage))
      && ((requested == "" || requested in Subjects.Allowed) && configured == "" && existing == Ok(None)
          ==> r == Err(NotConfiguredMessage))
      && ((requested == "" || requested in Subjects.Allowed) && configured == "" && existing.Err?
          ==> r == Err(existing.error))
  {
  }

  /** The only write is the backfill of the existing subject, made when
      nothing was configured and the write succeeded. */
  lemma ResolveWrites(t: Tables, faculty: UserId, requested: string, configured: string,
                      existing: Result<Option<string>>, saved: bool)
    requires faculty in t.users
    ensures var t' := ResolveWith(t, faculty, requested, configured, existing, saved).0;
      t' == t || (saved && configured == "" && existing.Ok? && existing.value.Some?
                  && t' == Backfill(t, faculty, existing.value.value))
  {
  }

  /** On the tables: a resolved subject is allowed. Without a configured
      subject it is the single allowed subject of the faculty's slots, and
      the backfill, when made, stores exactly that subject. */
  lemma ResolveSpecOk(t: Tables, faculty: UserId, requested: string, saved: bool)
    requires faculty in t.users
    requires ResolveSubjectSpec(t, faculty, requested, saved).1.Ok?
    ensures var (t', r) := ResolveSubjectSpec(t, faculty, requested, saved);
      && r.value in Subjects.Allowed
      && (Subjects.Normalize(t.users[faculty].facultySubject) == "" ==>
            StoredSubjects(t, faculty) == {r.value} && (t' == t || t' == Backfill(t, faculty, r.value)))
  {
    var c := Subjects.Normalize(t.users[faculty].facultySubject);
    var e := ExistingFacultySubject(t, faculty);
    ResolveOk(t, faculty, Subjects.Normalize(requested), c, e, saved);
    ResolveWrites(t, faculty, Subjects.Normalize(requested), c, e, saved);
    ExistingSubjectCases(t, faculty);
  }

  lemma NormalizeAllowed(x: string)
    requires x in Subjects.Allowed
    ensures Subjects.Normalize(x) == x
  {
    Subjects.CanonicalMatch(x, x);
  }

  /** Once an allowed subject is configured, resolution writes nothing and
      can only return that subject. */
  lemma ResolveConfigured(t: Tables, faculty: UserId, requested: string, configured: string,
                          existing: Result<Option<string>>, saved: bool)
    requires faculty in t.users && configured in Subjects.Allowed
    ensures ResolveWith(t, faculty, requested, configured, existing, saved).0 == t
    ensures ResolveWith(t, faculty, requested, configured, existing, saved).1.Ok? ==>
      ResolveWith(t, faculty, requested, configured, existing, saved).1.value == configured
    ensures (requested == "" || requested == configured) ==>
      ResolveWith(t, faculty, requested, configured, existing, saved).1 == Ok(configured)
  {
    assert |configured| > 0;
  }

  /** Stickiness: once the faculty's stored subject is an allowed subject,
      every later resolution writes nothing and can only return it. */
  lemma ResolveSticky(t: Tables, faculty: UserId, requested: string, saved: bool)
    requires faculty in t.users && t.users[faculty].facultySubject in Subjects.Allowed
    ensures ResolveSubjectSpec(t, faculty, requested, saved).0 == t
    ensures ResolveSubjectSpec(t, faculty, requested, saved).1.Ok? ==>
      ResolveSubjectSpec(t, faculty, requested, saved).1.value == t.users[faculty].facultySubject
  {
    var x := t.users[faculty].facultySubject;
    NormalizeAllowed(x);
    ResolveConfigured(t, faculty, Subjects.Normalize(requested), x, ExistingFacultySubject(t, faculty), saved);
  }

  /** A successful backfill makes the subject sticky. */
  lemma BackfillMakesSticky(t: Tables, faculty: UserId, requested: string, existing: Result<Option<string>>,
                            requested2: string, saved2: bool)
    requires faculty in t.users
    requires ResolveWith(t, faculty, requested, "", existing, true).1.Ok?
    requires existing.Ok? && existing.value.Some? ==> existing.value.value in Subjects.Allowed
    ensures var (t', r) := ResolveWith(t, faculty, requested, "", existing, true);
      && faculty in t'.users && t'.users[faculty].facultySubject == r.value
      && ResolveSubjectSpec(t', faculty, requested2, saved2).0 == t'
      && (ResolveSubjectSpec(t', faculty, requested2, saved2).1.Ok? ==>
            ResolveSubjectSpec(t', faculty, requested2, saved2).1.value == r.value)
  {
    var (t', r) := ResolveWith(t, faculty, requested, "", existing, true);
    assert t' == Backfill(t, faculty, r.value);
    ResolveSticky(t', faculty, requested2, saved2);
  }

  /** `_resolve_subject`, writing the backfill to the faculty's row. */
  method ResolveSubject(db: Database, faculty: UserId, requestedSubject: string, saved: bool) returns (r: Result<string>)
    requires faculty in db.users
    modifies db
    ensures (db.State(), r) == ResolveSubjectSpec(old(db.State()), faculty, requestedSubject, saved)
  {
    var requested := Subjects.Normalize(requestedSubject);
    var configured := Subjects.Normalize(db.users[faculty].facultySubject);
    var existing := ExistingFacultySubject(db.State(), faculty);
    r := Resolve(db, faculty, requested, configured, existing, saved);
  }

  /** The body of `_resolve_subject` after both subjects are normalised. */
  method Resolve(db: Database, faculty: UserId, requested: string, configured: string,
                 existing: Result<Option<string>>, saved: bool) returns (r: Result<string>)
    requires faculty in db.users
    modifies db
    ensures (db.State(), r) == ResolveWith(old(db.State()), faculty, requested, configured, existing, saved)
  {
    if requested != "" && requested !in Subjects.Allowed {
      return Err(InvalidSubjectMessage);
    }
    if configured != "" {
      if configured !in Subjects.Allowed {
        return Err(InvalidConfiguredMessage);
      }
      if requested != "" && requested != configured {
        return Err(FixedSubjectMessage);
      }
      return Ok(configured);
    }
    if existing.Err? {
      return Err(existing.error);
    }
    if existing.value.Some? {
      var subject := existing.value.value;
      if saved {
        var row := db.users[faculty];
        db.users := db.users[faculty := row.(facultySubject := subject)];
      }
      if requested != "" && requested != subject {
        return Err(FixedSubjectMessage);
      }
      return Ok(subject);
    }
    return Err(NotConfiguredMessage);
  }

  // ---------------------------------------------------------------------
  // Bulk validation

  predicate ValidDuration(d: int) {
    d == 5 || d == 10 || d == 15
  }

  predicate ValidBreak(b: int) {
    b == 0 || b == 5 || b == 10 || b == 15
  }

  /** `BulkSlotCreateSerializer`: the field checks (subject length after
      trimming, start in the future, the two choice fields), then
      `validate`. The first failing field is reported. */
  function BulkValidate(subject: string, start: int, end: int, duration: int, breakMinutes: int, now: int): (r: Outcome)
  {
    if |Strip(subject)| > 100 then Fail(SubjectTooLongMessage)
    else if start <= now then Fail(StartInPastMessage)
    else if !ValidDuration(duration) then Fail(InvalidChoiceMessage(duration))
    else if !ValidBreak(breakMinutes) then Fail(InvalidChoiceMessage(breakMinutes))
    else if Strip(subject) != "" && Strip(subject) !in Subjects.Allowed then Fail(InvalidSubjectMessage)
    else if start >= end then Fail(EndBeforeStartMessage)
    else if end - start < duration then Fail(TooShortMessage(duration))
    else Pass
  }

  /** A bulk request is accepted exactly when the start is ahead, the
      choices are legal, the window is non-empty and fits one slot, and the
      subject, stripped only, is blank or allowed verbatim. */
  lemma BulkValidateIff(subject: string, start: int, end: int, duration: int, breakMinutes: int, now: int)
    ensures BulkValidate(subject, start, end, duration, breakMinutes, now) == Pass <==>
      && |Strip(subject)| <= 100
      && start > now
      && ValidDuration(duration) && ValidBreak(breakMinutes)
      && (Strip(subject) == "" || Strip(subject) in Subjects.Allowed)
      && start < end && end - start >= duration
  {
  }

  /** Only stripping is applied: a subject the normalizer maps to an
      allowed name, but that is not itself an allowed name, is refused by
      the bulk check once the other fields pass. */
  lemma BulkRejectsUnlisted(subject: string, start: int, end: int, duration: int, breakMinutes: int, now: int)
    requires |Strip(subject)| <= 100 && now < start && ValidDuration(duration) && ValidBreak(breakMinutes)
    requires Strip(subject) != "" && Strip(subject) !in Subjects.Allowed
    ensures BulkValidate(subject, start, end, duration, breakMinutes, now) == Fail(InvalidSubjectMessage)
  {
  }

  /** The alias "cd", which the normalizer accepts as "Compiler Design"
      (`Subjects.ExampleAliasCd`), is refused by the bulk check. */
  lemma BulkRejectsAlias(subject: string, start: int, end: int, duration: int, breakMinutes: int, now: int)
    requires subject == "cd" && now < start && ValidDuration(duration) && ValidBreak(breakMinutes)
    ensures BulkValidate(subject, start, end, duration, breakMinutes, now) == Fail(InvalidSubjectMessage)
  {
    CdUnlisted(subject);
    BulkRejectsUnlisted(subject, start, end, duration, breakMinutes, now);
  }

  /** "cd" is its own stripped form and not an allowed name. */
  lemma CdUnlisted(subject: string)
    requires subject == "cd"
    ensures Strip(subject) == subject && |subject| == 2
    ensures subject != "" && subject !in Subjects.Allowed
  {
    TrimStartNoop(subject);
    TrimEndNoop(subject);
    Subjects.AllowedLengths();
  }

  // ---------------------------------------------------------------------
  // generate_slots

  /** The slots the tiling loop produces from `cur` on: a candidate of
      `duration` minutes is kept when it ends by `end` and overlaps no
      stored slot of the faculty; the next candidate starts after the break. */
  function Generated(t: Tables, faculty: UserId, subject: string, cur: int, end: int, duration: int, breakMinutes: int): seq<Slot>
    requires duration > 0 && breakMinutes >= 0
    decreases end - cur
  {
    if cur + duration > end then []
    else
      (if CheckOverlap(t, faculty, cur, cur + duration, None) then [] else [Slot(faculty, subject, cur, cur + duration, true)])
        + Generated(t, faculty, subject, cur + duration + breakMinutes, end, duration, breakMinutes)
  }

  /** One turn of the loop: the candidate at `cur`, if kept, is followed by
      the slots generated from the next start. */
  lemma GeneratedStep(t: Tables, faculty: UserId, subject: string, cur: int, end: int, duration: int, breakMinutes: int)
    requires duration > 0 && breakMinutes >= 0 && cur + duration <= end
    ensures Generated(t, faculty, subject, cur, end, duration, breakMinutes)
      == (if CheckOverlap(t, faculty, cur, cur + duration, None) then [] else [Slot(faculty, subject, cur, cur + duration, true)])
         + Generated(t, faculty, subject, cur + duration + breakMinutes, end, duration, breakMinutes)
  {
  }

  /** A multiple of `p` plus `p` is a multiple of `p`. */
  lemma MultipleShift(a: int, p: int)
    requires p > 0 && a % p == 0
    ensures (a + p) % p == 0
  {
    var q := a / p;
    var d, m := (a + p) / p, (a + p) % p;
    assert a == p * q;
    assert a + p == p * d + m && 0 <= m < p;
    var k := d - q - 1;
    assert p * k == m by {
      assert p * d + m == p * q + p;
      assert p * k == p * d - p * q - p;
    }
  }

  /** A slot of the tiling from `cur`: it lasts `duration`, lies inside
      [cur, end], starts on the grid cur + k * (duration + break), belongs
      to the faculty, carries the subject, is open, and overlaps no stored
      slot. */
  ghost predicate OnGrid(t: Tables, faculty: UserId, subject: string, cur: int, end: int, duration: int, breakMinutes: int, s: Slot)
    requires duration > 0 && breakMinutes >= 0
  {
    && s.end - s.start == duration
    && cur <= s.start && s.end <= end
    && (s.start - cur) % (duration + breakMinutes) == 0
    && s.faculty == faculty && s.subject == subject && s.isAvailable
    && !CheckOverlap(t, faculty, s.start, s.end, None)
  }

  /** A slot on the grid from the next start is on the grid from `cur`. */
  lemma OnGridShift(t: Tables, faculty: UserId, subject: string, cur: int, end: int, duration: int, breakMinutes: int, s: Slot)
    requires duration > 0 && breakMinutes >= 0
    requires OnGrid(t, faculty, subject, cur + duration + breakMinutes, end, duration, breakMinutes, s)
    ensures OnGrid(t, faculty, subject, cur, end, duration, breakMinutes, s)
  {
    MultipleShift(s.start - (cur + duration + breakMinutes), duration + breakMinutes);
  }

  /** Every generated slot is on the grid from `cur`. */
  lemma {:induction false} GeneratedShape(t: Tables, faculty: UserId, subject: string, cur: int, end: int, duration: int, breakMinutes: int)
    requires duration > 0 && breakMinutes >= 0
    ensures var r := Generated(t, faculty, subject, cur, end, duration, breakMinutes);
      forall i :: 0 <= i < |r| ==> OnGrid(t, faculty, subject, cur, end, duration, breakMinutes, r[i])
    decreases end - cur
  {
    if cur + duration <= end {
      var next := cur + duration + breakMinutes;
      GeneratedStep(t, faculty, subject, cur, end, duration, breakMinutes);
      GeneratedShape(t, faculty, subject, next, end, duration, breakMinutes);
      var head := if CheckOverlap(t, faculty, cur, cur + duration, None) then [] else [Slot(faculty, subject, cur, cur + duration, true)];
      var rest := Generated(t, faculty, subject, next, end, duration, breakMinutes);
      var r := head + rest;
      forall i | 0 <= i < |r|
        ensures OnGrid(t, faculty, subject, cur, end, duration, breakMinutes, r[i])
      {
        if i >= |head| {
          assert r[i] == rest[i - |head|];
          OnGridShift(t, faculty, subject, cur, end, duration, breakMinutes, r[i]);
        } else {
          assert r[i] == head[0];
          assert (r[i].start - cur) % (duration + breakMinutes) == 0;
        }
      }
    }
  }

  /** Generated slots come in start order, each separated from the next by
      at least the break, so they are pairwise disjoint. */
  lemma {:induction false} GeneratedOrdered(t: Tables, faculty: UserId, subject: string, cur: int, end: int, duration: int, breakMinutes: int)
    requires duration > 0 && breakMinutes >= 0
    ensures var r := Generated(t, faculty, subject, cur, end, duration, breakMinutes);
      forall i, j :: 0 <= i < j < |r| ==> r[i].end + breakMinutes <= r[j].start
    decreases end - cur
  {
    if cur + duration <= end {
      var next := cur + duration + breakMinutes;
      GeneratedStep(t, faculty, subject, cur, end, duration, breakMinutes);
      GeneratedOrdered(t, faculty, subject, next, end, duration, breakMinutes);
      GeneratedShape(t, faculty, subject, next, end, duration, breakMinutes);
      var head := if CheckOverlap(t, faculty, cur, cur + duration, None) then [] else [Slot(faculty, subject, cur, cur + duration, true)];
      var rest := Generated(t, faculty, subject, next, end, duration, breakMinutes);
      var r := head + rest;
      forall i, j | 0 <= i < j < |r| ensures r[i].end + breakMinutes <= r[j].start {
        assert r[j] == rest[j - |head|];
        if i >= |head| {
          assert r[i] == rest[i - |head|];
        } else {
          assert r[i] == head[0];
        }
      }
    }
  }

  lemma GeneratedDisjoint(t: Tables, faculty: UserId, subject: string, cur: int, end: int, duration: int, breakMinutes: int)
    requires duration > 0 && breakMinutes >= 0
    ensures var r := Generated(t, faculty, subject, cur, end, duration, breakMinutes);
      forall i, j :: 0 <= i < |r| && 0 <= j < |r| && i != j ==> !Overlaps(r[i].start, r[i].end, r[j].start, r[j].end)
  {
    GeneratedOrdered(t, faculty, subject, cur, end, duration, breakMinutes);
  }

  /** Nothing is skipped but overlaps: every grid candidate that fits the
      window and overlaps no stored slot is generated. */
  lemma {:induction false} GeneratedComplete(t: Tables, faculty: UserId, subject: string, cur: int, end: int,
                                             duration: int, breakMinutes: int, k: nat)
    requires duration > 0 && breakMinutes >= 0
    requires cur + k * (duration + breakMinutes) + duration <= end
    requires !CheckOverlap(t, faculty, cur + k * (duration + breakMinutes), cur + k * (duration + breakMinutes) + duration, None)
    ensures Slot(faculty, subject, cur + k * (duration + breakMinutes), cur + k * (duration + breakMinutes) + duration, true)
      in Generated(t, faculty, subject, cur, end, duration, breakMinutes)
    decreases k
  {
    var next := cur + duration + breakMinutes;
    if k > 0 {
      assert cur + k * (duration + breakMinutes) == next + (k - 1) * (duration + breakMinutes);
      GeneratedComplete(t, faculty, subject, next, end, duration, breakMinutes, k - 1);
    }
  }

  /** A 60-minute window tiled with 15-minute slots and 5-minute breaks,
      with nothing stored yet, gives 0-15, 20-35 and 40-55. */
  lemma ExampleTiling(t: Tables, faculty: UserId, subject: string)
    requires forall s :: s in t.slots ==> t.slots[s].faculty != faculty
    ensures Generated(t, faculty, subject, 0, 60, 15, 5)
      == [Slot(faculty, subject, 0, 15, true), Slot(faculty, subject, 20, 35, true), Slot(faculty, subject, 40, 55, true)]
  {
    assert !CheckOverlap(t, faculty, 0, 15, None);
    assert !CheckOverlap(t, faculty, 20, 35, None);
    assert !CheckOverlap(t, faculty, 40, 55, None);
    assert Generated(t, faculty, subject, 60, 60, 15, 5) == [];
  }

  /** The loop invariant of `Tile` survives one turn. */
  lemma TileStep(t: Tables, faculty: UserId, subject: string, start: int, cur: int, end: int, duration: int,
                 breakMinutes: int, slots: seq<Slot>)
    requires duration > 0 && breakMinutes >= 0 && cur + duration <= end
    requires slots + Generated(t, faculty, subject, cur, end, duration, breakMinutes)
      == Generated(t, faculty, subject, start, end, duration, breakMinutes)
    ensures var head := if CheckOverlap(t, faculty, cur, cur + duration, None) then [] else [Slot(faculty, subject, cur, cur + duration, true)];
      (slots + head) + Generated(t, faculty, subject, cur + duration + breakMinutes, end, duration, breakMinutes)
        == Generated(t, faculty, subject, start, end, duration, breakMinutes)
  {
    GeneratedStep(t, faculty, subject, cur, end, duration, breakMinutes);
    var head := if CheckOverlap(t, faculty, cur, cur + duration, None) then [] else [Slot(faculty, subject, cur, cur + duration, true)];
    var rest := Generated(t, faculty, subject, cur + duration + breakMinutes, end, duration, breakMinutes);
    assert slots + (head + rest) == (slots + head) + rest;
  }

  /** The tiling loop of `generate_slots`, given the resolved subject. */
  method Tile(t: Tables, faculty: UserId, subject: string, start: int, end: int, duration: int, breakMinutes: int)
    returns (slots: seq<Slot>)
    requires ValidDuration(duration) && ValidBreak(breakMinutes)
    ensures slots == Generated(t, faculty, subject, start, end, duration, breakMinutes)
  {
    slots := [];
    var cur := start;
    while true
      invariant slots + Generated(t, faculty, subject, cur, end, duration, breakMinutes)
        == Generated(t, faculty, subject, start, end, duration, breakMinutes)
      decreases end - cur
    {
      var curEnd := cur + duration;
      if curEnd > end {
        break;
      }
      TileStep(t, faculty, subject, start, cur, end, duration, breakMinutes, slots);
      var keep := !CheckOverlap(t, faculty, cur, curEnd, None);
      var head := if keep then [Slot(faculty, subject, cur, curEnd, true)] else [];
      slots := slots + head;
      cur := curEnd + breakMinutes;
    }
    assert slots + [] == slots;
  }

  /** `generate_slots`: the subject is resolved (which may backfill it),
      then the window is tiled against the stored slots. */
  function GenerateSlotsSpec(t: Tables, faculty: UserId, requested: string, start: int, end: int,
                             duration: int, breakMinutes: int, saved: bool): (Tables, Result<seq<Slot>>)
    requires faculty in t.users && ValidDuration(duration) && ValidBreak(breakMinutes)
  {
    var (t', subject) := ResolveSubjectSpec(t, faculty, requested, saved);
    if subject.Err? then (t', Err(subject.error))
    else (t', Ok(Generated(t', faculty, subject.value, start, end, duration, breakMinutes)))
  }

  method GenerateSlots(db: Database, faculty: UserId, requested: string, start: int, end: int,
                       duration: int, breakMinutes: int, saved: bool) returns (r: Result<seq<Slot>>)
    requires faculty in db.users && ValidDuration(duration) && ValidBreak(breakMinutes)
    modifies db
    ensures (db.State(), r) == GenerateSlotsSpec(old(db.State()), faculty, requested, start, end, duration, breakMinutes, saved)
  {
    var subject := ResolveSubject(db, faculty, requested, saved);
    if subject.Err? {
      return Err(subject.error);
    }
    var slots := Tile(db.State(), faculty, subject.value, start, end, duration, breakMinutes);
    r := Ok(slots);
  }
}
