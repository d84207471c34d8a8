/** The request-level checks a student's booking goes through before the
    booking engine runs: the slot pre-checks on `slot_id`, the mentor
    authorisation against the external student profile, and the
    validation of a cancel request. */
module BookingRequests {
  import opened Wrappers
  import opened Text
  import opened Tables
  import Bookings
  import SlotRules

  const SlotNotFoundMessage: string := "Slot not found"
  const NoMentorsMessage: string :=
    "Unable to determine your mentors from the external student profile. Please contact support."
  const NotAuthorizedMessage: string := "You are not authorized to book this slot."
  const ReasonTooLongMessage: string := "Ensure this field has no more than 500 characters."
  const MaxReasonLength: nat := 500

  // ---------------------------------------------------------------------
  // validate_slot_id

  /** The pre-checks on the requested slot, in the order they are made:
      it exists, it is offered, it starts after `now`, and it holds no
      confirmed booking. */
  function ValidateSlotId(t: Tables, slotId: SlotId, now: int): (r: Outcome)
    ensures r.Pass? <==>
      && slotId in t.slots
      && t.slots[slotId].isAvailable
      && now < t.slots[slotId].start
      && !SlotRules.HasBooking(t, slotId)
    ensures slotId !in t.slots ==> r == Fail(SlotNotFoundMessage)
    ensures slotId in t.slots && !t.slots[slotId].isAvailable ==> r == Fail(Bookings.NotAvailableMessage)
    ensures slotId in t.slots && t.slots[slotId].isAvailable && t.slots[slotId].start <= now ==>
      r == Fail(Bookings.PastSlotMessage)
  {
    if slotId !in t.slots then Fail(SlotNotFoundMessage)
    else
      var slot := t.slots[slotId];
      if !slot.isAvailable then Fail(Bookings.NotAvailableMessage)
      else if slot.start <= now then Fail(Bookings.PastSlotMessage)
      else if SlotRules.HasBooking(t, slotId) then Fail(Bookings.AlreadyBookedMessage)
      else Pass
  }

  /** In consistent tables the already-booked check never decides: a slot
      with a confirmed booking is not offered, so the availability check
      has refused it first. */
  lemma AlreadyBookedUnreachable(t: Tables, slotId: SlotId, now: int)
    requires Consistent(t)
    ensures ValidateSlotId(t, slotId, now) != Fail(Bookings.AlreadyBookedMessage)
  {
    if slotId in t.slots && t.slots[slotId].isAvailable && now >= t.slots[slotId].start {
    } else if slotId in t.slots && t.slots[slotId].isAvailable && SlotRules.HasBooking(t, slotId) {
      SlotRules.BookedSlotsClosed(t, slotId);
    }
  }

  // ---------------------------------------------------------------------
  // mentor authorisation

  /** An e-mail address as the comparison sees it: stripped and
      lower-cased. */
  function Canon(e: string): string {
    Lower(Strip(e))
  }

  /** Comparison ignores letter case and outer whitespace. */
  lemma CanonIgnoresCase(e: string)
    ensures Canon(Lower(e)) == Canon(e)
    ensures Canon(Strip(e)) == Canon(e)
  {
    LowerStrip(e);
    LowerIdempotent(Strip(e));
    StripIdempotent(e);
  }

  /** A canonical address is non-empty exactly when the raw one is not
      blank. */
  lemma CanonEmptyIff(e: string)
    ensures Canon(e) == "" <==> Blank(e)
  {
  }

  /** The mentor set: every non-null, non-blank entry of the profile's
      mentor list, stripped and lower-cased. An entry is `None` where the
      list holds a null. */
  function MentorSet(raw: seq<Option<string>>): set<string> {
    set e | e in raw && e.Some? && !Blank(e.value) :: Canon(e.value)
  }

  /** Whether the raw entry at `i` names the canonical address `m`. */
  predicate NamesMentor(raw: seq<Option<string>>, i: int, m: string)
    requires 0 <= i < |raw|
  {
    raw[i].Some? && !Blank(raw[i].value) && Canon(raw[i].value) == m
  }

  /** The canonical form of a usable address is a non-empty, stripped,
      lower-case string. */
  lemma CanonShape(e: string)
    requires !Blank(e)
    ensures Canon(e) != "" && Strip(Canon(e)) == Canon(e) && NoUpper(Canon(e))
  {
    LowerStripClean(e);
  }

  /** The members of the mentor set are exactly the canonical forms of the
      usable entries. */
  lemma MentorSetMembers(raw: seq<Option<string>>, m: string)
    ensures m in MentorSet(raw) <==> exists i :: 0 <= i < |raw| && NamesMentor(raw, i, m)
  {
    if m in MentorSet(raw) {
      var e :| e in raw && e.Some? && !Blank(e.value) && Canon(e.value) == m;
      var i :| 0 <= i < |raw| && raw[i] == e;
      assert NamesMentor(raw, i, m);
    }
    if exists i :: 0 <= i < |raw| && NamesMentor(raw, i, m) {
      var i :| 0 <= i < |raw| && NamesMentor(raw, i, m);
      assert raw[i] in raw;
    }
  }

  /** Every member of the mentor set is a non-empty, stripped, lower-case
      address. */
  lemma MentorSetShape(raw: seq<Option<string>>, m: string)
    requires m in MentorSet(raw)
    ensures m != "" && Strip(m) == m && NoUpper(m)
  {
    var e :| e in raw && e.Some? && !Blank(e.value) && Canon(e.value) == m;
    CanonShape(e.value);
  }

  /** The mentor set is empty exactly when every entry is null or blank. */
  lemma MentorSetEmptyIff(raw: seq<Option<string>>)
    ensures MentorSet(raw) == {} <==> forall i :: 0 <= i < |raw| ==> raw[i].None? || Blank(raw[i].value)
  {
    if exists i :: 0 <= i < |raw| && raw[i].Some? && !Blank(raw[i].value) {
      var i :| 0 <= i < |raw| && raw[i].Some? && !Blank(raw[i].value);
      MentorSetMembers(raw, Canon(raw[i].value));
      assert NamesMentor(raw, i, Canon(raw[i].value));
    }
  }

  /** Every entry lower-cased. */
  function LowerEntries(raw: seq<Option<string>>): (r: seq<Option<string>>)
    ensures |r| == |raw|
  {
    seq(|raw|, i requires 0 <= i < |raw| => if raw[i].Some? then Some(Lower(raw[i].value)) else None)
  }

  /** Lower-casing an entry keeps it usable or unusable, and keeps its
      canonical form. */
  lemma LowerEntryCanon(raw: seq<Option<string>>, i: int)
    requires 0 <= i < |raw| && raw[i].Some?
    ensures LowerEntries(raw)[i] == Some(Lower(raw[i].value))
    ensures Blank(Lower(raw[i].value)) <==> Blank(raw[i].value)
    ensures Canon(Lower(raw[i].value)) == Canon(raw[i].value)
  {
    LowerStrip(raw[i].value);
    CanonIgnoresCase(raw[i].value);
  }

  /** One address is in both mentor sets or in neither. */
  lemma MentorIgnoresCaseAt(raw: seq<Option<string>>, m: string)
    ensures m in MentorSet(LowerEntries(raw)) <==> m in MentorSet(raw)
  {
    var low := LowerEntries(raw);
    MentorSetMembers(raw, m);
    MentorSetMembers(low, m);
    if m in MentorSet(raw) {
      var i :| 0 <= i < |raw| && NamesMentor(raw, i, m);
      LowerEntryCanon(raw, i);
      assert NamesMentor(low, i, m);
    }
    if m in MentorSet(low) {
      var i :| 0 <= i < |low| && NamesMentor(low, i, m);
      LowerEntryCanon(raw, i);
      assert NamesMentor(raw, i, m);
    }
  }

  /** The mentor set does not depend on how the profile capitalises its
      entries. */
  lemma MentorSetIgnoresCase(raw: seq<Option<string>>)
    ensures MentorSet(LowerEntries(raw)) == MentorSet(raw)
  {
    forall m
      ensures m in MentorSet(LowerEntries(raw)) <==> m in MentorSet(raw)
    {
      MentorIgnoresCaseAt(raw, m);
    }
  }

  /** The slot faculty's canonical e-mail; "" where there is none. */
  function FacultyEmail(t: Tables, slotId: SlotId): string
    requires slotId in t.slots
  {
    var f := t.slots[slotId].faculty;
    if f in t.users then Canon(t.users[f].email) else ""
  }

  /** The mentor check of `validate`: the student needs at least one
      mentor, and the slot's faculty must be one of them. */
  function ValidateMentors(t: Tables, slotId: SlotId, raw: seq<Option<string>>): (r: Outcome)
    requires slotId in t.slots
    ensures MentorSet(raw) == {} ==> r == Fail(NoMentorsMessage)
    ensures r.Fail? ==> r.error in {NoMentorsMessage, NotAuthorizedMessage}
  {
    var mentors := MentorSet(raw);
    if mentors == {} then Fail(NoMentorsMessage)
    else
      var email := FacultyEmail(t, slotId);
      if email == "" || email !in mentors then Fail(NotAuthorizedMessage)
      else Pass
  }

  /** A booking is authorised exactly when some usable entry of the mentor
      list equals the faculty's e-mail up to case and outer whitespace, and
      the faculty has a non-blank e-mail. */
  lemma AuthorisedIff(t: Tables, slotId: SlotId, raw: seq<Option<string>>)
    requires slotId in t.slots
    ensures ValidateMentors(t, slotId, raw).Pass? <==>
      && FacultyEmail(t, slotId) != ""
      && exists i :: 0 <= i < |raw| && NamesMentor(raw, i, FacultyEmail(t, slotId))
  {
    MentorSetMembers(raw, FacultyEmail(t, slotId));
  }

  /** Re-capitalising the mentor list never changes the decision. */
  lemma AuthorisationIgnoresCase(t: Tables, slotId: SlotId, raw: seq<Option<string>>)
    requires slotId in t.slots
    ensures ValidateMentors(t, slotId, LowerEntries(raw)) == ValidateMentors(t, slotId, raw)
  {
    MentorSetIgnoresCase(raw);
  }

  /** Neither does re-capitalising or padding the faculty's own e-mail. */
  lemma AuthorisationIgnoresFacultyCase(t: Tables, slotId: SlotId, raw: seq<Option<string>>, email: string)
    requires slotId in t.slots && t.slots[slotId].faculty in t.users
    requires email == Lower(t.users[t.slots[slotId].faculty].email) || email == Strip(t.users[t.slots[slotId].faculty].email)
    ensures var f := t.slots[slotId].faculty;
      ValidateMentors(t.(users := t.users[f := t.users[f].(email := email)]), slotId, raw) == ValidateMentors(t, slotId, raw)
  {
    CanonIgnoresCase(t.users[t.slots[slotId].faculty].email);
  }

  // ---------------------------------------------------------------------
  // create

  /** The whole request for a slot the tables hold: the remaining field
      checks, the mentor check, then `create_booking` with the slot's
      subject and teacher. */
  function RequestWith(t: Tables, slotId: SlotId, student: UserId, raw: seq<Option<string>>, now: int,
                       freshId: BookingId, subject: string, teacher: Option<string>): (r: (Tables, Result<BookingId>))
    requires slotId in t.slots
    ensures r.1.Err? ==> r.0 == t
  {
    var pre := ValidateSlotId(t, slotId, now);
    if pre.Fail? then (t, Err(pre.error))
    else
      var auth := ValidateMentors(t, slotId, raw);
      if auth.Fail? then (t, Err(auth.error))
      else
        Bookings.CreateErrUnchanged(t, slotId, student, subject, teacher, now, freshId);
        Bookings.CreateWith(t, slotId, student, subject, teacher, now, freshId)
  }

  /** A booking request from `student` for `slotId`, with the student's
      mentor list `raw`, at `now`. */
  function RequestSpec(t: Tables, slotId: SlotId, student: UserId, raw: seq<Option<string>>, now: int,
                       freshId: BookingId): (Tables, Result<BookingId>)
    requires slotId in t.slots ==> t.slots[slotId].faculty in t.users
  {
    if slotId !in t.slots then (t, Err(SlotNotFoundMessage))
    else RequestWith(t, slotId, student, raw, now, freshId, Bookings.SlotSubject(t, slotId), Bookings.SlotTeacher(t, slotId))
  }

  /** A request succeeds exactly when the pre-checks pass, the faculty is
      one of the student's mentors, and the booking engine accepts. */
  lemma RequestOkIff(t: Tables, slotId: SlotId, student: UserId, raw: seq<Option<string>>, now: int,
                     freshId: BookingId, subject: string, teacher: Option<string>)
    requires slotId in t.slots
    ensures RequestWith(t, slotId, student, raw, now, freshId, subject, teacher).1.Ok? <==>
      && now < t.slots[slotId].start
      && FacultyEmail(t, slotId) in MentorSet(raw)
      && Bookings.CreateWith(t, slotId, student, subject, teacher, now, freshId).1.Ok?
  {
    RequestWithOk(t, slotId, student, raw, now, freshId, subject, teacher);
    MentorsPassIff(t, slotId, raw);
    Bookings.CreateOkIff(t, slotId, student, subject, teacher, now, freshId);
  }

  /** The three stages of a request, each of which must pass. */
  lemma RequestWithOk(t: Tables, slotId: SlotId, student: UserId, raw: seq<Option<string>>, now: int,
                      freshId: BookingId, subject: string, teacher: Option<string>)
    requires slotId in t.slots
    ensures RequestWith(t, slotId, student, raw, now, freshId, subject, teacher).1.Ok? <==>
      && ValidateSlotId(t, slotId, now).Pass?
      && ValidateMentors(t, slotId, raw).Pass?
      && Bookings.CreateWith(t, slotId, student, subject, teacher, now, freshId).1.Ok?
  {
  }

  /** The mentor check passes exactly when the faculty's e-mail is in the
      mentor set, which never holds the empty string. */
  lemma MentorsPassIff(t: Tables, slotId: SlotId, raw: seq<Option<string>>)
    requires slotId in t.slots
    ensures ValidateMentors(t, slotId, raw).Pass? <==> FacultyEmail(t, slotId) in MentorSet(raw)
  {
  }

  /** What a successful request leaves behind: a confirmed row for the
      student on a slot that started after `now` and belongs to one of the
      student's mentors, and the slot no longer offered. */
  lemma RequestSuccess(t: Tables, slotId: SlotId, student: UserId, raw: seq<Option<string>>, now: int,
                       freshId: BookingId, subject: string, teacher: Option<string>)
    requires slotId in t.slots
    requires RequestWith(t, slotId, student, raw, now, freshId, subject, teacher).1.Ok?
    ensures var (t', r) := RequestWith(t, slotId, student, raw, now, freshId, subject, teacher);
      && FacultyEmail(t, slotId) in MentorSet(raw)
      && now < t.slots[slotId].start
      && slotId in t'.bookings
      && t'.bookings[slotId].id == r.value
      && t'.bookings[slotId].student == student
      && t'.bookings[slotId].status == Confirmed
  {
    Bookings.CreateSuccess(t, slotId, student, subject, teacher, now, freshId);
  }

  /** Because the slot pre-checks run first, a request never reaches the
      engine's own "no longer available" refusal. */
  lemma NoLongerAvailableUnreachable(t: Tables, slotId: SlotId, student: UserId, raw: seq<Option<string>>, now: int,
                                     freshId: BookingId, subject: string, teacher: Option<string>)
    requires slotId in t.slots
    ensures RequestWith(t, slotId, student, raw, now, freshId, subject, teacher).1 != Err(Bookings.NoLongerAvailableMessage)
  {
    var pre := ValidateSlotId(t, slotId, now);
    var auth := ValidateMentors(t, slotId, raw);
    if pre.Pass? && auth.Pass? {
      RequestReachesEngine(t, slotId, student, raw, now, freshId, subject, teacher);
      Bookings.CreateOpenRefusals(t, slotId, student, subject, teacher, now, freshId);
    }
  }

  /** Past both checks, the request is the engine's create. */
  lemma RequestReachesEngine(t: Tables, slotId: SlotId, student: UserId, raw: seq<Option<string>>, now: int,
                             freshId: BookingId, subject: string, teacher: Option<string>)
    requires slotId in t.slots
    requires ValidateSlotId(t, slotId, now).Pass? && ValidateMentors(t, slotId, raw).Pass?
    ensures RequestWith(t, slotId, student, raw, now, freshId, subject, teacher)
      == Bookings.CreateWith(t, slotId, student, subject, teacher, now, freshId)
  {
  }

  /** `create`: validates the request and hands the slot and the
      requesting student to `create_booking`, nothing more. */
  method RequestBooking(db: Database, slotId: SlotId, student: UserId, raw: seq<Option<string>>, now: int,
                        freshId: BookingId) returns (r: Result<BookingId>)
    requires slotId in db.slots ==> db.slots[slotId].faculty in db.users
    modifies db
    ensures (db.State(), r) == RequestSpec(old(db.State()), slotId, student, raw, now, freshId)
  {
    if slotId !in db.slots {
      return Err(SlotNotFoundMessage);
    }
    var pre := ValidateSlotId(db.State(), slotId, now);
    if pre.Fail? {
      return Err(pre.error);
    }
    var auth := ValidateMentors(db.State(), slotId, raw);
    if auth.Fail? {
      return Err(auth.error);
    }
    r := Bookings.CreateBooking(db, slotId, student, now, freshId);
  }

  // ---------------------------------------------------------------------
  // cancel validation

  /** `BookingCancelSerializer`: the optional reason is stripped and may be
      at most 500 characters; then the booking must be confirmed and
      within the student cancellation window. There is no force path. */
  function ValidateCancel(reason: Option<string>, b: Booking, slot: Slot, now: int): (r: Outcome)
    ensures r.Pass? <==>
      && (reason.Some? ==> |Strip(reason.value)| <= MaxReasonLength)
      && Bookings.CanCancel(b, slot, now)
  {
    if reason.Some? && |Strip(reason.value)| > MaxReasonLength then Fail(ReasonTooLongMessage)
    else if b.status != Confirmed then Fail(Bookings.OnlyConfirmedMessage)
    else if !Bookings.CanCancel(b, slot, now) then Fail(Bookings.CancellationWindowMessage)
    else Pass
  }

  /** For an acceptable reason, the request check refuses with exactly the
      message the student cancel (without force) would fail with, and
      passes exactly when it would succeed. */
  lemma ValidateCancelAgrees(t: Tables, slotId: SlotId, reason: string, now: int)
    requires slotId in t.bookings && slotId in t.slots
    requires |Strip(reason)| <= MaxReasonLength
    ensures var v := ValidateCancel(Some(reason), t.bookings[slotId], t.slots[slotId], now);
      var c := Bookings.CancelSpec(t, slotId, reason, false, now).1;
      && (v.Pass? <==> c.Ok?)
      && (v.Fail? ==> c == Err(v.error))
  {
  }

  /** Whatever the request check lets through, a faculty-forced cancel
      would accept as well. */
  lemma ValidatedCancelForced(t: Tables, slotId: SlotId, reason: Option<string>, text: string, now: int)
    requires slotId in t.bookings && slotId in t.slots
    requires ValidateCancel(reason, t.bookings[slotId], t.slots[slotId], now).Pass?
    ensures Bookings.CancelSpec(t, slotId, text, true, now).1.Ok?
  {
  }
}
