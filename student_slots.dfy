/** The student side of the slot views: the merged list of a student's
    mentors, the slots the student may see, and the status of each mentor. */
module StudentSlots {
  import opened Wrappers
  import opened Text
  import opened Clock
  import opened Tables
  import SlotRules
  import SlotViews
  import BookingRequests

  // ---------------------------------------------------------------------
  // Mentor e-mails

  /** `get_assigned_teacher_ids`: the teachers of the student's assignments. */
  function AssignedTeacherIds(t: Tables, student: UserId): set<string> {
    set k | k in t.assignments && k.0 == student :: t.assignments[k]
  }

  /** The e-mails of the faculty rows whose external id is an assigned
      teacher, NULL and empty e-mails excluded. */
  function AssignedEmails(t: Tables, student: UserId): set<string> {
    var ids := AssignedTeacherIds(t, student);
    set u | u in t.users && t.users[u].role == "faculty" && t.users[u].pblUserId.Some?
              && t.users[u].pblUserId.value in ids && t.users[u].email != "" :: t.users[u].email
  }

  /** `[str(e).strip() for e in emails if e and str(e).strip()]` */
  function CleanEmails(xs: seq<string>): (r: seq<string>)
    ensures |r| <= |xs|
  {
    if xs == [] then []
    else
      var last := xs[|xs| - 1];
      CleanEmails(xs[..|xs| - 1]) + (if Blank(last) then [] else [Strip(last)])
  }

  /** The case-insensitive keys of a list. */
  function Keys(xs: seq<string>): set<string> {
    set x | x in xs :: Lower(x)
  }

  /** The first-occurrence filter on case-insensitive keys, kept in order. */
  function Dedup(xs: seq<string>): seq<string> {
    if xs == [] then []
    else
      var last := xs[|xs| - 1];
      var d := Dedup(xs[..|xs| - 1]);
      if Lower(last) in Keys(d) then d else d + [last]
  }

  /** The first entry of a list with the given key. */
  function FirstWithKey(xs: seq<string>, key: string): Option<string> {
    if xs == [] then None
    else
      var init := xs[..|xs| - 1];
      match FirstWithKey(init, key)
      case Some(x) => Some(x)
      case None => if Lower(xs[|xs| - 1]) == key then Some(xs[|xs| - 1]) else None
  }

  /** The mentor list of `get_queryset` and `teacher_status`: the
      assignment-derived e-mails, then the external ones, cleaned and
      de-duplicated case-insensitively. */
  function MergedMentors(local: seq<string>, external: seq<string>): seq<string> {
    Dedup(CleanEmails(local + external))
  }

  /** Cleaning one more entry. */
  lemma CleanSnoc(xs: seq<string>, x: string)
    ensures CleanEmails(xs + [x]) == CleanEmails(xs) + (if Blank(x) then [] else [Strip(x)])
  {
    assert (xs + [x])[..|xs + [x]| - 1] == xs;
  }

  /** De-duplicating one more entry. */
  lemma DedupSnoc(xs: seq<string>, x: string)
    ensures Dedup(xs + [x]) == if Lower(x) in Keys(Dedup(xs)) then Dedup(xs) else Dedup(xs) + [x]
  {
    assert (xs + [x])[..|xs + [x]| - 1] == xs;
  }

  lemma KeysSnoc(xs: seq<string>, x: string)
    ensures Keys(xs + [x]) == Keys(xs) + {Lower(x)}
  {
    assert forall y :: y in xs + [x] <==> y in xs || y == x;
  }

  lemma {:induction false} CleanAppend(a: seq<string>, b: seq<string>)
    ensures CleanEmails(a + b) == CleanEmails(a) + CleanEmails(b)
    decreases |b|
  {
    if b == [] {
      assert a + b == a;
    } else {
      var init := b[..|b| - 1];
      var last := b[|b| - 1];
      assert a + b == (a + init) + [last];
      assert b == init + [last];
      CleanSnoc(a + init, last);
      CleanSnoc(init, last);
      CleanAppend(a, init);
    }
  }

  /** A cleaned entry is stripped and non-blank. */
  lemma CleanedEntry(e: string)
    requires !Blank(e)
    ensures Strip(Strip(e)) == Strip(e) && !Blank(Strip(e))
  {
    StripIdempotent(e);
  }

  /** Every cleaned entry is stripped and non-blank. */
  lemma {:induction false} CleanEmailsClean(xs: seq<string>)
    ensures forall x :: x in CleanEmails(xs) ==> Strip(x) == x && !Blank(x)
  {
    if xs != [] {
      var init := xs[..|xs| - 1];
      var last := xs[|xs| - 1];
      assert xs == init + [last];
      CleanSnoc(init, last);
      CleanEmailsClean(init);
      if !Blank(last) {
        CleanedEntry(last);
      }
    }
  }

  /** `x` is the stripped form of some non-blank input entry. */
  ghost predicate CleanedFrom(xs: seq<string>, x: string) {
    exists i :: 0 <= i < |xs| && !Blank(xs[i]) && Strip(xs[i]) == x
  }

  /** Which entries one more input can supply. */
  lemma CleanedFromSnoc(init: seq<string>, last: string, x: string)
    ensures CleanedFrom(init + [last], x) <==> CleanedFrom(init, x) || (!Blank(last) && Strip(last) == x)
  {
    var xs := init + [last];
    if CleanedFrom(init, x) {
      var i :| 0 <= i < |init| && !Blank(init[i]) && Strip(init[i]) == x;
      assert xs[i] == init[i];
    }
    if !Blank(last) && Strip(last) == x {
      assert xs[|init|] == last;
    }
    if CleanedFrom(xs, x) {
      var i :| 0 <= i < |xs| && !Blank(xs[i]) && Strip(xs[i]) == x;
      if i < |init| {
        assert init[i] == xs[i];
      }
    }
  }

  /** The cleaned entries are the stripped non-blank inputs. */
  lemma {:induction false} CleanEmailsFrom(xs: seq<string>)
    ensures forall x :: x in CleanEmails(xs) <==> CleanedFrom(xs, x)
  {
    if xs != [] {
      var init := xs[..|xs| - 1];
      var last := xs[|xs| - 1];
      assert xs == init + [last];
      CleanSnoc(init, last);
      CleanEmailsFrom(init);
      forall x ensures x in CleanEmails(xs) <==> CleanedFrom(xs, x) {
        CleanedFromSnoc(init, last, x);
      }
    }
  }

  /** The keys of the de-duplicated list are the keys of the input, each
      kept once, by the first entry carrying it. */
  lemma {:induction false} DedupProperties(xs: seq<string>)
    ensures Keys(Dedup(xs)) == Keys(xs)
    ensures forall i, j :: 0 <= i < j < |Dedup(xs)| ==> Lower(Dedup(xs)[i]) != Lower(Dedup(xs)[j])
    ensures forall x :: x in Dedup(xs) ==> FirstWithKey(xs, Lower(x)) == Some(x)
    ensures forall k :: k in Keys(xs) ==> FirstWithKey(xs, k).Some? && FirstWithKey(xs, k).value in Dedup(xs)
  {
    if xs != [] {
      var init := xs[..|xs| - 1];
      var last := xs[|xs| - 1];
      var d := Dedup(init);
      DedupProperties(init);
      assert xs == init + [last];
      assert Keys(xs) == Keys(init) + {Lower(last)};
      KeyAbsent(init);
      if Lower(last) !in Keys(d) {
        var r := d + [last];
        assert Keys(r) == Keys(d) + {Lower(last)};
        forall i, j | 0 <= i < j < |r| ensures Lower(r[i]) != Lower(r[j]) {
          if j == |d| {
            assert r[i] == d[i] && r[i] in d;
          } else {
            assert r[i] == d[i] && r[j] == d[j];
          }
        }
      }
    }
  }

  /** A key missing from a list has no first entry there. */
  lemma {:induction false} KeyAbsent(xs: seq<string>)
    ensures forall k :: k !in Keys(xs) ==> FirstWithKey(xs, k).None?
    ensures forall k :: FirstWithKey(xs, k).Some? ==> Lower(FirstWithKey(xs, k).value) == k && FirstWithKey(xs, k).value in xs
  {
    if xs != [] {
      var init := xs[..|xs| - 1];
      KeyAbsent(init);
      assert xs == init + [xs[|xs| - 1]];
      assert Keys(xs) == Keys(init) + {Lower(xs[|xs| - 1])};
    }
  }

  /** The de-duplication of a longer list extends that of its prefix, so
      assignment-derived mentors keep their places ahead of external ones. */
  lemma {:induction false} DedupPrefix(a: seq<string>, b: seq<string>)
    ensures Dedup(a) <= Dedup(a + b)
    decreases |b|
  {
    if b == [] {
      assert a + b == a;
    } else {
      var init := b[..|b| - 1];
      assert (a + b)[..|a + b| - 1] == a + init;
      DedupPrefix(a, init);
    }
  }

  /** De-duplication only drops entries. */
  lemma {:induction false} DedupSubset(xs: seq<string>)
    ensures forall x :: x in Dedup(xs) ==> x in xs
  {
    if xs != [] {
      var init := xs[..|xs| - 1];
      assert xs == init + [xs[|xs| - 1]];
      DedupSnoc(init, xs[|xs| - 1]);
      DedupSubset(init);
    }
  }

  /** Every merged mentor is stripped and non-blank. */
  lemma MergedClean(local: seq<string>, external: seq<string>)
    ensures forall x :: x in MergedMentors(local, external) ==> Strip(x) == x && !Blank(x)
  {
    CleanEmailsClean(local + external);
    DedupSubset(CleanEmails(local + external));
  }

  /** No two merged mentors differ only in case; every cleaned input's key
      is present, through the first entry that carries it. */
  lemma MergedUnique(local: seq<string>, external: seq<string>)
    ensures var m := MergedMentors(local, external);
      && (forall i, j :: 0 <= i < j < |m| ==> Lower(m[i]) != Lower(m[j]))
      && Keys(m) == Keys(CleanEmails(local + external))
      && (forall x :: x in m ==> FirstWithKey(CleanEmails(local + external), Lower(x)) == Some(x))
  {
    DedupProperties(CleanEmails(local + external));
  }

  /** The assignment-derived mentors come first, as merged on their own. */
  lemma MergedLocalFirst(local: seq<string>, external: seq<string>)
    ensures MergedMentors(local, []) <= MergedMentors(local, external)
  {
    CleanAppend(local, external);
    assert local + [] == local;
    DedupPrefix(CleanEmails(local), CleanEmails(external));
  }

  /** The merged list is empty, so that no slot is visible, exactly when
      every input is blank. */
  lemma MergedEmptyIff(local: seq<string>, external: seq<string>)
    ensures MergedMentors(local, external) == [] <==>
      forall i :: 0 <= i < |local + external| ==> Blank((local + external)[i])
  {
    var xs := local + external;
    var c := CleanEmails(xs);
    CleanEmailsFrom(xs);
    DedupProperties(c);
    if c != [] {
      assert Lower(c[0]) in Keys(c);
      assert CleanedFrom(xs, c[0]);
    }
    if i :| 0 <= i < |xs| && !Blank(xs[i]) {
      assert CleanedFrom(xs, Strip(xs[i]));
      assert Strip(xs[i]) in c;
    }
  }

  /** When the local list holds the assigned e-mails, every local mentor is
      the stripped form of an assigned faculty e-mail. */
  lemma LocalMentorsAssigned(t: Tables, student: UserId, local: seq<string>, x: string)
    requires (set e | e in local) == AssignedEmails(t, student)
    requires x in MergedMentors(local, [])
    ensures exists e :: e in AssignedEmails(t, student) && Strip(e) == x
  {
    assert local + [] == local;
    DedupSubset(CleanEmails(local));
    CleanEmailsFrom(local);
    var i :| 0 <= i < |local| && !Blank(local[i]) && Strip(local[i]) == x;
    assert local[i] in (set e | e in local);
  }

  /** An assigned faculty e-mail that is stripped, and that no other assigned
      e-mail matches case-insensitively, is a mentor of the merge. */
  lemma AssignedEmailMerged(t: Tables, student: UserId, local: seq<string>, external: seq<string>, e: string)
    requires (set e | e in local) == AssignedEmails(t, student)
    requires e in AssignedEmails(t, student) && !Blank(e) && Strip(e) == e
    requires forall e' :: e' in AssignedEmails(t, student) && Lower(Strip(e')) == Lower(e) ==> e' == e
    ensures e in MergedMentors(local, external)
  {
    UniqueKeyMerged(local, external, AssignedEmails(t, student), e);
  }

  lemma UniqueKeyMerged(local: seq<string>, external: seq<string>, a: set<string>, e: string)
    requires (set e | e in local) == a
    requires e in a && !Blank(e) && Strip(e) == e
    requires forall e' :: e' in a && Lower(Strip(e')) == Lower(e) ==> e' == e
    ensures e in MergedMentors(local, external)
  {
    assert local + [] == local;
    var c := CleanEmails(local);
    assert e in local by { assert e in (set e | e in local); }
    assert FirstWithKey(c, Lower(e)) == Some(e) by { FirstLocalKey(local, a, e); }
    assert e in Dedup(c) by {
      assert e in c by { CleanedIn(local, e); }
      assert Lower(e) in Keys(c);
      DedupProperties(c);
    }
    MergedLocalFirst(local, external);
  }

  lemma CleanedIn(xs: seq<string>, e: string)
    requires e in xs && !Blank(e) && Strip(e) == e
    ensures e in CleanEmails(xs)
  {
    var j :| 0 <= j < |xs| && xs[j] == e;
    assert CleanedFrom(xs, e);
    CleanEmailsFrom(xs);
  }

  lemma FirstLocalKey(local: seq<string>, a: set<string>, e: string)
    requires (set e | e in local) == a
    requires e in local && !Blank(e) && Strip(e) == e
    requires forall e' :: e' in a && Lower(Strip(e')) == Lower(e) ==> e' == e
    ensures FirstWithKey(CleanEmails(local), Lower(e)) == Some(e)
  {
    var c := CleanEmails(local);
    assert e in c by { CleanedIn(local, e); }
    assert Lower(e) in Keys(c);
    DedupProperties(c);
    KeyAbsent(c);
    var x := FirstWithKey(c, Lower(e)).value;
    assert x in c && Lower(x) == Lower(e);
    CleanEmailsFrom(local);
    var i :| 0 <= i < |local| && !Blank(local[i]) && Strip(local[i]) == x;
    assert local[i] in a by { assert local[i] in (set e | e in local); }
  }

  /** `get_queryset` shows the open, future, unbooked slots of an available
      faculty member the student is assigned to (by external id), provided
      the member's e-mail is stripped and no other assigned e-mail equals it
      up to case. */
  lemma AssignedFacultyVisible(t: Tables, student: UserId, local: seq<string>, external: seq<string>, now: int, s: SlotId)
    requires (set e | e in local) == AssignedEmails(t, student)
    requires s in t.slots && t.slots[s].faculty in t.users
    requires var u := t.users[t.slots[s].faculty];
      && u.role == "faculty" && u.pblUserId.Some? && u.pblUserId.value in AssignedTeacherIds(t, student)
      && !Blank(u.email) && Strip(u.email) == u.email
      && (forall e' :: e' in AssignedEmails(t, student) && Lower(Strip(e')) == Lower(u.email) ==> e' == u.email)
      && u.availableForBooking
    requires t.slots[s].isAvailable && t.slots[s].start > now && !SlotRules.HasBooking(t, s)
    ensures s in VisibleSlots(t, MergedMentors(local, external), now)
  {
    var f := t.slots[s].faculty;
    var e := t.users[f].email;
    assert e != "";
    assert e in AssignedEmails(t, student);
    AssignedEmailMerged(t, student, local, external, e);
  }

  /** `[str(e).strip() for e in emails if e and str(e).strip()]` */
  method CleanList(xs: seq<string>) returns (cleaned: seq<string>)
    ensures cleaned == CleanEmails(xs)
  {
    cleaned := [];
    for i := 0 to |xs|
      invariant cleaned == CleanEmails(xs[..i])
    {
      assert xs[..i + 1] == xs[..i] + [xs[i]];
      CleanSnoc(xs[..i], xs[i]);
      var e := xs[i];
      if !Blank(e) {
        cleaned := cleaned + [Strip(e)];
      }
    }
    assert xs[..|xs|] == xs;
  }

  /** The `seen`-set filter: keep an entry unless its lower-cased form was
      already seen. */
  method DedupList(xs: seq<string>) returns (kept: seq<string>)
    ensures kept == Dedup(xs)
  {
    var seen: set<string> := {};
    kept := [];
    for i := 0 to |xs|
      invariant kept == Dedup(xs[..i])
      invariant seen == Keys(kept)
    {
      assert xs[..i + 1] == xs[..i] + [xs[i]];
      DedupSnoc(xs[..i], xs[i]);
      KeysSnoc(kept, xs[i]);
      var e := xs[i];
      var key := Lower(e);
      if key !in seen {
        seen := seen + {key};
        kept := kept + [e];
      }
    }
    assert xs[..|xs|] == xs;
  }

  /** The merge of `get_queryset` and `teacher_status`. */
  method MergeMentorEmails(local: seq<string>, external: seq<string>) returns (merged: seq<string>)
    ensures merged == MergedMentors(local, external)
  {
    var cleaned := CleanList(local + external);
    merged := DedupList(cleaned);
  }

  // ---------------------------------------------------------------------
  // The visible slots

  /** `get_queryset`: nothing without a mentor; otherwise open future slots
      of a mentor (exact e-mail match) who is not busy, and that have no
      confirmed booking. */
  function VisibleSlots(t: Tables, mentors: seq<string>, now: int): set<SlotId> {
    if mentors == [] then {}
    else
      set s | s in t.slots && t.slots[s].faculty in t.users
                && t.users[t.slots[s].faculty].email in mentors
                && t.slots[s].isAvailable && t.slots[s].start > now
                && t.users[t.slots[s].faculty].availableForBooking
                && !SlotRules.HasBooking(t, s)
  }

  /** A visible slot is exactly one that passes the booking request's slot
      checks (present, open, ahead, not booked) and belongs to a listed
      mentor who is available. */
  lemma VisibleIff(t: Tables, mentors: seq<string>, now: int, s: SlotId)
    ensures s in VisibleSlots(t, mentors, now) <==>
      && s in t.slots
      && BookingRequests.ValidateSlotId(t, s, now).Pass?
      && t.slots[s].faculty in t.users
      && t.users[t.slots[s].faculty].email in mentors
      && t.users[t.slots[s].faculty].availableForBooking
  {
  }

  /** The mentor list as the booking check reads it: every entry present. */
  function Entries(ms: seq<string>): (r: seq<Option<string>>)
    ensures |r| == |ms| && forall i :: 0 <= i < |ms| ==> r[i] == Some(ms[i])
  {
    seq(|ms|, i requires 0 <= i < |ms| => Some(ms[i]))
  }

  /** A slot shown through the external mentor list alone also passes the
      booking request's mentor check against that list: the merge only
      strips and de-duplicates, and the check compares up to case and
      outer whitespace. */
  lemma VisibleExternalAuthorised(t: Tables, external: seq<string>, now: int, s: SlotId)
    requires s in VisibleSlots(t, MergedMentors([], external), now)
    ensures BookingRequests.ValidateSlotId(t, s, now).Pass?
    ensures BookingRequests.ValidateMentors(t, s, Entries(external)).Pass?
  {
    var e := t.users[t.slots[s].faculty].email;
    var i := ExternalSource(external, e);
    EntryAuthorises(t, s, Entries(external), i);
  }

  /** A merged e-mail of the external list alone is the stripped form of a
      non-blank entry of it. */
  lemma ExternalSource(external: seq<string>, e: string) returns (i: int)
    requires e in MergedMentors([], external)
    ensures 0 <= i < |external| && !Blank(external[i]) && Strip(external[i]) == e
  {
    assert [] + external == external;
    DedupSubset(CleanEmails(external));
    CleanEmailsFrom(external);
    i :| 0 <= i < |external| && !Blank(external[i]) && Strip(external[i]) == e;
  }

  /** An entry that strips to the faculty's e-mail authorises the slot. */
  lemma EntryAuthorises(t: Tables, s: SlotId, raw: seq<Option<string>>, i: int)
    requires s in t.slots && t.slots[s].faculty in t.users
    requires 0 <= i < |raw| && raw[i].Some? && !Blank(raw[i].value)
    requires Strip(raw[i].value) == t.users[t.slots[s].faculty].email
    ensures BookingRequests.ValidateMentors(t, s, raw).Pass?
  {
    var x := raw[i].value;
    var m := BookingRequests.Canon(x);
    assert BookingRequests.FacultyEmail(t, s) == m by {
      StripIdempotent(x);
    }
    assert m != "" by {
      BookingRequests.CanonShape(x);
    }
    assert m in BookingRequests.MentorSet(raw) by {
      assert BookingRequests.NamesMentor(raw, i, m);
      BookingRequests.MentorSetMembers(raw, m);
    }
  }

  /** The booking check reads only the external list, so a slot shown
      because of a local assignment alone is refused when the external
      list is empty. */
  lemma VisibleLocalOnlyRefused(t: Tables, local: seq<string>, now: int, s: SlotId)
    requires s in VisibleSlots(t, MergedMentors(local, []), now)
    ensures BookingRequests.ValidateSlotId(t, s, now).Pass?
    ensures BookingRequests.ValidateMentors(t, s, Entries([])) == Fail(BookingRequests.NoMentorsMessage)
  {
    assert BookingRequests.MentorSet(Entries([])) == {};
  }

  /** In consistent tables the confirmed-booking exclusion is implied by the
      availability filter. */
  lemma VisibleConsistent(t: Tables, mentors: seq<string>, now: int)
    requires Consistent(t)
    ensures VisibleSlots(t, mentors, now) ==
      if mentors == [] then {}
      else set s | s in t.slots && t.slots[s].faculty in t.users
                     && t.users[t.slots[s].faculty].email in mentors
                     && t.slots[s].isAvailable && t.slots[s].start > now
                     && t.users[t.slots[s].faculty].availableForBooking
  {
  }

  /** A busy mentor's slots are never shown. */
  lemma BusyMentorHidden(t: Tables, mentors: seq<string>, now: int, s: SlotId)
    requires s in t.slots && t.slots[s].faculty in t.users && !t.users[t.slots[s].faculty].availableForBooking
    ensures s !in VisibleSlots(t, mentors, now)
  {
  }

  /** `StudentSlotViewSet.list`: the visible slots, on the requested day
      when a valid date is given. */
  function StudentList(t: Tables, mentors: seq<string>, dateParam: string, now: int): set<SlotId> {
    var day := SlotViews.DateFilter(dateParam);
    set s | s in VisibleSlots(t, mentors, now)
              && (day.Some? ==> Midnight(day.value) <= t.slots[s].start < Midnight(day.value) + MinutesPerDay)
  }

  lemma StudentListIff(t: Tables, mentors: seq<string>, dateParam: string, now: int, s: SlotId)
    ensures s in StudentList(t, mentors, dateParam, now) <==>
      && s in VisibleSlots(t, mentors, now)
      && (ParseDate(dateParam).Some? ==> Day(t.slots[s].start) == DayNumber(ParseDate(dateParam).value))
  {
    if s in VisibleSlots(t, mentors, now) && ParseDate(dateParam).Some? {
      DayWindow(t.slots[s].start, DayNumber(ParseDate(dateParam).value));
    }
  }

  // ---------------------------------------------------------------------
  // teacher_status

  const MultipleFacultyMessage: string := "MultipleObjectsReturned: get() returned more than one User"

  datatype TeacherRow = TeacherRow(name: string, subject: Option<string>, isAvailable: bool)

  datatype TeacherStatus = NoMentor | Teachers(rows: seq<TeacherRow>, anyBusy: bool)

  function FacultyWithEmail(t: Tables, email: string): set<UserId> {
    set u | u in t.users && t.users[u].email == email && t.users[u].role == "faculty"
  }

  /** The distinct stored subjects of a faculty member's slots. */
  function RawSubjects(t: Tables, faculty: UserId): set<string> {
    set s | s in t.slots && t.slots[s].faculty == faculty :: t.slots[s].subject
  }

  lemma SingletonUnique<T>(s: set<T>)
    requires |s| == 1
    ensures forall x, y :: x in s && y in s ==> x == y
  {
    var x :| x in s;
    assert s == (s - {x}) + {x};
    assert s - {x} == {};
  }

  /** The member of a one-element set. */
  function Single<T>(s: set<T>): (x: T)
    requires |s| == 1
    ensures s == {x}
  {
    SingletonUnique(s);
    var x :| x in s;
    x
  }

  /** One entry of `teacher_statuses`: an unknown teacher counts as
      unavailable; a subject is reported only when all the teacher's slots
      carry the same one. `User.objects.get` raises when two faculty rows
      share the e-mail. */
  function StatusRow(t: Tables, email: string): Result<TeacherRow> {
    var found := FacultyWithEmail(t, email);
    if |found| == 0 then Ok(TeacherRow("Unknown", None, false))
    else if |found| > 1 then Err(MultipleFacultyMessage)
    else
      var u := Single(found);
      var subjects := RawSubjects(t, u);
      Ok(TeacherRow(t.users[u].name, if |subjects| == 1 then Some(Single(subjects)) else None, t.users[u].availableForBooking))
  }

  /** The rows for a list of mentors, failing at the first lookup that
      raises. */
  function StatusRows(t: Tables, mentors: seq<string>): Result<seq<TeacherRow>> {
    if mentors == [] then Ok([])
    else
      match StatusRows(t, mentors[..|mentors| - 1])
      case Err(e) => Err(e)
      case Ok(rows) =>
        match StatusRow(t, mentors[|mentors| - 1])
        case Err(e) => Err(e)
        case Ok(row) => Ok(rows + [row])
  }

  predicate AnyBusy(rows: seq<TeacherRow>) {
    exists i :: 0 <= i < |rows| && !rows[i].isAvailable
  }

  /** `teacher_status` */
  function TeacherStatusSpec(t: Tables, mentors: seq<string>): Result<TeacherStatus> {
    if mentors == [] then Ok(NoMentor)
    else
      match StatusRows(t, mentors)
      case Err(e) => Err(e)
      case Ok(rows) => Ok(Teachers(rows, AnyBusy(rows)))
  }

  /** One row per mentor, in order; the lookup fails exactly when some
      mentor's e-mail belongs to two faculty rows. */
  lemma {:induction false} StatusRowsProperties(t: Tables, mentors: seq<string>)
    ensures StatusRows(t, mentors).Ok? <==> forall i :: 0 <= i < |mentors| ==> |FacultyWithEmail(t, mentors[i])| <= 1
    ensures StatusRows(t, mentors).Ok? ==>
      && |StatusRows(t, mentors).value| == |mentors|
      && forall i :: 0 <= i < |mentors| ==> StatusRows(t, mentors).value[i] == StatusRow(t, mentors[i]).value
  {
    if mentors != [] {
      var init := mentors[..|mentors| - 1];
      StatusRowsProperties(t, init);
      assert forall i :: 0 <= i < |init| ==> init[i] == mentors[i];
    }
  }

  /** Some teacher counts as busy exactly when a mentor has no faculty row
      or its teacher is not available for booking. */
  lemma AnyBusyIff(t: Tables, mentors: seq<string>)
    requires mentors != [] && TeacherStatusSpec(t, mentors).Ok?
    ensures TeacherStatusSpec(t, mentors).value.Teachers?
    ensures TeacherStatusSpec(t, mentors).value.anyBusy <==>
      exists i :: 0 <= i < |mentors| &&
        (FacultyWithEmail(t, mentors[i]) == {} ||
         (|FacultyWithEmail(t, mentors[i])| == 1 && !t.users[Single(FacultyWithEmail(t, mentors[i]))].availableForBooking))
  {
    StatusRowsProperties(t, mentors);
    var rows := StatusRows(t, mentors).value;
    if AnyBusy(rows) {
      var i :| 0 <= i < |rows| && !rows[i].isAvailable;
      assert rows[i] == StatusRow(t, mentors[i]).value;
    }
  }

  /** `teacher_status`, over the merged mentor list. */
  method TeacherStatuses(db: Database, mentors: seq<string>) returns (r: Result<TeacherStatus>)
    ensures r == TeacherStatusSpec(db.State(), mentors)
  {
    if mentors == [] {
      return Ok(NoMentor);
    }
    var t := db.State();
    var rows: seq<TeacherRow> := [];
    for i := 0 to |mentors|
      invariant StatusRows(t, mentors[..i]) == Ok(rows)
    {
      assert mentors[..i + 1][..i] == mentors[..i];
      var email := mentors[i];
      var found := set u | u in db.users && db.users[u].email == email && db.users[u].role == "faculty";
      assert found == FacultyWithEmail(t, email);
      if |found| == 0 {
        rows := rows + [TeacherRow("Unknown", None, false)];
      } else if |found| > 1 {
        assert StatusRows(t, mentors[..i + 1]).Err?;
        StatusRowsErr(t, mentors, i + 1);
        return Err(MultipleFacultyMessage);
      } else {
        var teacher := Single(found);
        var subjects := set s | s in db.slots && db.slots[s].faculty == teacher :: db.slots[s].subject;
        var subject := if |subjects| == 1 then Some(Single(subjects)) else None;
        rows := rows + [TeacherRow(db.users[teacher].name, subject, db.users[teacher].availableForBooking)];
      }
    }
    assert mentors[..|mentors|] == mentors;
    var anyBusy := exists i :: 0 <= i < |rows| && !rows[i].isAvailable;
    r := Ok(Teachers(rows, anyBusy));
  }

  /** A failed prefix fails the whole list with the same error. */
  lemma {:induction false} StatusRowsErr(t: Tables, mentors: seq<string>, k: nat)
    requires k <= |mentors| && StatusRows(t, mentors[..k]).Err?
    ensures StatusRows(t, mentors) == StatusRows(t, mentors[..k])
    decreases |mentors| - k
  {
    if k < |mentors| {
      assert mentors[..k + 1][..k] == mentors[..k];
      StatusRowsErr(t, mentors, k + 1);
    } else {
      assert mentors[..k] == mentors;
    }
  }
}
