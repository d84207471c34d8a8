/** What a student's sign-on writes: the (subject, teacher) pairs found in
    the identity provider's payload are upserted as assignments, a payload
    that looks like a full snapshot prunes the rest, and the login itself
    never fails because of that sync. */
module SsoSync {
  import opened Wrappers
  import opened Text
  import opened Json
  import opened Tables
  import Sso

  /** A found (subject, teacher external id) pair. */
  type Pair = (string, string)

  const SelectedSubjectKeys: seq<string> := ["subject", "selectedSubject", "currentSubject", "subjectName"]
  const SelectedTeacherIdKeys: seq<string> :=
    ["teacherId", "teacher_id", "teacherExternalId", "mentorId", "mentor_id", "evaluatorId", "evaluator_id",
     "evaluatorExternalId", "facultyId"]
  const TeacherEmailKeys: seq<string> :=
    ["teacherEmail", "teacher_email", "mentorEmail", "mentor_email", "evaluatorEmail", "evaluator_email"]
  const ListKeys: seq<string> := ["assignments", "subjects", "courses", "modules", "studentSubjects", "teacherAssignments"]
  const ItemSubjectKeys: seq<string> := ["subject", "subjectName", "name", "title"]
  const ItemTeacherIdKeys: seq<string> :=
    ["teacher_external_id", "teacherExternalId", "teacherId", "mentorId", "mentor_id", "evaluatorExternalId",
     "evaluatorId", "evaluator_id", "facultyId"]
  const TeacherObjectKeys: seq<string> := ["teacher", "mentor", "evaluator"]
  const TeacherObjectIdKeys: seq<string> := ["id", "userId"]

  // ---------------------------------------------------------------------
  // Teacher resolution

  /** Local faculty rows whose e-mail matches case-insensitively and that
      carry a non-empty external id. */
  function FacultyByEmail(users: map<UserId, User>, email: string): (r: set<UserId>)
    ensures forall u :: u in r ==> u in users && users[u].pblUserId.Some? && users[u].pblUserId.value != ""
  {
    set u | u in users && users[u].role == "faculty" && Lower(users[u].email) == Lower(email)
              && users[u].pblUserId.Some? && users[u].pblUserId.value != ""
  }

  ghost predicate IsLeast(m: UserId, s: set<UserId>) {
    m in s && forall x :: x in s ==> m <= x
  }

  /** A non-empty set of ids has a least element. */
  lemma {:induction false} HasLeast(s: set<UserId>)
    requires s != {}
    ensures exists m :: IsLeast(m, s)
    decreases |s|
  {
    var y :| y in s;
    var rest := s - {y};
    if rest == {} {
      forall x | x in s
        ensures y <= x
      {
        assert x !in rest;
      }
      assert IsLeast(y, s);
    } else {
      HasLeast(rest);
      var m :| IsLeast(m, rest);
      var least := if y < m then y else m;
      forall x | x in s
        ensures least <= x
      {
        if x != y {
          assert x in rest;
        }
      }
      assert IsLeast(least, s);
    }
  }

  /** `.first()` on an unordered query: the row with the least key. */
  function Least(s: set<UserId>): (m: UserId)
    requires s != {}
    ensures m in s && forall x :: x in s ==> m <= x
  {
    HasLeast(s);
    var m :| m in s && forall x :: x in s ==> m <= x;
    m
  }

  /** `resolve_teacher_external_id`: a non-blank teacher id as given; else a
      non-blank e-mail, mapped to the external id of a local faculty user
      with that e-mail when there is one and kept as it is otherwise; ""
      when there is neither. */
  function ResolveTeacher(users: map<UserId, User>, teacherId: Value, teacherEmail: Value): string {
    var tid := Clean(teacherId);
    if tid != "" then tid
    else
      var email := Clean(teacherEmail);
      if email == "" then ""
      else
        var local := FacultyByEmail(users, email);
        if local == {} then email else users[Least(local)].pblUserId.value
  }

  /** The teacher-resolution rules: an id beats an e-mail, an e-mail goes
      through the local faculty, and nothing resolves to nothing. */
  lemma ResolveTeacherCases(users: map<UserId, User>, teacherId: Value, teacherEmail: Value)
    ensures var r := ResolveTeacher(users, teacherId, teacherEmail);
      var email := Clean(teacherEmail);
      && (Clean(teacherId) != "" ==> r == Clean(teacherId))
      && (Clean(teacherId) == "" && email == "" ==> r == "")
      && (Clean(teacherId) == "" && email != "" && FacultyByEmail(users, email) == {} ==> r == email)
      && (Clean(teacherId) == "" && email != "" && FacultyByEmail(users, email) != {} ==>
            exists u :: u in FacultyByEmail(users, email) && r == users[u].pblUserId.value)
      && (r == "" <==> Clean(teacherId) == "" && email == "")
  {
  }

  /** `upsert`'s filter: the pair it records, or `None` when the subject is
      blank or no teacher resolves. */
  function PairFor(users: map<UserId, User>, subject: Value, teacherId: Value, teacherEmail: Value): (r: Option<Pair>)
    ensures r.Some? <==> Clean(subject) != "" && ResolveTeacher(users, teacherId, teacherEmail) != ""
    ensures r.Some? ==> r.value == (Clean(subject), ResolveTeacher(users, teacherId, teacherEmail))
  {
    var subj := Clean(subject);
    if subj == "" then None
    else
      var ext := ResolveTeacher(users, teacherId, teacherEmail);
      if ext == "" then None else Some((subj, ext))
  }

  /** The selected-subject pair read straight off a payload. */
  function SelectedPair(users: map<UserId, User>, p: map<string, Value>): Option<Pair> {
    PairFor(users, OrChain(p, SelectedSubjectKeys), OrChain(p, SelectedTeacherIdKeys), OrChain(p, TeacherEmailKeys))
  }

  /** The pair of one list item: non-dict items give none; a nested
      teacher dict fills in an id or e-mail the item itself lacks. */
  function ItemPair(users: map<UserId, User>, item: Value): Option<Pair> {
    if !item.Object? then None
    else
      var d := item.fields;
      var tid := OrChain(d, ItemTeacherIdKeys);
      var email := OrChain(d, TeacherEmailKeys);
      var obj := OrChain(d, TeacherObjectKeys);
      var tid' := if obj.Object? && !Truthy(tid) then OrChain(obj.fields, TeacherObjectIdKeys) else tid;
      var email' := if obj.Object? && !Truthy(email) then Get(obj.fields, "email") else email;
      PairFor(users, OrChain(d, ItemSubjectKeys), tid', email')
  }

  // ---------------------------------------------------------------------
  // The sync as a fold

  /** The assignment rows, the pairs found so far, and whether a prune has
      happened (the last only for stating what a prune guarantees). */
  datatype SyncState = SyncState(rows: map<(UserId, string), string>, found: set<Pair>, pruned: bool)

  function Subjects(found: set<Pair>): set<string> {
    set pr | pr in found :: pr.0
  }

  /** `create_or_update_assignment` for a found pair, an upsert keyed on
      (student, subject). */
  function Upsert(st: SyncState, student: UserId, p: Option<Pair>): SyncState {
    if p.None? then st
    else st.(rows := st.rows[(student, p.value.0) := p.value.1], found := st.found + {p.value})
  }

  /** The snapshot prune: with two or more distinct subjects found, the
      student's rows for any other subject are deleted. */
  function Prune(st: SyncState, student: UserId): SyncState {
    if |Subjects(st.found)| >= 2 then
      st.(rows := map k | k in st.rows && (k.0 != student || k.1 in Subjects(st.found)) :: st.rows[k], pruned := true)
    else st
  }

  /** The pair each item of a list names, item by item. */
  function ItemPairs(users: map<UserId, User>, items: seq<Value>): (r: seq<Option<Pair>>)
    ensures |r| == |items|
  {
    seq(|items|, k requires 0 <= k < |items| => ItemPair(users, items[k]))
  }

  /** Upserting a run of pairs, in order. */
  function UpsertAll(st: SyncState, student: UserId, ps: seq<Option<Pair>>): SyncState
    decreases |ps|
  {
    if ps == [] then st
    else Upsert(UpsertAll(st, student, ps[..|ps| - 1]), student, ps[|ps| - 1])
  }

  /** The items of one list, in order. */
  function UpsertItems(users: map<UserId, User>, st: SyncState, student: UserId, items: seq<Value>): SyncState {
    UpsertAll(st, student, ItemPairs(users, items))
  }

  /** One list key of a payload: skipped unless it holds a list; after its
      items the prune is considered. */
  function ListStep(users: map<UserId, User>, st: SyncState, student: UserId, p: map<string, Value>, key: string): SyncState {
    var items := Get(p, key);
    if !items.List? then st else Prune(UpsertItems(users, st, student, items.items), student)
  }

  /** The list keys of a payload, in order. */
  function KeysStep(users: map<UserId, User>, st: SyncState, student: UserId, p: map<string, Value>, keys: seq<string>): SyncState
    decreases |keys|
  {
    if keys == [] then st
    else ListStep(users, KeysStep(users, st, student, p, keys[..|keys| - 1]), student, p, keys[|keys| - 1])
  }

  /** One payload: its selected pair, then its lists. */
  function PayloadStep(users: map<UserId, User>, st: SyncState, student: UserId, p: map<string, Value>): SyncState {
    KeysStep(users, Upsert(st, student, SelectedPair(users, p)), student, p, ListKeys)
  }

  /** The payloads, in order. */
  function PayloadsStep(users: map<UserId, User>, st: SyncState, student: UserId, ps: seq<map<string, Value>>): SyncState
    decreases |ps|
  {
    if ps == [] then st
    else PayloadStep(users, PayloadsStep(users, st, student, ps[..|ps| - 1]), student, ps[|ps| - 1])
  }

  /** The payloads looked at: the whole one, then a nested `user` dict. */
  function Payloads(raw: map<string, Value>): (r: seq<map<string, Value>>)
    ensures 1 <= |r| <= 2 && r[0] == raw
  {
    var u := Get(raw, "user");
    [raw] + if u.Object? then [u.fields] else []
  }

  /** `_sync_student_assignments`: nothing for a payload that is not a
      dict. */
  function SyncSpec(t: Tables, student: UserId, raw: Value): SyncState {
    var init := SyncState(t.assignments, {}, false);
    if !raw.Object? then init else PayloadsStep(t.users, init, student, Payloads(raw.fields))
  }

  // ---------------------------------------------------------------------
  // What every step keeps

  /** Rows of other students are exactly as they were. */
  ghost predicate SameOthers(rows: map<(UserId, string), string>, rows0: map<(UserId, string), string>, student: UserId) {
    && (forall k :: k in rows && k.0 != student ==> k in rows0 && rows[k] == rows0[k])
    && (forall k :: k in rows0 && k.0 != student ==> k in rows)
  }

  /** The sync invariant against the rows `rows0` it started from. */
  ghost predicate Good(st: SyncState, rows0: map<(UserId, string), string>, student: UserId) {
    && SameOthers(st.rows, rows0, student)
    // every found subject has a row whose teacher is one found for it
    && (forall pr :: pr in st.found ==> (student, pr.0) in st.rows && (pr.0, st.rows[(student, pr.0)]) in st.found)
    // after a prune the student's rows are all for found subjects
    && (st.pruned ==> forall k :: k in st.rows && k.0 == student ==> k.1 in Subjects(st.found))
    // without a prune the student's other rows are untouched
    && (!st.pruned ==> forall k: (UserId, string) :: k.0 == student && k.1 !in Subjects(st.found) ==>
          (k in st.rows <==> k in rows0) && (k in rows0 ==> st.rows[k] == rows0[k]))
  }

  lemma SubjectsOfAdd(found: set<Pair>, p: Pair)
    ensures Subjects(found + {p}) == Subjects(found) + {p.0}
  {
  }

  lemma UpsertGood(st: SyncState, rows0: map<(UserId, string), string>, student: UserId, p: Option<Pair>)
    requires Good(st, rows0, student)
    ensures Good(Upsert(st, student, p), rows0, student)
    ensures st.found <= Upsert(st, student, p).found && Upsert(st, student, p).pruned == st.pruned
  {
    if p.Some? {
      SubjectsOfAdd(st.found, p.value);
    }
  }

  lemma PruneGood(st: SyncState, rows0: map<(UserId, string), string>, student: UserId)
    requires Good(st, rows0, student)
    ensures Good(Prune(st, student), rows0, student)
    ensures Prune(st, student).found == st.found && (st.pruned ==> Prune(st, student).pruned)
  {
    if |Subjects(st.found)| >= 2 {
      var st' := Prune(st, student);
      forall pr | pr in st.found
        ensures (student, pr.0) in st'.rows
      {
        assert pr.0 in Subjects(st.found);
      }
    }
  }

  lemma {:induction false} UpsertAllGood(st: SyncState, rows0: map<(UserId, string), string>,
                                         student: UserId, ps: seq<Option<Pair>>)
    requires Good(st, rows0, student)
    ensures Good(UpsertAll(st, student, ps), rows0, student)
    ensures st.found <= UpsertAll(st, student, ps).found
    ensures UpsertAll(st, student, ps).pruned == st.pruned
    decreases |ps|
  {
    if ps != [] {
      UpsertAllGood(st, rows0, student, ps[..|ps| - 1]);
      UpsertGood(UpsertAll(st, student, ps[..|ps| - 1]), rows0, student, ps[|ps| - 1]);
    }
  }

  lemma ListStepGood(users: map<UserId, User>, st: SyncState, rows0: map<(UserId, string), string>, student: UserId,
                     p: map<string, Value>, key: string)
    requires Good(st, rows0, student)
    ensures Good(ListStep(users, st, student, p, key), rows0, student)
    ensures st.found <= ListStep(users, st, student, p, key).found
    ensures st.pruned ==> ListStep(users, st, student, p, key).pruned
  {
    var items := Get(p, key);
    if items.List? {
      UpsertAllGood(st, rows0, student, ItemPairs(users, items.items));
      PruneGood(UpsertItems(users, st, student, items.items), rows0, student);
    }
  }

  lemma {:induction false} KeysStepGood(users: map<UserId, User>, st: SyncState, rows0: map<(UserId, string), string>,
                                        student: UserId, p: map<string, Value>, keys: seq<string>)
    requires Good(st, rows0, student)
    ensures Good(KeysStep(users, st, student, p, keys), rows0, student)
    ensures st.found <= KeysStep(users, st, student, p, keys).found
    ensures st.pruned ==> KeysStep(users, st, student, p, keys).pruned
    decreases |keys|
  {
    if keys != [] {
      KeysStepGood(users, st, rows0, student, p, keys[..|keys| - 1]);
      ListStepGood(users, KeysStep(users, st, student, p, keys[..|keys| - 1]), rows0, student, p, keys[|keys| - 1]);
    }
  }

  lemma {:induction false} PayloadsStepGood(users: map<UserId, User>, st: SyncState, rows0: map<(UserId, string), string>,
                                            student: UserId, ps: seq<map<string, Value>>)
    requires Good(st, rows0, student)
    ensures Good(PayloadsStep(users, st, student, ps), rows0, student)
    ensures st.found <= PayloadsStep(users, st, student, ps).found
    decreases |ps|
  {
    if ps != [] {
      var prev := PayloadsStep(users, st, student, ps[..|ps| - 1]);
      PayloadsStepGood(users, st, rows0, student, ps[..|ps| - 1]);
      var p := ps[|ps| - 1];
      UpsertGood(prev, rows0, student, SelectedPair(users, p));
      KeysStepGood(users, Upsert(prev, student, SelectedPair(users, p)), rows0, student, p, ListKeys);
    }
  }

  /** What a sync guarantees: other students' rows are untouched; every
      found subject ends up with a row for one of the teachers found for
      it; after a snapshot prune the student has rows only for found
      subjects, and without one no other row of the student changed. */
  lemma SyncProperties(t: Tables, student: UserId, raw: Value)
    ensures var st := SyncSpec(t, student, raw);
      && SameOthers(st.rows, t.assignments, student)
      && (forall pr :: pr in st.found ==> (student, pr.0) in st.rows && (pr.0, st.rows[(student, pr.0)]) in st.found)
      && (st.pruned ==> forall k :: k in st.rows && k.0 == student ==> k.1 in Subjects(st.found))
      && (!st.pruned ==> forall k: (UserId, string) :: k.0 == student && k.1 !in Subjects(st.found) ==>
            (k in st.rows <==> k in t.assignments) && (k in t.assignments ==> st.rows[k] == t.assignments[k]))
  {
    var init := SyncState(t.assignments, {}, false);
    assert Good(init, t.assignments, student);
    if raw.Object? {
      PayloadsStepGood(t.users, init, t.assignments, student, Payloads(raw.fields));
    }
  }

  /** A payload that is not a dict changes nothing. */
  lemma NonDictPayloadUnchanged(t: Tables, student: UserId, raw: Value)
    requires !raw.Object?
    ensures SyncSpec(t, student, raw).rows == t.assignments
    ensures SyncSpec(t, student, raw).found == {}
  {
  }

  /** The last upsert of a subject decides its teacher. */
  lemma UpsertLastWins(st: SyncState, student: UserId, p: Pair)
    ensures Upsert(st, student, Some(p)).rows[(student, p.0)] == p.1
    ensures p in Upsert(st, student, Some(p)).found
  {
  }

  // ---------------------------------------------------------------------
  // The sync as the source runs it

  /** One found pair written through. */
  method UpsertPair(db: Database, student: UserId, p: Option<Pair>, found: set<Pair>) returns (found': set<Pair>)
    modifies db
    ensures db.users == old(db.users)
    ensures db.slots == old(db.slots) && db.bookings == old(db.bookings) && db.permissions == old(db.permissions)
    ensures var st := Upsert(SyncState(old(db.assignments), found, false), student, p);
      db.assignments == st.rows && found' == st.found
  {
    found' := found;
    if p.Some? {
      db.assignments := db.assignments[(student, p.value.0) := p.value.1];
      found' := found + {p.value};
    }
  }

  /** The upserts of one list's pairs, in order. */
  method UpsertPairs(db: Database, student: UserId, ps: seq<Option<Pair>>, found: set<Pair>, ghost pruned: bool)
    returns (found': set<Pair>)
    modifies db
    ensures db.users == old(db.users)
    ensures db.slots == old(db.slots) && db.bookings == old(db.bookings) && db.permissions == old(db.permissions)
    ensures SyncState(db.assignments, found', pruned) == UpsertAll(SyncState(old(db.assignments), found, pruned), student, ps)
  {
    found' := found;
    ghost var st0 := SyncState(db.assignments, found, pruned);
    var j := 0;
    while j < |ps|
      invariant 0 <= j <= |ps|
      invariant db.users == old(db.users)
      invariant db.slots == old(db.slots) && db.bookings == old(db.bookings) && db.permissions == old(db.permissions)
      invariant SyncState(db.assignments, found', pruned) == UpsertAll(st0, student, ps[..j])
    {
      assert ps[..j + 1][..j] == ps[..j];
      found' := UpsertPair(db, student, ps[j], found');
      j := j + 1;
    }
    assert ps[..j] == ps;
  }

  /** One list key: its items, then the prune check. */
  method SyncList(db: Database, student: UserId, p: map<string, Value>, key: string, found: set<Pair>, ghost pruned: bool)
    returns (found': set<Pair>, ghost pruned': bool)
    modifies db
    ensures db.users == old(db.users)
    ensures db.slots == old(db.slots) && db.bookings == old(db.bookings) && db.permissions == old(db.permissions)
    ensures SyncState(db.assignments, found', pruned') == ListStep(db.users, SyncState(old(db.assignments), found, pruned), student, p, key)
  {
    found', pruned' := found, pruned;
    var items := Get(p, key);
    if !items.List? {
      return;
    }
    found' := UpsertPairs(db, student, ItemPairs(db.users, items.items), found, pruned);
    var subjects := set pr | pr in found' :: pr.0;
    if |subjects| >= 2 {
      db.assignments := map k | k in db.assignments && (k.0 != student || k.1 in subjects) :: db.assignments[k];
      pruned' := true;
    }
  }

  /** The list keys of one payload, in order. */
  method SyncKeys(db: Database, student: UserId, p: map<string, Value>, keys: seq<string>, found: set<Pair>, ghost pruned: bool)
    returns (found': set<Pair>, ghost pruned': bool)
    modifies db
    ensures db.users == old(db.users)
    ensures db.slots == old(db.slots) && db.bookings == old(db.bookings) && db.permissions == old(db.permissions)
    ensures SyncState(db.assignments, found', pruned') == KeysStep(db.users, SyncState(old(db.assignments), found, pruned), student, p, keys)
  {
    found', pruned' := found, pruned;
    ghost var st0 := SyncState(db.assignments, found, pruned);
    var k := 0;
    while k < |keys|
      invariant 0 <= k <= |keys|
      invariant db.users == old(db.users)
      invariant db.slots == old(db.slots) && db.bookings == old(db.bookings) && db.permissions == old(db.permissions)
      invariant SyncState(db.assignments, found', pruned') == KeysStep(db.users, st0, student, p, keys[..k])
    {
      assert keys[..k + 1][..k] == keys[..k];
      found', pruned' := SyncList(db, student, p, keys[k], found', pruned');
      k := k + 1;
    }
    assert keys[..k] == keys;
  }

  /** One payload: its selected pair, then each list key. */
  method SyncPayload(db: Database, student: UserId, p: map<string, Value>, found: set<Pair>, ghost pruned: bool)
    returns (found': set<Pair>, ghost pruned': bool)
    modifies db
    ensures db.users == old(db.users)
    ensures db.slots == old(db.slots) && db.bookings == old(db.bookings) && db.permissions == old(db.permissions)
    ensures SyncState(db.assignments, found', pruned') == PayloadStep(db.users, SyncState(old(db.assignments), found, pruned), student, p)
  {
    found' := UpsertPair(db, student, SelectedPair(db.users, p), found);
    found', pruned' := SyncKeys(db, student, p, ListKeys, found', pruned);
  }

  /** `_sync_student_assignments` against the live tables. */
  method SyncStudentAssignments(db: Database, student: UserId, raw: Value)
    modifies db
    ensures db.State() == old(db.State()).(assignments := SyncSpec(old(db.State()), student, raw).rows)
  {
    if !raw.Object? {
      return;
    }
    var payloads := Payloads(raw.fields);
    ghost var st0 := SyncState(db.assignments, {}, false);
    var found: set<Pair> := {};
    ghost var pruned := false;
    var i := 0;
    while i < |payloads|
      invariant 0 <= i <= |payloads|
      invariant db.users == old(db.users)
      invariant db.slots == old(db.slots) && db.bookings == old(db.bookings) && db.permissions == old(db.permissions)
      invariant SyncState(db.assignments, found, pruned) == PayloadsStep(db.users, st0, student, payloads[..i])
    {
      assert payloads[..i + 1][..i] == payloads[..i];
      found, pruned := SyncPayload(db, student, payloads[i], found, pruned);
      i := i + 1;
    }
    assert payloads[..i] == payloads;
  }

  // ---------------------------------------------------------------------
  // get_or_create_user

  const MultipleUsersMessage: string := "MultipleObjectsReturned: several users share this e-mail"

  /** The fields the login flow writes, and the payload the sync reads. */
  datatype LoginData = LoginData(pblUserId: string, email: string, name: string, role: string, payload: Value)

  /** The login data of an accepted verify response: the name as the
      column stores it, and the whole response (or, when that is empty,
      the user payload) for the sync. */
  function FromVerified(v: Sso.Verified): LoginData {
    LoginData(v.pblUserId, v.email, Repr(v.name), v.role,
              if v.raw != map[] then Object(v.raw) else Object(v.rawUser))
  }

  /** A mock identity carries no payload, so its sync does nothing. */
  function FromMock(m: Sso.Identity): LoginData {
    LoginData(m.pblUserId, m.email, m.name, m.role, Null)
  }

  function UsersWithEmail(t: Tables, email: string): set<UserId> {
    set u | u in t.users && t.users[u].email == email
  }

  /** `update_or_create` keyed on the e-mail. */
  function UpsertUser(t: Tables, data: LoginData, freshId: UserId): (r: Result<(Tables, UserId)>)
    requires freshId !in t.users
    ensures r.Ok? ==> r.value.0.assignments == t.assignments && r.value.1 in r.value.0.users
  {
    var found := UsersWithEmail(t, data.email);
    if |found| > 1 then Err(MultipleUsersMessage)
    else if |found| == 1 then
      var u := Least(found);
      Ok((t.(users := t.users[u := t.users[u].(name := data.name, role := data.role, pblUserId := Some(data.pblUserId))]), u))
    else
      var row := User(data.email, data.name, data.role, Some(data.pblUserId), "", true);
      Ok((t.(users := t.users[freshId := row]), freshId))
  }

  /** `get_or_create_user`: the user row is written, then a student's
      assignments are synced. `syncRaises` says whether the sync raised;
      that exception is caught and logged, and the model then keeps the
      assignments as they were. */
  function LoginSpec(t: Tables, data: LoginData, freshId: UserId, syncRaises: bool): Result<(Tables, UserId)>
    requires freshId !in t.users
  {
    var up := UpsertUser(t, data, freshId);
    if up.Err? then up
    else
      var (t', u) := up.value;
      if t'.users[u].role != Sso.Student || syncRaises then up
      else Ok((t'.(assignments := SyncSpec(t', u, data.payload).rows), u))
  }

  /** The login row is the e-mail's row, carrying the given name, role and
      external id. */
  lemma LoginWritesUser(t: Tables, data: LoginData, freshId: UserId, syncRaises: bool)
    requires freshId !in t.users
    requires LoginSpec(t, data, freshId, syncRaises).Ok?
    ensures var (t', u) := LoginSpec(t, data, freshId, syncRaises).value;
      && u in t'.users && t'.users[u].email == data.email
      && t'.users[u].name == data.name && t'.users[u].role == data.role
      && t'.users[u].pblUserId == Some(data.pblUserId)
      && (u in t.users ==> UsersWithEmail(t, data.email) == {u})
      && (u !in t.users ==> u == freshId && UsersWithEmail(t, data.email) == {})
  {
    var found := UsersWithEmail(t, data.email);
    if |found| == 1 {
      var u := Least(found);
      assert found == (found - {u}) + {u};
      assert found - {u} == {};
    }
  }

  /** A failing sync never fails the login: with or without the exception
      the same user comes back with the same user table. */
  lemma SyncErrorSwallowed(t: Tables, data: LoginData, freshId: UserId)
    requires freshId !in t.users
    ensures LoginSpec(t, data, freshId, true).Ok? <==> LoginSpec(t, data, freshId, false).Ok?
    ensures LoginSpec(t, data, freshId, true).Ok? ==>
      && LoginSpec(t, data, freshId, true).value.1 == LoginSpec(t, data, freshId, false).value.1
      && LoginSpec(t, data, freshId, true).value.0.users == LoginSpec(t, data, freshId, false).value.0.users
  {
  }

  /** Only students are synced; a faculty login writes no assignment. */
  lemma FacultyLoginNoSync(t: Tables, data: LoginData, freshId: UserId, syncRaises: bool)
    requires freshId !in t.users && data.role != Sso.Student
    requires LoginSpec(t, data, freshId, syncRaises).Ok?
    ensures LoginSpec(t, data, freshId, syncRaises).value.0.assignments == t.assignments
  {
    LoginWritesUser(t, data, freshId, syncRaises);
  }

  /** `get_or_create_user` against the live tables. */
  method GetOrCreateUser(db: Database, data: LoginData, freshId: UserId, syncRaises: bool) returns (r: Result<UserId>)
    requires freshId !in db.users
    modifies db
    ensures var spec := LoginSpec(old(db.State()), data, freshId, syncRaises);
      && (r.Ok? <==> spec.Ok?)
      && (spec.Ok? ==> db.State() == spec.value.0 && r.value == spec.value.1)
      && (spec.Err? ==> db.State() == old(db.State()) && r == Err(spec.error))
  {
    var up := UpsertUser(db.State(), data, freshId);
    if up.Err? {
      return Err(up.error);
    }
    var (t', u) := up.value;
    db.users := t'.users;
    if db.users[u].role == Sso.Student && !syncRaises {
      SyncStudentAssignments(db, u, data.payload);
    }
    return Ok(u);
  }
}
