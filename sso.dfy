/** Reading identities out of single sign-on: the role normaliser, the
    development mock tokens and the token format that builds them, and the
    checks applied to the identity provider's verify response. */
module Sso {
  import opened Wrappers
  import opened Text
  import opened Json

  const Student: string := "student"
  const Faculty: string := "faculty"

  // ---------------------------------------------------------------------
  // _normalize_role

  const FlagKeys: seq<string> := ["is_faculty", "isFaculty", "is_teacher", "isTeacher", "is_mentor", "isMentor"]
  const FacultyRoles: set<string> := {"faculty", "teacher", "mentor", "staff"}
  const StudentRoles: set<string> := {"student", "learner", "user"}
  const AttributeErrorMessage: string := "AttributeError: 'strip' on a non-string role"

  /** Some faculty flag holds exactly `True` (a truthy non-boolean does not
      count). */
  predicate AnyFacultyFlag(u: map<string, Value>) {
    exists i :: 0 <= i < |FlagKeys| && Get(u, FlagKeys[i]) == Bool(true)
  }

  /** `role or type or ''`: the value the role is read from. */
  function RoleValue(u: map<string, Value>): Value {
    if Truthy(Get(u, "role")) then Get(u, "role")
    else if Truthy(Get(u, "type")) then Get(u, "type")
    else Str("")
  }

  /** `(role or type or '').strip().lower()`; a truthy value that is not a
      string has no `strip` and raises. */
  function RawRole(u: map<string, Value>): Result<string> {
    var v := RoleValue(u);
    if v.Str? then Ok(Lower(Strip(v.s))) else Err(AttributeErrorMessage)
  }

  /** The role word as compared: trimmed and lower-case. */
  lemma RawRoleClean(u: map<string, Value>)
    requires RawRole(u).Ok?
    ensures Strip(RawRole(u).value) == RawRole(u).value && NoUpper(RawRole(u).value)
  {
    LowerStripClean(RoleValue(u).s);
  }

  /** The decision on a role word, given whether a faculty flag is set. */
  function RoleOf(flag: bool, raw: string): (r: Option<string>)
    ensures r in {None, Some(Faculty), Some(Student)}
  {
    if flag then Some(Faculty)
    else if raw in FacultyRoles then Some(Faculty)
    else if raw in StudentRoles then Some(Student)
    else if raw == "" then Some(Student)
    else None
  }

  /** `_normalize_role`: the internal role of a partner user payload, or
      `None` for a role the backend does not support. The flags are looked
      at only once the role word has been read, so a non-string role
      raises even when a flag is set. */
  function NormalizeRole(u: map<string, Value>): (r: Result<Option<string>>)
    ensures r.Ok? ==> r.value in {None, Some(Faculty), Some(Student)}
    ensures r.Err? <==> !RoleValue(u).Str?
  {
    var raw := RawRole(u);
    if raw.Err? then Err(raw.error)
    else Ok(RoleOf(AnyFacultyFlag(u), raw.value))
  }

  /** A faculty flag set to `True` makes the user faculty whatever the
      role says. */
  lemma FlagWins(u: map<string, Value>)
    requires AnyFacultyFlag(u) && RoleValue(u).Str?
    ensures NormalizeRole(u) == Ok(Some(Faculty))
  {
  }

  /** Without a flag the trimmed, lower-cased role decides: the four staff
      words give faculty, the three learner words and a missing role give
      student, anything else is unsupported. */
  lemma RoleTable(flag: bool, raw: string)
    requires !flag
    ensures raw in FacultyRoles ==> RoleOf(flag, raw) == Some(Faculty)
    ensures raw in StudentRoles || raw == "" ==> RoleOf(flag, raw) == Some(Student)
    ensures raw !in FacultyRoles && raw !in StudentRoles && raw != "" ==> RoleOf(flag, raw) == None
  {
  }

  /** The role match ignores case and outer whitespace: " Teacher " reads
      as "teacher". */
  lemma RoleIgnoresCase(u: map<string, Value>, s: string)
    requires Get(u, "role") == Str(s) && s != ""
    ensures NormalizeRole(u) == Ok(RoleOf(AnyFacultyFlag(u), Lower(Strip(s))))
  {
  }

  /** A payload with neither a role nor a type defaults to student. */
  lemma MissingRoleIsStudent(u: map<string, Value>)
    requires !AnyFacultyFlag(u) && "role" !in u && "type" !in u
    ensures NormalizeRole(u) == Ok(Some(Student))
  {
    var e: string := "";
    assert RoleValue(u) == Str(e);
    assert RawRole(u) == Ok(e) by {
      assert Strip(e) == e;
      assert Lower(e) == e;
    }
    assert RoleOf(false, e) == Some(Student);
  }

  // ---------------------------------------------------------------------
  // Mock tokens

  /** The identity a verifier hands to the login flow. */
  datatype Identity = Identity(pblUserId: string, roll: Option<string>, email: string, name: string, role: string)

  const MockPrefix: string := "mock_"

  /** `role.title()` for a one-word role: its first letter upper-cased. */
  function Capitalize(s: string): (r: string)
    ensures |r| == |s|
  {
    if s == [] then []
    else [if 'a' <= s[0] <= 'z' then (s[0] as int - 32) as char else s[0]] + s[1..]
  }

  /** The identity the shortened tokens `mock_student` and `mock_faculty`
      stand for. */
  function DefaultMockIdentity(role: string): Identity {
    Identity(
      MockPrefix + role + "_001",
      if role == Student then Some(MockPrefix + role + "_roll_001") else None,
      "mock." + role + "@example.com",
      "Mock " + Capitalize(role),
      role)
  }

  /** `_mock_verify`: a token is `mock_<role>` or
      `mock_<role>_<id>_<email>_<name>`, split on `_` at most four times so
      that the name keeps any further underscores; every other shape, and
      every role but the two supported ones, is refused. */
  function MockVerify(token: string): (r: Option<Identity>)
    ensures r.Some? ==> StartsWith(token, MockPrefix) && r.value.role in {Student, Faculty}
    ensures r.Some? ==> (r.value.roll.Some? <==> r.value.role == Student)
  {
    if !StartsWith(token, MockPrefix) then None
    else
      var parts := SplitN(token, '_', 4);
      if |parts| == 2 then
        var role := parts[1];
        if role != Student && role != Faculty then None
        else Some(DefaultMockIdentity(role))
      else if |parts| >= 5 then
        var role := parts[1];
        var userId := parts[2];
        if role != Student && role != Faculty then None
        else Some(Identity(userId,
                           if role == Student then Some("mock_student_roll_" + userId) else None,
                           parts[3], Join("_", parts[4..]), role))
      else None
  }

  /** The token built by the mock endpoint. */
  function MockToken(role: string, userId: string, email: string, name: string): string {
    Join("_", ["mock", role, userId, email, name])
  }

  /** Splitting at a first separator peels off the part before it. */
  lemma SplitPeel(a: string, rest: string, sep: char, maxsplit: nat)
    requires !Contains(a, sep) && maxsplit >= 1
    ensures SplitN(a + [sep] + rest, sep, maxsplit) == [a] + SplitN(rest, sep, maxsplit - 1)
  {
    var s := a + [sep] + rest;
    assert s[|a|] == sep;
    assert forall i :: 0 <= i < |a| ==> s[i] == a[i];
    assert IndexOf(s, sep) == |a|;
    assert s[..|a|] == a;
    assert s[|a| + 1..] == rest;
  }

  /** `sep.join` of two or more parts: the first, the separator, and the
      join of the rest. */
  lemma JoinCons(sep: string, p: string, rest: seq<string>)
    requires rest != []
    ensures Join(sep, [p] + rest) == p + sep + Join(sep, rest)
  {
    assert ([p] + rest)[1..] == rest;
  }

  /** Four underscore-free fields and any name: the parts of the token. */
  lemma MockTokenParts(role: string, userId: string, email: string, name: string)
    requires !Contains(role, '_') && !Contains(userId, '_') && !Contains(email, '_')
    ensures SplitN(MockToken(role, userId, email, name), '_', 4) == ["mock", role, userId, email, name]
  {
    assert Join("_", [name]) == name;
    JoinCons("_", email, [name]);
    assert [email] + [name] == [email, name];
    JoinCons("_", userId, [email, name]);
    assert [userId] + [email, name] == [userId, email, name];
    JoinCons("_", role, [userId, email, name]);
    assert [role] + [userId, email, name] == [role, userId, email, name];
    JoinCons("_", "mock", [role, userId, email, name]);
    assert ["mock"] + [role, userId, email, name] == ["mock", role, userId, email, name];
    assert !Contains("mock", '_') by {
      assert forall i :: 0 <= i < 4 ==> "mock"[i] != '_';
    }
    SplitPeel("mock", Join("_", [role, userId, email, name]), '_', 4);
    SplitPeel(role, Join("_", [userId, email, name]), '_', 3);
    SplitPeel(userId, Join("_", [email, name]), '_', 2);
    SplitPeel(email, name, '_', 1);
  }

  /** The mock round trip: a token built from a supported role and an id
      and e-mail without underscores parses back to exactly those fields,
      whatever the name, with a roll number only for students. */
  lemma MockRoundTrip(role: string, userId: string, email: string, name: string)
    requires role == Student || role == Faculty
    requires !Contains(userId, '_') && !Contains(email, '_')
    ensures MockVerify(MockToken(role, userId, email, name)) ==
      Some(Identity(userId, if role == Student then Some("mock_student_roll_" + userId) else None, email, name, role))
  {
    assert !Contains(role, '_') by {
      assert forall i :: 0 <= i < |role| ==> role[i] != '_';
    }
    MockTokenParts(role, userId, email, name);
    var token := MockToken(role, userId, email, name);
    assert token[..5] == MockPrefix;
  }

  /** A string without the separator is not split at all. */
  lemma SplitNone(s: string, sep: char, maxsplit: nat)
    requires !Contains(s, sep)
    ensures SplitN(s, sep, maxsplit) == [s]
  {
    assert IndexOf(s, sep) == |s|;
  }

  /** Shortened tokens for the two roles give their default identities. */
  lemma MockShortToken(role: string)
    requires role == Student || role == Faculty
    ensures MockVerify(MockPrefix + role) == Some(DefaultMockIdentity(role))
  {
    assert !Contains(role, '_') by {
      assert forall i :: 0 <= i < |role| ==> role[i] != '_';
    }
    ShortTokenSplit(role);
  }

  /** `mock_<w>` for a word `w` without `_` splits into the prefix word and
      `w`. */
  lemma ShortTokenSplit(w: string)
    requires !Contains(w, '_')
    ensures StartsWith(MockPrefix + w, MockPrefix)
    ensures SplitN(MockPrefix + w, '_', 4) == ["mock", w]
  {
    var m := "mock";
    assert !Contains(m, '_') by {
      assert forall i :: 0 <= i < 4 ==> m[i] != '_';
    }
    var token := MockPrefix + w;
    assert token == m + "_" + w;
    SplitPeel(m, w, '_', 4);
    SplitNone(w, '_', 3);
    assert token[..5] == MockPrefix;
  }

  /** A token without the prefix, or with three or four parts, is refused. */
  lemma MockRejects(token: string)
    ensures !StartsWith(token, MockPrefix) ==> MockVerify(token).None?
    ensures |SplitN(token, '_', 4)| in {3, 4} ==> MockVerify(token).None?
  {
  }

  // ---------------------------------------------------------------------
  // The mock token endpoint

  const InvalidRoleMessage: string := "Invalid role. Must be student or faculty"

  /** The default id the endpoint puts in a token when none is given. */
  function DefaultUserId(role: string): string {
    role + "_001"
  }

  /** The mock token endpoint: each query parameter falls back to a default
      derived from the role, and only the two supported roles get a
      token. */
  function MockTokenRequest(role: Option<string>, email: Option<string>, name: Option<string>, userId: Option<string>): (r: Result<string>)
    ensures r.Ok? <==> role.None? || role.value in {Student, Faculty}
  {
    var ro := if role.Some? then role.value else Student;
    if ro != Student && ro != Faculty then Err(InvalidRoleMessage)
    else
      var e := if email.Some? then email.value else "test." + ro + "@example.com";
      var n := if name.Some? then name.value else "Test " + Capitalize(ro);
      var u := if userId.Some? then userId.value else DefaultUserId(ro);
      Ok(MockToken(ro, u, e, n))
  }

  /** The token spelled out as the endpoint's format string writes it. */
  lemma MockTokenText(role: string, userId: string, email: string, name: string)
    ensures MockToken(role, userId, email, name) == "mock" + "_" + role + "_" + userId + "_" + email + "_" + name
  {
    assert Join("_", [name]) == name;
    JoinCons("_", email, [name]);
    assert [email] + [name] == [email, name];
    JoinCons("_", userId, [email, name]);
    assert [userId] + [email, name] == [userId, email, name];
    JoinCons("_", role, [userId, email, name]);
    assert [role] + [userId, email, name] == [role, userId, email, name];
    JoinCons("_", "mock", [role, userId, email, name]);
    assert ["mock"] + [role, userId, email, name] == ["mock", role, userId, email, name];
  }

  /** An id of the form `<role>_<d>` cannot survive the token: the parser
      takes the role word as the id, `d` as the e-mail, and pushes the
      e-mail into the name. */
  lemma UnderscoreIdMisparsed(role: string, d: string, email: string, name: string)
    requires role == Student || role == Faculty
    requires !Contains(d, '_') && !Contains(email, '_')
    ensures MockVerify(MockToken(role, role + "_" + d, email, name)) ==
      Some(Identity(role, if role == Student then Some("mock_student_roll_" + role) else None, d, email + "_" + name, role))
  {
    MockTokenText(role, role + "_" + d, email, name);
    MockTokenText(role, role, d, email + "_" + name);
    assert MockToken(role, role + "_" + d, email, name) == MockToken(role, role, d, email + "_" + name);
    assert !Contains(role, '_') by {
      assert forall i :: 0 <= i < |role| ==> role[i] != '_';
    }
    MockRoundTrip(role, role, d, email + "_" + name);
  }

  /** Without a role parameter the endpoint issues a student token. */
  lemma DefaultRoleIsStudent(email: Option<string>, name: Option<string>, userId: Option<string>)
    ensures MockTokenRequest(None, email, name, userId) == MockTokenRequest(Some(Student), email, name, userId)
  {
  }

  /** The endpoint's own default id, `<role>_001`, contains `_`, so a token
      issued with the default id does not parse back to it: the id comes
      back as the role word, the e-mail as "001", and the e-mail lands in
      the name. */
  lemma DefaultTokenMisparsed(role: string, email: Option<string>, name: Option<string>)
    requires role == Student || role == Faculty
    requires email.Some? ==> !Contains(email.value, '_')
    ensures var e := if email.Some? then email.value else "test." + role + "@example.com";
      var n := if name.Some? then name.value else "Test " + Capitalize(role);
      && MockTokenRequest(Some(role), email, name, None) == Ok(MockToken(role, role + "_" + "001", e, n))
      && MockVerify(MockTokenRequest(Some(role), email, name, None).value) ==
           Some(Identity(role, if role == Student then Some("mock_student_roll_" + role) else None, "001", e + "_" + n, role))
      && MockVerify(MockTokenRequest(Some(role), email, name, None).value).value.pblUserId != DefaultUserId(role)
  {
    assert DefaultUserId(role) == role + "_" + "001";
    var e := if email.Some? then email.value else "test." + role + "@example.com";
    if email.None? {
      assert forall i :: 0 <= i < |e| ==> e[i] != '_';
    }
    assert !Contains("001", '_') by {
      assert forall i :: 0 <= i < 3 ==> "001"[i] != '_';
    }
    var n := if name.Some? then name.value else "Test " + Capitalize(role);
    UnderscoreIdMisparsed(role, "001", e, n);
  }

  /** A default id that keeps to the token's alphabet. */
  function FixedDefaultUserId(role: string): (r: string)
    ensures role == Student || role == Faculty ==> !Contains(r, '_')
  {
    var r := role + "-001";
    assert role == Student || role == Faculty ==> forall i :: 0 <= i < |r| ==> r[i] != '_';
    r
  }

  /** The endpoint with a default id free of `_`. */
  function FixedMockTokenRequest(role: Option<string>, email: Option<string>, name: Option<string>, userId: Option<string>): (r: Result<string>)
    ensures r.Ok? <==> role.None? || role.value in {Student, Faculty}
  {
    var ro := if role.Some? then role.value else Student;
    if ro != Student && ro != Faculty then Err(InvalidRoleMessage)
    else
      var e := if email.Some? then email.value else "test." + ro + "@example.com";
      var n := if name.Some? then name.value else "Test " + Capitalize(ro);
      var u := if userId.Some? then userId.value else FixedDefaultUserId(ro);
      Ok(MockToken(ro, u, e, n))
  }

  /** With that default every token the endpoint issues, defaults included,
      parses back to the role, id, e-mail and name it was built from, as
      long as a given id or e-mail has no `_` of its own. */
  lemma FixedTokenRoundTrip(role: Option<string>, email: Option<string>, name: Option<string>, userId: Option<string>)
    requires FixedMockTokenRequest(role, email, name, userId).Ok?
    requires email.Some? ==> !Contains(email.value, '_')
    requires userId.Some? ==> !Contains(userId.value, '_')
    ensures var ro := if role.Some? then role.value else Student;
      var u := if userId.Some? then userId.value else FixedDefaultUserId(ro);
      var e := if email.Some? then email.value else "test." + ro + "@example.com";
      var n := if name.Some? then name.value else "Test " + Capitalize(ro);
      MockVerify(FixedMockTokenRequest(role, email, name, userId).value) ==
        Some(Identity(u, if ro == Student then Some("mock_student_roll_" + u) else None, e, n, ro))
  {
    var ro := if role.Some? then role.value else Student;
    var e := if email.Some? then email.value else "test." + ro + "@example.com";
    if email.None? {
      assert forall i :: 0 <= i < |e| ==> e[i] != '_';
    }
    var u := if userId.Some? then userId.value else FixedDefaultUserId(ro);
    var n := if name.Some? then name.value else "Test " + Capitalize(ro);
    MockRoundTrip(ro, u, e, n);
  }
  // ---------------------------------------------------------------------
  // The verify response (`_real_verify` after the HTTP call)

  const RollKeys: seq<string> := ["universityRollNumber", "university_roll_number", "universityRollNo",
                                  "university_roll_no", "rollNumber", "roll_number", "universityRoll"]
  const NonDictBodyMessage: string := "AttributeError: 'get' on a non-dict response body"
  const NonStringEmailMessage: string := "AttributeError: 'strip' on a non-string email"

  /** An accepted verify response: the identity fields, the name as the
      payload gave it (any truthy value), and the user and top-level
      payloads kept for the assignment sync. */
  datatype Verified = Verified(
    pblUserId: string,
    email: string,
    name: Value,
    role: string,
    roll: Option<string>,
    rawUser: map<string, Value>,
    raw: map<string, Value>)

  /** The user payload: the nested `user` dict when it is a non-empty dict,
      else the top-level payload itself. */
  function UserPayload(data: map<string, Value>): (r: map<string, Value>)
    ensures r == data || (Get(data, "user").Object? && r == Get(data, "user").fields && r != map[])
  {
    var u := Get(data, "user");
    if u.Object? && u.fields != map[] then u.fields else data
  }

  /** `str(roll).strip() if roll is not None else ''` for the roll alias
      chain of one payload. */
  function RollOf(d: map<string, Value>): (r: string)
    ensures Strip(r) == r
  {
    CleanStripped(OrChain(d, RollKeys));
    Clean(OrChain(d, RollKeys))
  }

  /** The roll number: the user payload's aliases first, then the same
      aliases at top level; blank means none. */
  function Roll(user: map<string, Value>, data: map<string, Value>): (r: Option<string>)
    ensures r.Some? ==> r.value != "" && Strip(r.value) == r.value
  {
    var own := RollOf(user);
    var s := if own != "" then own else RollOf(data);
    if s == "" then None else Some(s)
  }

  /** The checks on a decoded verify response. `Ok(None)` is a refusal;
      `Err` is an exception the method does not catch (a body that is not
      a dict, or an e-mail or role value that is not a string). */
  function ParseVerifyResponse(body: Value): (r: Result<Option<Verified>>)
  {
    if !body.Object? then Err(NonDictBodyMessage)
    else
      var data := body.fields;
      if !Truthy(Get(data, "valid")) then Ok(None)
      else
        ParseUser(data, UserPayload(data))
  }

  /** The checks on the user payload of a valid response. */
  function ParseUser(data: map<string, Value>, user: map<string, Value>): (r: Result<Option<Verified>>)
  {
    if "id" !in user || "email" !in user then Ok(None)
    else
      var rawEmail := if Truthy(Get(user, "email")) then Get(user, "email") else Str("");
      if !rawEmail.Str? then Err(NonStringEmailMessage)
      else
        var email := Strip(rawEmail.s);
        var extId := if Truthy(Get(user, "id")) then Get(user, "id") else Str("");
        if email == "" || Blank(Repr(extId)) then Ok(None)
        else
          var role := NormalizeRole(user);
          if role.Err? then Err(role.error)
          else if role.value.None? then Ok(None)
          else
            var name := if Truthy(Get(user, "name")) then Get(user, "name") else Str(BeforeFirst(email, '@'));
            Ok(Some(Verified(Repr(user["id"]), email, name, role.value.value, Roll(user, data), user, data)))
  }

  /** When a response is accepted: the body is a dict with a truthy
      `valid`, and its user payload carries an `id` that is not blank and a
      non-blank string e-mail, and a role that normalises. */
  lemma AcceptedIff(body: Value)
    ensures ParseVerifyResponse(body).Ok? && ParseVerifyResponse(body).value.Some? <==>
      && body.Object?
      && Truthy(Get(body.fields, "valid"))
      && Accepts(UserPayload(body.fields))
  {
    if body.Object? && Truthy(Get(body.fields, "valid")) {
      UserAcceptedIff(body.fields, UserPayload(body.fields));
    }
  }

  /** The conditions a user payload must meet to be accepted. */
  predicate Accepts(user: map<string, Value>) {
    && "id" in user && "email" in user
    && Get(user, "email").Str? && !Blank(Get(user, "email").s)
    && Truthy(user["id"]) && !Blank(Repr(user["id"]))
    && NormalizeRole(user).Ok? && NormalizeRole(user).value.Some?
  }

  lemma UserAcceptedIff(data: map<string, Value>, user: map<string, Value>)
    ensures ParseUser(data, user).Ok? && ParseUser(data, user).value.Some? <==> Accepts(user)
  {
    if "id" in user && "email" in user {
      var ev := Get(user, "email");
      var iv := Get(user, "id");
      var rawEmail := if Truthy(ev) then ev else Str("");
      var extId := if Truthy(iv) then iv else Str("");
      assert Repr(Str("")) == "" && Strip("") == "";
      assert iv == user["id"];
      var checks := rawEmail.Str? && Strip(rawEmail.s) != "" && !Blank(Repr(extId));
      assert checks <==> ev.Str? && !Blank(ev.s) && Truthy(iv) && !Blank(Repr(iv));
      if checks {
        var role := NormalizeRole(user);
        assert ParseUser(data, user).Ok? && ParseUser(data, user).value.Some? <==> role.Ok? && role.value.Some?;
      } else if rawEmail.Str? {
        assert ParseUser(data, user) == Ok(None);
      }
    }
  }

  /** What an accepted response yields: the untrimmed `str` of the id, the
      stripped e-mail, a supported role, the e-mail's local part as the
      name when the payload's name is missing or empty, and the user
      payload (nested or top-level) that the fields came from. */
  lemma AcceptedShape(body: Value)
    requires ParseVerifyResponse(body).Ok? && ParseVerifyResponse(body).value.Some?
    ensures var v := ParseVerifyResponse(body).value.value;
      && body.Object? && v.raw == body.fields
      && v.rawUser == UserPayload(body.fields)
      && v.pblUserId == Repr(v.rawUser["id"])
      && v.email == Strip(Get(v.rawUser, "email").s) && v.email != ""
      && v.role in {Student, Faculty}
      && (!Truthy(Get(v.rawUser, "name")) ==> v.name == Str(BeforeFirst(v.email, '@')))
      && (Truthy(Get(v.rawUser, "name")) ==> v.name == v.rawUser["name"])
      && v.roll == Roll(v.rawUser, v.raw)
  {
  }

  /** A roll number given on the user payload beats one at top level. */
  lemma RollPrefersUser(user: map<string, Value>, data: map<string, Value>)
    requires RollOf(user) != ""
    ensures Roll(user, data) == Some(RollOf(user))
  {
  }

  /** A payload without a nested user dict is read at top level. */
  lemma TopLevelFallback(data: map<string, Value>)
    requires !Get(data, "user").Object? || Get(data, "user").fields == map[]
    ensures UserPayload(data) == data
  {
  }
}
