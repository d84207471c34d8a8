/** The student profile assembled from the external project-based-learning
    service: mentor e-mails and a group (team) id. The HTTP responses, the
    local roster lookup and the service mode are inputs; the rules that
    pick the student record, clean the mentor list and choose the group
    source are modelled. */
module PblExternal {
  import opened Wrappers
  import opened Text
  import opened Json

  const MockTeamPrefix: string := "mock_team_"
  const MaxGroupIdLength: nat := 255
  const NonDictResponseMessage: string := "AttributeError: 'get' on a non-dict response"
  const NonStringEmailMessage: string := "AttributeError: 'strip' on a non-string student email"

  /** The comparison form of an e-mail: `(email or '').strip().lower()`. */
  function NormEmail(email: string): string {
    Lower(Strip(email))
  }

  // ---------------------------------------------------------------------
  // _mock_group_id

  /** A character `_mock_group_id` keeps as it is. */
  predicate SafeChar(c: char) {
    c != '@' && c != '.' && c != '+' && c != '-'
  }

  /** The e-mail with `@`, `.`, `+` and `-` each replaced by `_`. */
  function SafeChars(s: string): (r: string)
    ensures |r| == |s|
    ensures forall i :: 0 <= i < |r| ==> SafeChar(r[i])
  {
    ReplaceChar(ReplaceChar(ReplaceChar(ReplaceChar(s, '@', '_'), '.', '_'), '+', '_'), '-', '_')
  }

  /** `_mock_group_id`: a readable, stable team id derived from the e-mail,
      cut to the column's 255 characters. */
  function MockGroupId(email: string): (r: string)
    ensures |r| <= MaxGroupIdLength
    ensures var full := MockTeamPrefix + SafeChars(NormEmail(email));
      r == full[..if |full| <= MaxGroupIdLength then |full| else MaxGroupIdLength]
  {
    var full := MockTeamPrefix + SafeChars(NormEmail(email));
    if |full| <= MaxGroupIdLength then full else full[..MaxGroupIdLength]
  }

  /** The id always starts with the mock prefix, never holds one of the
      four replaced characters, and is the whole unshortened form when that
      fits. */
  lemma MockGroupIdShape(email: string)
    ensures StartsWith(MockGroupId(email), MockTeamPrefix)
    ensures forall i :: 0 <= i < |MockGroupId(email)| ==> SafeChar(MockGroupId(email)[i])
    ensures |MockTeamPrefix| + |NormEmail(email)| <= MaxGroupIdLength ==>
      MockGroupId(email) == MockTeamPrefix + SafeChars(NormEmail(email))
  {
    var p := MockTeamPrefix;
    assert forall i :: 0 <= i < |p| ==> SafeChar(p[i]);
    PrefixedShape(p, SafeChars(NormEmail(email)), MaxGroupIdLength);
  }

  /** `(p + s)[:n]` for a prefix no longer than `n`. */
  lemma PrefixedShape(p: string, s: string, n: nat)
    requires |p| <= n
    requires forall i :: 0 <= i < |p| ==> SafeChar(p[i])
    requires forall i :: 0 <= i < |s| ==> SafeChar(s[i])
    ensures var full := p + s;
      var r := full[..if |full| <= n then |full| else n];
      StartsWith(r, p) && forall i :: 0 <= i < |r| ==> SafeChar(r[i])
  {
    var full := p + s;
    assert forall i :: 0 <= i < |full| ==> full[i] == if i < |p| then p[i] else s[i - |p|];
    var r := full[..if |full| <= n then |full| else n];
    assert r[..|p|] == p;
  }

  /** The id does not depend on letter case or outer whitespace. */
  lemma MockGroupIdCanonical(email: string)
    ensures MockGroupId(Lower(email)) == MockGroupId(email)
    ensures MockGroupId(Strip(email)) == MockGroupId(email)
    ensures MockGroupId(NormEmail(email)) == MockGroupId(email)
  {
    NormEmailCanonical(email);
    SameNormSameId(Lower(email), email);
    SameNormSameId(Strip(email), email);
    SameNormSameId(NormEmail(email), email);
  }

  lemma SameNormSameId(a: string, b: string)
    requires NormEmail(a) == NormEmail(b)
    ensures MockGroupId(a) == MockGroupId(b)
  {
  }

  /** The normalised e-mail is a fixed point of normalisation and ignores
      letter case and outer whitespace. */
  lemma NormEmailCanonical(email: string)
    ensures NormEmail(Lower(email)) == NormEmail(email)
    ensures NormEmail(Strip(email)) == NormEmail(email)
    ensures NormEmail(NormEmail(email)) == NormEmail(email)
  {
    var t := Strip(email);
    calc {
      NormEmail(Lower(email));
      Lower(Strip(Lower(email)));
      { LowerStrip(email); }
      Lower(Lower(t));
      { LowerIdempotent(t); }
      Lower(t);
    }
    StripIdempotent(email);
    calc {
      NormEmail(Lower(t));
      Lower(Strip(Lower(t)));
      { LowerStripClean(email); }
      Lower(Lower(t));
      { LowerIdempotent(t); }
      Lower(t);
    }
  }

  // ---------------------------------------------------------------------
  // Response guards

  /** `_get_json(...) or {}`: a failed call or an empty body reads as `{}`. */
  function BodyOr(response: Option<Value>): Value {
    if response.Some? && Truthy(response.value) then response.value else Object(map[])
  }

  /** `data.get(key)` on that body; a truthy body that is not a dict has no
      `get` and raises. */
  function BodyGet(response: Option<Value>, key: string): (r: Result<Value>)
    ensures r.Err? <==> !BodyOr(response).Object?
  {
    var data := BodyOr(response);
    if data.Object? then Ok(Get(data.fields, key)) else Err(NonDictResponseMessage)
  }

  /** The list held under `key`, or [] when it holds anything else. */
  function ListField(response: Option<Value>, key: string): (r: Result<seq<Value>>)
    ensures r.Err? <==> BodyGet(response, key).Err?
    ensures r.Ok? && BodyGet(response, key).value.List? ==> r.value == BodyGet(response, key).value.items
    ensures r.Ok? && !BodyGet(response, key).value.List? ==> r.value == []
  {
    var v := BodyGet(response, key);
    if v.Err? then Err(v.error)
    else if v.value.List? then Ok(v.value.items)
    else Ok([])
  }

  /** `get_students` outside mock mode. */
  function GetStudents(response: Option<Value>): Result<seq<Value>> {
    ListField(response, "students")
  }

  /** `get_faculty` outside mock mode. */
  function GetFaculty(response: Option<Value>): Result<seq<Value>> {
    ListField(response, "faculty")
  }

  /** A failed call, an empty body, or a field that is not a list all give
      the empty list. */
  lemma ListGuards(response: Option<Value>, key: string)
    ensures response.None? ==> ListField(response, key) == Ok([])
    ensures response.Some? && response.value.Object? && !Get(response.value.fields, key).List? ==>
      ListField(response, key) == Ok([])
  {
  }

  /** `get_team_by_email`: nothing for a blank e-mail; the mock team in mock
      mode; otherwise the `team` dict of the response when it is one. */
  function GetTeamByEmail(mock: bool, email: string, response: Option<Value>): (r: Result<Option<map<string, Value>>>)
    ensures NormEmail(email) == "" ==> r == Ok(None)
    ensures NormEmail(email) != "" && mock ==> r == Ok(Some(map["teamId" := Str(MockGroupId(NormEmail(email)))]))
  {
    var norm := NormEmail(email);
    if norm == "" then Ok(None)
    else if mock then Ok(Some(map["teamId" := Str(MockGroupId(norm))]))
    else
      var team := BodyGet(response, "team");
      if team.Err? then Err(team.error)
      else if team.value.Object? then Ok(Some(team.value.fields))
      else Ok(None)
  }

  /** In mock mode the team id is the mock group id of the e-mail as
      given. */
  lemma MockTeamId(email: string, response: Option<Value>)
    requires NormEmail(email) != ""
    ensures GetTeamByEmail(true, email, response) == Ok(Some(map["teamId" := Str(MockGroupId(email))]))
  {
    MockGroupIdCanonical(email);
  }

  // ---------------------------------------------------------------------
  // Matching the student record

  /** `(s.get('email') or '').strip().lower()` of one record; a truthy
      non-string e-mail raises. */
  function RecordEmail(s: map<string, Value>): Result<string> {
    var v := Get(s, "email");
    if !Truthy(v) then Ok("")
    else if v.Str? then Ok(NormEmail(v.s))
    else Err(NonStringEmailMessage)
  }

  /** Whether record `s` is a dict whose e-mail reads as `norm`. */
  predicate Matches(s: Value, norm: string) {
    s.Object? && RecordEmail(s.fields) == Ok(norm)
  }

  /** Record `i` matches and none before it does. */
  ghost predicate FirstMatchAt(students: seq<Value>, norm: string, i: int) {
    0 <= i < |students| && Matches(students[i], norm) && forall j :: 0 <= j < i ==> !Matches(students[j], norm)
  }

  /** The search loop: the first dict whose normalised e-mail equals
      `norm`, skipping non-dicts, stopping at a record whose e-mail
      raises. */
  function FirstMatch(students: seq<Value>, norm: string): Result<Option<map<string, Value>>>
    decreases |students|
  {
    if students == [] then Ok(None)
    else
      var s := students[0];
      if !s.Object? then FirstMatch(students[1..], norm)
      else
        var e := RecordEmail(s.fields);
        if e.Err? then Err(e.error)
        else if e.value == norm then Ok(Some(s.fields))
        else FirstMatch(students[1..], norm)
  }

  /** A match is the first matching record, and no earlier record
      matches; no match means no record matches. */
  lemma {:induction false} FirstMatchFirst(students: seq<Value>, norm: string)
    ensures var r := FirstMatch(students, norm);
      && (r.Ok? && r.value.Some? ==> exists i :: FirstMatchAt(students, norm, i) && students[i] == Object(r.value.value))
      && (r.Ok? && r.value.None? ==> forall j :: 0 <= j < |students| ==> !Matches(students[j], norm))
    decreases |students|
  {
    if students != [] {
      var s := students[0];
      var rest := students[1..];
      FirstMatchFirst(rest, norm);
      if !s.Object? || (RecordEmail(s.fields).Ok? && RecordEmail(s.fields).value != norm) {
        assert FirstMatch(students, norm) == FirstMatch(rest, norm);
        MatchShift(students, norm);
      } else if RecordEmail(s.fields).Ok? {
        assert FirstMatchAt(students, norm, 0);
      }
    }
  }

  /** Past a first record that does not match, positions shift by one. */
  lemma MatchShift(students: seq<Value>, norm: string)
    requires students != [] && !Matches(students[0], norm)
    ensures forall i :: FirstMatchAt(students[1..], norm, i) ==> FirstMatchAt(students, norm, i + 1)
    ensures (forall j :: 0 <= j < |students[1..]| ==> !Matches(students[1..][j], norm)) ==>
      forall j :: 0 <= j < |students| ==> !Matches(students[j], norm)
  {
    var rest := students[1..];
    assert forall j :: 0 <= j < |rest| ==> rest[j] == students[j + 1];
    forall i | FirstMatchAt(rest, norm, i)
      ensures FirstMatchAt(students, norm, i + 1)
    {
      forall j | 0 <= j < i + 1
        ensures !Matches(students[j], norm)
      {
        if j > 0 {
          assert students[j] == rest[j - 1];
        }
      }
    }
    if forall j :: 0 <= j < |rest| ==> !Matches(rest[j], norm) {
      forall j | 0 <= j < |students|
        ensures !Matches(students[j], norm)
      {
        if j > 0 {
          assert students[j] == rest[j - 1];
        }
      }
    }
  }

  /** The search loop as written, with its early exit. */
  method FindStudent(students: seq<Value>, norm: string) returns (r: Result<Option<map<string, Value>>>)
    ensures r == FirstMatch(students, norm)
  {
    var i := 0;
    while i < |students|
      invariant 0 <= i <= |students|
      invariant FirstMatch(students, norm) == FirstMatch(students[i..], norm)
    {
      assert students[i..][1..] == students[i + 1..];
      var s := students[i];
      if s.Object? {
        var e := RecordEmail(s.fields);
        if e.Err? {
          return Err(e.error);
        }
        if e.value == norm {
          return Ok(Some(s.fields));
        }
      }
      i := i + 1;
    }
    return Ok(None);
  }

  // ---------------------------------------------------------------------
  // Mentor list

  /** `str(x).strip() if x else ''` for one entry; "" means dropped. */
  function Kept(x: Value): string {
    if Truthy(x) then Strip(Repr(x)) else ""
  }

  lemma KeptStripped(x: Value)
    ensures Strip(Kept(x)) == Kept(x)
  {
    if Truthy(x) {
      StripIdempotent(Repr(x));
    }
  }

  /** The entries of `ss` that are not empty, in order. */
  function NonEmpty(ss: seq<string>): (r: seq<string>)
    ensures |r| <= |ss|
  {
    if ss == [] then []
    else (if ss[0] != "" then [ss[0]] else []) + NonEmpty(ss[1..])
  }

  /** Each entry of the list through `Kept`. */
  function KeptAll(xs: seq<Value>): (r: seq<string>)
    ensures |r| == |xs|
  {
    seq(|xs|, k requires 0 <= k < |xs| => Kept(xs[k]))
  }

  /** `[str(x).strip() for x in xs if x and str(x).strip()]` */
  function CleanMentors(xs: seq<Value>): (r: seq<string>)
    ensures |r| <= |xs|
  {
    NonEmpty(KeptAll(xs))
  }

  lemma {:induction false} NonEmptyAppend(a: seq<string>, b: seq<string>)
    ensures NonEmpty(a + b) == NonEmpty(a) + NonEmpty(b)
  {
    if a == [] {
      assert a + b == b;
    } else {
      assert (a + b)[0] == a[0];
      assert (a + b)[1..] == a[1..] + b;
      NonEmptyAppend(a[1..], b);
    }
  }

  lemma {:induction false} NonEmptyFrom(ss: seq<string>)
    ensures forall s :: s in NonEmpty(ss) ==> s != "" && s in ss
  {
    if ss != [] {
      NonEmptyFrom(ss[1..]);
    }
  }

  lemma KeptAllAppend(xs: seq<Value>, ys: seq<Value>)
    ensures KeptAll(xs + ys) == KeptAll(xs) + KeptAll(ys)
  {
    var l, a, b := KeptAll(xs + ys), KeptAll(xs), KeptAll(ys);
    forall k | 0 <= k < |l| ensures l[k] == (a + b)[k] {
      if k < |xs| {
        assert (xs + ys)[k] == xs[k];
      } else {
        assert (xs + ys)[k] == ys[k - |xs|];
      }
    }
  }

  /** Cleaning works entry by entry: the cleaned parts of a split list
      concatenate. */
  lemma CleanMentorsAppend(xs: seq<Value>, ys: seq<Value>)
    ensures CleanMentors(xs + ys) == CleanMentors(xs) + CleanMentors(ys)
  {
    KeptAllAppend(xs, ys);
    NonEmptyAppend(KeptAll(xs), KeptAll(ys));
  }

  lemma KeptAllStripped(xs: seq<Value>)
    ensures forall t :: t in KeptAll(xs) ==> Strip(t) == t
  {
    var ss := KeptAll(xs);
    forall t | t in ss ensures Strip(t) == t {
      var k :| 0 <= k < |ss| && ss[k] == t;
      KeptStripped(xs[k]);
    }
  }

  /** Every cleaned entry is non-blank and already stripped. */
  lemma CleanMentorsClean(xs: seq<Value>)
    ensures forall s :: s in CleanMentors(xs) ==> s != "" && Strip(s) == s
  {
    NonEmptyFrom(KeptAll(xs));
    KeptAllStripped(xs);
  }

  lemma KeptAllOne(x: Value)
    ensures KeptAll([x]) == [Kept(x)]
  {
  }

  lemma NonEmptyOne(t: string)
    ensures NonEmpty([t]) == if t == "" then [] else [t]
  {
    assert [t][1..] == [];
  }

  /** One string entry is kept, stripped, exactly when it is not blank. */
  lemma CleanMentorsOne(s: string)
    ensures CleanMentors([Str(s)]) == if Blank(s) then [] else [Strip(s)]
  {
    KeptAllOne(Str(s));
    NonEmptyOne(Kept(Str(s)));
    if s == "" {
      assert Strip(s) == "";
    }
  }

  /** `mentorEmails or mentor_emails or []`, cleaned when it is a list. */
  function MentorEmails(record: map<string, Value>): seq<string> {
    var v := if Truthy(Get(record, "mentorEmails")) then Get(record, "mentorEmails")
             else if Truthy(Get(record, "mentor_emails")) then Get(record, "mentor_emails")
             else List([]);
    if v.List? then CleanMentors(v.items) else []
  }

  // ---------------------------------------------------------------------
  // Group id

  /** What the local roster lookup returns for the e-mail. */
  datatype LocalInfo = LocalInfo(groupId: Option<string>, isLeader: Option<bool>, sourceTable: string)

  /** The three values `try_local` and `try_external` assign. */
  datatype Group = Group(groupId: Option<string>, isLeader: Option<bool>, source: Option<string>)

  const NoGroup: Group := Group(None, None, None)

  /** `if group_id:` */
  predicate IdSet(g: Option<string>) {
    g.Some? && g.value != ""
  }

  /** `try_local`: only while no id is set; a found roster row supplies id,
      leader flag and source. A failing lookup is passed in as `None`,
      because the exception is swallowed. */
  function TryLocal(g: Group, info: Option<LocalInfo>): Group {
    if IdSet(g.groupId) || info.None? then g
    else Group(info.value.groupId, info.value.isLeader, Some("local:" + info.value.sourceTable))
  }

  /** The team id `try_external` reads from a team dict. */
  function TeamId(team: Option<map<string, Value>>): string {
    var d := if team.Some? then team.value else map[];
    var v := OrChain(d, ["teamId", "team_id", "_id"]);
    if Truthy(v) then Strip(Repr(v)) else ""
  }

  /** `try_external`: only while no id is set; a non-blank team id is taken
      with source "external". An error of the team call is not caught. */
  function TryExternal(g: Group, team: Result<Option<map<string, Value>>>): Result<Group> {
    if IdSet(g.groupId) then Ok(g)
    else if team.Err? then Err(team.error)
    else
      var id := TeamId(team.value);
      if id != "" then Ok(g.(groupId := Some(id), source := Some("external"))) else Ok(g)
  }

  datatype Source = Local | External

  /** The sources in the order `GROUP_ID_SOURCE` asks for; an empty or
      unknown setting means external, then local. */
  function SourceOrder(setting: string): (r: seq<Source>)
    ensures 1 <= |r| <= 2
    ensures |r| == 2 ==> r[0] != r[1]
  {
    var pref := Lower(Strip(setting));
    if pref == "local" then [Local]
    else if pref == "external" then [External]
    else if pref == "local_then_external" then [Local, External]
    else [External, Local]
  }

  /** The sources tried in order. */
  function ResolveGroup(order: seq<Source>, info: Option<LocalInfo>, team: Result<Option<map<string, Value>>>, g: Group): Result<Group>
    decreases |order|
  {
    if order == [] then Ok(g)
    else
      var next := if order[0] == Local then Ok(TryLocal(g, info)) else TryExternal(g, team);
      if next.Err? then next else ResolveGroup(order[1..], info, team, next.value)
  }

  /** The id a single source would supply on its own. */
  function SourceId(src: Source, info: Option<LocalInfo>, team: Result<Option<map<string, Value>>>): Option<string> {
    if src == Local then (if info.Some? then info.value.groupId else None)
    else if team.Ok? && TeamId(team.value) != "" then Some(TeamId(team.value))
    else None
  }

  /** Source `i` is the first in the order that supplies an id. */
  ghost predicate FirstSupplier(order: seq<Source>, info: Option<LocalInfo>, team: Result<Option<map<string, Value>>>, i: int) {
    0 <= i < |order| && IdSet(SourceId(order[i], info, team))
      && forall j :: 0 <= j < i ==> !IdSet(SourceId(order[j], info, team))
  }

  /** Some source in the order supplies an id. */
  ghost predicate AnySupplier(order: seq<Source>, info: Option<LocalInfo>, team: Result<Option<map<string, Value>>>) {
    exists i :: 0 <= i < |order| && IdSet(SourceId(order[i], info, team))
  }

  /** Once an id is set, later sources leave the group alone. */
  lemma {:induction false} ResolveKeepsSet(order: seq<Source>, info: Option<LocalInfo>, team: Result<Option<map<string, Value>>>, g: Group)
    requires IdSet(g.groupId)
    ensures ResolveGroup(order, info, team, g) == Ok(g)
    decreases |order|
  {
    if order != [] {
      ResolveKeepsSet(order[1..], info, team, g);
    }
  }

  /** Group-source precedence: starting from no group, the result's id is
      set exactly when some source in the order supplies one, and then it
      is the id of the first source that does. */
  lemma {:induction false} GroupPrecedence(order: seq<Source>, info: Option<LocalInfo>, team: Result<Option<map<string, Value>>>, g: Group)
    requires !IdSet(g.groupId)
    requires ResolveGroup(order, info, team, g).Ok?
    ensures var r := ResolveGroup(order, info, team, g).value;
      && (IdSet(r.groupId) <==> AnySupplier(order, info, team))
      && (forall i :: FirstSupplier(order, info, team, i) ==> r.groupId == SourceId(order[i], info, team))
    decreases |order|
  {
    if order != [] {
      var next := if order[0] == Local then Ok(TryLocal(g, info)) else TryExternal(g, team);
      if IdSet(SourceId(order[0], info, team)) {
        assert next.value.groupId == SourceId(order[0], info, team);
        ResolveKeepsSet(order[1..], info, team, next.value);
      } else {
        assert !IdSet(next.value.groupId);
        GroupPrecedence(order[1..], info, team, next.value);
        forall i | FirstSupplier(order, info, team, i)
          ensures FirstSupplier(order[1..], info, team, i - 1)
        {
          assert i > 0 && order[i] == order[1..][i - 1];
          forall j | 0 <= j < i - 1
            ensures !IdSet(SourceId(order[1..][j], info, team))
          {
            assert order[1..][j] == order[j + 1];
          }
        }
        if AnySupplier(order, info, team) {
          var i :| 0 <= i < |order| && IdSet(SourceId(order[i], info, team));
          assert i > 0 && order[1..][i - 1] == order[i];
        }
        if AnySupplier(order[1..], info, team) {
          var i :| 0 <= i < |order[1..]| && IdSet(SourceId(order[1..][i], info, team));
          assert order[1..][i] == order[i + 1];
        }
      }
    }
  }

  // ---------------------------------------------------------------------
  // get_student_external_profile

  /** The profile handed to callers. `raw` is the matched record. */
  datatype Profile = Profile(
    email: string,
    mentorEmails: seq<string>,
    groupId: Option<string>,
    isLeader: Option<bool>,
    groupSource: Option<string>,
    raw: Option<map<string, Value>>)

  /** The profile built from the matched record: its cleaned mentors and
      the group the configured sources resolve. */
  function FoundProfile(email: string, record: map<string, Value>, order: seq<Source>,
                        info: Option<LocalInfo>, team: Result<Option<map<string, Value>>>): Result<Profile>
  {
    var g := ResolveGroup(order, info, team, NoGroup);
    if g.Err? then Err(g.error)
    else Ok(Profile(email, MentorEmails(record), g.value.groupId, g.value.isLeader, g.value.source, Some(record)))
  }

  /** `get_student_external_profile` outside mock mode and past the
      cache. `studentsResponse` and `teamsResponse` are the bodies of the
      two service calls, `setting` is `GROUP_ID_SOURCE` and `info` the
      local roster row. */
  function StudentProfile(email: string, studentsResponse: Option<Value>, teamsResponse: Option<Value>,
                          setting: string, info: Option<LocalInfo>): Result<Profile>
  {
    var norm := NormEmail(email);
    var empty := Profile(email, [], None, None, None, None);
    if norm == "" then Ok(empty)
    else
      var students := GetStudents(studentsResponse);
      if students.Err? then Err(students.error)
      else
        var found := FirstMatch(students.value, norm);
        if found.Err? then Err(found.error)
        else if found.value.None? then Ok(empty)
        else FoundProfile(email, found.value.value, SourceOrder(setting), info, GetTeamByEmail(false, norm, teamsResponse))
  }

  /** A blank e-mail, or one no student record carries, gives the empty
      profile: no mentors and no group. */
  lemma EmptyProfiles(email: string, studentsResponse: Option<Value>, teamsResponse: Option<Value>,
                      setting: string, info: Option<LocalInfo>)
    ensures NormEmail(email) == "" ==>
      StudentProfile(email, studentsResponse, teamsResponse, setting, info) == Ok(Profile(email, [], None, None, None, None))
    ensures var students := GetStudents(studentsResponse);
      NormEmail(email) != "" && students.Ok? && FirstMatch(students.value, NormEmail(email)) == Ok(None) ==>
      StudentProfile(email, studentsResponse, teamsResponse, setting, info) == Ok(Profile(email, [], None, None, None, None))
  {
  }

  /** A found profile belongs to the first matching student record, carries
      that record's cleaned mentor list, and its group is the one the first
      supplying source in the configured order gives. */
  lemma ProfileFromFirstMatch(email: string, studentsResponse: Option<Value>, teamsResponse: Option<Value>,
                              setting: string, info: Option<LocalInfo>)
    requires StudentProfile(email, studentsResponse, teamsResponse, setting, info).Ok?
    requires StudentProfile(email, studentsResponse, teamsResponse, setting, info).value.raw.Some?
    ensures var p := StudentProfile(email, studentsResponse, teamsResponse, setting, info).value;
      var students := GetStudents(studentsResponse).value;
      var order := SourceOrder(setting);
      var team := GetTeamByEmail(false, NormEmail(email), teamsResponse);
      && p.mentorEmails == MentorEmails(p.raw.value)
      && (exists i :: FirstMatchAt(students, NormEmail(email), i) && students[i] == Object(p.raw.value))
      && (IdSet(p.groupId) <==> AnySupplier(order, info, team))
      && (forall i :: FirstSupplier(order, info, team, i) ==> p.groupId == SourceId(order[i], info, team))
  {
    var norm := NormEmail(email);
    var students := GetStudents(studentsResponse).value;
    FirstMatchFirst(students, norm);
    var record := FirstMatch(students, norm).value.value;
    FoundGroup(email, record, SourceOrder(setting), info, GetTeamByEmail(false, norm, teamsResponse));
  }

  /** The group of a found profile follows source precedence. */
  lemma FoundGroup(email: string, record: map<string, Value>, order: seq<Source>,
                   info: Option<LocalInfo>, team: Result<Option<map<string, Value>>>)
    requires FoundProfile(email, record, order, info, team).Ok?
    ensures var p := FoundProfile(email, record, order, info, team).value;
      && p.mentorEmails == MentorEmails(record) && p.raw == Some(record)
      && (IdSet(p.groupId) <==> AnySupplier(order, info, team))
      && (forall i :: FirstSupplier(order, info, team, i) ==> p.groupId == SourceId(order[i], info, team))
  {
    GroupPrecedence(order, info, team, NoGroup);
  }

  /** The default order is external then local. */
  lemma DefaultOrder()
    ensures SourceOrder("") == [External, Local]
  {
    var e: string := "";
    assert Strip(e) == e && Lower(e) == e;
    assert e != "local" && e != "external" && e != "local_then_external";
  }

  /** Any setting other than the three recognised names, after trimming and
      lower-casing, falls back to external then local. */
  lemma UnknownSettingDefault(setting: string)
    requires NormEmail(setting) !in {"local", "external", "local_then_external"}
    ensures SourceOrder(setting) == [External, Local]
  {
  }

  /** Surrounding blanks and letter case do not change the order chosen. */
  lemma SettingNormalised(setting: string)
    ensures SourceOrder(Strip(setting)) == SourceOrder(setting)
    ensures SourceOrder(Lower(setting)) == SourceOrder(setting)
  {
    NormEmailCanonical(setting);
    SameNormSameOrder(Strip(setting), setting);
    SameNormSameOrder(Lower(setting), setting);
  }

  lemma SameNormSameOrder(a: string, b: string)
    requires NormEmail(a) == NormEmail(b)
    ensures SourceOrder(a) == SourceOrder(b)
  {
  }

  /** A padded, capitalised name selects its order. */
  lemma PaddedSettingSelects()
    ensures SourceOrder(" Local ") == [Local]
  {
    StripPadded();
    LowerLocal();
  }

  lemma StripPadded()
    ensures Strip(" Local ") == "Local"
  {
    var a: string := " Local ";
    var b: string := "Local ";
    var c: string := "Local";
    assert a[1..] == b;
    assert TrimStart(b) == b;
    assert b[..|b| - 1] == c;
    assert TrimEnd(c) == c;
  }

  lemma LowerLocal()
    ensures Lower("Local") == "local"
  {
    var c: string := "Local";
    assert Lower(c)[0] == 'l';
  }

  /** The group resolution as the source runs it: the chosen helpers in
      turn, each assigning the shared group values. */
  method ResolveGroupSteps(setting: string, info: Option<LocalInfo>, team: Result<Option<map<string, Value>>>)
    returns (r: Result<Group>)
    ensures r == ResolveGroup(SourceOrder(setting), info, team, NoGroup)
  {
    var order := SourceOrder(setting);
    var g := NoGroup;
    var rest := order;
    while rest != []
      invariant ResolveGroup(order, info, team, NoGroup) == ResolveGroup(rest, info, team, g)
      decreases |rest|
    {
      if rest[0] == Local {
        g := TryLocal(g, info);
      } else {
        var next := TryExternal(g, team);
        if next.Err? {
          return next;
        }
        g := next.value;
      }
      rest := rest[1..];
    }
    return Ok(g);
  }

  /** `get_student_external_profile` as written: search, clean, resolve. */
  method GetStudentExternalProfile(email: string, studentsResponse: Option<Value>, teamsResponse: Option<Value>,
                                   setting: string, info: Option<LocalInfo>) returns (r: Result<Profile>)
    ensures r == StudentProfile(email, studentsResponse, teamsResponse, setting, info)
  {
    var norm := NormEmail(email);
    var profile := Profile(email, [], None, None, None, None);
    if norm == "" {
      return Ok(profile);
    }
    var students := GetStudents(studentsResponse);
    if students.Err? {
      return Err(students.error);
    }
    var found := FindStudent(students.value, norm);
    if found.Err? {
      return Err(found.error);
    }
    if found.value.None? {
      return Ok(profile);
    }
    var record := found.value.value;
    var mentors := MentorEmails(record);
    var g := ResolveGroupSteps(setting, info, GetTeamByEmail(false, norm, teamsResponse));
    if g.Err? {
      return Err(g.error);
    }
    profile := profile.(mentorEmails := mentors, groupId := g.value.groupId, isLeader := g.value.isLeader,
                        groupSource := g.value.source, raw := Some(record));
    return Ok(profile);
  }
}
