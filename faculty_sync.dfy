/** The `sync_faculty_from_pbl` management command: faculty records fetched
    from the external service are cleaned, de-duplicated by e-mail and
    either counted (dry run) or upserted into the users table. The fetched
    list and the ids the database hands out are inputs. */
module FacultySync {
  import opened Wrappers
  import opened Text
  import opened Json
  import opened Tables
  import SsoSync

  const NonStringFieldMessage: string := "AttributeError: 'strip' on a non-string faculty field"
  const MultipleUsersMessage: string := "MultipleObjectsReturned: more than one user has this e-mail"
  const FacultyRole: string := "faculty"

  /** A cleaned record: normalised e-mail, display name, external id. */
  datatype FacultyRow = FacultyRow(email: string, name: string, pblUserId: string)

  /** `(raw.get(key) or "")`, which must then be a string to be stripped. */
  function TextField(d: map<string, Value>, key: string): (r: Result<string>)
    ensures r.Err? <==> Truthy(Get(d, key)) && !Get(d, key).Str?
    ensures r.Ok? && Get(d, key).Str? ==> r.value == Get(d, key).s
    ensures r.Ok? && !Get(d, key).Str? ==> r.value == ""
  {
    var v := Get(d, key);
    if !Truthy(v) then Ok("")
    else if v.Str? then Ok(v.s)
    else Err(NonStringFieldMessage)
  }

  /** One pass of the cleaning loop: `None` for a skipped record, the
      cleaned row otherwise; a non-string e-mail or name raises. */
  function CleanRecord(raw: Value): Result<Option<FacultyRow>> {
    if !raw.Object? then Ok(None)
    else
      var d := raw.fields;
      var email := TextField(d, "email");
      if email.Err? then Err(email.error)
      else
        var name := TextField(d, "name");
        if name.Err? then Err(name.error)
        else
          RowOf(Lower(Strip(email.value)), Strip(name.value), PblIdOf(d))
  }

  /** `raw.get("id") or raw.get("pbl_user_id")`, stringified and stripped;
      "" when it is `None`. */
  function PblIdOf(d: map<string, Value>): (r: string)
    ensures Strip(r) == r
    ensures Truthy(Get(d, "id")) ==> r == Strip(Repr(Get(d, "id")))
    ensures !Truthy(Get(d, "id")) ==> r == Clean(Get(d, "pbl_user_id"))
  {
    var keys := ["id", "pbl_user_id"];
    var chosen := OrChain(d, keys);
    assert chosen == if Truthy(Get(d, "id")) then Get(d, "id") else Get(d, "pbl_user_id") by {
      assert keys[0] == "id" && keys[1..] == ["pbl_user_id"];
    }
    CleanStripped(chosen);
    Clean(chosen)
  }

  /** The skip test and the name fallback on already normalised fields. */
  function RowOf(email: string, name: string, pblId: string): (r: Result<Option<FacultyRow>>)
    ensures r.Ok?
    ensures r.value.Some? <==> email != "" && pblId != ""
    ensures r.value.Some? ==> r.value.value.email == email && r.value.value.pblUserId == pblId
    ensures r.value.Some? && name != "" ==> r.value.value.name == name
    ensures r.value.Some? && name == "" ==> r.value.value.name == BeforeFirst(email, '@')
  {
    if email == "" || pblId == "" then Ok(None)
    else Ok(Some(FacultyRow(email, if name == "" then BeforeFirst(email, '@') else name, pblId)))
  }

  /** A cleaned row has a normalised, non-empty e-mail and a stripped,
      non-empty external id. The name is not constrained: the part of the
      e-mail before `@` that stands in for a missing name may be empty, and
      it keeps any blanks it has. */
  predicate WellFormed(row: FacultyRow) {
    && row.email != "" && row.email == Lower(Strip(row.email))
    && row.pblUserId != "" && Strip(row.pblUserId) == row.pblUserId
  }

  lemma CleanRecordWellFormed(raw: Value)
    requires CleanRecord(raw).Ok? && CleanRecord(raw).value.Some?
    ensures WellFormed(CleanRecord(raw).value.value)
    ensures raw.Object?
  {
    var d := raw.fields;
    RowOfWellFormed(TextField(d, "email").value, Strip(TextField(d, "name").value), PblIdOf(d));
  }

  /** A kept record can have an empty name: with no name, the e-mail `@x`
      falls back to the empty text before its `@`. */
  lemma EmptyNameKept()
    ensures RowOf("@x", "", "5") == Ok(Some(FacultyRow("@x", "", "5")))
  {
    assert BeforeFirst("@x", '@') == "";
  }

  lemma RowOfWellFormed(rawEmail: string, name: string, pblId: string)
    requires Strip(pblId) == pblId
    requires RowOf(Lower(Strip(rawEmail)), name, pblId).value.Some?
    ensures WellFormed(RowOf(Lower(Strip(rawEmail)), name, pblId).value.value)
  {
    var e := Strip(rawEmail);
    LowerStripClean(rawEmail);
    LowerStrip(e);
    StripIdempotent(rawEmail);
    LowerIdempotent(e);
  }

  /** What cleaning each record gives, record by record. */
  function Cleaned(faculty: seq<Value>): (r: seq<Result<Option<FacultyRow>>>)
    ensures |r| == |faculty|
  {
    seq(|faculty|, k requires 0 <= k < |faculty| => CleanRecord(faculty[k]))
  }

  /** The cleaning loop over per-record outcomes: the cleaned rows in input
      order and the number of records skipped; the first record that raises
      ends it. */
  function Collect(cs: seq<Result<Option<FacultyRow>>>): Result<(seq<FacultyRow>, nat)>
    decreases |cs|
  {
    if cs == [] then Ok(([], 0))
    else
      var prev := Collect(cs[..|cs| - 1]);
      if prev.Err? then prev
      else
        var c := cs[|cs| - 1];
        if c.Err? then Err(c.error)
        else if c.value.None? then Ok((prev.value.0, prev.value.1 + 1))
        else Ok((prev.value.0 + [c.value.value], prev.value.1))
  }

  /** The cleaning loop on the fetched records. */
  function CleanAll(faculty: seq<Value>): Result<(seq<FacultyRow>, nat)> {
    Collect(Cleaned(faculty))
  }

  lemma CleanedPrefix(faculty: seq<Value>, n: nat)
    requires n <= |faculty|
    ensures Cleaned(faculty[..n]) == Cleaned(faculty)[..n]
  {
  }

  lemma CollectSnoc(cs: seq<Result<Option<FacultyRow>>>, c: Result<Option<FacultyRow>>)
    ensures Collect(cs + [c]) ==
      if Collect(cs).Err? then Collect(cs)
      else if c.Err? then Err(c.error)
      else if c.value.None? then Ok((Collect(cs).value.0, Collect(cs).value.1 + 1))
      else Ok((Collect(cs).value.0 + [c.value.value], Collect(cs).value.1))
  {
    assert (cs + [c])[..|cs|] == cs;
  }

  /** Every outcome is either skipped or kept, and the kept rows are the
      rows of the outcomes, so each satisfies what all of them do. */
  lemma {:induction false} CollectCounts(cs: seq<Result<Option<FacultyRow>>>)
    requires Collect(cs).Ok?
    ensures Collect(cs).value.1 + |Collect(cs).value.0| == |cs|
    ensures forall row :: row in Collect(cs).value.0 ==> exists k :: 0 <= k < |cs| && cs[k] == Ok(Some(row))
    decreases |cs|
  {
    if cs != [] {
      var init := cs[..|cs| - 1];
      CollectCounts(init);
      forall row | row in Collect(cs).value.0 ensures exists k :: 0 <= k < |cs| && cs[k] == Ok(Some(row)) {
        if row in Collect(init).value.0 {
          var k :| 0 <= k < |init| && init[k] == Ok(Some(row));
          assert cs[k] == init[k];
        } else {
          assert cs[|cs| - 1] == Ok(Some(row));
        }
      }
    }
  }

  /** Every record is either skipped or cleaned, and every cleaned row is
      well formed. */
  lemma CleanAllCounts(faculty: seq<Value>)
    requires CleanAll(faculty).Ok?
    ensures CleanAll(faculty).value.1 + |CleanAll(faculty).value.0| == |faculty|
    ensures forall k :: 0 <= k < |CleanAll(faculty).value.0| ==> WellFormed(CleanAll(faculty).value.0[k])
  {
    var cs := Cleaned(faculty);
    CollectCounts(cs);
    var rows := Collect(cs).value.0;
    forall k | 0 <= k < |rows| ensures WellFormed(rows[k]) {
      var j :| 0 <= j < |cs| && cs[j] == Ok(Some(rows[k]));
      CleanRecordWellFormed(faculty[j]);
    }
  }

  /** The loop raises exactly when some outcome is an error. */
  lemma {:induction false} CollectErr(cs: seq<Result<Option<FacultyRow>>>)
    ensures Collect(cs).Err? <==> exists k :: 0 <= k < |cs| && cs[k].Err?
    decreases |cs|
  {
    if cs != [] {
      var init := cs[..|cs| - 1];
      CollectErr(init);
      if exists k :: 0 <= k < |init| && init[k].Err? {
        var k :| 0 <= k < |init| && init[k].Err?;
        assert cs[k] == init[k];
      }
      if exists k :: 0 <= k < |cs| && cs[k].Err? {
        var k :| 0 <= k < |cs| && cs[k].Err?;
        if k < |init| {
          assert init[k] == cs[k];
        }
      }
    }
  }

  /** Cleaning either raises at some record or succeeds on every record. */
  lemma CleanAllErr(faculty: seq<Value>)
    ensures CleanAll(faculty).Err? <==> exists k :: 0 <= k < |faculty| && CleanRecord(faculty[k]).Err?
  {
    var cs := Cleaned(faculty);
    CollectErr(cs);
    if exists k :: 0 <= k < |faculty| && CleanRecord(faculty[k]).Err? {
      var k :| 0 <= k < |faculty| && CleanRecord(faculty[k]).Err?;
      assert cs[k].Err?;
    }
  }

  // ---------------------------------------------------------------------
  // De-duplication

  /** `by_email`: each e-mail mapped to the last row carrying it. */
  function ByEmail(rows: seq<FacultyRow>): (m: map<string, FacultyRow>)
    decreases |rows|
  {
    if rows == [] then map[]
    else ByEmail(rows[..|rows| - 1])[rows[|rows| - 1].email := rows[|rows| - 1]]
  }

  /** The e-mails of `by_email` in dict order: first insertion. */
  function Order(rows: seq<FacultyRow>): (r: seq<string>)
    decreases |rows|
  {
    if rows == [] then []
    else
      var prev := Order(rows[..|rows| - 1]);
      if rows[|rows| - 1].email in prev then prev else prev + [rows[|rows| - 1].email]
  }

  /** The set of cleaned e-mails, `target_emails`. */
  function Emails(rows: seq<FacultyRow>): set<string> {
    set k | 0 <= k < |rows| :: rows[k].email
  }

  /** Row `i` is the last one carrying its e-mail. */
  ghost predicate LastWith(rows: seq<FacultyRow>, i: int) {
    0 <= i < |rows| && forall j :: i < j < |rows| ==> rows[j].email != rows[i].email
  }

  /** `by_email` has exactly the cleaned e-mails as keys. */
  lemma {:induction false} ByEmailKeys(rows: seq<FacultyRow>)
    ensures ByEmail(rows).Keys == Emails(rows)
    decreases |rows|
  {
    if rows != [] {
      var init := rows[..|rows| - 1];
      var last := rows[|rows| - 1];
      ByEmailKeys(init);
      assert rows == init + [last];
      EmailsSnoc(init, last);
    }
  }

  /** Last-wins de-duplication: each e-mail maps to the last row carrying
      it. */
  lemma {:induction false} ByEmailLast(rows: seq<FacultyRow>)
    ensures forall e :: e in ByEmail(rows) ==> exists i :: LastWith(rows, i) && rows[i].email == e && ByEmail(rows)[e] == rows[i]
    ensures forall i :: LastWith(rows, i) ==> rows[i].email in ByEmail(rows) && ByEmail(rows)[rows[i].email] == rows[i]
    decreases |rows|
  {
    if rows != [] {
      var n := |rows| - 1;
      var init := rows[..n];
      var last := rows[n];
      ByEmailLast(init);
      assert forall k :: 0 <= k < n ==> init[k] == rows[k];
      assert ByEmail(rows) == ByEmail(init)[last.email := last];
      forall e | e in ByEmail(rows)
        ensures exists i :: LastWith(rows, i) && rows[i].email == e && ByEmail(rows)[e] == rows[i]
      {
        if e == last.email {
          assert LastWith(rows, n);
        } else {
          assert e in ByEmail(init) && ByEmail(rows)[e] == ByEmail(init)[e];
          var i :| LastWith(init, i) && init[i].email == e && ByEmail(init)[e] == init[i];
          assert LastWith(rows, i);
        }
      }
      forall i | LastWith(rows, i)
        ensures rows[i].email in ByEmail(rows) && ByEmail(rows)[rows[i].email] == rows[i]
      {
        if i < n {
          assert rows[i].email != last.email;
          assert LastWith(init, i);
        }
      }
    }
  }

  /** The dict order lists every key of `by_email` exactly once. */
  lemma {:induction false} OrderDistinct(rows: seq<FacultyRow>)
    ensures forall k, l :: 0 <= k < l < |Order(rows)| ==> Order(rows)[k] != Order(rows)[l]
    ensures forall k :: 0 <= k < |Order(rows)| ==> Order(rows)[k] in ByEmail(rows)
    ensures |Order(rows)| == |ByEmail(rows)|
    decreases |rows|
  {
    if rows != [] {
      var init := rows[..|rows| - 1];
      var last := rows[|rows| - 1];
      OrderDistinct(init);
      assert rows == init + [last];
      OrderSize(init, last);
    }
  }

  /** Appending a row keeps the dict order free of repeats and in step with
      the keys. */
  lemma OrderSize(init: seq<FacultyRow>, last: FacultyRow)
    requires forall k, l :: 0 <= k < l < |Order(init)| ==> Order(init)[k] != Order(init)[l]
    requires forall k :: 0 <= k < |Order(init)| ==> Order(init)[k] in ByEmail(init)
    requires |Order(init)| == |ByEmail(init)|
    ensures var rows := init + [last];
      && (forall k, l :: 0 <= k < l < |Order(rows)| ==> Order(rows)[k] != Order(rows)[l])
      && (forall k :: 0 <= k < |Order(rows)| ==> Order(rows)[k] in ByEmail(rows))
      && |Order(rows)| == |ByEmail(rows)|
  {
    var rows := init + [last];
    assert rows[..|rows| - 1] == init;
    var o := Order(init);
    var m := ByEmail(init);
    OrderKeys(o, m);
    if last.email !in o {
      assert last.email !in m.Keys;
      assert (m[last.email := last]).Keys == m.Keys + {last.email};
    } else {
      assert (m[last.email := last]).Keys == m.Keys;
    }
  }

  /** A repeat-free order listing only keys, as many as there are keys,
      lists every key. */
  lemma OrderKeys(o: seq<string>, m: map<string, FacultyRow>)
    requires forall k, l :: 0 <= k < l < |o| ==> o[k] != o[l]
    requires forall k :: 0 <= k < |o| ==> o[k] in m
    requires |o| == |m|
    ensures m.Keys == set k | 0 <= k < |o| :: o[k]
  {
    var s := set k | 0 <= k < |o| :: o[k];
    DistinctCard(o);
    assert s <= m.Keys;
    var rest := m.Keys - s;
    assert m.Keys == s + rest && s * rest == {};
    assert |rest| == 0;
  }

  /** A repeat-free sequence has as many distinct elements as entries. */
  lemma {:induction false} DistinctCard(o: seq<string>)
    requires forall k, l :: 0 <= k < l < |o| ==> o[k] != o[l]
    ensures |set k | 0 <= k < |o| :: o[k]| == |o|
    decreases |o|
  {
    if o != [] {
      var init := o[..|o| - 1];
      DistinctCard(init);
      var s := set k | 0 <= k < |o| :: o[k];
      var si := set k | 0 <= k < |init| :: init[k];
      assert s == si + {o[|o| - 1]} by {
        forall x | x in s
          ensures x in si + {o[|o| - 1]}
        {
          var k :| 0 <= k < |o| && o[k] == x;
          if k < |init| {
            assert init[k] == x;
          }
        }
      }
      assert o[|o| - 1] !in si;
    }
  }

  /** The values of `by_email` in dict order: the rows the write loop
      upserts. */
  function DictValues(rows: seq<FacultyRow>): (r: seq<FacultyRow>)
    ensures |r| == |Order(rows)| == |ByEmail(rows)|
  {
    OrderDistinct(rows);
    var m := ByEmail(rows);
    var o := Order(rows);
    seq(|o|, k requires 0 <= k < |o| => m[o[k]])
  }

  /** The rows written are the last row of each e-mail, each e-mail once,
      and every e-mail's last row is among them. */
  lemma DictValuesLast(rows: seq<FacultyRow>)
    ensures var vs := DictValues(rows);
      && (forall k, l :: 0 <= k < l < |vs| ==> vs[k].email != vs[l].email)
      && (forall k :: 0 <= k < |vs| ==> exists i :: LastWith(rows, i) && vs[k] == rows[i])
      && (forall i :: LastWith(rows, i) ==> exists k :: 0 <= k < |vs| && vs[k] == rows[i])
  {
    DictValuesEntries(rows);
    DictValuesCover(rows);
  }

  /** Entry `k` of the written rows is the last row for the `k`-th e-mail
      in dict order. */
  lemma DictValuesEntries(rows: seq<FacultyRow>)
    ensures var vs := DictValues(rows);
      && (forall k :: 0 <= k < |vs| ==> vs[k].email == Order(rows)[k])
      && (forall k, l :: 0 <= k < l < |vs| ==> vs[k].email != vs[l].email)
      && (forall k :: 0 <= k < |vs| ==> exists i :: LastWith(rows, i) && vs[k] == rows[i])
  {
    OrderDistinct(rows);
    ByEmailLast(rows);
    var m := ByEmail(rows);
    var o := Order(rows);
    var vs := DictValues(rows);
    forall k | 0 <= k < |vs|
      ensures vs[k].email == o[k]
      ensures exists i :: LastWith(rows, i) && vs[k] == rows[i]
    {
      var i :| LastWith(rows, i) && rows[i].email == o[k] && m[o[k]] == rows[i];
    }
  }

  /** Every e-mail's last row is written. */
  lemma DictValuesCover(rows: seq<FacultyRow>)
    ensures var vs := DictValues(rows);
      forall i :: LastWith(rows, i) ==> exists k :: 0 <= k < |vs| && vs[k] == rows[i]
  {
    OrderDistinct(rows);
    ByEmailLast(rows);
    ByEmailKeys(rows);
    var m := ByEmail(rows);
    var o := Order(rows);
    var vs := DictValues(rows);
    OrderKeys(o, m);
    forall i | LastWith(rows, i)
      ensures exists k :: 0 <= k < |vs| && vs[k] == rows[i]
    {
      var e := rows[i].email;
      assert e in Emails(rows);
      var k :| 0 <= k < |o| && o[k] == e;
      assert vs[k] == m[e] == rows[i];
    }
  }

  /** The e-mails of a longer list: one more e-mail at most. */
  lemma EmailsSnoc(init: seq<FacultyRow>, last: FacultyRow)
    ensures Emails(init + [last]) == Emails(init) + {last.email}
  {
    var rows := init + [last];
    forall e | e in Emails(rows)
      ensures e in Emails(init) + {last.email}
    {
      var k :| 0 <= k < |rows| && rows[k].email == e;
      if k < |init| {
        assert init[k].email == e;
      }
    }
    forall e | e in Emails(init)
      ensures e in Emails(rows)
    {
      var k :| 0 <= k < |init| && init[k].email == e;
      assert rows[k].email == e;
    }
    assert rows[|init|].email == last.email;
  }

  /** There are no more distinct e-mails than rows. */
  lemma {:induction false} EmailsCard(rows: seq<FacultyRow>)
    ensures |Emails(rows)| <= |rows|
    decreases |rows|
  {
    if rows != [] {
      var init := rows[..|rows| - 1];
      EmailsCard(init);
      EmailsSnoc(init, rows[|rows| - 1]);
      assert rows == init + [rows[|rows| - 1]];
    }
  }

  // ---------------------------------------------------------------------
  // Dry run and the write phase

  /** The target e-mails some user already has. */
  function Existing(t: Tables, targets: set<string>): (r: set<string>)
    ensures r <= targets
  {
    set e | e in targets && SsoSync.UsersWithEmail(t, e) != {}
  }

  /** The dry-run estimate partitions the targets into would-create and
      would-update. */
  lemma DryRunSplit(t: Tables, targets: set<string>)
    ensures |targets - Existing(t, targets)| + |Existing(t, targets)| == |targets|
    ensures forall e :: e in targets - Existing(t, targets) ==> SsoSync.UsersWithEmail(t, e) == {}
  {
    var ex := Existing(t, targets);
    assert targets == (targets - ex) + ex;
  }

  /** `update_or_create(email=..., defaults=...)` for one row. The second
      component says whether a row was created; a new user gets `freshId`. */
  function UpsertFaculty(t: Tables, row: FacultyRow, freshId: UserId): Result<(Tables, bool)> {
    var found := SsoSync.UsersWithEmail(t, row.email);
    if |found| > 1 then Err(MultipleUsersMessage)
    else if |found| == 1 then
      var u := SsoSync.Least(found);
      Ok((t.(users := t.users[u := t.users[u].(name := row.name, role := FacultyRole, pblUserId := Some(row.pblUserId))]), false))
    else
      Ok((t.(users := t.users[freshId := User(row.email, row.name, FacultyRole, Some(row.pblUserId), "", true)]), true))
  }

  /** Whether user `u` carries the data of `row`. */
  predicate Holds(t: Tables, u: UserId, row: FacultyRow) {
    u in t.users && t.users[u].email == row.email && t.users[u].name == row.name
      && t.users[u].role == FacultyRole && t.users[u].pblUserId == Some(row.pblUserId)
  }

  /** An upsert fails exactly when several users share the e-mail, creates
      exactly when none has it, and writes only the users table. */
  lemma UpsertCreates(t: Tables, row: FacultyRow, freshId: UserId)
    ensures UpsertFaculty(t, row, freshId).Err? <==> |SsoSync.UsersWithEmail(t, row.email)| > 1
    ensures UpsertFaculty(t, row, freshId).Ok? ==> var (t', created) := UpsertFaculty(t, row, freshId).value;
      && (created <==> SsoSync.UsersWithEmail(t, row.email) == {})
      && t' == t.(users := t'.users)
  {
  }

  /** After an upsert the row's e-mail has exactly one user, carrying the
      row. */
  lemma UpsertHolds(t: Tables, row: FacultyRow, freshId: UserId)
    requires freshId !in t.users
    requires UpsertFaculty(t, row, freshId).Ok?
    ensures var t' := UpsertFaculty(t, row, freshId).value.0;
      exists u: UserId :: Holds(t', u, row) && SsoSync.UsersWithEmail(t', row.email) == {u}
  {
    var found := SsoSync.UsersWithEmail(t, row.email);
    var t' := UpsertFaculty(t, row, freshId).value.0;
    if |found| == 1 {
      var u := SsoSync.Least(found);
      assert found == (found - {u}) + {u};
      assert found - {u} == {};
      assert SsoSync.UsersWithEmail(t', row.email) == {u};
      assert Holds(t', u, row);
    } else {
      assert found == {};
      assert SsoSync.UsersWithEmail(t', row.email) == {freshId};
      assert Holds(t', freshId, row);
    }
  }

  /** Users with any other e-mail are neither changed nor added. */
  lemma UpsertFrame(t: Tables, row: FacultyRow, freshId: UserId)
    requires UpsertFaculty(t, row, freshId).Ok?
    ensures var t' := UpsertFaculty(t, row, freshId).value.0;
      && (forall v: UserId :: v in t'.users && t'.users[v].email != row.email ==> v in t.users && t'.users[v] == t.users[v])
      && (forall v: UserId :: v in t'.users && v !in t.users ==> v == freshId)
  {
  }

  /** The write loop over the de-duplicated rows: row `k` that creates a
      user gets `newIds(k)`. Yields the tables and the created and updated
      counts; a failing upsert aborts the whole transaction. */
  function RunAll(t: Tables, rows: seq<FacultyRow>, newIds: nat -> UserId): Result<(Tables, nat, nat)>
    decreases |rows|
  {
    if rows == [] then Ok((t, 0, 0))
    else
      var n := |rows| - 1;
      var prev := RunAll(t, rows[..n], newIds);
      if prev.Err? then prev
      else
        var (t1, c, u) := prev.value;
        var step := UpsertFaculty(t1, rows[n], newIds(n));
        if step.Err? then Err(step.error)
        else if step.value.1 then Ok((step.value.0, c + 1, u))
        else Ok((step.value.0, c, u + 1))
  }

  /** New ids are unused and pairwise different. */
  ghost predicate FreshIds(t: Tables, newIds: nat -> UserId) {
    && (forall k: nat :: newIds(k) !in t.users)
    && (forall k: nat, l: nat :: k != l ==> newIds(k) != newIds(l))
  }

  /** A successful run counts every row once as created or updated, writes
      only the users table and adds users only under the new ids. */
  lemma {:induction false} RunAllCounts(t: Tables, rows: seq<FacultyRow>, newIds: nat -> UserId)
    requires RunAll(t, rows, newIds).Ok?
    ensures var (t', c, u) := RunAll(t, rows, newIds).value;
      && c + u == |rows|
      && t' == t.(users := t'.users)
      && (forall v: UserId :: v in t'.users && v !in t.users ==> exists k: nat :: k < |rows| && v == newIds(k))
    decreases |rows|
  {
    if rows != [] {
      var n := |rows| - 1;
      RunAllCounts(t, rows[..n], newIds);
      var t1 := RunAll(t, rows[..n], newIds).value.0;
      UpsertCreates(t1, rows[n], newIds(n));
      UpsertFrame(t1, rows[n], newIds(n));
    }
  }

  /** With distinct e-mails and fresh ids, a successful run leaves each
      row's e-mail with exactly one user, and that user carries the row. */
  lemma {:induction false} RunAllPlaces(t: Tables, rows: seq<FacultyRow>, newIds: nat -> UserId)
    requires FreshIds(t, newIds)
    requires forall k, l :: 0 <= k < l < |rows| ==> rows[k].email != rows[l].email
    requires RunAll(t, rows, newIds).Ok?
    ensures var t' := RunAll(t, rows, newIds).value.0;
      forall k :: 0 <= k < |rows| ==> exists w: UserId :: Holds(t', w, rows[k]) && SsoSync.UsersWithEmail(t', rows[k].email) == {w}
    decreases |rows|
  {
    if rows != [] {
      var n := |rows| - 1;
      var init := rows[..n];
      assert rows == init + [rows[n]];
      RunAllPlaces(t, init, newIds);
      NewIdUnused(t, init, newIds);
      PlacesStep(RunAll(t, init, newIds).value.0, init, rows[n], newIds(n));
    }
  }

  /** The id reserved for the next row is still unused after the earlier
      rows. */
  lemma NewIdUnused(t: Tables, init: seq<FacultyRow>, newIds: nat -> UserId)
    requires FreshIds(t, newIds)
    requires RunAll(t, init, newIds).Ok?
    ensures newIds(|init|) !in RunAll(t, init, newIds).value.0.users
  {
    RunAllCounts(t, init, newIds);
    var n := |init|;
    assert newIds(n) !in t.users;
  }

  /** One more upsert keeps the earlier rows placed and places its own. */
  lemma PlacesStep(t1: Tables, init: seq<FacultyRow>, row: FacultyRow, freshId: UserId)
    requires freshId !in t1.users
    requires UpsertFaculty(t1, row, freshId).Ok?
    requires forall k :: 0 <= k < |init| ==> init[k].email != row.email
    requires forall k :: 0 <= k < |init| ==> exists w: UserId :: Holds(t1, w, init[k]) && SsoSync.UsersWithEmail(t1, init[k].email) == {w}
    ensures var t' := UpsertFaculty(t1, row, freshId).value.0;
      var rows := init + [row];
      forall k :: 0 <= k < |rows| ==> exists w: UserId :: Holds(t', w, rows[k]) && SsoSync.UsersWithEmail(t', rows[k].email) == {w}
  {
    var t' := UpsertFaculty(t1, row, freshId).value.0;
    var rows := init + [row];
    UpsertHolds(t1, row, freshId);
    forall k | 0 <= k < |rows|
      ensures exists w: UserId :: Holds(t', w, rows[k]) && SsoSync.UsersWithEmail(t', rows[k].email) == {w}
    {
      if k < |init| {
        assert rows[k] == init[k];
        var w: UserId :| Holds(t1, w, init[k]) && SsoSync.UsersWithEmail(t1, init[k].email) == {w};
        KeptUser(t1, row, freshId, init[k], w);
      } else {
        assert rows[k] == row;
      }
    }
  }

  /** A user holding another e-mail's row survives an upsert, and stays the
      only one with that e-mail. */
  lemma KeptUser(t1: Tables, row: FacultyRow, freshId: UserId, other: FacultyRow, w: UserId)
    requires freshId !in t1.users
    requires UpsertFaculty(t1, row, freshId).Ok?
    requires other.email != row.email
    requires Holds(t1, w, other) && SsoSync.UsersWithEmail(t1, other.email) == {w}
    ensures var t' := UpsertFaculty(t1, row, freshId).value.0;
      Holds(t', w, other) && SsoSync.UsersWithEmail(t', other.email) == {w}
  {
    UpsertFrame(t1, row, freshId);
    var t' := UpsertFaculty(t1, row, freshId).value.0;
    assert SsoSync.UsersWithEmail(t', other.email) == SsoSync.UsersWithEmail(t1, other.email);
  }

  // ---------------------------------------------------------------------
  // The command

  /** What the command reports. `fetched`, `valid` and `skipped` are the
      counts the summary line prints. */
  datatype Report =
    | NoFaculty
    | NoValid
    | DryRun(fetched: nat, valid: nat, skipped: nat, wouldCreate: nat, wouldUpdate: nat)
    | Synced(fetched: nat, valid: nat, skipped: nat, created: nat, updated: nat)

  /** `handle` on tables `t`: `faculty` is what `get_faculty()` returned
      (or raised), `dryRun` the `--dry-run` flag, `newIds` the ids the
      database hands out. */
  function HandleSpec(t: Tables, faculty: Result<seq<Value>>, dryRun: bool, newIds: nat -> UserId): Result<(Tables, Report)> {
    if faculty.Err? then Err(faculty.error)
    else if faculty.value == [] then Ok((t, NoFaculty))
    else
      var c := CleanAll(faculty.value);
      if c.Err? then Err(c.error)
      else AfterCleaning(t, |faculty.value|, c.value.0, c.value.1, dryRun, newIds)
  }

  /** The command past the cleaning loop. */
  function AfterCleaning(t: Tables, fetched: nat, cleaned: seq<FacultyRow>, skipped: nat, dryRun: bool,
                         newIds: nat -> UserId): Result<(Tables, Report)>
  {
    if cleaned == [] then Ok((t, NoValid))
    else if dryRun then Ok((t, DryRunReport(t, fetched, cleaned, skipped)))
    else
      var run := RunAll(t, DictValues(cleaned), newIds);
      if run.Err? then Err(run.error)
      else Ok((run.value.0, Synced(fetched, |ByEmail(cleaned)|, skipped, run.value.1, run.value.2)))
  }

  /** The dry-run summary: how many targets would be created and updated. */
  function DryRunReport(t: Tables, fetched: nat, cleaned: seq<FacultyRow>, skipped: nat): (r: Report)
    ensures r.DryRun?
  {
    var targets := Emails(cleaned);
    var existing := Existing(t, targets);
    DryRun(fetched, |ByEmail(cleaned)|, skipped, |targets - existing|, |existing|)
  }

  /** The early returns and the dry run write nothing, and happen exactly
      when the source returns early or the flag is set. */
  lemma NoWriteOutcomes(t: Tables, faculty: Result<seq<Value>>, dryRun: bool, newIds: nat -> UserId)
    requires HandleSpec(t, faculty, dryRun, newIds).Ok?
    ensures var (t', report) := HandleSpec(t, faculty, dryRun, newIds).value;
      && (report.NoFaculty? <==> faculty.value == [])
      && (report.NoFaculty? || report.NoValid? || report.DryRun? ==> t' == t)
      && (report.NoValid? <==> faculty.value != [] && CleanAll(faculty.value).value.0 == [])
      && (report.DryRun? <==> dryRun && faculty.value != [] && CleanAll(faculty.value).value.0 != [])
  {
  }

  /** The dry run's two estimates add up to the number of distinct
      e-mails. */
  lemma DryRunCounts(t: Tables, fetched: nat, cleaned: seq<FacultyRow>, skipped: nat)
    ensures var r := DryRunReport(t, fetched, cleaned, skipped);
      r.wouldCreate + r.wouldUpdate == r.valid <= |cleaned|
  {
    ByEmailKeys(cleaned);
    EmailsCard(cleaned);
    DryRunSplit(t, Emails(cleaned));
  }

  /** The summary's counts: every fetched record is cleaned or skipped;
      `valid` counts distinct e-mails; the dry run's estimates and a real
      run's created and updated counts both add up to `valid`. */
  lemma ReportCounts(t: Tables, faculty: Result<seq<Value>>, dryRun: bool, newIds: nat -> UserId)
    requires HandleSpec(t, faculty, dryRun, newIds).Ok?
    ensures var (t', report) := HandleSpec(t, faculty, dryRun, newIds).value;
      && (report.DryRun? ==> report.wouldCreate + report.wouldUpdate == report.valid <= report.fetched - report.skipped)
      && (report.Synced? ==> report.created + report.updated == report.valid <= report.fetched - report.skipped)
  {
    if faculty.Ok? && faculty.value != [] {
      var (cleaned, skipped) := CleanAll(faculty.value).value;
      CleanAllCounts(faculty.value);
      if cleaned != [] {
        if dryRun {
          DryRunCounts(t, |faculty.value|, cleaned, skipped);
        } else {
          RunAllCounts(t, DictValues(cleaned), newIds);
          ByEmailKeys(cleaned);
          EmailsCard(cleaned);
        }
      }
    }
  }

  /** After a real run only the users table has changed, and every cleaned
      e-mail has exactly one user, carrying the last cleaned row for that
      e-mail as faculty. */
  lemma SyncedRows(t: Tables, faculty: Result<seq<Value>>, newIds: nat -> UserId)
    requires FreshIds(t, newIds)
    requires HandleSpec(t, faculty, false, newIds).Ok?
    requires HandleSpec(t, faculty, false, newIds).value.1.Synced?
    ensures var t' := HandleSpec(t, faculty, false, newIds).value.0;
      var cleaned := CleanAll(faculty.value).value.0;
      && t' == t.(users := t'.users)
      && forall i :: LastWith(cleaned, i) ==>
           exists w: UserId :: Holds(t', w, cleaned[i]) && SsoSync.UsersWithEmail(t', cleaned[i].email) == {w}
  {
    var cleaned := CleanAll(faculty.value).value.0;
    var vs := DictValues(cleaned);
    DictValuesLast(cleaned);
    RunAllCounts(t, vs, newIds);
    RunAllPlaces(t, vs, newIds);
  }

  // ---------------------------------------------------------------------
  // The command as written

  /** `upsert_one`: one `update_or_create` on the live users table. */
  method UpsertOne(db: Database, row: FacultyRow, freshId: UserId) returns (r: Result<bool>)
    modifies db
    ensures var s := UpsertFaculty(old(db.State()), row, freshId);
      if s.Ok? then r == Ok(s.value.1) && db.State() == s.value.0 else r == Err(s.error) && db.State() == old(db.State())
  {
    var s := UpsertFaculty(db.State(), row, freshId);
    if s.Err? {
      return Err(s.error);
    }
    db.users := s.value.0.users;
    return Ok(s.value.1);
  }

  /** The cleaning loop, counting skipped records: each record's outcome
      is looked at in turn and the first error ends the loop. */
  method CleanFaculty(faculty: seq<Value>) returns (r: Result<(seq<FacultyRow>, nat)>)
    ensures r == CleanAll(faculty)
  {
    r := CollectLoop(Cleaned(faculty));
  }

  method CollectLoop(cs: seq<Result<Option<FacultyRow>>>) returns (r: Result<(seq<FacultyRow>, nat)>)
    ensures r == Collect(cs)
  {
    var cleaned: seq<FacultyRow> := [];
    var skipped: nat := 0;
    var i := 0;
    while i < |cs|
      invariant 0 <= i <= |cs|
      invariant Collect(cs[..i]) == Ok((cleaned, skipped))
    {
      assert cs[..i + 1] == cs[..i] + [cs[i]];
      CollectSnoc(cs[..i], cs[i]);
      var c := cs[i];
      if c.Err? {
        CollectPrefixErr(cs, i + 1);
        return Err(c.error);
      }
      if c.value.None? {
        skipped := skipped + 1;
      } else {
        cleaned := cleaned + [c.value.value];
      }
      i := i + 1;
    }
    assert cs[..i] == cs;
    return Ok((cleaned, skipped));
  }

  /** An outcome that raises ends the whole loop with that error. */
  lemma {:induction false} CollectPrefixErr(cs: seq<Result<Option<FacultyRow>>>, n: nat)
    requires n <= |cs| && Collect(cs[..n]).Err?
    ensures Collect(cs) == Collect(cs[..n])
    decreases |cs| - n
  {
    if n < |cs| {
      assert cs[..n + 1][..n] == cs[..n];
      CollectPrefixErr(cs, n + 1);
    } else {
      assert cs[..n] == cs;
    }
  }

  /** The `by_email` loop, keeping the dict's insertion order beside it. */
  method Dedup(cleaned: seq<FacultyRow>) returns (byEmail: map<string, FacultyRow>, order: seq<string>)
    ensures byEmail == ByEmail(cleaned) && order == Order(cleaned)
  {
    byEmail := map[];
    order := [];
    var i := 0;
    while i < |cleaned|
      invariant 0 <= i <= |cleaned|
      invariant byEmail == ByEmail(cleaned[..i]) && order == Order(cleaned[..i])
    {
      assert cleaned[..i + 1][..i] == cleaned[..i];
      var row := cleaned[i];
      if row.email !in order {
        order := order + [row.email];
      }
      byEmail := byEmail[row.email := row];
      i := i + 1;
    }
    assert cleaned[..i] == cleaned;
  }

  /** The write loop inside the transaction: every row upserted in turn,
      counting creations and updates; on an error the transaction rolls
      the users table back. */
  method WriteRows(db: Database, rows: seq<FacultyRow>, newIds: nat -> UserId) returns (r: Result<(nat, nat)>)
    modifies db
    ensures var s := RunAll(old(db.State()), rows, newIds);
      if s.Ok? then r == Ok((s.value.1, s.value.2)) && db.State() == s.value.0 else r == Err(s.error) && db.State() == old(db.State())
  {
    var saved := db.State();
    var created, updated := 0, 0;
    var i := 0;
    while i < |rows|
      invariant 0 <= i <= |rows|
      invariant RunAll(saved, rows[..i], newIds) == Ok((db.State(), created, updated))
    {
      assert rows[..i + 1][..i] == rows[..i];
      var wasCreated := UpsertOne(db, rows[i], newIds(i));
      if wasCreated.Err? {
        RunPrefixErr(saved, rows, newIds, i + 1);
        RunAllCounts(saved, rows[..i], newIds);
        db.users := saved.users;
        return Err(wasCreated.error);
      }
      if wasCreated.value {
        created := created + 1;
      } else {
        updated := updated + 1;
      }
      i := i + 1;
    }
    assert rows[..i] == rows;
    return Ok((created, updated));
  }

  /** A failing upsert fails the whole run with that error. */
  lemma {:induction false} RunPrefixErr(t: Tables, rows: seq<FacultyRow>, newIds: nat -> UserId, n: nat)
    requires n <= |rows| && RunAll(t, rows[..n], newIds).Err?
    ensures RunAll(t, rows, newIds) == RunAll(t, rows[..n], newIds)
    decreases |rows| - n
  {
    if n < |rows| {
      assert rows[..n + 1][..n] == rows[..n];
      RunPrefixErr(t, rows, newIds, n + 1);
    } else {
      assert rows[..n] == rows;
    }
  }

  /** `handle` as written: clean, de-duplicate, then estimate or write
      inside one transaction. */
  method Handle(db: Database, faculty: Result<seq<Value>>, dryRun: bool, newIds: nat -> UserId) returns (r: Result<Report>)
    modifies db
    ensures var s := HandleSpec(old(db.State()), faculty, dryRun, newIds);
      if s.Ok? then r == Ok(s.value.1) && db.State() == s.value.0 else r == Err(s.error) && db.State() == old(db.State())
  {
    if faculty.Err? {
      return Err(faculty.error);
    }
    if faculty.value == [] {
      return Ok(NoFaculty);
    }
    var c := CleanFaculty(faculty.value);
    if c.Err? {
      return Err(c.error);
    }
    var (cleaned, skipped) := c.value;
    if cleaned == [] {
      return Ok(NoValid);
    }
    var byEmail, order := Dedup(cleaned);
    if dryRun {
      var targets := Emails(cleaned);
      var existing := Existing(db.State(), targets);
      return Ok(DryRun(|faculty.value|, |byEmail|, skipped, |targets - existing|, |existing|));
    }
    OrderDistinct(cleaned);
    var rows := seq(|order|, k requires 0 <= k < |order| => byEmail[order[k]]);
    assert rows == DictValues(cleaned);
    var counts := WriteRows(db, rows, newIds);
    if counts.Err? {
      return Err(counts.error);
    }
    return Ok(Synced(|faculty.value|, |byEmail|, skipped, counts.value.0, counts.value.1));
  }
}
