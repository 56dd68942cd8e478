/// Properties of the store operations other than approval: fresh
/// identifiers, the username registry, createLogin, addStudentRecord,
/// updateStudentRecord, deleteStudentRecord and registerAdmission.
module StoreFacts {
  import opened CType
  import opened CStrings
  import opened Helpers
  import opened Records
  import opened StoreSpec

  // ---------------------------------------------------------------------
  // Reading lines
  // ---------------------------------------------------------------------

  /// A line written back trimmed has the same tokens.
  lemma FieldsTrimmed(x: string)
    ensures Fields(Trimmed(x)) == Fields(x)
  {
    TrimmedTwice(x);
  }

  /// Every token of a line is a field.
  lemma FieldsAreFields(x: string)
    ensures forall t :: t in Fields(x) ==> IsField(t)
  {
    SplitFields(Trimmed(x));
  }

  /// A student line starts with its id.
  lemma StudentLineId(s: Student)
    requires Storable(s)
    ensures HasLeadingId(StudentLine(s), s.id) && StudentWithId(StudentLine(s), s.id)
  {
    ParseStudentLine(s);
  }

  lemma {:induction false} HasIdConcat(a: seq<string>, b: seq<string>, id: int)
    ensures HasId(a + b, id) <==> HasId(a, id) || HasId(b, id)
  {
    HasIdIff(a + b, id);
    HasIdIff(a, id);
    HasIdIff(b, id);
    assert forall k :: 0 <= k < |a| ==> (a + b)[k] == a[k];
    assert forall k :: 0 <= k < |b| ==> (a + b)[|a| + k] == b[k];
  }

  // ---------------------------------------------------------------------
  // nextAdmissionTempId / nextStudentId
  // ---------------------------------------------------------------------

  /// nextStudentId is larger than the leading id of every student line, at
  /// least 120, 120 without a file, and otherwise one past the floor or one
  /// past some line's leading id.
  lemma NextStudentIdSpec(db: Db)
    requires Consistent(db)
    ensures NextStudentIdOf(db) >= StudentIdFloor + 1
    ensures forall k :: 0 <= k < |db.students| && Fields(db.students[k]) != [] ==>
              Atoi(Fields(db.students[k])[0]) < NextStudentIdOf(db)
    ensures !db.studentsPresent ==> NextStudentIdOf(db) == 120
    ensures NextStudentIdOf(db) == StudentIdFloor + 1 ||
            exists k :: 0 <= k < |db.students| && HasLeadingId(db.students[k], NextStudentIdOf(db) - 1)
  {
    MaxLeadingIdAttained(db.students, StudentIdFloor);
    MaxLeadingIdBound(db.students, StudentIdFloor);
  }

  /// The same for nextAdmissionTempId, with 1001 in place of 120.
  lemma NextAdmissionTempIdSpec(db: Db)
    requires Consistent(db)
    ensures NextAdmissionTempIdOf(db) >= AdmissionIdFloor + 1
    ensures forall k :: 0 <= k < |db.admissions| && Fields(db.admissions[k]) != [] ==>
              Atoi(Fields(db.admissions[k])[0]) < NextAdmissionTempIdOf(db)
    ensures !db.admissionsPresent ==> NextAdmissionTempIdOf(db) == 1001
    ensures NextAdmissionTempIdOf(db) == AdmissionIdFloor + 1 ||
            exists k :: 0 <= k < |db.admissions| && HasLeadingId(db.admissions[k], NextAdmissionTempIdOf(db) - 1)
  {
    MaxLeadingIdAttained(db.admissions, AdmissionIdFloor);
    MaxLeadingIdBound(db.admissions, AdmissionIdFloor);
  }

  /// No student line carries the next student id, so a record with it is
  /// not found.
  lemma NextStudentIdUnused(db: Db)
    requires Consistent(db)
    ensures !HasId(db.students, NextStudentIdOf(db))
    ensures !FindStudentOf(db, NextStudentIdOf(db)).Found?
  {
    NextStudentIdSpec(db);
    HasIdIff(db.students, NextStudentIdOf(db));
    FindStudentIff(db.students, NextStudentIdOf(db));
  }

  // ---------------------------------------------------------------------
  // createLogin and loginUser
  // ---------------------------------------------------------------------

  /// createLogin refuses a username some login line starts with, leaving
  /// everything unchanged; otherwise it appends exactly one line or fails
  /// with -1 and changes nothing.
  lemma CreateLoginCases(db: Db, io: Io, u: string, p: string, role: string, sid: int)
    ensures var o := CreateLoginOf(db, io, u, p, role, sid);
            (o.rc == 0 <==> UsernameInLogins(db.logins, u)) &&
            (o.rc == -1 <==> !UsernameInLogins(db.logins, u) && !io.loginsAppendable) &&
            (o.rc != 1 ==> o.db == db) &&
            (o.rc == 1 ==> o.db == db.(logins := db.logins + [LoginLine(u, p, role, sid)]))
  {
  }

  /// After a successful createLogin the new user can log in with the
  /// password given and gets the role (cut to 15 characters) and the
  /// student id; a second createLogin with the same username is refused.
  lemma CreateLoginThenLogin(db: Db, io: Io, u: string, p: string, role: string, sid: int)
    requires IsField(u) && IsField(p) && IsField(role) && !IsSpace(u[0])
    requires CreateLoginOf(db, io, u, p, role, sid).rc == 1
    ensures var after := CreateLoginOf(db, io, u, p, role, sid).db;
            LoginUser(after.logins, u, p) == Some(Session(Prefix(role, RoleLength), sid)) &&
            CreateLoginOf(after, io, u, p, role, sid).rc == 0
  {
    var lines := db.logins + [LoginLine(u, p, role, sid)];
    UsernameInLoginsIff(db.logins, u);
    UsernameInLoginsIff(lines, u);
    FieldsOfLoginLine(u, p, role, sid);
    AtoiIntToString(sid);
    assert lines[|db.logins|] == LoginLine(u, p, role, sid);
    forall j | 0 <= j < |db.logins|
      ensures !LoginMatches(lines[j], u, p)
    {
      assert lines[j] == db.logins[j];
      assert !FirstFieldIs(db.logins[j], u);
    }
    LoginUserFirst(lines, u, p, |db.logins|);
    assert FirstFieldIs(lines[|db.logins|], u);
  }

  // ---------------------------------------------------------------------
  // addStudentRecord and findStudentById
  // ---------------------------------------------------------------------

  /// addStudentRecord refuses an id findStudentById finds; once a record is
  /// added, findStudentById returns exactly it and adding it again is
  /// refused.
  lemma AddThenFind(db: Db, io: Io, s: Student)
    requires Consistent(db) && Storable(s)
    ensures var o := AddStudentOf(db, io, s);
            (o.rc == 0 <==> FindStudentOf(db, s.id).Found?) &&
            (o.rc != 1 ==> o.db == db) &&
            (o.rc == 1 ==> Consistent(o.db) && o.db.students == db.students + [StudentLine(s)] &&
                           FindStudentOf(o.db, s.id) == Found(s) &&
                           AddStudentOf(o.db, io, s).rc == 0)
  {
    var o := AddStudentOf(db, io, s);
    FindStudentIff(db.students, s.id);
    if o.rc == 1 {
      var lines := db.students + [StudentLine(s)];
      StudentLineId(s);
      ParseStudentLine(s);
      assert lines[|db.students|] == StudentLine(s);
      forall j | 0 <= j < |db.students|
        ensures !StudentWithId(lines[j], s.id)
      {
        assert lines[j] == db.students[j];
      }
      FindStudentFirst(lines, s.id, |db.students|);
    }
  }

  /// When every line findStudentById could stop at holds the same record,
  /// and there is one, that record is what it returns.
  lemma {:induction false} FindStudentUniform(lines: seq<string>, id: int, v: Student)
    requires forall k :: 0 <= k < |lines| && StudentWithId(lines[k], id) ==> ParseStudent(lines[k]) == Some(v)
    requires exists k :: 0 <= k < |lines| && StudentWithId(lines[k], id)
    ensures FindStudent(lines, id) == Some(v)
  {
    if !StudentWithId(lines[0], id) {
      var k :| 0 <= k < |lines| && StudentWithId(lines[k], id);
      assert lines[1..][k - 1] == lines[k];
      FindStudentUniform(lines[1..], id, v);
    }
  }

  // ---------------------------------------------------------------------
  // updateStudentRecord
  // ---------------------------------------------------------------------

  /// Every line of the rewritten table that starts with the id is the new
  /// record.
  lemma {:induction false} UpdatedLinesWithId(lines: seq<string>, id: int, data: Student)
    ensures forall w :: w in UpdatedLines(lines, id, data) && HasLeadingId(w, id) ==>
              w == StudentLine(data.(id := id))
  {
    if lines != [] {
      var x := lines[|lines| - 1];
      UpdatedLinesWithId(lines[..|lines| - 1], id, data);
      FieldsTrimmed(x);
    }
  }

  /// The rewritten table holds the new record wherever a line had the id.
  lemma {:induction false} UpdatedLinesHaveRecord(lines: seq<string>, id: int, data: Student)
    requires HasId(lines, id)
    ensures StudentLine(data.(id := id)) in UpdatedLines(lines, id, data)
  {
    var x := lines[|lines| - 1];
    if !HasLeadingId(x, id) {
      UpdatedLinesHaveRecord(lines[..|lines| - 1], id, data);
    }
  }

  /// Apart from the lines with the id, the rewrite keeps every line that
  /// has a token, trimmed and in order: dropping the id from the updated
  /// table gives what dropping it from the old table gives.
  lemma {:induction false} UpdateKeepsOthers(lines: seq<string>, id: int, data: Student)
    requires Storable(data)
    ensures DropById(UpdatedLines(lines, id, data), id) == DropById(lines, id)
  {
    if lines != [] {
      var init := lines[..|lines| - 1];
      var x := lines[|lines| - 1];
      UpdateKeepsOthers(init, id, data);
      DropByIdConcat(UpdatedLines(init, id, data), UpdateLine(x, id, data), id);
      if Fields(x) != [] && HasLeadingId(x, id) {
        StudentLineId(data.(id := id));
        assert DropById([StudentLine(data.(id := id))], id) == [];
      } else if Fields(x) != [] {
        FieldsTrimmed(x);
        TrimmedTwice(x);
        assert DropById([Trimmed(x)], id) == [Trimmed(x)];
      }
    }
  }

  /// updateStudentRecord: not found means return 0 and no change; found
  /// means every line with the id now holds the new record, which
  /// findStudentById returns.
  lemma UpdateThenFind(db: Db, io: Io, id: int, data: Student)
    requires Consistent(db) && Storable(data) && db.studentsPresent && io.tempWritable
    ensures var o := UpdateStudentOf(db, io, id, data);
            (o.rc == 0 <==> !HasId(db.students, id)) &&
            (o.rc == 0 ==> o.db == db && FindStudentOf(db, id) == NotFound) &&
            (o.rc == 1 ==> FindStudentOf(o.db, id) == Found(data.(id := id)))
  {
    var o := UpdateStudentOf(db, io, id, data);
    if o.rc == 1 {
      var out := UpdatedLines(db.students, id, data);
      var d := data.(id := id);
      UpdatedLinesWithId(db.students, id, data);
      UpdatedLinesHaveRecord(db.students, id, data);
      StudentLineId(d);
      ParseStudentLine(d);
      forall k | 0 <= k < |out| && StudentWithId(out[k], id)
        ensures ParseStudent(out[k]) == Some(d)
      {
        assert out[k] in out;
      }
      var j :| 0 <= j < |out| && out[j] == StudentLine(d);
      FindStudentUniform(out, id, d);
    } else if o.rc == 0 {
      HasIdIff(db.students, id);
      FindStudentIff(db.students, id);
      forall k | 0 <= k < |db.students|
        ensures !StudentWithId(db.students[k], id)
      {
      }
    }
  }

  // ---------------------------------------------------------------------
  // deleteStudentRecord
  // ---------------------------------------------------------------------

  lemma {:induction false} DropByIdConcat(a: seq<string>, b: seq<string>, id: int)
    ensures DropById(a + b, id) == DropById(a, id) + DropById(b, id)
    decreases |b|
  {
    if b != [] {
      DropByIdConcat(a, b[..|b| - 1], id);
      assert (a + b)[..|a + b| - 1] == a + b[..|b| - 1];
    } else {
      assert a + b == a;
    }
  }

  /// No line left by the rewrite has the id, and each is a trimmed line
  /// with a token.
  lemma {:induction false} DropByIdRemoves(lines: seq<string>, id: int)
    ensures forall w :: w in DropById(lines, id) ==> Fields(w) != [] && !HasLeadingId(w, id)
    ensures !HasId(DropById(lines, id), id)
  {
    if lines != [] {
      DropByIdRemoves(lines[..|lines| - 1], id);
      FieldsTrimmed(lines[|lines| - 1]);
    }
    HasIdIff(DropById(lines, id), id);
  }

  /// Every line with a token and another id survives, trimmed.
  lemma {:induction false} DropByIdKeeps(lines: seq<string>, id: int, k: nat)
    requires k < |lines| && Fields(lines[k]) != [] && !HasLeadingId(lines[k], id)
    ensures Trimmed(lines[k]) in DropById(lines, id)
  {
    if k < |lines| - 1 {
      DropByIdKeeps(lines[..|lines| - 1], id, k);
    }
  }

  /// A single line that survives is written back trimmed.
  lemma DropByIdOne(x: string, id: int)
    requires Fields(x) != [] && !HasLeadingId(x, id)
    ensures DropById([x], id) == [Trimmed(x)]
  {
    assert [x][..0] == [];
  }

  /// The rewrite keeps the surviving lines in their order: of two lines
  /// that survive, the earlier one is written first.
  lemma DropByIdOrder(lines: seq<string>, id: int, i: nat, j: nat)
    requires i < j < |lines|
    requires Fields(lines[i]) != [] && !HasLeadingId(lines[i], id)
    requires Fields(lines[j]) != [] && !HasLeadingId(lines[j], id)
    ensures exists p, q :: 0 <= p < q < |DropById(lines, id)| &&
              DropById(lines, id)[p] == Trimmed(lines[i]) && DropById(lines, id)[q] == Trimmed(lines[j])
  {
    var front := lines[..j];
    var rest := lines[j..];
    assert lines == front + rest;
    assert rest == [lines[j]] + rest[1..];
    DropByIdConcat(front, rest, id);
    DropByIdConcat([lines[j]], rest[1..], id);
    DropByIdOne(lines[j], id);
    assert front[i] == lines[i];
    DropByIdKeeps(front, id, i);
    var d := DropById(front, id);
    var p :| 0 <= p < |d| && d[p] == Trimmed(lines[i]);
    assert DropById(lines, id)[p] == Trimmed(lines[i]);
    assert DropById(lines, id)[|d|] == Trimmed(lines[j]);
  }

  /// No login left by the cascade is linked to the id.
  lemma {:induction false} DropLoginsRemoves(lines: seq<string>, id: int)
    ensures forall w :: w in DropLoginsOf(lines, id) ==> !LinkedTo(w, id)
  {
    if lines != [] {
      DropLoginsRemoves(lines[..|lines| - 1], id);
      FieldsTrimmed(lines[|lines| - 1]);
    }
  }

  /// Every non-blank login line not linked to the id survives, trimmed;
  /// in particular every line with fewer than four tokens does.
  lemma {:induction false} DropLoginsKeeps(lines: seq<string>, id: int, k: nat)
    requires k < |lines| && Trimmed(lines[k]) != [] && !LinkedTo(lines[k], id)
    ensures Trimmed(lines[k]) in DropLoginsOf(lines, id)
  {
    if k < |lines| - 1 {
      DropLoginsKeeps(lines[..|lines| - 1], id, k);
    }
  }

  lemma {:induction false} DropLoginsConcat(a: seq<string>, b: seq<string>, id: int)
    ensures DropLoginsOf(a + b, id) == DropLoginsOf(a, id) + DropLoginsOf(b, id)
    decreases |b|
  {
    if b != [] {
      DropLoginsConcat(a, b[..|b| - 1], id);
      assert (a + b)[..|a + b| - 1] == a + b[..|b| - 1];
    } else {
      assert a + b == a;
    }
  }

  /// A single login line that survives is written back trimmed.
  lemma DropLoginsOne(x: string, id: int)
    requires Trimmed(x) != [] && !LinkedTo(x, id)
    ensures DropLoginsOf([x], id) == [Trimmed(x)]
  {
    assert [x][..0] == [];
  }

  /// The login cascade keeps the surviving lines in their order: of two
  /// lines that survive, the earlier one is written first.
  lemma DropLoginsOrder(lines: seq<string>, id: int, i: nat, j: nat)
    requires i < j < |lines|
    requires Trimmed(lines[i]) != [] && !LinkedTo(lines[i], id)
    requires Trimmed(lines[j]) != [] && !LinkedTo(lines[j], id)
    ensures exists p, q :: 0 <= p < q < |DropLoginsOf(lines, id)| &&
              DropLoginsOf(lines, id)[p] == Trimmed(lines[i]) && DropLoginsOf(lines, id)[q] == Trimmed(lines[j])
  {
    var front := lines[..j];
    var rest := lines[j..];
    assert lines == front + rest;
    assert rest == [lines[j]] + rest[1..];
    DropLoginsConcat(front, rest, id);
    DropLoginsConcat([lines[j]], rest[1..], id);
    DropLoginsOne(lines[j], id);
    assert front[i] == lines[i];
    DropLoginsKeeps(front, id, i);
    var d := DropLoginsOf(front, id);
    var p :| 0 <= p < |d| && d[p] == Trimmed(lines[i]);
    assert DropLoginsOf(lines, id)[p] == Trimmed(lines[i]);
    assert DropLoginsOf(lines, id)[|d|] == Trimmed(lines[j]);
  }

  /// deleteStudentRecord: not found means return 0 and no change; found
  /// means no student or marksheet line has the id any more, no login is
  /// linked to it, and findStudentById no longer finds it.
  lemma DeleteThenFind(db: Db, io: Io, id: int)
    requires Consistent(db) && db.studentsPresent && io.tempWritable
    ensures var o := DeleteStudentOf(db, io, id);
            (o.rc == 0 <==> !HasId(db.students, id)) &&
            (o.rc == 0 ==> o.db == db && FindStudentOf(db, id) == NotFound) &&
            (o.rc == 1 ==> !HasId(o.db.students, id) && !HasId(o.db.marksheets, id) &&
                           (forall w :: w in o.db.logins ==> !LinkedTo(w, id)) &&
                           FindStudentOf(o.db, id) == NotFound &&
                           DeleteStudentOf(o.db, io, id).rc == 0)
  {
    var o := DeleteStudentOf(db, io, id);
    DropByIdRemoves(db.students, id);
    DropByIdRemoves(db.marksheets, id);
    DropLoginsRemoves(db.logins, id);
    if o.rc == 1 {
      HasIdIff(o.db.students, id);
      FindStudentIff(o.db.students, id);
      forall k | 0 <= k < |o.db.students|
        ensures !StudentWithId(o.db.students[k], id)
      {
      }
    } else if o.rc == 0 {
      HasIdIff(db.students, id);
      FindStudentIff(db.students, id);
      forall k | 0 <= k < |db.students|
        ensures !StudentWithId(db.students[k], id)
      {
      }
    }
  }

  // ---------------------------------------------------------------------
  // registerAdmission
  // ---------------------------------------------------------------------

  /// A request whose answers can be written and read back: non-empty and
  /// comma-free.
  predicate Writable(r: Request) {
    RequestFields(r.name, r.department, r.email, r.username, r.password)
  }

  /// The pending line of a request reads back as its nine fields; its
  /// sixth is the username.
  lemma PendingLineFields(tid: int, r: Request)
    requires Writable(r)
    ensures Fields(PendingLine(tid, r)) ==
            [IntToString(tid), r.name, r.department, IntToString(r.semester), r.email,
             r.username, r.password, "pending", IntToString(0)]
    ensures SixthFieldIs(PendingLine(tid, r), r.username) && HasLeadingId(PendingLine(tid, r), tid)
  {
    FieldsOfAdmissionLine(tid, r.name, r.department, r.semester, r.email, r.username, r.password, "pending", 0);
    AtoiIntToString(tid);
  }

  /// registerAdmission rejects a bad name, then a bad email, then a taken
  /// username, changing nothing; on success the request is appended as
  /// one pending line under the next temporary id, which no earlier line
  /// has, and its username is reserved from then on.
  lemma RegisterCases(db: Db, io: Io, r: Request)
    requires Consistent(db) && Writable(r)
    ensures var o := RegisterOf(db, io, r);
            (o.result == InvalidName <==> !IsValidName(r.name)) &&
            (o.result == InvalidEmail <==> IsValidName(r.name) && !IsValidEmail(r.email)) &&
            (o.result == UsernameTaken <==> IsValidName(r.name) && IsValidEmail(r.email) &&
                                            UsernameExists(db.logins, db.admissions, r.username)) &&
            (!o.result.Registered? ==> o.db == db) &&
            (o.result.Registered? ==>
               o.result.tempId == NextAdmissionTempIdOf(db) &&
               o.db == db.(admissions := db.admissions + [PendingLine(o.result.tempId, r)],
                           admissionsPresent := true) &&
               Consistent(o.db) &&
               !HasId(db.admissions, o.result.tempId) &&
               UsernameExists(o.db.logins, o.db.admissions, r.username) &&
               RegisterOf(o.db, io, r).result == UsernameTaken)
  {
    var o := RegisterOf(db, io, r);
    if o.result.Registered? {
      var t := o.result.tempId;
      var lines := db.admissions + [PendingLine(t, r)];
      NextAdmissionTempIdSpec(db);
      HasIdIff(db.admissions, t);
      UsernameInAdmissionsIff(lines, r.username);
      PendingLineFields(t, r);
      assert lines[|db.admissions|] == PendingLine(t, r);
      assert SixthFieldIs(lines[|db.admissions|], r.username);
    }
  }
}
