/// Properties of approveAdmissionById: what one pass of its loop does to a
/// line and to the other tables, what the whole loop does, and what the
/// return code means.
module ApprovalFacts {
  import opened CType
  import opened CStrings
  import opened Helpers
  import opened Records
  import opened StoreSpec
  import opened StoreFacts

  /// What the loop may write to temp.txt for a line: the trimmed line, or,
  /// for a request with the target id, the request marked approved and
  /// linked to some student id.
  ghost predicate WrittenFor(line: string, w: string, target: int) {
    w == Trimmed(line) ||
    (HasLeadingId(line, target) && |Fields(line)| >= 7 &&
     exists sid :: w == AdmissionLine(target, Fields(line)[1], Fields(line)[2], Atoi(Fields(line)[3]),
                                      Fields(line)[4], Fields(line)[5], Fields(line)[6], "approved", sid))
  }

  // ---------------------------------------------------------------------
  // One pass of the loop
  // ---------------------------------------------------------------------

  /// Each pass writes exactly one line to temp.txt for the line it read:
  /// the trimmed line, or the approved form of a request with the target
  /// id.
  lemma ApproveLineWrites(a: Approval, io: Io, target: int, line: string)
    ensures var r := ApproveLine(a, io, target, line);
            |r.out| == |a.out| + 1 && r.out[..|a.out|] == a.out &&
            WrittenFor(line, r.out[|a.out|], target)
  {
    var t := Trimmed(line);
    var f := Split(t);
    if t != [] && f != [] && Atoi(f[0]) == target {
      assert HasLeadingId(line, target);
      var a' := a.(found := true);
      if |f| >= 7 && !(StatusOf(f) == "approved" && LinkedIdOf(f) > 0) && !UsernameInLogins(a.db.logins, f[5]) {
        AdmitWrites(a', io, target, t, f);
      }
    }
  }

  /// Admitting writes one line: the request as read, or the request marked
  /// approved with the new student id.
  lemma AdmitWrites(a: Approval, io: Io, target: int, t: string, f: seq<string>)
    requires |f| >= 7
    ensures var r := Admit(a, io, target, t, f);
            r.out == a.out + [t] ||
            r.out == a.out + [AdmissionLine(target, f[1], f[2], Atoi(f[3]), f[4], f[5], f[6], "approved",
                                            NextStudentIdOf(a.db))]
  {
  }

  /// Each pass sets "found" exactly when the line has the target id, never
  /// lowers "approvedCount", keeps the other tables consistent, leaves the
  /// admissions file alone (it is only read), and with logins.txt
  /// appendable removes no login.
  lemma ApproveLineState(a: Approval, io: Io, target: int, line: string)
    requires Consistent(a.db)
    ensures var r := ApproveLine(a, io, target, line);
            r.found == (a.found || HasLeadingId(line, target)) &&
            r.approved >= a.approved && Consistent(r.db) &&
            r.db.admissions == a.db.admissions && r.db.admissionsPresent == a.db.admissionsPresent &&
            (io.loginsAppendable ==> a.db.logins <= r.db.logins)
  {
    var t := Trimmed(line);
    var f := Split(t);
    if t != [] && f != [] && Atoi(f[0]) == target {
      var a' := a.(found := true);
      if |f| >= 7 && !(StatusOf(f) == "approved" && LinkedIdOf(f) > 0) && !UsernameInLogins(a.db.logins, f[5]) {
        AdmitState(a', io, target, t, f);
      }
    }
  }

  /// Admitting keeps "found", never lowers "approvedCount", keeps the
  /// tables consistent and the admissions file as it was, and only a
  /// rollback, which needs logins.txt to be unwritable, removes logins.
  lemma AdmitState(a: Approval, io: Io, target: int, t: string, f: seq<string>)
    requires Consistent(a.db) && |f| >= 7 && !UsernameInLogins(a.db.logins, f[5])
    ensures var r := Admit(a, io, target, t, f);
            r.found == a.found && r.approved >= a.approved && Consistent(r.db) &&
            r.db.admissions == a.db.admissions && r.db.admissionsPresent == a.db.admissionsPresent &&
            (io.loginsAppendable ==> a.db.logins <= r.db.logins)
  {
    var s := NewStudent(a.db, f);
    var added := AddStudentOf(a.db, io, s);
    if added.rc == 1 {
      assert added.db.logins == a.db.logins && added.db.studentsPresent;
      var login := CreateLoginOf(added.db, io, f[5], f[6], StudentRole, s.id);
      if io.loginsAppendable {
        assert login.rc == 1;
        assert login.db.logins == a.db.logins + [LoginLine(f[5], f[6], StudentRole, s.id)];
      } else {
        assert login == Outcome(added.db, -1);
        var del := DeleteStudentOf(added.db, io, s.id);
        assert del.db.studentsPresent && del.db.admissions == a.db.admissions;
      }
    }
  }

  /// A line without the target id (blank, with no token, or with another
  /// id) is written back trimmed and nothing else changes.
  lemma ApproveLineOther(a: Approval, io: Io, target: int, line: string)
    requires !HasLeadingId(line, target)
    ensures ApproveLine(a, io, target, line) == a.(out := a.out + [Trimmed(line)])
  {
  }

  /// A request with the target id that has fewer than seven tokens, is
  /// already approved with a positive student id, or whose username a
  /// login line already starts with, is written back trimmed; only "found"
  /// changes.
  lemma ApproveLineSkipped(a: Approval, io: Io, target: int, line: string)
    requires HasLeadingId(line, target)
    requires |Fields(line)| < 7 ||
             (StatusOf(Fields(line)) == "approved" && LinkedIdOf(Fields(line)) > 0) ||
             UsernameInLogins(a.db.logins, Fields(line)[5])
    ensures ApproveLine(a, io, target, line) == a.(out := a.out + [Trimmed(line)], found := true)
  {
  }

  /// The request a line makes, once it is known to have at least seven
  /// tokens: the student it would become and its login.
  predicate Approvable(a: Approval, target: int, line: string) {
    HasLeadingId(line, target) && |Fields(line)| >= 7 &&
    !(StatusOf(Fields(line)) == "approved" && LinkedIdOf(Fields(line)) > 0) &&
    !UsernameInLogins(a.db.logins, Fields(line)[5])
  }

  /// A line of an approvable request takes the admitting branch.
  lemma ApproveLineAdmits(a: Approval, io: Io, target: int, line: string)
    requires Approvable(a, target, line)
    ensures ApproveLine(a, io, target, line) == Admit(a.(found := true), io, target, Trimmed(line), Fields(line))
  {
  }

  /// Admitting a request whose username is free: when it counts as
  /// approved, both appends happened, under a student id no line had.
  lemma AdmitAdds(a: Approval, io: Io, target: int, t: string, f: seq<string>)
    requires Consistent(a.db) && |f| >= 7
    requires Admit(a, io, target, t, f).approved > a.approved
    ensures io.studentsAppendable && io.loginsAppendable
    ensures var s := NewStudent(a.db, f);
            var r := Admit(a, io, target, t, f);
            !HasId(a.db.students, s.id) &&
            r.approved == a.approved + 1 && r.found == a.found &&
            r.db == a.db.(students := a.db.students + [StudentLine(s)], studentsPresent := true,
                          logins := a.db.logins + [LoginLine(f[5], f[6], StudentRole, s.id)]) &&
            r.out == a.out + [ApprovedLine(target, s, f)]
  {
    NextStudentIdUnused(a.db);
  }

  /// A successful approval appends exactly one student line (the next
  /// student id, which no line had, the request's name, department and
  /// semester, cgpa 0.00) and exactly one login (the request's username
  /// and password, role student, that id), and writes the request back
  /// marked approved with that id. The applicant can then log in.
  lemma ApproveLineSuccess(a: Approval, io: Io, target: int, line: string)
    requires Consistent(a.db)
    requires ApproveLine(a, io, target, line).approved > a.approved
    ensures Approvable(a, target, line) && io.studentsAppendable && io.loginsAppendable
    ensures var f := Fields(line);
            var s := NewStudent(a.db, f);
            var r := ApproveLine(a, io, target, line);
            s == Student(NextStudentIdOf(a.db), f[1], f[2], Atoi(f[3]), ApprovedCgpa) &&
            !HasId(a.db.students, s.id) &&
            r.approved == a.approved + 1 && r.found &&
            r.db == a.db.(students := a.db.students + [StudentLine(s)], studentsPresent := true,
                          logins := a.db.logins + [LoginLine(f[5], f[6], StudentRole, s.id)]) &&
            r.out == a.out + [ApprovedLine(target, s, f)]
  {
    var f := Fields(line);
    ApproveLineOnlyAdmits(a, io, target, line);
    ApproveLineAdmits(a, io, target, line);
    AdmitAdds(a.(found := true), io, target, Trimmed(line), f);
  }

  /// Only the admitting branch counts an approval.
  lemma ApproveLineOnlyAdmits(a: Approval, io: Io, target: int, line: string)
    requires ApproveLine(a, io, target, line).approved > a.approved
    ensures Approvable(a, target, line)
  {
  }

  /// After a successful approval the applicant logs in with the request's
  /// username and password as a student with the new id (provided the
  /// username does not start with white space, which trim would strip
  /// from the login line).
  lemma ApproveLineLogin(a: Approval, io: Io, target: int, line: string)
    requires Consistent(a.db)
    requires ApproveLine(a, io, target, line).approved > a.approved
    requires |Fields(line)| >= 6 && Fields(line)[5] != [] && !IsSpace(Fields(line)[5][0])
    ensures |Fields(line)| >= 7 &&
            LoginUser(ApproveLine(a, io, target, line).db.logins, Fields(line)[5], Fields(line)[6]) ==
            Some(Session(StudentRole, NextStudentIdOf(a.db)))
  {
    var f := Fields(line);
    ApproveLineSuccess(a, io, target, line);
    FieldsAreFields(line);
    assert f[5] in f && f[6] in f;
    var s := NewStudent(a.db, f);
    var added := AddStudentOf(a.db, io, s);
    CreateLoginThenLogin(added.db, io, f[5], f[6], StudentRole, s.id);
  }

  /// Admitting a request whose username is free, with students.txt
  /// appendable: the student is added, and createLogin cannot report the
  /// username as taken, so it either succeeds or cannot open logins.txt.
  lemma AdmitReachesLogin(a: Approval, io: Io, f: seq<string>)
    requires Consistent(a.db) && io.studentsAppendable
    requires |f| >= 7 && !UsernameInLogins(a.db.logins, f[5])
    ensures var s := NewStudent(a.db, f);
            var added := AddStudentOf(a.db, io, s);
            added.rc == 1 && CreateLoginOf(added.db, io, f[5], f[6], StudentRole, s.id).rc != 0
  {
    NextStudentIdUnused(a.db);
  }

  /// When logins.txt cannot be opened, the student just added is deleted
  /// again together with everything linked to its id, and the request is
  /// written back as read.
  lemma AdmitRollback(a: Approval, io: Io, target: int, t: string, f: seq<string>)
    requires Consistent(a.db) && io.tempWritable && io.studentsAppendable && !io.loginsAppendable
    requires |f| >= 7 && !UsernameInLogins(a.db.logins, f[5]) && IsField(f[1]) && IsField(f[2])
    ensures var r := Admit(a, io, target, t, f);
            var sid := NextStudentIdOf(a.db);
            r.out == a.out + [t] && r.found == a.found && r.approved == a.approved &&
            r.db.students == DropById(a.db.students, sid) &&
            r.db.marksheets == DropById(a.db.marksheets, sid) &&
            r.db.logins == DropLoginsOf(a.db.logins, sid)
  {
    var s := NewStudent(a.db, f);
    var sid := s.id;
    var added := a.db.(students := a.db.students + [StudentLine(s)], studentsPresent := true);
    assert Admit(a, io, target, t, f) == Approval(DeleteStudentOf(added, io, sid).db, a.out + [t], a.found, a.approved) by {
      AdmitReachesLogin(a, io, f);
    }
    assert Storable(s);
    assert HasId(added.students, sid) by {
      StudentLineId(s);
      HasIdConcat(a.db.students, [StudentLine(s)], sid);
    }
    assert DropById(added.students, sid) == DropById(a.db.students, sid) by {
      StudentLineId(s);
      DropByIdConcat(a.db.students, [StudentLine(s)], sid);
      assert DropById([StudentLine(s)], sid) == [];
    }
  }

  /// createLogin cannot report a taken username inside the loop: the
  /// username was checked against the logins just before and adding the
  /// student does not touch them. So when the login cannot be created it
  /// is because logins.txt cannot be opened, and the student just added is
  /// deleted again: no student line and no login carries its id, the
  /// request is written back as it was, and nothing counts as approved.
  lemma ApproveLineRollback(a: Approval, io: Io, target: int, line: string)
    requires Consistent(a.db) && io.tempWritable
    requires Approvable(a, target, line) && io.studentsAppendable
    ensures var s := NewStudent(a.db, Fields(line));
            var added := AddStudentOf(a.db, io, s);
            added.rc == 1 &&
            CreateLoginOf(added.db, io, Fields(line)[5], Fields(line)[6], StudentRole, s.id).rc != 0
    ensures !io.loginsAppendable ==>
              var r := ApproveLine(a, io, target, line);
              var sid := NextStudentIdOf(a.db);
              r.out == a.out + [Trimmed(line)] && r.found && r.approved == a.approved &&
              r.db.students == DropById(a.db.students, sid) &&
              r.db.marksheets == DropById(a.db.marksheets, sid) &&
              r.db.logins == DropLoginsOf(a.db.logins, sid) &&
              !HasId(r.db.students, sid) &&
              (forall w :: w in r.db.logins ==> !LinkedTo(w, sid))
  {
    var f := Fields(line);
    FieldsAreFields(line);
    assert f[1] in f && f[2] in f;
    ApproveLineAdmits(a, io, target, line);
    AdmitReachesLogin(a.(found := true), io, f);
    if !io.loginsAppendable {
      AdmitRollback(a.(found := true), io, target, Trimmed(line), f);
      DropByIdRemoves(a.db.students, NextStudentIdOf(a.db));
      DropLoginsRemoves(a.db.logins, NextStudentIdOf(a.db));
    }
  }

  /// An approved line is settled: reading it again with the same target
  /// takes the "already approved" branch and writes it back unchanged.
  lemma ApprovedLineSettled(b: Approval, io: Io, target: int, s: Student, f: seq<string>)
    requires |f| >= 7 && forall t :: t in f ==> IsField(t)
    requires IsField(s.name) && IsField(s.department) && s.id > 0
    ensures var w := ApprovedLine(target, s, f);
            ApproveLine(b, io, target, w) == b.(out := b.out + [w], found := true)
  {
    assert forall k :: 0 <= k < |f| ==> f[k] in f;
    var w := ApprovedLine(target, s, f);
    FieldsOfAdmissionLine(target, s.name, s.department, s.semester, f[4], f[5], f[6], "approved", s.id);
    AtoiIntToString(target);
    AtoiIntToString(s.id);
  }

  // ---------------------------------------------------------------------
  // The whole loop
  // ---------------------------------------------------------------------

  /// Line by line, each line of outs is what the loop may write for the
  /// line of lines at the same place.
  ghost predicate AllWrittenFor(lines: seq<string>, outs: seq<string>, target: int) {
    |outs| == |lines| &&
    (lines != [] ==>
       AllWrittenFor(lines[..|lines| - 1], outs[..|outs| - 1], target) &&
       WrittenFor(lines[|lines| - 1], outs[|outs| - 1], target))
  }

  lemma {:induction false} AllWrittenForAt(lines: seq<string>, outs: seq<string>, target: int, k: nat)
    requires AllWrittenFor(lines, outs, target) && k < |lines|
    ensures WrittenFor(lines[k], outs[k], target)
  {
    if k < |lines| - 1 {
      AllWrittenForAt(lines[..|lines| - 1], outs[..|outs| - 1], target, k);
    }
  }

  /// The loop writes one line per line read, each the trimmed line or the
  /// approved form of a request with the target id.
  lemma {:induction false} ApproveLinesWrites(a: Approval, io: Io, target: int, lines: seq<string>)
    ensures var r := ApproveLines(a, io, target, lines);
            |r.out| == |a.out| + |lines| && r.out[..|a.out|] == a.out &&
            AllWrittenFor(lines, r.out[|a.out|..], target)
  {
    if lines != [] {
      var init := lines[..|lines| - 1];
      var m := ApproveLines(a, io, target, init);
      ApproveLinesWrites(a, io, target, init);
      ApproveLineWrites(m, io, target, lines[|lines| - 1]);
      var r := ApproveLine(m, io, target, lines[|lines| - 1]);
      var outs := r.out[|a.out|..];
      assert r.out[..|m.out|] == m.out;
      assert outs[..|outs| - 1] == m.out[|a.out|..];
      assert outs[|outs| - 1] == r.out[|m.out|];
    }
  }

  /// Over the whole loop "found" records whether some line has the target
  /// id, the other tables stay consistent, the admissions file is only
  /// read, and with logins.txt appendable no login is ever removed.
  lemma {:induction false} ApproveLinesState(a: Approval, io: Io, target: int, lines: seq<string>)
    requires Consistent(a.db)
    ensures var r := ApproveLines(a, io, target, lines);
            r.found == (a.found || HasId(lines, target)) &&
            r.approved >= a.approved && Consistent(r.db) &&
            r.db.admissions == a.db.admissions && r.db.admissionsPresent == a.db.admissionsPresent &&
            (io.loginsAppendable ==> a.db.logins <= r.db.logins)
  {
    if lines != [] {
      var init := lines[..|lines| - 1];
      ApproveLinesState(a, io, target, init);
      ApproveLineState(ApproveLines(a, io, target, init), io, target, lines[|lines| - 1]);
    }
  }

  /// The approved form of a request line reads back as the request's
  /// tokens with the target id, status "approved" and the student id.
  lemma ApprovedFormFields(line: string, target: int, sid: int)
    requires |Fields(line)| >= 7
    ensures var f := Fields(line);
            var w := AdmissionLine(target, f[1], f[2], Atoi(f[3]), f[4], f[5], f[6], "approved", sid);
            Trimmed(w) == w &&
            Fields(w) == [IntToString(target), f[1], f[2], IntToString(Atoi(f[3])), f[4], f[5], f[6],
                          "approved", IntToString(sid)]
  {
    var f := Fields(line);
    FieldsAreFields(line);
    assert f[1] in f && f[2] in f && f[4] in f && f[5] in f && f[6] in f;
    FieldsOfAdmissionLine(target, f[1], f[2], Atoi(f[3]), f[4], f[5], f[6], "approved", sid);
  }

  /// A line the loop writes carries the username of the line it read.
  lemma WrittenKeepsUsername(line: string, w: string, target: int, u: string)
    requires WrittenFor(line, w, target) && SixthFieldIs(line, u)
    ensures SixthFieldIs(w, u)
  {
    if w == Trimmed(line) {
      FieldsTrimmed(line);
    } else {
      var f := Fields(line);
      var sid :| w == AdmissionLine(target, f[1], f[2], Atoi(f[3]), f[4], f[5], f[6], "approved", sid);
      ApprovedFormFields(line, target, sid);
    }
  }

  // ---------------------------------------------------------------------
  // approveAdmissionById
  // ---------------------------------------------------------------------

  /// The trace of an approval: the request at position k bears the target
  /// id and is written in its approved form with student id sid, and the
  /// student line and the student login for sid are in the tables.
  ghost predicate ApprovedAt(lines: seq<string>, out: seq<string>, db: Db, target: int, k: int, sid: int) {
    0 <= k < |lines| && k < |out| && HasLeadingId(lines[k], target) && |Fields(lines[k])| >= 7 &&
    var f := Fields(lines[k]);
    out[k] == AdmissionLine(target, f[1], f[2], Atoi(f[3]), f[4], f[5], f[6], "approved", sid) &&
    StudentLine(Student(sid, f[1], f[2], Atoi(f[3]), ApprovedCgpa)) in db.students &&
    LoginLine(f[5], f[6], StudentRole, sid) in db.logins
  }

  /// A line of a table stays in it when lines are appended.
  lemma InPrefix(x: string, s: seq<string>, t: seq<string>)
    requires x in s && s <= t
    ensures x in t
  {
    var i :| 0 <= i < |s| && s[i] == x;
    assert t[i] == x;
  }

  /// With logins.txt appendable a pass never removes a student or a login:
  /// an admitted request either is not added or gets its login.
  lemma ApproveLineGrows(a: Approval, io: Io, target: int, line: string)
    requires Consistent(a.db) && io.loginsAppendable
    ensures var r := ApproveLine(a, io, target, line);
            a.db.students <= r.db.students && a.db.logins <= r.db.logins
  {
    if Approvable(a, target, line) {
      var f := Fields(line);
      ApproveLineAdmits(a, io, target, line);
      if io.studentsAppendable {
        AdmitReachesLogin(a.(found := true), io, f);
      }
    }
  }

  /// A pass that approves leaves the trace of the line it read.
  lemma ApproveLineTraceNew(m: Approval, io: Io, target: int, init: seq<string>, x: string)
    requires Consistent(m.db) && |m.out| == |init|
    requires ApproveLine(m, io, target, x).approved > m.approved
    ensures io.studentsAppendable && io.loginsAppendable
    ensures ApprovedAt(init + [x], ApproveLine(m, io, target, x).out, ApproveLine(m, io, target, x).db,
                       target, |init|, NextStudentIdOf(m.db))
    ensures !Blocked(m.db.logins, target, x)
  {
    ApproveLineSuccess(m, io, target, x);
  }

  /// A pass keeps the trace of an earlier line while logins.txt is
  /// appendable.
  lemma ApproveLineTraceKept(m: Approval, io: Io, target: int, init: seq<string>, x: string, k: int, sid: int)
    requires Consistent(m.db) && io.loginsAppendable && ApprovedAt(init, m.out, m.db, target, k, sid)
    ensures ApprovedAt(init + [x], ApproveLine(m, io, target, x).out, ApproveLine(m, io, target, x).db,
                       target, k, sid)
  {
    var r := ApproveLine(m, io, target, x);
    var f := Fields(init[k]);
    ApproveLineWrites(m, io, target, x);
    ApproveLineGrows(m, io, target, x);
    assert (init + [x])[k] == init[k] && r.out[k] == m.out[k];
    InPrefix(StudentLine(Student(sid, f[1], f[2], Atoi(f[3]), ApprovedCgpa)), m.db.students, r.db.students);
    InPrefix(LoginLine(f[5], f[6], StudentRole, sid), m.db.logins, r.db.logins);
  }

  /// Over the whole loop: once something is approved, both tables were
  /// appendable and some request line that could be approved against the
  /// logins as they stood before the loop left its trace.
  lemma {:induction false} ApproveLinesTrace(a: Approval, io: Io, target: int, lines: seq<string>)
    requires Consistent(a.db) && a.out == []
    ensures ApproveLines(a, io, target, lines).approved > a.approved ==>
              (io.studentsAppendable && io.loginsAppendable &&
               exists k, sid :: ApprovedAt(lines, ApproveLines(a, io, target, lines).out,
                                           ApproveLines(a, io, target, lines).db, target, k, sid) &&
                                !Blocked(a.db.logins, target, lines[k]))
  {
    if lines != [] {
      var init := lines[..|lines| - 1];
      var x := lines[|lines| - 1];
      assert init + [x] == lines;
      ApproveLinesTrace(a, io, target, init);
      ApproveLinesState(a, io, target, init);
      ApproveLinesWrites(a, io, target, init);
      var m := ApproveLines(a, io, target, init);
      var r := ApproveLine(m, io, target, x);
      ApproveLineState(m, io, target, x);
      if r.approved > m.approved {
        ApproveLineTraceNew(m, io, target, init, x);
        BlockedGrows(a.db.logins, m.db.logins, target, x);
        assert ApprovedAt(lines, r.out, r.db, target, |init|, NextStudentIdOf(m.db)) &&
               !Blocked(a.db.logins, target, lines[|init|]);
      } else if r.approved > a.approved {
        var k, sid :| ApprovedAt(init, m.out, m.db, target, k, sid) && !Blocked(a.db.logins, target, init[k]);
        ApproveLineTraceKept(m, io, target, init, x, k, sid);
        assert lines[k] == init[k];
      }
    }
  }

  /// With both tables appendable, a pass over a request that can be
  /// approved approves it.
  lemma ApproveLineApproves(a: Approval, io: Io, target: int, line: string)
    requires Consistent(a.db) && io.studentsAppendable && io.loginsAppendable
    requires !Blocked(a.db.logins, target, line)
    ensures ApproveLine(a, io, target, line).approved == a.approved + 1
  {
    ApproveLineAdmits(a, io, target, line);
    AdmitReachesLogin(a.(found := true), io, Fields(line));
  }

  /// With logins.txt appendable, a pass that approves nothing leaves the
  /// logins as they were.
  lemma ApproveLineQuiet(a: Approval, io: Io, target: int, line: string)
    requires Consistent(a.db) && io.loginsAppendable
    ensures ApproveLine(a, io, target, line).approved == a.approved ==>
            ApproveLine(a, io, target, line).db.logins == a.db.logins
  {
    if !Blocked(a.db.logins, target, line) {
      ApproveLineAdmits(a, io, target, line);
      if io.studentsAppendable {
        AdmitReachesLogin(a.(found := true), io, Fields(line));
      }
    }
  }

  /// The same over the whole loop.
  lemma {:induction false} ApproveLinesQuiet(a: Approval, io: Io, target: int, lines: seq<string>)
    requires Consistent(a.db) && io.loginsAppendable
    ensures ApproveLines(a, io, target, lines).approved == a.approved ==>
            ApproveLines(a, io, target, lines).db.logins == a.db.logins
  {
    if lines != [] {
      var init := lines[..|lines| - 1];
      ApproveLinesQuiet(a, io, target, init);
      ApproveLinesState(a, io, target, init);
      var m := ApproveLines(a, io, target, init);
      ApproveLineState(m, io, target, lines[|lines| - 1]);
      ApproveLineQuiet(m, io, target, lines[|lines| - 1]);
    }
  }

  /// With both tables appendable, a loop over lines one of which can be
  /// approved against the logins it starts from approves something: up to
  /// that line either something was approved already or the logins are
  /// unchanged, so the line is still approvable when it is reached.
  lemma {:induction false} ApproveLinesApprove(a: Approval, io: Io, target: int, lines: seq<string>, k: nat)
    requires Consistent(a.db) && io.studentsAppendable && io.loginsAppendable
    requires k < |lines| && !Blocked(a.db.logins, target, lines[k])
    ensures ApproveLines(a, io, target, lines).approved > a.approved
  {
    var init := lines[..|lines| - 1];
    var x := lines[|lines| - 1];
    ApproveLinesState(a, io, target, init);
    var m := ApproveLines(a, io, target, init);
    ApproveLineState(m, io, target, x);
    if k < |init| {
      assert init[k] == lines[k];
      ApproveLinesApprove(a, io, target, init, k);
    } else {
      ApproveLinesQuiet(a, io, target, init);
      if m.approved == a.approved {
        ApproveLineApproves(m, io, target, x);
      }
    }
  }

  /// approveAdmissionById returns 1 when both files open, both tables are
  /// appendable and some line bearing the id is a request that can be
  /// approved: not short, not already approved, its username free.
  lemma ApproveSucceeds(db: Db, io: Io, target: int, k: nat)
    requires Consistent(db) && db.admissionsPresent && io.tempWritable
    requires io.studentsAppendable && io.loginsAppendable
    requires k < |db.admissions| && !Blocked(db.logins, target, db.admissions[k])
    ensures ApproveOf(db, io, target).rc == 1
  {
    var start := Approval(db, [], false, 0);
    ApproveLinesApprove(start, io, target, db.admissions, k);
    ApproveLinesState(start, io, target, db.admissions);
    HasIdIff(db.admissions, target);
  }

  /// Registering and then approving the temporary id returned: with every
  /// file writable the approval succeeds.
  lemma RegisterThenApprove(db: Db, io: Io, r: Request)
    requires Consistent(db) && Writable(r)
    requires io.tempWritable && io.studentsAppendable && io.loginsAppendable
    requires RegisterOf(db, io, r).result.Registered?
    ensures var o := RegisterOf(db, io, r);
            ApproveOf(o.db, io, o.result.tempId).rc == 1
  {
    var o := RegisterOf(db, io, r);
    var t := o.result.tempId;
    RegisterCases(db, io, r);
    PendingLineFields(t, r);
    UsernameExistsIff(db.logins, db.admissions, r.username);
    var k := |db.admissions|;
    assert o.db.admissions[k] == PendingLine(t, r);
    ApproveSucceeds(o.db, io, t, k);
  }

  /// The return code: -1 exactly when the admissions file or temp.txt
  /// cannot be opened, and then nothing changes; 1 only when some request
  /// bearing the id that could be approved was written back approved with
  /// a student id whose student line and login are in the tables; with
  /// everything writable, 1 exactly when such a request exists; never 1
  /// without a line bearing the id.
  lemma ApproveResult(db: Db, io: Io, target: int)
    requires Consistent(db)
    ensures var o := ApproveOf(db, io, target);
            (o.rc == -1 <==> !db.admissionsPresent || !io.tempWritable) &&
            (o.rc == -1 ==> o.db == db) &&
            (o.rc == 1 ==> (io.studentsAppendable && io.loginsAppendable &&
                            exists k, sid :: ApprovedAt(db.admissions, o.db.admissions, o.db, target, k, sid) &&
                                             !Blocked(db.logins, target, db.admissions[k]))) &&
            (db.admissionsPresent && io.tempWritable && io.studentsAppendable && io.loginsAppendable ==>
               (o.rc == 1 <==> exists k :: 0 <= k < |db.admissions| && !Blocked(db.logins, target, db.admissions[k]))) &&
            (!HasId(db.admissions, target) ==> o.rc != 1) &&
            Consistent(o.db)
  {
    if db.admissionsPresent && io.tempWritable {
      var start := Approval(db, [], false, 0);
      ApproveLinesState(start, io, target, db.admissions);
      ApproveLinesTrace(start, io, target, db.admissions);
      var r := ApproveLines(start, io, target, db.admissions);
      if r.approved > 0 {
        var k, sid :| ApprovedAt(db.admissions, r.out, r.db, target, k, sid) &&
                      !Blocked(db.logins, target, db.admissions[k]);
        assert ApprovedAt(db.admissions, r.out, r.db.(admissions := r.out), target, k, sid);
        if !HasId(db.admissions, target) {
          ApproveLinesNoTarget(start, io, target, db.admissions);
        }
      }
      if io.studentsAppendable && io.loginsAppendable {
        if exists k :: 0 <= k < |db.admissions| && !Blocked(db.logins, target, db.admissions[k]) {
          var k :| 0 <= k < |db.admissions| && !Blocked(db.logins, target, db.admissions[k]);
          ApproveSucceeds(db, io, target, k);
        } else {
          ApproveBlocked(db, io, target);
        }
      }
    }
  }

  /// Without a line bearing the target id the loop approves nothing.
  lemma {:induction false} ApproveLinesNoTarget(a: Approval, io: Io, target: int, lines: seq<string>)
    requires !HasId(lines, target)
    ensures ApproveLines(a, io, target, lines) == a.(out := ApproveLines(a, io, target, lines).out)
  {
    if lines != [] {
      var init := lines[..|lines| - 1];
      ApproveLinesNoTarget(a, io, target, init);
      ApproveLineOther(ApproveLines(a, io, target, init), io, target, lines[|lines| - 1]);
    }
  }

  /// Approval never releases a username: one reserved by an admission line
  /// stays reserved, and so does one reserved by a login as long as
  /// logins.txt can be appended to (only a rollback, which happens when it
  /// cannot, removes login lines).
  lemma ApprovalKeepsReservation(db: Db, io: Io, target: int, u: string)
    requires Consistent(db)
    requires UsernameInAdmissions(db.admissions, u) ||
             (io.loginsAppendable && UsernameInLogins(db.logins, u))
    ensures var o := ApproveOf(db, io, target);
            UsernameExists(o.db.logins, o.db.admissions, u)
  {
    UsernameInAdmissionsIff(db.admissions, u);
    UsernameInLoginsIff(db.logins, u);
    if db.admissionsPresent && io.tempWritable {
      var start := Approval(db, [], false, 0);
      ApproveLinesWrites(start, io, target, db.admissions);
      ApproveLinesState(start, io, target, db.admissions);
      var r := ApproveLines(start, io, target, db.admissions);
      UsernameInAdmissionsIff(r.out, u);
      UsernameInLoginsIff(r.db.logins, u);
      if UsernameInAdmissions(db.admissions, u) {
        var k :| 0 <= k < |db.admissions| && SixthFieldIs(db.admissions[k], u);
        AllWrittenForAt(db.admissions, r.out, target, k);
        WrittenKeepsUsername(db.admissions[k], r.out[k], target, u);
      } else {
        var k :| 0 <= k < |db.logins| && FirstFieldIs(db.logins[k], u);
        assert r.db.logins[k] == db.logins[k];
      }
    }
  }
  // ---------------------------------------------------------------------
  // Approving again
  // ---------------------------------------------------------------------

  /// A line the loop cannot approve against these logins: it does not
  /// bear the target id, or it is a request with fewer than seven tokens,
  /// one already approved with a positive student id, or one whose
  /// username a login line already starts with.
  predicate Blocked(logins: seq<string>, target: int, line: string) {
    !HasLeadingId(line, target) || |Fields(line)| < 7 ||
    (StatusOf(Fields(line)) == "approved" && LinkedIdOf(Fields(line)) > 0) ||
    UsernameInLogins(logins, Fields(line)[5])
  }

  /// The line neither starts nor ends with white space, so trim leaves it
  /// as it is.
  predicate IsTrimmed(line: string) {
    line == [] || (!IsSpace(line[0]) && !IsSpace(line[|line| - 1]))
  }

  /// A blocked line that is already trimmed: the loop writes it back as it is.
  predicate Settled(logins: seq<string>, target: int, line: string) {
    Blocked(logins, target, line) && IsTrimmed(line)
  }

  /// Every line is settled.
  predicate AllSettled(logins: seq<string>, target: int, lines: seq<string>) {
    forall k :: 0 <= k < |lines| ==> Settled(logins, target, lines[k])
  }

  /// The lines trimmed one by one, as the loop writes back the lines it
  /// does not approve.
  function TrimmedAll(lines: seq<string>): seq<string> {
    if lines == [] then []
    else TrimmedAll(lines[..|lines| - 1]) + [Trimmed(lines[|lines| - 1])]
  }

  /// A blocked line is written back trimmed, and only "found" can change.
  lemma ApproveLineBlocked(a: Approval, io: Io, target: int, line: string)
    requires Blocked(a.db.logins, target, line)
    ensures ApproveLine(a, io, target, line) ==
            a.(out := a.out + [Trimmed(line)], found := a.found || HasLeadingId(line, target))
  {
    if HasLeadingId(line, target) {
      ApproveLineSkipped(a, io, target, line);
    } else {
      ApproveLineOther(a, io, target, line);
    }
  }

  /// Over lines that are all blocked, the loop writes every line back
  /// trimmed, approves nothing and leaves the other tables alone.
  lemma {:induction false} ApproveLinesBlocked(a: Approval, io: Io, target: int, lines: seq<string>)
    requires forall k :: 0 <= k < |lines| ==> Blocked(a.db.logins, target, lines[k])
    ensures ApproveLines(a, io, target, lines) ==
            a.(out := a.out + TrimmedAll(lines), found := a.found || HasId(lines, target))
  {
    if lines != [] {
      var init := lines[..|lines| - 1];
      var x := lines[|lines| - 1];
      assert forall k :: 0 <= k < |init| ==> init[k] == lines[k];
      ApproveLinesBlocked(a, io, target, init);
      var m := ApproveLines(a, io, target, init);
      ApproveLineBlocked(m, io, target, x);
      assert a.out + TrimmedAll(init) + [Trimmed(x)] == a.out + TrimmedAll(lines);
    }
  }

  /// approveAdmissionById over a file in which no line can be approved
  /// returns 0 when both files open, adds no student and no login, and
  /// only rewrites the admissions trimmed.
  lemma ApproveBlocked(db: Db, io: Io, target: int)
    requires forall k :: 0 <= k < |db.admissions| ==> Blocked(db.logins, target, db.admissions[k])
    ensures var o := ApproveOf(db, io, target);
            o.rc == (if !db.admissionsPresent || !io.tempWritable then -1 else 0) &&
            o.db == (if o.rc == -1 then db else db.(admissions := TrimmedAll(db.admissions)))
  {
    if db.admissionsPresent && io.tempWritable {
      ApproveLinesBlocked(Approval(db, [], false, 0), io, target, db.admissions);
    }
  }

  /// Whether a line is blocked depends only on its tokens, so trimming it
  /// does not change that.
  lemma BlockedTrimmed(logins: seq<string>, target: int, line: string)
    ensures Blocked(logins, target, Trimmed(line)) == Blocked(logins, target, line)
  {
    FieldsTrimmed(line);
  }

  /// A line blocked by some logins stays blocked when logins are appended.
  lemma BlockedGrows(l1: seq<string>, l2: seq<string>, target: int, line: string)
    requires l1 <= l2
    ensures Blocked(l1, target, line) ==> Blocked(l2, target, line)
  {
    if HasLeadingId(line, target) && |Fields(line)| >= 7 && UsernameInLogins(l1, Fields(line)[5]) {
      var u := Fields(line)[5];
      UsernameInLoginsIff(l1, u);
      UsernameInLoginsIff(l2, u);
      var k :| 0 <= k < |l1| && FirstFieldIs(l1[k], u);
      assert l2[k] == l1[k];
    }
  }

  /// The approved form of a request is settled: it is already trimmed and
  /// says approved with a student id above the floor.
  lemma ApprovedFormSettled(logins: seq<string>, line: string, target: int, sid: int)
    requires |Fields(line)| >= 7 && sid > StudentIdFloor
    ensures var f := Fields(line);
            Settled(logins, target, AdmissionLine(target, f[1], f[2], Atoi(f[3]), f[4], f[5], f[6], "approved", sid))
  {
    var f := Fields(line);
    var w := AdmissionLine(target, f[1], f[2], Atoi(f[3]), f[4], f[5], f[6], "approved", sid);
    ApprovedFormFields(line, target, sid);
    AtoiIntToString(sid);
    var _ := TrimmedFacts(w);
  }

  /// With both tables appendable, one pass keeps every written line settled
  /// against the logins: an approvable request is always admitted and
  /// written in its approved form, and every other line is written back
  /// trimmed and stays blocked as logins only grow.
  lemma ApproveLineSettles(a: Approval, io: Io, target: int, line: string)
    requires Consistent(a.db) && io.studentsAppendable && io.loginsAppendable
    requires AllSettled(a.db.logins, target, a.out)
    ensures var r := ApproveLine(a, io, target, line);
            AllSettled(r.db.logins, target, r.out)
  {
    var r := ApproveLine(a, io, target, line);
    ApproveLineState(a, io, target, line);
    ApproveLineWrites(a, io, target, line);
    forall k | 0 <= k < |a.out|
      ensures Settled(r.db.logins, target, r.out[k])
    {
      assert r.out[k] == a.out[k];
      BlockedGrows(a.db.logins, r.db.logins, target, a.out[k]);
    }
    if Blocked(a.db.logins, target, line) {
      ApproveLineBlocked(a, io, target, line);
      BlockedTrimmed(a.db.logins, target, line);
      var _ := TrimmedFacts(line);
    } else {
      var f := Fields(line);
      var s := NewStudent(a.db, f);
      ApproveLineAdmits(a, io, target, line);
      AdmitReachesLogin(a.(found := true), io, f);
      NextStudentIdSpec(a.db);
      assert r.out == a.out + [ApprovedLine(target, s, f)];
      ApprovedFormSettled(r.db.logins, line, target, s.id);
    }
  }

  /// The same over the whole loop.
  lemma {:induction false} ApproveLinesSettle(a: Approval, io: Io, target: int, lines: seq<string>)
    requires Consistent(a.db) && io.studentsAppendable && io.loginsAppendable
    requires AllSettled(a.db.logins, target, a.out)
    ensures var r := ApproveLines(a, io, target, lines);
            AllSettled(r.db.logins, target, r.out)
  {
    if lines != [] {
      var init := lines[..|lines| - 1];
      ApproveLinesSettle(a, io, target, init);
      ApproveLinesState(a, io, target, init);
      ApproveLineSettles(ApproveLines(a, io, target, init), io, target, lines[|lines| - 1]);
    }
  }

  /// Trimming lines that are all trimmed already changes nothing.
  lemma {:induction false} TrimmedAllFixed(lines: seq<string>)
    requires forall k :: 0 <= k < |lines| ==> IsTrimmed(lines[k])
    ensures TrimmedAll(lines) == lines
  {
    if lines != [] {
      var init := lines[..|lines| - 1];
      assert forall k :: 0 <= k < |init| ==> init[k] == lines[k];
      TrimmedAllFixed(init);
      assert IsTrimmed(lines[|lines| - 1]);
      assert init + [lines[|lines| - 1]] == lines;
    }
  }

  /// Approval is idempotent while students.txt and logins.txt can be
  /// appended to: a second approveAdmissionById for the same id changes
  /// nothing and returns 0 (or -1 again when a file cannot be opened).
  lemma ApproveTwice(db: Db, io: Io, target: int)
    requires Consistent(db) && io.studentsAppendable && io.loginsAppendable
    ensures var o1 := ApproveOf(db, io, target);
            var o2 := ApproveOf(o1.db, io, target);
            o2.db == o1.db && o2.rc == (if o1.rc == -1 then -1 else 0)
  {
    if db.admissionsPresent && io.tempWritable {
      var start := Approval(db, [], false, 0);
      ApproveLinesSettle(start, io, target, db.admissions);
      ApproveLinesState(start, io, target, db.admissions);
      var r := ApproveLines(start, io, target, db.admissions);
      var d1 := r.db.(admissions := r.out);
      assert d1 == ApproveOf(db, io, target).db;
      forall k | 0 <= k < |d1.admissions|
        ensures Blocked(d1.logins, target, d1.admissions[k]) && IsTrimmed(r.out[k])
      {
        assert Settled(r.db.logins, target, r.out[k]);
      }
      ApproveBlocked(d1, io, target);
      TrimmedAllFixed(r.out);
    }
  }
}
