/// The store of main.c as an object: the four files are fields holding
/// their lines, and each operation rewrites or appends to them the way the
/// C code does, proved against the functions of StoreSpec.
module StudentStore {
  import opened CType
  import opened CStrings
  import opened Helpers
  import opened Records
  import opened StoreSpec
  import opened ApprovalFacts

  // ---------------------------------------------------------------------
  // The scanning loops shared by several operations
  // ---------------------------------------------------------------------

  /// The loop of nextAdmissionTempId and nextStudentId: trim each line,
  /// skip it when it has no token, raise the maximum to atoi of the first.
  method ScanMaxLeadingId(lines: seq<string>, floor: int) returns (maxId: int)
    ensures maxId == MaxLeadingId(lines, floor)
  {
    maxId := floor;
    var i := 0;
    while i < |lines|
      invariant 0 <= i <= |lines|
      invariant maxId == MaxLeadingId(lines[..i], floor)
    {
      assert lines[..i + 1][..i] == lines[..i];
      var line := Trimmed(lines[i]);
      if line != [] {
        var tokens := Split(line);
        if tokens != [] {
          var id := Atoi(tokens[0]);
          if id > maxId {
            maxId := id;
          }
        }
      } else {
        assert Fields(lines[i]) == [];
      }
      i := i + 1;
    }
    assert lines[..|lines|] == lines;
  }

  /// The student and marksheet rewrite of deleteStudentRecord: lines with
  /// the id are skipped, the rest written back trimmed.
  method FilterById(lines: seq<string>, id: int) returns (kept: seq<string>, found: bool)
    ensures kept == DropById(lines, id)
    ensures found == HasId(lines, id)
  {
    kept := [];
    found := false;
    var i := 0;
    while i < |lines|
      invariant 0 <= i <= |lines|
      invariant kept == DropById(lines[..i], id)
      invariant found == HasId(lines[..i], id)
    {
      assert lines[..i + 1][..i] == lines[..i];
      assert DropById(lines[..i + 1], id) == kept + DropLine(lines[i], id);
      assert HasId(lines[..i + 1], id) == (found || HasLeadingId(lines[i], id));
      var line := Trimmed(lines[i]);
      if line != [] {
        var tokens := Split(line);
        if tokens != [] {
          if Atoi(tokens[0]) == id {
            assert DropLine(lines[i], id) == [];
            found := true;
          } else {
            assert DropLine(lines[i], id) == [line];
            kept := kept + [line];
          }
        }
      } else {
        assert Fields(lines[i]) == [];
      }
      i := i + 1;
    }
    assert lines[..|lines|] == lines;
  }

  /// The login rewrite of deleteStudentRecord: blank lines are skipped,
  /// lines without a fourth token kept, lines linked to the id dropped.
  method FilterLogins(lines: seq<string>, id: int) returns (kept: seq<string>)
    ensures kept == DropLoginsOf(lines, id)
  {
    kept := [];
    var i := 0;
    while i < |lines|
      invariant 0 <= i <= |lines|
      invariant kept == DropLoginsOf(lines[..i], id)
    {
      assert lines[..i + 1][..i] == lines[..i];
      assert DropLoginsOf(lines[..i + 1], id) == kept + DropLoginLine(lines[i], id);
      var line := Trimmed(lines[i]);
      if line != [] {
        var tokens := Split(line);
        if |tokens| < 4 {
          assert DropLoginLine(lines[i], id) == [line];
          kept := kept + [line];
        } else if Atoi(tokens[3]) != id {
          assert DropLoginLine(lines[i], id) == [line];
          kept := kept + [line];
        } else {
          assert DropLoginLine(lines[i], id) == [];
        }
      }
      i := i + 1;
    }
    assert lines[..|lines|] == lines;
  }

  /// The rewrite loop of updateStudentRecord.
  method ReplaceById(lines: seq<string>, id: int, data: Student) returns (out: seq<string>, found: bool)
    ensures out == UpdatedLines(lines, id, data)
    ensures found == HasId(lines, id)
  {
    out := [];
    found := false;
    var i := 0;
    while i < |lines|
      invariant 0 <= i <= |lines|
      invariant out == UpdatedLines(lines[..i], id, data)
      invariant found == HasId(lines[..i], id)
    {
      assert lines[..i + 1][..i] == lines[..i];
      assert UpdatedLines(lines[..i + 1], id, data) == out + UpdateLine(lines[i], id, data);
      assert HasId(lines[..i + 1], id) == (found || HasLeadingId(lines[i], id));
      var line := Trimmed(lines[i]);
      if line != [] {
        var tokens := Split(line);
        if tokens != [] {
          if Atoi(tokens[0]) == id {
            assert UpdateLine(lines[i], id, data) == [StudentLine(data.(id := id))];
            out := out + [StudentLine(data.(id := id))];
            found := true;
          } else {
            assert UpdateLine(lines[i], id, data) == [line];
            out := out + [line];
          }
        }
      } else {
        assert Fields(lines[i]) == [];
      }
      i := i + 1;
    }
    assert lines[..|lines|] == lines;
  }

  // ---------------------------------------------------------------------
  // The store
  // ---------------------------------------------------------------------

  class Store {
    var students: seq<string>
    var logins: seq<string>
    var admissions: seq<string>
    var marksheets: seq<string>
    var studentsPresent: bool
    var admissionsPresent: bool
    const io: Io

    /// The contents of the four files.
    function Snapshot(): Db
      reads this
    {
      Db(students, logins, admissions, marksheets, studentsPresent, admissionsPresent)
    }

    /// A file that does not exist has no lines.
    predicate Valid()
      reads this
    {
      Consistent(Snapshot())
    }

    constructor(db: Db, io: Io)
      requires Consistent(db)
      ensures Valid() && Snapshot() == db && this.io == io
    {
      students := db.students;
      logins := db.logins;
      admissions := db.admissions;
      marksheets := db.marksheets;
      studentsPresent := db.studentsPresent;
      admissionsPresent := db.admissionsPresent;
      this.io := io;
    }

    /// nextAdmissionTempId.
    method NextAdmissionTempId() returns (id: int)
      ensures id == NextAdmissionTempIdOf(Snapshot())
    {
      if !admissionsPresent {
        return AdmissionIdFloor + 1;
      }
      var maxId := ScanMaxLeadingId(admissions, AdmissionIdFloor);
      id := maxId + 1;
    }

    /// nextStudentId.
    method NextStudentId() returns (id: int)
      ensures id == NextStudentIdOf(Snapshot())
    {
      if !studentsPresent {
        return StudentIdFloor + 1;
      }
      var maxId := ScanMaxLeadingId(students, StudentIdFloor);
      id := maxId + 1;
    }

    /// createLogin.
    method CreateLogin(u: string, p: string, role: string, sid: int) returns (rc: int)
      requires Valid()
      modifies this
      ensures Valid()
      ensures Outcome(Snapshot(), rc) == CreateLoginOf(old(Snapshot()), io, u, p, role, sid)
    {
      if UsernameInLogins(logins, u) {
        return 0;
      }
      if !io.loginsAppendable {
        return -1;
      }
      logins := logins + [LoginLine(u, p, role, sid)];
      rc := 1;
    }

    /// addStudentRecord.
    method AddStudentRecord(s: Student) returns (rc: int)
      requires Valid()
      modifies this
      ensures Valid()
      ensures Outcome(Snapshot(), rc) == AddStudentOf(old(Snapshot()), io, s)
    {
      if FindStudentOf(Snapshot(), s.id).Found? {
        return 0;
      }
      if !io.studentsAppendable {
        return -1;
      }
      students := students + [StudentLine(s)];
      studentsPresent := true;
      rc := 1;
    }

    /// updateStudentRecord.
    method UpdateStudentRecord(id: int, data: Student) returns (rc: int)
      requires Valid()
      modifies this
      ensures Valid()
      ensures Outcome(Snapshot(), rc) == UpdateStudentOf(old(Snapshot()), io, id, data)
    {
      if !studentsPresent || !io.tempWritable {
        return -1;
      }
      var out, found := ReplaceById(students, id, data);
      if !found {
        return 0;
      }
      students := out;
      rc := 1;
    }

    /// deleteStudentRecord, with its cascade to marksheets and logins.
    method DeleteStudentRecord(id: int) returns (rc: int)
      requires Valid()
      modifies this
      ensures Valid()
      ensures Outcome(Snapshot(), rc) == DeleteStudentOf(old(Snapshot()), io, id)
    {
      if !studentsPresent || !io.tempWritable {
        return -1;
      }
      var kept, found := FilterById(students, id);
      if !found {
        return 0;
      }
      students := kept;
      var keptMarks, _ := FilterById(marksheets, id);
      marksheets := keptMarks;
      logins := FilterLogins(logins, id);
      rc := 1;
    }

    /// registerAdmission, with the prompted answers as a parameter. Where
    /// the C code prompts again for a taken username, the model stops with
    /// UsernameTaken.
    method RegisterAdmission(r: Request) returns (result: Registration)
      requires Valid()
      modifies this
      ensures Valid()
      ensures RegisterOutcome(Snapshot(), result) == RegisterOf(old(Snapshot()), io, r)
    {
      if !IsValidName(r.name) {
        return InvalidName;
      }
      if !IsValidEmail(r.email) {
        return InvalidEmail;
      }
      if UsernameExists(logins, admissions, r.username) {
        return UsernameTaken;
      }
      var tid := NextAdmissionTempId();
      if !io.admissionsAppendable {
        return WriteFailed;
      }
      admissions := admissions + [PendingLine(tid, r)];
      admissionsPresent := true;
      result := Registered(tid);
    }

    /// One pass of the approval loop: the line written to temp.txt and the
    /// updated "found" and "approvedCount".
    method ApproveStep(line: string, target: int, out: seq<string>, found: bool, approved: nat)
      returns (out': seq<string>, found': bool, approved': nat)
      requires Valid()
      modifies this
      ensures Valid()
      ensures Approval(Snapshot(), out', found', approved') ==
              ApproveLine(Approval(old(Snapshot()), out, found, approved), io, target, line)
    {
      out', found', approved' := out, found, approved;
      var t := Trimmed(line);
      if t == [] {
        out' := out + [""];
        return;
      }
      var f := Split(t);
      if f == [] || Atoi(f[0]) != target {
        out' := out + [t];
        return;
      }
      found' := true;
      if |f| < 7 {
        out' := out + [t];
        return;
      }
      if StatusOf(f) == "approved" && LinkedIdOf(f) > 0 {
        out' := out + [t];
        return;
      }
      if UsernameInLogins(logins, f[5]) {
        out' := out + [t];
        return;
      }
      var sid := NextStudentId();
      var s := Student(sid, f[1], f[2], Atoi(f[3]), ApprovedCgpa);
      var added := AddStudentRecord(s);
      if added != 1 {
        out' := out + [t];
        return;
      }
      var cr := CreateLogin(f[5], f[6], StudentRole, sid);
      if cr == 1 {
        out' := out + [ApprovedLine(target, s, f)];
        approved' := approved + 1;
      } else {
        var _ := DeleteStudentRecord(sid);
        out' := out + [t];
      }
    }

    /// approveAdmissionById.
    method ApproveAdmissionById(target: int) returns (rc: int)
      requires Valid()
      modifies this
      ensures Valid()
      ensures Outcome(Snapshot(), rc) == ApproveOf(old(Snapshot()), io, target)
    {
      if !admissionsPresent || !io.tempWritable {
        return -1;
      }
      ghost var start := Approval(Snapshot(), [], false, 0);
      var out: seq<string> := [];
      var found := false;
      var approved: nat := 0;
      var i := 0;
      while i < |admissions|
        invariant 0 <= i <= |admissions|
        invariant Valid()
        invariant admissions == old(admissions) && admissionsPresent
        invariant Approval(Snapshot(), out, found, approved) == ApproveLines(start, io, target, admissions[..i])
      {
        ghost var before := Approval(Snapshot(), out, found, approved);
        var line := admissions[i];
        out, found, approved := ApproveStep(line, target, out, found, approved);
        ApproveLineState(before, io, target, line);
        assert admissions[..i + 1][..i] == admissions[..i];
        i := i + 1;
      }
      assert admissions[..|admissions|] == admissions;
      admissions := out;
      rc := if found && approved > 0 then 1 else 0;
    }
  }
}
