/// What each store operation of main.c does to the four files, as pure
/// functions of their contents: the specification the methods of
/// StudentStore.Store are proved against.
module StoreSpec {
  import opened CType
  import opened CStrings
  import opened Helpers
  import opened Records

  /// The contents of the four files, one element per line. Whether the
  /// students and admissions files exist is recorded because it changes
  /// return codes; a missing logins or marksheets file behaves in every
  /// operation exactly like an empty one.
  datatype Db = Db(students: seq<string>, logins: seq<string>, admissions: seq<string>,
                   marksheets: seq<string>, studentsPresent: bool, admissionsPresent: bool)

  /// A file that does not exist has no lines.
  predicate Consistent(db: Db) {
    (!db.studentsPresent ==> db.students == []) && (!db.admissionsPresent ==> db.admissions == [])
  }

  /// Which fopen calls for writing succeed: appending to each table, and
  /// creating temp.txt for a rewrite.
  datatype Io = Io(studentsAppendable: bool, loginsAppendable: bool,
                   admissionsAppendable: bool, tempWritable: bool)

  /// The new contents and the return code of an operation.
  datatype Outcome = Outcome(db: Db, rc: int)

  // ---------------------------------------------------------------------
  // Identifier allocation
  // ---------------------------------------------------------------------

  /// nextAdmissionTempId: 1001 without a file, else one past the maximum.
  function NextAdmissionTempIdOf(db: Db): int {
    if !db.admissionsPresent then AdmissionIdFloor + 1
    else MaxLeadingId(db.admissions, AdmissionIdFloor) + 1
  }

  /// nextStudentId: 120 without a file, else one past the maximum.
  function NextStudentIdOf(db: Db): int {
    if !db.studentsPresent then StudentIdFloor + 1
    else MaxLeadingId(db.students, StudentIdFloor) + 1
  }

  // ---------------------------------------------------------------------
  // findStudentById / addStudentRecord / createLogin
  // ---------------------------------------------------------------------

  /// The three answers of findStudentById (-1, 0 and 1 in the C code).
  datatype Lookup = FileMissing | NotFound | Found(student: Student)

  function FindStudentOf(db: Db, id: int): Lookup {
    if !db.studentsPresent then FileMissing
    else
      match FindStudent(db.students, id)
      case None => NotFound
      case Some(s) => Found(s)
  }

  /// addStudentRecord: 0 when the id is found; otherwise the line is
  /// appended (a missing file is created) unless students.txt cannot be
  /// opened for appending.
  function AddStudentOf(db: Db, io: Io, s: Student): Outcome {
    if FindStudentOf(db, s.id).Found? then Outcome(db, 0)
    else if !io.studentsAppendable then Outcome(db, -1)
    else Outcome(db.(students := db.students + [StudentLine(s)], studentsPresent := true), 1)
  }

  /// createLogin: 0 when a login line already starts with the username;
  /// otherwise the line is appended unless logins.txt cannot be opened.
  function CreateLoginOf(db: Db, io: Io, u: string, p: string, role: string, sid: int): Outcome {
    if UsernameInLogins(db.logins, u) then Outcome(db, 0)
    else if !io.loginsAppendable then Outcome(db, -1)
    else Outcome(db.(logins := db.logins + [LoginLine(u, p, role, sid)]), 1)
  }

  // ---------------------------------------------------------------------
  // updateStudentRecord / deleteStudentRecord
  // ---------------------------------------------------------------------

  /// Some line of the table has id as its leading id (the rewrite loops'
  /// "found").
  function HasId(lines: seq<string>, id: int): bool {
    if lines == [] then false
    else HasId(lines[..|lines| - 1], id) || HasLeadingId(lines[|lines| - 1], id)
  }

  /// HasId is exactly "some line has the leading id".
  lemma {:induction false} HasIdIff(lines: seq<string>, id: int)
    ensures HasId(lines, id) <==> exists k :: 0 <= k < |lines| && HasLeadingId(lines[k], id)
  {
    if lines != [] {
      var init := lines[..|lines| - 1];
      HasIdIff(init, id);
      assert forall k :: 0 <= k < |init| ==> init[k] == lines[k];
    }
  }

  /// What the update loop writes for one line: nothing for a line with no
  /// token, the new record (with the id searched for) in place of a line
  /// with that id, and the trimmed line otherwise.
  function UpdateLine(line: string, id: int, data: Student): seq<string> {
    if Fields(line) == [] then []
    else if HasLeadingId(line, id) then [StudentLine(data.(id := id))]
    else [Trimmed(line)]
  }

  function UpdatedLines(lines: seq<string>, id: int, data: Student): seq<string> {
    if lines == [] then []
    else UpdatedLines(lines[..|lines| - 1], id, data) + UpdateLine(lines[|lines| - 1], id, data)
  }

  /// updateStudentRecord: -1 without students.txt or temp.txt, 0 (nothing
  /// changes) when no line has the id, else the table is rewritten.
  function UpdateStudentOf(db: Db, io: Io, id: int, data: Student): Outcome {
    if !db.studentsPresent || !io.tempWritable then Outcome(db, -1)
    else if !HasId(db.students, id) then Outcome(db, 0)
    else Outcome(db.(students := UpdatedLines(db.students, id, data)), 1)
  }

  /// What the delete loops write for one student or marksheet line:
  /// nothing for a line with no token or with the id, the trimmed line
  /// otherwise.
  function DropLine(line: string, id: int): seq<string> {
    if Fields(line) == [] || HasLeadingId(line, id) then [] else [Trimmed(line)]
  }

  function DropById(lines: seq<string>, id: int): seq<string> {
    if lines == [] then []
    else DropById(lines[..|lines| - 1], id) + DropLine(lines[|lines| - 1], id)
  }

  /// A login line linked to the student id: it has a fourth token and atoi
  /// of it is id.
  predicate LinkedTo(line: string, id: int) {
    |Fields(line)| >= 4 && Atoi(Fields(line)[3]) == id
  }

  /// What the login cascade writes for one line: nothing for a blank line
  /// or a line linked to id; a line with fewer than four tokens is kept.
  function DropLoginLine(line: string, id: int): seq<string> {
    if Trimmed(line) == [] || LinkedTo(line, id) then [] else [Trimmed(line)]
  }

  function DropLoginsOf(lines: seq<string>, id: int): seq<string> {
    if lines == [] then []
    else DropLoginsOf(lines[..|lines| - 1], id) + DropLoginLine(lines[|lines| - 1], id)
  }

  /// deleteStudentRecord: -1 without students.txt or temp.txt, 0 (nothing
  /// changes) when no line has the id; else the student lines with the id
  /// go, and so do the marksheet lines with it and the logins linked to it.
  function DeleteStudentOf(db: Db, io: Io, id: int): Outcome {
    if !db.studentsPresent || !io.tempWritable then Outcome(db, -1)
    else if !HasId(db.students, id) then Outcome(db, 0)
    else Outcome(db.(students := DropById(db.students, id),
                     marksheets := DropById(db.marksheets, id),
                     logins := DropLoginsOf(db.logins, id)), 1)
  }

  // ---------------------------------------------------------------------
  // registerAdmission
  // ---------------------------------------------------------------------

  /// The answers registerAdmission collects at its prompts.
  datatype Request = Request(name: string, department: string, semester: int,
                             email: string, username: string, password: string)

  /// How a registration ends. UsernameTaken is where the C code prompts
  /// for another username; the other failures return -1.
  datatype Registration = InvalidName | InvalidEmail | UsernameTaken | WriteFailed | Registered(tempId: int)

  datatype RegisterOutcome = RegisterOutcome(db: Db, result: Registration)

  /// The pending line a request is saved as.
  function PendingLine(tid: int, r: Request): string {
    AdmissionLine(tid, r.name, r.department, r.semester, r.email, r.username, r.password, "pending", 0)
  }

  function RegisterOf(db: Db, io: Io, r: Request): RegisterOutcome {
    if !IsValidName(r.name) then RegisterOutcome(db, InvalidName)
    else if !IsValidEmail(r.email) then RegisterOutcome(db, InvalidEmail)
    else if UsernameExists(db.logins, db.admissions, r.username) then RegisterOutcome(db, UsernameTaken)
    else
      var tid := NextAdmissionTempIdOf(db);
      if !io.admissionsAppendable then RegisterOutcome(db, WriteFailed)
      else RegisterOutcome(db.(admissions := db.admissions + [PendingLine(tid, r)], admissionsPresent := true),
                           Registered(tid))
  }

  // ---------------------------------------------------------------------
  // approveAdmissionById
  // ---------------------------------------------------------------------

  /// The cgpa a newly approved student starts with ("%.2f" of 0.00f).
  const ApprovedCgpa: string := "0.00"

  /// The role of a login created by approval.
  const StudentRole: string := "student"

  /// The status of a request line: its eighth token, "pending" when absent.
  function StatusOf(f: seq<string>): string {
    if |f| >= 8 then f[7] else "pending"
  }

  /// The student id a request line is linked to: atoi of its ninth token,
  /// 0 when absent.
  function LinkedIdOf(f: seq<string>): int {
    if |f| >= 9 then Atoi(f[8]) else 0
  }

  /// The state of the approval loop: the other three tables as they stand,
  /// the lines written to temp.txt so far, "found" and "approvedCount".
  datatype Approval = Approval(db: Db, out: seq<string>, found: bool, approved: nat)

  /// The student an approvable request line becomes.
  function NewStudent(db: Db, f: seq<string>): Student
    requires |f| >= 7
  {
    Student(NextStudentIdOf(db), f[1], f[2], Atoi(f[3]), ApprovedCgpa)
  }

  /// The line written in place of a request line once it is approved.
  function ApprovedLine(tid: int, s: Student, f: seq<string>): string
    requires |f| >= 7
  {
    AdmissionLine(tid, s.name, s.department, s.semester, f[4], f[5], f[6], "approved", s.id)
  }

  /// One pass of the approval loop over a line of admission_requests.txt:
  /// a blank line is written back blank, a line with no token or another
  /// id is written back trimmed, a line with the target id is a request.
  function ApproveLine(a: Approval, io: Io, target: int, line: string): Approval {
    var t := Trimmed(line);
    var f := Split(t);
    if t == [] then a.(out := a.out + [""])
    else if f == [] || Atoi(f[0]) != target then a.(out := a.out + [t])
    else ApproveRequest(a.(found := true), io, target, t, f)
  }

  /// A request line with the target id: written back unchanged when it has
  /// fewer than seven tokens, is already approved with a positive student
  /// id, or its username is already in the logins; otherwise admitted.
  function ApproveRequest(a: Approval, io: Io, target: int, t: string, f: seq<string>): Approval {
    if |f| < 7 then a.(out := a.out + [t])
    else if StatusOf(f) == "approved" && LinkedIdOf(f) > 0 then a.(out := a.out + [t])
    else if UsernameInLogins(a.db.logins, f[5]) then a.(out := a.out + [t])
    else Admit(a, io, target, t, f)
  }

  /// Admitting a request: add the student under the next student id; when
  /// that fails keep the request; then create the login, and when that
  /// fails delete the student again and keep the request.
  function Admit(a: Approval, io: Io, target: int, t: string, f: seq<string>): Approval
    requires |f| >= 7
  {
    var s := NewStudent(a.db, f);
    var added := AddStudentOf(a.db, io, s);
    if added.rc != 1 then a.(out := a.out + [t])
    else
      var login := CreateLoginOf(added.db, io, f[5], f[6], StudentRole, s.id);
      if login.rc == 1 then
        Approval(login.db, a.out + [ApprovedLine(target, s, f)], a.found, a.approved + 1)
      else
        Approval(DeleteStudentOf(login.db, io, s.id).db, a.out + [t], a.found, a.approved)
  }

  /// The approval loop over the first |lines| lines.
  function ApproveLines(a: Approval, io: Io, target: int, lines: seq<string>): Approval {
    if lines == [] then a
    else ApproveLine(ApproveLines(a, io, target, lines[..|lines| - 1]), io, target, lines[|lines| - 1])
  }

  /// approveAdmissionById: -1 without the admissions file or temp.txt;
  /// otherwise every line is processed, temp.txt replaces the admissions
  /// file, and the result is 1 when some request was approved, else 0.
  function ApproveOf(db: Db, io: Io, target: int): Outcome {
    if !db.admissionsPresent || !io.tempWritable then Outcome(db, -1)
    else
      var a := ApproveLines(Approval(db, [], false, 0), io, target, db.admissions);
      Outcome(a.db.(admissions := a.out), if a.found && a.approved > 0 then 1 else 0)
  }
}
