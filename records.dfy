/// The four comma-separated tables of main.c, line by line: how a line is
/// read (trim, then strtok on ","), the formats the program writes, and the
/// read-only scans over a table (the id allocators' maximum, the username
/// registry, findStudentById and loginUser).
module Records {
  import opened CType
  import opened CStrings

  datatype Option<T> = None | Some(value: T)

  /// nextAdmissionTempId and nextStudentId start their maximum here.
  const AdmissionIdFloor: int := 1000
  const StudentIdFloor: int := 119

  /// loginUser copies at most this many characters of the role.
  const RoleLength: nat := 15

  /// The tokens strtok(…, ",") returns for a line once trim has run on it.
  function Fields(line: string): seq<string> {
    Split(Trimmed(line))
  }

  /// The line has a first token, and atoi of it is id.
  predicate HasLeadingId(line: string, id: int) {
    Fields(line) != [] && Atoi(Fields(line)[0]) == id
  }

  // ---------------------------------------------------------------------
  // nextAdmissionTempId / nextStudentId
  // ---------------------------------------------------------------------

  /// The maximum the id allocators compute: floor, raised by atoi of the
  /// first token of every line that has one.
  function MaxLeadingId(lines: seq<string>, floor: int): (m: int)
    ensures m >= floor
  {
    if lines == [] then floor
    else
      var init := lines[..|lines| - 1];
      var m := MaxLeadingId(init, floor);
      var f := Fields(lines[|lines| - 1]);
      if f != [] && Atoi(f[0]) > m then Atoi(f[0]) else m
  }

  /// No line has a leading id above the maximum.
  lemma {:induction false} MaxLeadingIdBound(lines: seq<string>, floor: int)
    ensures forall k :: 0 <= k < |lines| && Fields(lines[k]) != [] ==> Atoi(Fields(lines[k])[0]) <= MaxLeadingId(lines, floor)
  {
    if lines != [] {
      var init := lines[..|lines| - 1];
      MaxLeadingIdBound(init, floor);
      assert forall k :: 0 <= k < |init| ==> init[k] == lines[k];
    }
  }

  /// The maximum is the floor or the leading id of some line.
  lemma {:induction false} MaxLeadingIdAttained(lines: seq<string>, floor: int)
    ensures MaxLeadingId(lines, floor) == floor ||
            exists k :: 0 <= k < |lines| && HasLeadingId(lines[k], MaxLeadingId(lines, floor))
  {
    if lines != [] {
      var init := lines[..|lines| - 1];
      MaxLeadingIdAttained(init, floor);
      var m := MaxLeadingId(init, floor);
      if MaxLeadingId(lines, floor) == m && m != floor {
        var k :| 0 <= k < |init| && HasLeadingId(init[k], m);
        assert lines[k] == init[k];
      }
    }
  }

  // ---------------------------------------------------------------------
  // The username registry
  // ---------------------------------------------------------------------

  /// The first token of the line is u.
  predicate FirstFieldIs(line: string, u: string) {
    Fields(line) != [] && Fields(line)[0] == u
  }

  /// The sixth token of the line (the username of an admission request) is u.
  predicate SixthFieldIs(line: string, u: string) {
    |Fields(line)| >= 6 && Fields(line)[5] == u
  }

  /// usernameExistsInLogins: the empty name is never taken; otherwise some
  /// login line starts with it.
  function UsernameInLogins(lines: seq<string>, u: string): bool {
    if u == [] || lines == [] then false
    else
      FirstFieldIs(lines[0], u) || UsernameInLogins(lines[1..], u)
  }

  /// A username is taken by the logins exactly when it is non-empty and
  /// some login line starts with it.
  lemma {:induction false} UsernameInLoginsIff(lines: seq<string>, u: string)
    ensures UsernameInLogins(lines, u) <==> u != [] && exists k :: 0 <= k < |lines| && FirstFieldIs(lines[k], u)
  {
    if u != [] && lines != [] {
      UsernameInLoginsIff(lines[1..], u);
      assert forall k :: 1 <= k < |lines| ==> lines[k] == lines[1..][k - 1];
    }
  }

  /// usernameExistsInAdmissionsPending: whatever the request's status, some
  /// admission line has u as its sixth token.
  function UsernameInAdmissions(lines: seq<string>, u: string): bool {
    if u == [] || lines == [] then false
    else
      SixthFieldIs(lines[0], u) || UsernameInAdmissions(lines[1..], u)
  }

  /// A username is taken by the requests exactly when it is non-empty and
  /// some admission line has it as its sixth token.
  lemma {:induction false} UsernameInAdmissionsIff(lines: seq<string>, u: string)
    ensures UsernameInAdmissions(lines, u) <==> u != [] && exists k :: 0 <= k < |lines| && SixthFieldIs(lines[k], u)
  {
    if u != [] && lines != [] {
      UsernameInAdmissionsIff(lines[1..], u);
      assert forall k :: 1 <= k < |lines| ==> lines[k] == lines[1..][k - 1];
    }
  }

  /// usernameExists: taken by a login or by any admission request.
  function UsernameExists(logins: seq<string>, admissions: seq<string>, u: string): bool {
    UsernameInLogins(logins, u) || UsernameInAdmissions(admissions, u)
  }

  /// A username is taken exactly when it is non-empty and a login line
  /// starts with it or an admission line has it as its sixth token.
  lemma UsernameExistsIff(logins: seq<string>, admissions: seq<string>, u: string)
    ensures UsernameExists(logins, admissions, u) <==>
            u != [] && ((exists k :: 0 <= k < |logins| && FirstFieldIs(logins[k], u)) ||
                        (exists k :: 0 <= k < |admissions| && SixthFieldIs(admissions[k], u)))
  {
    UsernameInLoginsIff(logins, u);
    UsernameInAdmissionsIff(admissions, u);
  }

  // ---------------------------------------------------------------------
  // students.txt: id,name,department,semester,cgpa
  // ---------------------------------------------------------------------

  /// A student record. The cgpa is kept as the text "%.2f" wrote for it.
  datatype Student = Student(id: int, name: string, department: string, semester: int, cgpa: string)

  /// What findStudentById reads from a line: nothing unless the line has at
  /// least five tokens; tokens past the fifth are ignored.
  function ParseStudent(line: string): Option<Student> {
    var f := Fields(line);
    if |f| < 5 then None
    else Some(Student(Atoi(f[0]), f[1], f[2], Atoi(f[3]), f[4]))
  }

  /// The line fprintf(…, "%d,%s,%s,%d,%.2f\n", …) writes for a student.
  function StudentLine(s: Student): string {
    Join([IntToString(s.id), s.name, s.department, IntToString(s.semester), s.cgpa])
  }

  /// A student whose line reads back as itself: the text fields are
  /// non-empty and comma-free, and the cgpa does not end in white space
  /// (text "%.2f" produced ends in a digit).
  predicate Storable(s: Student) {
    IsField(s.name) && IsField(s.department) && IsField(s.cgpa) && !IsSpace(s.cgpa[|s.cgpa| - 1])
  }

  /// A line that starts and ends with non-white-space characters is left
  /// alone by trim, so its fields are exactly the joined ones.
  lemma FieldsOfJoin(fields: seq<string>)
    requires |fields| > 0 && forall t :: t in fields ==> IsField(t)
    requires fields[0] != [] && fields[|fields| - 1] != []
    requires !IsSpace(fields[0][0])
    requires !IsSpace(fields[|fields| - 1][|fields[|fields| - 1]| - 1])
    ensures Trimmed(Join(fields)) == Join(fields) && Fields(Join(fields)) == fields
  {
    assert forall k :: 0 <= k < |fields| ==> fields[k] in fields;
    JoinEnds(fields);
    SplitJoin(fields);
  }

  /// Reading a written student line gives the student back.
  lemma ParseStudentLine(s: Student)
    requires Storable(s)
    ensures ParseStudent(StudentLine(s)) == Some(s)
  {
    var fields := [IntToString(s.id), s.name, s.department, IntToString(s.semester), s.cgpa];
    FieldsOfJoin(fields);
    AtoiIntToString(s.id);
    AtoiIntToString(s.semester);
  }

  /// A line findStudentById would stop at when looking for id.
  predicate StudentWithId(line: string, id: int) {
    ParseStudent(line).Some? && ParseStudent(line).value.id == id
  }

  /// findStudentById: the record of the first line with at least five
  /// tokens whose first token reads as id.
  function FindStudent(lines: seq<string>, id: int): (r: Option<Student>)
    ensures r.Some? ==> r.value.id == id
  {
    if lines == [] then None
    else if StudentWithId(lines[0], id) then ParseStudent(lines[0])
    else
      FindStudent(lines[1..], id)
  }

  /// A record is found exactly when some line has at least five tokens and
  /// the id as its first.
  lemma {:induction false} FindStudentIff(lines: seq<string>, id: int)
    ensures FindStudent(lines, id).Some? <==> exists k :: 0 <= k < |lines| && StudentWithId(lines[k], id)
  {
    if lines != [] {
      FindStudentIff(lines[1..], id);
      assert forall k :: 1 <= k < |lines| ==> lines[k] == lines[1..][k - 1];
    }
  }

  /// The first line that matches is the one whose record is returned.
  lemma {:induction false} FindStudentFirst(lines: seq<string>, id: int, k: nat)
    requires k < |lines| && StudentWithId(lines[k], id)
    requires forall j :: 0 <= j < k ==> !StudentWithId(lines[j], id)
    ensures FindStudent(lines, id) == ParseStudent(lines[k])
  {
    if k > 0 {
      assert !StudentWithId(lines[0], id);
      assert forall j :: 0 <= j < k - 1 ==> lines[1..][j] == lines[j + 1];
      FindStudentFirst(lines[1..], id, k - 1);
    }
  }

  // ---------------------------------------------------------------------
  // logins.txt: username,password,role,studentId
  // ---------------------------------------------------------------------

  /// The line createLogin appends.
  function LoginLine(u: string, p: string, role: string, sid: int): string {
    Join([u, p, role, IntToString(sid)])
  }

  /// What a successful loginUser hands back: the role and the linked
  /// student id.
  datatype Session = Session(role: string, studentId: int)

  /// strncpy(out, r, n) followed by out[n] = '\0'.
  function Prefix(s: string, n: nat): (r: string)
    ensures |r| <= n && |r| <= |s| && r == s[..|r|]
    ensures |s| <= n ==> r == s
    ensures |s| > n ==> |r| == n
  {
    if |s| <= n then s else s[..n]
  }

  /// A login line with at least four tokens whose first two are u and p.
  predicate LoginMatches(line: string, u: string, p: string) {
    |Fields(line)| >= 4 && Fields(line)[0] == u && Fields(line)[1] == p
  }

  /// The session a matching login line grants: the role cut to 15
  /// characters and atoi of the fourth token.
  function SessionOf(line: string): Session
    requires |Fields(line)| >= 4
  {
    Session(Prefix(Fields(line)[2], RoleLength), Atoi(Fields(line)[3]))
  }

  /// loginUser: the session of the first matching line; lines with fewer
  /// than four tokens never match.
  function LoginUser(lines: seq<string>, u: string, p: string): (r: Option<Session>)
    ensures r.Some? ==> |r.value.role| <= RoleLength
  {
    if lines == [] then None
    else if LoginMatches(lines[0], u, p) then Some(SessionOf(lines[0]))
    else
      LoginUser(lines[1..], u, p)
  }

  /// A login succeeds exactly when some line has at least four tokens and
  /// the username and password as its first two.
  lemma {:induction false} LoginUserIff(lines: seq<string>, u: string, p: string)
    ensures LoginUser(lines, u, p).Some? <==> exists k :: 0 <= k < |lines| && LoginMatches(lines[k], u, p)
  {
    if lines != [] {
      LoginUserIff(lines[1..], u, p);
      assert forall k :: 1 <= k < |lines| ==> lines[k] == lines[1..][k - 1];
    }
  }

  /// The first matching line is the one whose session is granted.
  lemma {:induction false} LoginUserFirst(lines: seq<string>, u: string, p: string, k: nat)
    requires k < |lines| && LoginMatches(lines[k], u, p)
    requires forall j :: 0 <= j < k ==> !LoginMatches(lines[j], u, p)
    ensures LoginUser(lines, u, p) == Some(SessionOf(lines[k]))
  {
    if k > 0 {
      assert !LoginMatches(lines[0], u, p);
      assert forall j :: 0 <= j < k - 1 ==> lines[1..][j] == lines[j + 1];
      LoginUserFirst(lines[1..], u, p, k - 1);
    }
  }

  /// A login line reads back as the fields it was written from.
  lemma FieldsOfLoginLine(u: string, p: string, role: string, sid: int)
    requires IsField(u) && IsField(p) && IsField(role) && !IsSpace(u[0])
    ensures Fields(LoginLine(u, p, role, sid)) == [u, p, role, IntToString(sid)]
  {
    FieldsOfJoin([u, p, role, IntToString(sid)]);
  }

  // ---------------------------------------------------------------------
  // admission_requests.txt:
  //   tempId,name,department,semester,email,username,password,status,studentId
  // ---------------------------------------------------------------------

  /// The line registerAdmission appends and the line approval writes, which
  /// differ only in status and studentId.
  function AdmissionLine(tid: int, name: string, dept: string, sem: int, email: string,
                         u: string, p: string, status: string, sid: int): string
  {
    Join([IntToString(tid), name, dept, IntToString(sem), email, u, p, status, IntToString(sid)])
  }

  /// The fields a request line is written from, when each is non-empty and
  /// comma-free.
  predicate RequestFields(name: string, dept: string, email: string, u: string, p: string) {
    IsField(name) && IsField(dept) && IsField(email) && IsField(u) && IsField(p)
  }

  /// An admission line reads back as the nine fields it was written from.
  lemma FieldsOfAdmissionLine(tid: int, name: string, dept: string, sem: int, email: string,
                              u: string, p: string, status: string, sid: int)
    requires RequestFields(name, dept, email, u, p) && IsField(status)
    ensures var line := AdmissionLine(tid, name, dept, sem, email, u, p, status, sid);
            Trimmed(line) == line && Fields(line) ==
            [IntToString(tid), name, dept, IntToString(sem), email, u, p, status, IntToString(sid)]
  {
    FieldsOfJoin([IntToString(tid), name, dept, IntToString(sem), email, u, p, status, IntToString(sid)]);
  }
}
