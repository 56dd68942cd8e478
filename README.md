# Student admission store and word counter, modelled in Dafny

This project models two C programs.

**The admission and student-record store of `main.c`.** Four comma-separated
tables hold the data: students, logins, admission requests and marksheets.
Every operation reads a table line by line, trims each line and splits it
with `strtok(…, ",")`, then appends to the table or rewrites it through
`temp.txt`. The model keeps the four tables as sequences of lines in the
fields of a class, `StudentStore.Store`. Each operation is a method on that
class, proved against a pure function in `StoreSpec` that gives the new
tables and the C return code. The modelled operations are:

- the id allocators;
- the username registry;
- `createLogin` and `registerAdmission`;
- the approval workflow, with its rollback;
- `loginUser`;
- add, find, update and delete of a student record, with the delete's
  cascade to marksheets and logins.

The lemmas in `StoreFacts` and `ApprovalFacts` state what the operations
promise.

The C string routines are modelled in `CType`, `CStrings` and `Helpers`:

- `trim` works in place on an array.
- `strtok` drops empty tokens.
- `atoi` reads as much of a number as it can.
- `"%d"` formats an integer, and `atoi` reads it back.
- The three input validators are read-only scans.

Which `fopen` calls for writing succeed is a parameter of the store, `Io`. A
missing students or admissions file is recorded because it changes return
codes. A missing logins or marksheets file behaves like an empty one.

Where the documented design of the store and the C code differ, the model
follows the code:

- approval answers only -1, 0 or 1, so "already approved" and "not found"
  both give 0;
- a request whose username is already a login is written back before any
  student is created, so no rollback is involved;
- approval processes every line carrying the requested id, not just the
  first;
- registration prompts again for a taken username; the model ends with
  `UsernameTaken` instead.

**The word-frequency counter of `assessment-3.c`.** It reads its input one
character at a time:

- A maximal run of `isalnum` characters is a word.
- Only the first 100 characters of a run are kept.
- Each word is lower-cased and counted in a table of at most 1000 entries,
  updated in place.
- The report names the entry with the highest count, the `strcmp`-smallest
  among equal counts, or says that no word was found.

The model has two halves. `WordCount.Words` and `WordCount.Tally` specify the
program, and a reference definition of maximal runs is proved equal to what
the read loop produces. The methods work on arrays the way the C code does
and are proved against those functions.

## Model

| member | source | states |
|---|---|---|
| CType.ToLower | assessment-3.c:17-21 | tolower: an upper-case letter becomes its lower-case partner, every other character is unchanged, the result is never upper-case, and it is alphanumeric exactly when the input is |
| CStrings.Trimmed | main.c:97-108 | what trim leaves is not longer than the line, does not start with white space, and is the line itself when the line neither starts nor ends with white space |
| CStrings.TrimmedFacts | main.c:97-108 | trim keeps one slice of the line; everything before and after that slice is white space, and the slice does not end with white space |
| CStrings.TrimmedTwice | main.c:97-108 | trimming a trimmed line changes nothing |
| CStrings.TrimmedIs | main.c:99-106 | the trimmed line is exactly the slice between the two bounds the trailing and leading scans stop at |
| CStrings.SplitFields | main.c:413-424 | every token strtok(…, ",") returns is non-empty and holds no comma |
| CStrings.SplitJoin | main.c:504-505 | splitting the comma-joined fields a record is written from gives those fields back when none is empty or holds a comma |
| CStrings.IntToString | main.c:449 | "%d" produces a comma-free, non-empty text that does not start with white space and ends with a digit, and starts with a digit for a positive number |
| CStrings.AtoiIntToString | main.c:716 | atoi reads back the number "%d" wrote, negative numbers included |
| CStrings.AtoiDigits | main.c:350 | atoi of a string of digits is the number they spell |
| Helpers.MoveToFront | main.c:107 | memmove: the kept characters move to the front of the buffer; the terminator memmove also copies is stood for by the length trim returns, so the buffer after them is left as it was |
| Helpers.TrimBounds | main.c:99-105 | the trailing and leading white-space scans stop at bounds between which lies exactly the trimmed line |
| Helpers.Trim | main.c:97-108 | trim in place: the buffer now starts with the trimmed line, and nothing beyond the original string changes |
| Helpers.IsValidName | main.c:226-233 | a name is valid exactly when every character is a letter, white space, '.' or '-' (the empty name passes) |
| Helpers.IsValidEmail | main.c:236-242 | an accepted address contains both '@' and '.' |
| Helpers.ValidEmailIff | main.c:236-242 | an address is accepted exactly when some '@' comes before some '.' |
| Helpers.IsDigitsOnly | main.c:245-249 | a string is digits-only exactly when it is non-empty and every character is a decimal digit |
| Helpers.DigitsOnlyIntToString | main.c:245-249 | "%d" of an integer is digits-only exactly when the integer is not negative |
| Records.MaxLeadingId | main.c:341-352 | the maximum the id loops compute is never below its floor (1000 or 119) |
| Records.MaxLeadingIdBound | main.c:343-352 | no line with a token has a leading id above the maximum |
| Records.MaxLeadingIdAttained | main.c:343-352 | the maximum is the floor or the leading id of some line |
| Records.UsernameInLoginsIff | main.c:380-397 | usernameExistsInLogins holds exactly when the name is non-empty and some login line's first token is the name |
| Records.UsernameInAdmissionsIff | main.c:401-431 | usernameExistsInAdmissionsPending holds exactly when the name is non-empty and some admission line's sixth token is the name, whatever its status |
| Records.UsernameExistsIff | main.c:435-439 | usernameExists holds exactly when the name is non-empty and either a login line starts with it or an admission line has it as its sixth token |
| Records.ParseStudentLine | main.c:716-745 | a student line as written reads back as the same record |
| Records.FindStudent | main.c:723-755 | a record findStudentById returns carries the id searched for |
| Records.FindStudentIff | main.c:723-755 | a record is found exactly when some line has at least five tokens and the id as its first |
| Records.FindStudentFirst | main.c:728-751 | the record returned is the one on the first matching line |
| Records.Prefix | main.c:676-677 | strncpy to 15 characters followed by the terminator keeps the first 15 characters of a longer role, and the whole role when it is not longer |
| Records.LoginUser | main.c:658-686 | the role returned by a successful login is at most 15 characters long |
| Records.LoginUserIff | main.c:664-682 | a login succeeds exactly when some line has at least four tokens and the username and password as its first two |
| Records.LoginUserFirst | main.c:664-682 | the session returned is the one on the first matching line: its role cut to 15 characters and atoi of its fourth token |
| Records.FieldsOfLoginLine | main.c:449 | a login line as createLogin writes it reads back as its four fields |
| Records.FieldsOfAdmissionLine | main.c:504-505 | an admission line as registration writes it reads back as its nine fields and is left alone by trim |
| StudentStore.ScanMaxLeadingId | main.c:343-352 | the loop of the id allocators computes the maximum of the floor and every leading id |
| StudentStore.FilterById | main.c:813-828 | the student rewrite of deleteStudentRecord keeps exactly the lines that have a token and another id, trimmed and in order, and reports whether any line had the id |
| StudentStore.FilterLogins | main.c:872-893 | the login rewrite drops blank lines and the lines linked to the id, and keeps every other line, malformed ones included |
| StudentStore.ReplaceById | main.c:765-789 | the rewrite of updateStudentRecord puts the new record in place of every line with the id, keeps the other lines that have a token, and reports whether the id was found |
| StudentStore.Store.NextAdmissionTempId | main.c:338-354 | nextAdmissionTempId: 1001 without the file, else one past the maximum leading id |
| StudentStore.Store.NextStudentId | main.c:358-375 | nextStudentId: 120 without the file, else one past the maximum leading id |
| StudentStore.Store.CreateLogin | main.c:443-452 | createLogin changes the tables and returns the code exactly as the specification function does: 0 for a taken username, -1 when logins.txt cannot be opened, else one appended line |
| StudentStore.Store.AddStudentRecord | main.c:701-719 | addStudentRecord: 0 for an id already found, -1 when the file cannot be opened, else one appended line |
| StudentStore.Store.UpdateStudentRecord | main.c:759-801 | updateStudentRecord: -1 without the file or temp.txt, 0 when no line has the id, else the rewritten table |
| StudentStore.Store.DeleteStudentRecord | main.c:805-902 | deleteStudentRecord: -1 or 0 leaving every table unchanged, else the student, marksheet and login tables filtered by the id |
| StudentStore.Store.RegisterAdmission | main.c:456-511 | registerAdmission with the answers as a parameter: the validation order, the username check and the appended pending line |
| StudentStore.Store.ApproveStep | main.c:529-637 | one pass of the approval loop over a line: what is written to temp.txt, the new tables, "found" and "approvedCount" |
| StudentStore.Store.ApproveAdmissionById | main.c:515-653 | approveAdmissionById: the admissions file becomes the lines the loop wrote, the other tables are as the loop left them, and the return code is -1, 0 or 1 as specified |
| StoreFacts.FieldsTrimmed | main.c:533-546 | a line written back trimmed has the same tokens |
| StoreFacts.StudentLineId | main.c:716-747 | a student line starts with its id and is found under that id |
| StoreFacts.NextStudentIdSpec | main.c:358-375 | the next student id is at least 120, exactly 120 without the file, larger than every leading id, and one past the floor or one past some line's leading id |
| StoreFacts.NextAdmissionTempIdSpec | main.c:338-354 | the same for the next temporary id, with 1001 in place of 120 |
| StoreFacts.NextStudentIdUnused | main.c:358-375 | no student line carries the next student id, so no record with it is found |
| StoreFacts.CreateLoginCases | main.c:443-452 | createLogin returns 0 exactly for a taken username and -1 exactly when the file cannot be opened, changing nothing in both cases; on 1 exactly one login line is appended |
| StoreFacts.CreateLoginThenLogin | main.c:443-452 | after a successful createLogin the user logs in with that password and gets the role and the student id, and a second createLogin with the same name returns 0 |
| StoreFacts.AddThenFind | main.c:701-719 | addStudentRecord returns 0 exactly when the id is found and changes nothing unless it returns 1; after adding, findStudentById returns exactly the new record and adding it again returns 0 |
| StoreFacts.FindStudentUniform | main.c:723-755 | when every line with the id holds the same record, that record is what is found |
| StoreFacts.UpdatedLinesWithId | main.c:776-784 | every line of the updated table with the id is the new record |
| StoreFacts.UpdatedLinesHaveRecord | main.c:776-784 | the updated table holds the new record when some line had the id |
| StoreFacts.UpdateKeepsOthers | main.c:785-788 | apart from the lines with the id, the update keeps every line with a token, trimmed and in order |
| StoreFacts.UpdateThenFind | main.c:759-801 | updateStudentRecord returns 0 exactly when no line has the id, and then nothing changes; after 1 findStudentById returns the new record under that id |
| StoreFacts.DropByIdRemoves | main.c:813-828 | no line left by the delete rewrite has the id, and every line left has a token |
| StoreFacts.DropByIdKeeps | main.c:822-827 | every line with a token and another id survives the delete rewrite, trimmed |
| StoreFacts.DropByIdOrder | main.c:813-828 | of two lines that survive the delete rewrite, the earlier one is written first |
| StoreFacts.DropLoginsOrder | main.c:881-892 | of two logins not linked to the deleted id, the earlier one is written first |
| StoreFacts.DropLoginsRemoves | main.c:886-890 | no login left by the cascade is linked to the deleted id |
| StoreFacts.DropLoginsKeeps | main.c:881-892 | every non-blank login not linked to the id survives, including every line with fewer than four tokens |
| StoreFacts.DeleteThenFind | main.c:805-902 | deleteStudentRecord returns 0 exactly when no line has the id, and then nothing changes; after 1 no student or marksheet line has the id, no login is linked to it, the record is not found and deleting again returns 0 |
| StoreFacts.PendingLineFields | main.c:504-505 | a pending line reads back as the nine fields of the request with status pending and student id 0; its sixth token is the username |
| StoreFacts.RegisterCases | main.c:456-511 | registration rejects a bad name, then a bad email, then a taken username, changing nothing; on success it appends one pending line under the next temporary id, which no earlier line has, and the username is taken from then on |
| ApprovalFacts.ApproveLineWrites | main.c:532-637 | each pass writes exactly one line to temp.txt: the trimmed line, or the approved form of a request with the target id |
| ApprovalFacts.AdmitWrites | main.c:597-632 | admitting writes the request as read or the request marked approved with the next student id |
| ApprovalFacts.ApproveLineState | main.c:532-637 | each pass sets "found" exactly when the line has the target id, never lowers the approved count, keeps the tables consistent, leaves the admissions file alone, and removes no login while logins.txt can be appended to |
| ApprovalFacts.AdmitState | main.c:597-632 | admitting a request with a free username keeps "found", never lowers the approved count, keeps the tables consistent and removes no login while logins.txt can be appended to |
| ApprovalFacts.ApproveLineOther | main.c:532-636 | a blank line, a line with no token or a line with another id is written back trimmed, and nothing else changes |
| ApprovalFacts.ApproveLineSkipped | main.c:566-595 | a request with the target id and fewer than seven tokens, already approved with a positive student id, or whose username is already a login, is written back trimmed; only "found" changes |
| ApprovalFacts.ApproveLineAdmits | main.c:597-632 | a request that passes all three checks is admitted |
| ApprovalFacts.AdmitAdds | main.c:597-620 | when admitting counts as approved, both files were appendable, the student id was unused, and exactly the student line and the login line were appended |
| ApprovalFacts.ApproveLineSuccess | main.c:597-620 | a successful approval appends exactly one student (next id, which no line had, the request's name, department and semester, cgpa 0.00) and one login (the request's username and password, role student, that id), and writes the request back marked approved with that id |
| ApprovalFacts.ApproveLineOnlyAdmits | main.c:605-620 | only a request passing all three checks can count as approved |
| ApprovalFacts.ApproveLineLogin | main.c:612-620 | after a successful approval the applicant logs in with the request's username and password as a student with the new id |
| ApprovalFacts.AdmitReachesLogin | main.c:597-624 | with students.txt appendable the student is added, and createLogin cannot then report the username as taken |
| ApprovalFacts.AdmitRollback | main.c:621-632 | when logins.txt cannot be opened, the new student and everything linked to its id are deleted again and the request is written back as read |
| ApprovalFacts.ApproveLineRollback | main.c:597-632 | the "username raced" branch cannot happen; a failed login creation leaves no student line with the new id and no login linked to it, the request stays as it was, and nothing counts as approved |
| ApprovalFacts.ApprovedLineSettled | main.c:583-587 | an approved line read again takes the "already approved" branch and is written back unchanged; the whole-operation statement is ApproveTwice |
| ApprovalFacts.AllWrittenForAt | main.c:532-637 | line by line, each written line belongs to the line read at the same place |
| ApprovalFacts.ApproveLinesWrites | main.c:532-637 | the loop writes one line per line read, each the trimmed line or the approved form of a request with the target id |
| ApprovalFacts.ApproveLinesState | main.c:532-637 | over the whole loop "found" records whether some line has the target id, the tables stay consistent, the admissions file is only read and, with logins.txt appendable, no login is removed |
| ApprovalFacts.ApprovedFormFields | main.c:617-618 | the approved form of a request reads back as its tokens with the target id, status approved and the student id |
| ApprovalFacts.WrittenKeepsUsername | main.c:532-637 | a written line carries the username of the line read |
| ApprovalFacts.ApproveResult | main.c:515-653 | the return code is -1 exactly when the admissions file or temp.txt cannot be opened, and then nothing changes; 1 only when both tables were appendable and some request bearing the id, approvable against the logins read at the start, is written back approved with a student id whose student line (request fields, cgpa 0.00) and student login are in the tables; with both files present and all three tables writable, 1 exactly when some request bearing the id is approvable; never 1 without a line bearing the id |
| ApprovalFacts.ApproveLinesNoTarget | main.c:551-636 | without a line bearing the target id, the loop changes nothing but the lines it writes |
| ApprovalFacts.ApprovalKeepsReservation | main.c:515-653 | approval never releases a username reserved by an admission line, nor one reserved by a login while logins.txt can be appended to |
| ApprovalFacts.ApproveLinesTrace | main.c:597-620 | once the loop has approved something, both tables were appendable and some request bearing the id, approvable against the logins the loop started from, was written in its approved form with a student id whose student line and login are in the tables |
| ApprovalFacts.ApproveLineApproves | main.c:597-620 | a pass over an approvable request with students.txt and logins.txt appendable approves it: the count goes up by one |
| ApprovalFacts.ApproveLineQuiet | main.c:551-632 | a pass that approves nothing leaves logins.txt as it was |
| ApprovalFacts.ApproveLinesQuiet | main.c:532-637 | a loop that approves nothing leaves logins.txt as it was |
| ApprovalFacts.ApproveLinesApprove | main.c:532-637 | a loop over lines of which one is approvable against the starting logins, with both tables appendable, approves at least one request |
| ApprovalFacts.ApproveSucceeds | main.c:515-653 | with the admissions file present, temp.txt writable and both tables appendable, an approvable request bearing the id makes approval return 1 |
| ApprovalFacts.RegisterThenApprove | main.c:456-513 | a request with comma-free fields that registration saved is approved by the next approval of its temporary id, which returns 1, when temp.txt, students.txt and logins.txt are writable |
| ApprovalFacts.ApproveLineGrows | main.c:605-620 | while logins.txt is appendable a pass removes no student line and no login |
| ApprovalFacts.ApproveLineBlocked | main.c:551-595 | a line that bears another id, is short, is already approved or names a taken username is written back trimmed and changes nothing else |
| ApprovalFacts.ApproveLinesBlocked | main.c:532-637 | over lines none of which can be approved, the loop writes them all back trimmed, approves nothing and leaves the other tables alone |
| ApprovalFacts.ApproveBlocked | main.c:515-653 | with no approvable line, approval returns 0 (or -1 when a file cannot be opened) and only rewrites the admissions trimmed |
| ApprovalFacts.BlockedGrows | main.c:590-595 | a request refused for a taken username stays refused when logins are appended |
| ApprovalFacts.ApprovedFormSettled | main.c:583-587 | the approved form of a request is trimmed and takes the "already approved" branch |
| ApprovalFacts.ApproveLineSettles | main.c:551-632 | with both tables appendable, every line a pass writes can no longer be approved against the logins it leaves |
| ApprovalFacts.ApproveLinesSettle | main.c:532-637 | the same over the whole loop |
| ApprovalFacts.ApproveTwice | main.c:515-653 | with students.txt and logins.txt appendable, a second approval of the same id changes nothing and returns 0, or -1 again |
| WordCount.RunsAreWordRuns | assessment-3.c:13-15 | every maximal run is a non-empty string of alphanumeric characters |
| WordCount.RunsConcat | assessment-3.c:49-68 | the runs together hold exactly the alphanumeric characters of the input, in order: every other character only separates runs |
| WordCount.FeedAllState | assessment-3.c:49-68 | after any prefix of the input, the finished words are the closed runs cut to 100 characters and lower-cased, and the buffer holds the first 100 characters of the run still open |
| WordCount.WordsAreRuns | assessment-3.c:49-84 | the counted words are exactly the maximal runs of the input, in order, each cut to its first 100 characters and lower-cased; a run open at the end counts too |
| WordCount.WordsShape | assessment-3.c:51-56 | every counted word is non-empty, at most 100 characters long, and made of lower-case letters and digits |
| WordCount.IndexOf | assessment-3.c:23-32 | find_word returns -1 exactly when no entry holds the word, and otherwise the first index that holds it |
| WordCount.OccurrencesIn | assessment-3.c:58-65 | a word occurs a positive number of times exactly when it is among the words |
| WordCount.CountSeen | assessment-3.c:59-60 | counting a word already in the table keeps the table invariant |
| WordCount.CountNew | assessment-3.c:61-64 | counting a new word while the table has room keeps the table invariant |
| WordCount.CountFull | assessment-3.c:61-65 | counting a new word once the table holds 1000 entries keeps the table invariant |
| WordCount.CountKeeps | assessment-3.c:58-65 | counting one word keeps the table invariant |
| WordCount.TallyIsTable | assessment-3.c:49-84 | the table holds at most 1000 entries, no word twice, each count equal to the number of occurrences of its word, and every word unless the table filled up |
| WordCount.TallyEntries | assessment-3.c:58-65 | every entry's count is at least 1 and its word is one of the words read |
| WordCount.TallyEmpty | assessment-3.c:58-65 | the table is empty exactly when there was no word |
| WordCount.TotalBump | assessment-3.c:60 | raising one count raises the sum of counts by one |
| WordCount.CountTotal | assessment-3.c:58-65 | counting a word never shrinks the table and adds at most one to the sum of counts, exactly one while the table is not full |
| WordCount.TallyTotal | assessment-3.c:58-65 | the counts add up to at most the number of words, and to exactly that number while the table never filled up |
| WordCount.StrLessIrreflexive | assessment-3.c:93 | no word is strcmp-smaller than itself |
| WordCount.StrLessTransitive | assessment-3.c:93 | the strcmp order is transitive |
| WordCount.StrLessTotal | assessment-3.c:93 | of two different words one is strcmp-smaller than the other |
| WordCount.BestIsUnique | assessment-3.c:92-97 | at most one entry has the highest count and the smallest word among equal counts, so the report does not depend on the order of the entries |
| WordCount.SelectMostFrequent | assessment-3.c:89-97 | the selection loop returns a count no entry exceeds, an entry holding it when it is positive, the empty word when it is 0, and a word strcmp-smaller than every other word with the same count |
| WordCount.ResultLineReadsBack | assessment-3.c:107 | the result line is the word, a blank, a count that atoi reads back, and a newline |
| WordCount.ResultLineIsNotMessage | assessment-3.c:106-111 | a result line for a counted word never reads as the no-words message |
| WordCount.ToLowerInPlace | assessment-3.c:17-21 | to_lower in place: the buffer's word becomes its lower-cased form and nothing after it changes |
| WordCount.FindWord | assessment-3.c:23-32 | find_word over the array returns what the specification function returns |
| WordCount.AddWord | assessment-3.c:58-65 | counting a word in place leaves the array holding exactly the counted table, and never more than 1000 entries |
| WordCount.FinishWord | assessment-3.c:55-65 | a finished word is lower-cased in place in the buffer, the rest of the buffer is untouched, and the word is counted |
| WordCount.CountWords | assessment-3.c:42-84 | the read loop and the final word leave the array holding exactly the table of the counted words |
| WordCount.WordFrequency | assessment-3.c:42-112 | the output is the no-words message exactly when there is no word; otherwise it is the result line of an entry of the table that has the highest count and the strcmp-smallest word among equal counts |

## Left out

- Terminal I/O is not modelled: menus, prompts, screen helpers, printing, the listing and marksheet-viewing functions, `addMarksheet` and the admin wrappers. `registerAdmission` takes its answers as a parameter.
- StudentStore.Store.RegisterAdmission: where the C code prompts again for a taken username, the model ends with `UsernameTaken`. Its result is a datatype in place of the temporary id or -1.
- Files are sequences of lines. Opening a file for writing either succeeds or fails, and the model fixes that per store (`Io`) rather than per call.
- `remove` and `rename` are not modelled, and neither is the single shared `temp.txt`. This changes the outcome of every approval that rolls back. The rollback calls `deleteStudentRecord` (main.c:623, 629) while approval still has `temp.txt` open for writing. `deleteStudentRecord` reopens `temp.txt` with mode "w" and renames it to students.txt (main.c:808, 838), and again to marksheets and logins.txt when those exist (main.c:862, 896). No `temp.txt` is left when approval finishes. Its `remove(ADMISSION_FILE)` succeeds, then `rename(TEMP_FILE, ADMISSION_FILE)` fails (main.c:643-648). So in C every approval that rolls back returns -1 and leaves no admission_requests.txt. The lines approval wrote before and after the rollback land in whatever file the renamed `temp.txt` became. The model instead returns 0 or 1 and writes the request back pending. AdmitRollback, ApproveLineRollback and ApproveResult's "-1 exactly when" clause therefore describe the line approval writes to its output, not the files left on disk after a rollback.
- `fgets` splits lines longer than 1023 characters; the model does not. Lines and fields hold no newline.
- Truncation of names and departments by `strncpy` into fixed buffers is not modelled. The 15-character role copy of `loginUser` is modelled.
- Floating point is not modelled. cgpa is kept as the text of the field. An approved student gets "0.00", and an update writes the cgpa text it is given rather than `"%.2f"` of a float.
- Integers are unbounded, so overflow in `atoi` and in `maxId + 1` is not modelled.
- The round-trip lemmas require fields that are non-empty and comma-free. strtok cannot read back a field that is empty or holds a comma.
- The null-pointer guards of the C functions are not modelled, because strings are values here.
- NUL terminators are not modelled. A C string is the first `len` characters of its buffer. The length `Helpers.Trim` returns stands for the terminator that `trim` writes over trailing white space and that its `memmove` copies to the front.
- ApprovalKeepsReservation: requires logins.txt to be appendable for a username reserved only by a login. Otherwise a rollback deletes every login linked to the new student id, including one that already carried that id.
- ApproveTwice: requires students.txt and logins.txt to be appendable. When logins.txt cannot be appended, every admitted request is rolled back (AdmitRollback, ApproveLineRollback). Idempotence of that rewrite is not stated.
- ApproveLineLogin: requires the username not to start with white space, because trim strips it from the login line that is read back.
- CreateLoginThenLogin: requires the username, password and role to be non-empty and comma-free, and the username not to start with white space, for the same reason.
- For `assessment-3.c`, a missing `input.txt` or an unwritable `output.txt` (return 1) is not modelled, and neither are the console copies of the output. The input is the sequence of characters read, and the output is the text written.
- `char ch` holding `fgetc`'s result, and compared with `EOF`, is platform-dependent and is not modelled; nor is `isalnum` on a negative `char`. Characters outside ASCII are never alphanumeric, as in the C locale.
