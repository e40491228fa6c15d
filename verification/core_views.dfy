/**
  The admin views of core/views.py that change the roster: the bulk
  spreadsheet import, adding one student, moving a student between batches,
  renaming a student's account, creating BatchCodes for users' orphan batch
  codes, and deleting a BatchCode with its students.  Each view is a method
  on the `Portal` it updates; the permission check and the HTTP layer around
  it are not modelled.
*/
module CoreViews {
  import opened Text
  import opened Entities
  import opened Queries
  import opened Uploads
  import opened Store
  import opened Roster
  import opened ImportEffects

  // ----- Steps shared by the import and by adding one student -----

  /**
    `BatchCode.objects.get_or_create(batch_code=code, defaults=...)` followed
    by overwriting class, year and branch when they differ: afterwards the
    only BatchCode with that code carries the given fields, and every other
    BatchCode is as it was.
  */
  method UpsertBatchCode(p: Portal, code: string, className: string, academicYear: string, branch: string)
    requires p.Valid()
    modifies p
    ensures p.Valid()
    ensures HasBatchCode(p.batchCodes, code, className, academicYear, branch)
    ensures forall b | b in p.batchCodes && b.code == code ::
      b.className == className && b.academicYear == academicYear && b.branch == branch
    ensures forall b :: b in p.batchCodes && b.code != code <==> b in old(p.batchCodes) && b.code != code
    ensures p.State() == old(p.State()).(batchCodes := p.batchCodes, nextId := p.nextId)
  {
    if code in BatchCodeKeys(p.batchCodes) {
      ghost var before := p.batchCodes;
      p.UpdateBatchCode(code, className, academicYear, branch);
      UpdatedBatchCodes(before, p.batchCodes, code, className, academicYear, branch);
    } else {
      var id := p.CreateBatchCode(code, className, academicYear, branch);
      assert p.batchCodes[|p.batchCodes| - 1].code == code;
    }
  }

  /** What overwriting the fields of the BatchCode `code` does to the table. */
  lemma UpdatedBatchCodes(before: seq<BatchCode>, after: seq<BatchCode>,
                          code: string, className: string, academicYear: string, branch: string)
    requires code in BatchCodeKeys(before) && |after| == |before|
    requires forall i | 0 <= i < |after| ::
      after[i] == if before[i].code == code
                  then before[i].(className := className, academicYear := academicYear, branch := branch)
                  else before[i]
    ensures HasBatchCode(after, code, className, academicYear, branch)
    ensures forall b | b in after && b.code == code ::
      b.className == className && b.academicYear == academicYear && b.branch == branch
    ensures forall b :: b in after && b.code != code <==> b in before && b.code != code
  {
    var i :| 0 <= i < |before| && before[i].code == code;
    assert after[i] in after;
    forall b | b in after && b.code == code
      ensures b.className == className && b.academicYear == academicYear && b.branch == branch
    {
      var j :| 0 <= j < |after| && after[j] == b;
    }
    forall b
      ensures b in after && b.code != code <==> b in before && b.code != code
    {
      if b in before && b.code != code {
        var j :| 0 <= j < |before| && before[j] == b;
        assert after[j] == b;
      }
      if b in after && b.code != code {
        var j :| 0 <= j < |after| && after[j] == b;
      }
    }
  }

  /**
    The username loop followed by `User.objects.create(...)` with the Student
    role: a fresh user whose username is the first free candidate built from
    the name.
  */
  method CreateStudentUser(p: Portal, first: string, last: string, batchCode: string)
    returns (username: string, k: nat, userId: nat)
    requires p.Valid()
    modifies p
    ensures p.Valid()
    ensures username == Candidate(BaseUsername(first, last), k)
    ensures username !in Usernames(old(p.users))
    ensures forall j | 0 <= j < k :: Candidate(BaseUsername(first, last), j) in Usernames(old(p.users))
    ensures userId == old(p.nextId) && userId !in UserIds(old(p.users))
    ensures p.State() == old(p.State()).(
      users := old(p.users) + [User(userId, username, first, last, StudentRole, batchCode)],
      nextId := userId + 1)
  {
    username, k := DeriveUsername(p, BaseUsername(first, last));
    userId := p.CreateUser(username, first, last, StudentRole, batchCode);
  }

  /** The database error a second student with an existing code raises. */
  const DuplicateCodeError: string := "UNIQUE constraint failed: student_student.student_code"

  /** The `IndexError` of `name_parts[0]` for a name with no word in it. */
  const NoNameError: string := "list index out of range"

  /** `student_code` a user without a profile may be given: unused, so the insert succeeds. */
  predicate CodeFree(students: seq<Student>, code: string) {
    code !in StudentCodes(students)
  }

  // ----- Bulk import -----

  /**
    The body of the row loop for an accepted row: upsert the BatchCode, make
    sure the Batch exists, create the user and then the student.  The user
    is created before the student insert can fail on a taken code, so on that
    failure the new user stays.  The failure reason is `None` on success.
  */
  method ImportRow(p: Portal, f: RowFields) returns (failure: Option<string>)
    requires p.Valid()
    modifies p
    ensures p.Valid()
    ensures RowImported(old(p.State()), p.State(), f, failure)
    ensures NameParts(f.studentName).None? ==> failure == Some(NoNameError) && p.users == old(p.users)
    ensures NameParts(f.studentName).Some? ==>
      |p.users| == |old(p.users)| + 1 && p.users[|old(p.users)|].username !in Usernames(old(p.users))
    ensures NameParts(f.studentName).Some? && !CodeFree(old(p.students), f.enrollment) ==>
      failure == Some(DuplicateCodeError)
    ensures failure.None? <==> NameParts(f.studentName).Some? && CodeFree(old(p.students), f.enrollment)
    ensures failure.None? ==> p.students[|old(p.students)|].userId == p.users[|old(p.users)|].id
  {
    UpsertBatchCode(p, f.batchCode, f.className, f.academicYear, f.branch);
    p.EnsureBatch(f.batchCode);
    var parts := NameParts(f.studentName);
    if parts.None? {
      return Some(NoNameError);
    }
    var first, last := parts.value.0, parts.value.1;
    ghost var beforeUser := p.State();
    var username, k, userId := CreateStudentUser(p, first, last, f.batchCode);
    assert p.users[|old(p.users)|].id == userId;
    if f.enrollment in StudentCodes(p.students) {
      return Some(DuplicateCodeError);
    }
    forall s | s in p.students
      ensures s.userId != userId
    {
      assert StudentRefsOk(beforeUser, s);
    }
    var studentId := p.CreateStudent(userId, f.enrollment, f.studentName, Some(f.batchCode));
    return None;
  }

  /** The outcome of the import request. */
  datatype ImportResult =
    | NoData
    | MissingColumns(message: string)
    | Imported(status: string, message: string, successful: nat, failed: nat, errors: seq<string>)

  function Summary(successful: nat, failed: nat): string {
    "Processed " + NatToString(successful + failed) + " students. " +
    NatToString(successful) + " successful, " + NatToString(failed) + " failed."
  }

  /** The header labels after `str(col).strip()`. */
  function StripAll(headers: seq<string>): (r: seq<string>)
    ensures |r| == |headers|
    ensures forall i | 0 <= i < |r| :: r[i] == [] <==> AllSpace(headers[i])
    ensures forall i | 0 <= i < |r| && r[i] != [] :: !IsSpace(r[i][0]) && !IsSpace(r[i][|r[i]| - 1])
  {
    var r := seq(|headers|, i requires 0 <= i < |headers| => Strip(headers[i]));
    forall i | 0 <= i < |r|
      ensures (r[i] == [] <==> AllSpace(headers[i])) && (r[i] != [] ==> !IsSpace(r[i][0]) && !IsSpace(r[i][|r[i]| - 1]))
    {
      StripEmptyIffSpace(headers[i]);
      StripEdges(headers[i]);
    }
    r
  }

  /** Error line `e` is about data row `k`. */
  predicate ErrorFor(e: string, k: nat) {
    RowLabel(k) <= e
  }

  /**
    `bulk_upload_students` from the parsed sheet on: an empty sheet and a
    sheet without the four essential columns are refused before any row is
    read; otherwise every row is checked and imported in turn, and the
    counters and error lines account for every row.  Each row is a map keyed
    by the stripped column labels.
  */
  method BulkUploadStudents(p: Portal, rawHeaders: seq<string>, rows: seq<Row>) returns (r: ImportResult)
    requires p.Valid()
    modifies p
    ensures p.Valid()
    ensures r.NoData? <==> |rawHeaders| == 0 || |rows| == 0
    ensures r.MissingColumns? <==>
      |rawHeaders| > 0 && |rows| > 0 && |MissingEssentials(ColumnMapping(StripAll(rawHeaders)))| > 0
    ensures r.MissingColumns? ==>
      r.message == MissingColumnsMessage(MissingEssentials(ColumnMapping(StripAll(rawHeaders))), StripAll(rawHeaders))
    ensures !r.Imported? ==> p.State() == old(p.State())
    ensures r.Imported? ==> r.successful + r.failed == |rows| && |r.errors| == r.failed
    ensures r.Imported? ==> r.message == Summary(r.successful, r.failed)
    ensures r.Imported? ==> (r.status == "success" <==> |r.errors| == 0)
    ensures r.Imported? ==> r.status == "success" || r.status == "partial_success"
    ensures r.Imported? ==> forall e | e in r.errors :: exists k | 0 <= k < |rows| :: ErrorFor(e, k)
    ensures r.Imported? ==> forall k | 0 <= k < |rows| && !RowAcceptable(rows[k], ColumnMapping(StripAll(rawHeaders))) ::
      exists e | e in r.errors :: ErrorFor(e, k)
    ensures r.Imported? ==>
      ImportEffect(old(p.State()), p.State(), AcceptedFields(rows, ColumnMapping(StripAll(rawHeaders))), r.successful)
  {
    if |rawHeaders| == 0 || |rows| == 0 {
      return NoData;
    }
    var headers := StripAll(rawHeaders);
    var m := BuildColumnMapping(headers);
    var missing := MissingEssentials(m);
    if |missing| > 0 {
      return MissingColumns(MissingColumnsMessage(missing, headers));
    }
    var successful, failed, errors := ImportRows(p, rows, m);
    var status := if |errors| == 0 then "success" else "partial_success";
    return Imported(status, Summary(successful, failed), successful, failed, errors);
  }

  /** An error line starts with the label of its row. */
  lemma RowErrorLabelled(k: nat, name: Option<string>, reason: string)
    ensures ErrorFor(RowError(k, name, reason), k)
  {
    var rest := (if name.Some? then name.value else "Unknown") + " - " + reason;
    assert RowError(k, name, reason) == RowLabel(k) + rest;
  }

  /**
    One pass of the row loop before the error bookkeeping: check the row and
    import it when accepted.  Also returns the value of `student_name` after
    the pass, which is this row's name once the check has read it and the
    previous row's otherwise.
  */
  method ProcessRow(p: Portal, rows: seq<Row>, k: nat, m: map<StdColumn, string>, lastName: Option<string>,
                    ghost start: Db, ghost successful: nat)
    returns (failure: Option<string>, name: Option<string>)
    requires p.Valid() && k < |rows|
    requires ImportedSoFar(start, p.State(), rows, m, k, successful)
    modifies p
    ensures p.Valid()
    ensures CheckRow(rows[k], m).Rejected? ==>
      failure == Some(CheckRow(rows[k], m).reason) && p.State() == old(p.State()) &&
      name == if CheckRow(rows[k], m).name.Some? then CheckRow(rows[k], m).name else lastName
    ensures CheckRow(rows[k], m).Accepted? ==>
      name == Some(CheckRow(rows[k], m).fields.studentName) &&
      RowImported(old(p.State()), p.State(), CheckRow(rows[k], m).fields, failure)
    ensures ImportedSoFar(start, p.State(), rows, m, k + 1, if failure.None? then successful + 1 else successful)
  {
    ghost var before := p.State();
    var check := CheckRow(rows[k], m);
    if check.Rejected? {
      failure := Some(check.reason);
      name := if check.name.Some? then check.name else lastName;
    } else {
      name := Some(check.fields.studentName);
      failure := ImportRow(p, check.fields);
    }
    ImportRowStep(start, before, p.State(), rows, m, k, successful, failure);
  }

  /**
    The row loop: each row is checked and, when accepted, imported; a failing
    row adds one error line labelled with its spreadsheet row number (data
    row `k` is line `k + 2`) and the last student name read so far.
  */
  method ImportRows(p: Portal, rows: seq<Row>, m: map<StdColumn, string>)
    returns (successful: nat, failed: nat, errors: seq<string>)
    requires p.Valid()
    modifies p
    ensures p.Valid()
    ensures successful + failed == |rows| && |errors| == failed
    ensures forall e | e in errors :: exists k | 0 <= k < |rows| :: ErrorFor(e, k)
    ensures forall k | 0 <= k < |rows| && !RowAcceptable(rows[k], m) :: exists e | e in errors :: ErrorFor(e, k)
    ensures ImportEffect(old(p.State()), p.State(), AcceptedFields(rows, m), successful)
  {
    successful, failed := 0, 0;
    errors := [];
    var lastName: Option<string> := None;
    ghost var rowOf: seq<nat> := [];
    ghost var ok: seq<bool> := [];
    ghost var start := p.State();
    ImportNothing(start, rows, m);
    var k: nat := 0;
    while k < |rows|
      invariant 0 <= k <= |rows|
      invariant p.Valid()
      invariant successful + failed == k && |errors| == failed
      invariant RowsAccounted(rows, m, k, errors, rowOf, ok)
      invariant ImportedSoFar(start, p.State(), rows, m, k, successful)
    {
      var failure;
      failure, lastName := ProcessRow(p, rows, k, m, lastName, start, successful);
      if failure.Some? {
        var e := RowError(k, lastName, failure.value);
        RowErrorLabelled(k, lastName, failure.value);
        AccountFailure(rows, m, k, errors, rowOf, ok, e);
        failed := failed + 1;
        errors := errors + [e];
        rowOf := rowOf + [k];
        ok := ok + [false];
      } else {
        AccountSuccess(rows, m, k, errors, rowOf, ok);
        successful := successful + 1;
        ok := ok + [true];
      }
      k := k + 1;
    }
    ErrorsMatchRows(rows, m, errors, rowOf, ok);
    assert k == |rows| && start == old(p.State());
    ImportedAll(start, p.State(), rows, m, successful);
  }

  /**
    The loop's bookkeeping after the first `k` rows: `ok` says which rows
    went through, `rowOf` gives the row of each error line, and every row
    that did not go through has an error line.
  */
  ghost predicate RowsAccounted(rows: seq<Row>, m: map<StdColumn, string>, k: nat,
                                errors: seq<string>, rowOf: seq<nat>, ok: seq<bool>)
  {
    && k <= |rows| && |rowOf| == |errors| && |ok| == k
    && (forall i | 0 <= i < |rowOf| :: rowOf[i] < k)
    && (forall j | 0 <= j < k && !ok[j] :: j in rowOf)
    && ErrorsLabelled(errors, rowOf)
    && PassedRowsAcceptable(rows, m, ok)
  }

  lemma AccountFailure(rows: seq<Row>, m: map<StdColumn, string>, k: nat,
                       errors: seq<string>, rowOf: seq<nat>, ok: seq<bool>, e: string)
    requires RowsAccounted(rows, m, k, errors, rowOf, ok) && k < |rows| && ErrorFor(e, k)
    ensures RowsAccounted(rows, m, k + 1, errors + [e], rowOf + [k], ok + [false])
  {
    assert (errors + [e])[..|errors|] == errors && (rowOf + [k])[..|rowOf|] == rowOf;
    assert (ok + [false])[..k] == ok;
  }

  lemma AccountSuccess(rows: seq<Row>, m: map<StdColumn, string>, k: nat,
                       errors: seq<string>, rowOf: seq<nat>, ok: seq<bool>)
    requires RowsAccounted(rows, m, k, errors, rowOf, ok) && k < |rows| && CheckRow(rows[k], m).Accepted?
    ensures RowsAccounted(rows, m, k + 1, errors, rowOf, ok + [true])
  {
    assert (ok + [true])[..k] == ok;
  }

  /** Every row marked as passed in `ok` (a prefix of `rows`) passed the row check. */
  ghost predicate PassedRowsAcceptable(rows: seq<Row>, m: map<StdColumn, string>, ok: seq<bool>)
    requires |ok| <= |rows|
    decreases |ok|
  {
    ok == [] ||
    (PassedRowsAcceptable(rows, m, ok[..|ok| - 1]) && (ok[|ok| - 1] ==> CheckRow(rows[|ok| - 1], m).Accepted?))
  }

  lemma {:induction false} PassedRowsAt(rows: seq<Row>, m: map<StdColumn, string>, ok: seq<bool>)
    requires |ok| <= |rows| && PassedRowsAcceptable(rows, m, ok)
    ensures forall j | 0 <= j < |ok| && ok[j] :: CheckRow(rows[j], m).Accepted?
    decreases |ok|
  {
    if ok != [] {
      var front := ok[..|ok| - 1];
      PassedRowsAt(rows, m, front);
      forall j | 0 <= j < |ok| && ok[j]
        ensures CheckRow(rows[j], m).Accepted?
      {
        if j < |front| {
          assert front[j];
        }
      }
    }
  }

  /** Error line `i` carries the label of row `rowOf[i]`. */
  ghost predicate ErrorsLabelled(errors: seq<string>, rowOf: seq<nat>)
    decreases |errors|
  {
    |errors| == |rowOf| &&
    (errors == [] ||
     (ErrorsLabelled(errors[..|errors| - 1], rowOf[..|rowOf| - 1]) &&
      ErrorFor(errors[|errors| - 1], rowOf[|rowOf| - 1])))
  }

  lemma {:induction false} ErrorsLabelledAt(errors: seq<string>, rowOf: seq<nat>, i: nat)
    requires ErrorsLabelled(errors, rowOf) && i < |errors|
    ensures ErrorFor(errors[i], rowOf[i])
    decreases |errors|
  {
    if i < |errors| - 1 {
      var front, rows := errors[..|errors| - 1], rowOf[..|rowOf| - 1];
      ErrorsLabelledAt(front, rows, i);
      assert front[i] == errors[i] && rows[i] == rowOf[i];
    }
  }

  /**
    The bookkeeping of the row loop, once it has finished: every error line is
    labelled with some row, and every rejected row has a line of its own.
  */
  lemma ErrorsMatchRows(rows: seq<Row>, m: map<StdColumn, string>, errors: seq<string>,
                        rowOf: seq<nat>, ok: seq<bool>)
    requires RowsAccounted(rows, m, |rows|, errors, rowOf, ok)
    ensures forall e | e in errors :: exists k | 0 <= k < |rows| :: ErrorFor(e, k)
    ensures forall k | 0 <= k < |rows| && !RowAcceptable(rows[k], m) :: exists e | e in errors :: ErrorFor(e, k)
  {
    forall e | e in errors
      ensures exists j | 0 <= j < |rows| :: ErrorFor(e, j)
    {
      var i :| 0 <= i < |errors| && errors[i] == e;
      ErrorsLabelledAt(errors, rowOf, i);
    }
    PassedRowsAt(rows, m, ok);
    forall j | 0 <= j < |rows| && !RowAcceptable(rows[j], m)
      ensures exists e | e in errors :: ErrorFor(e, j)
    {
      CheckRowAcceptsExactly(rows[j], m);
      var i :| 0 <= i < |rowOf| && rowOf[i] == j;
      ErrorsLabelledAt(errors, rowOf, i);
      assert errors[i] in errors;
    }
  }

  // ----- Adding one student -----

  datatype AddOutcome = FieldsRequired | AddFailed(message: string) | Added(username: string, message: string)

  function AddedMessage(name: string, username: string, enrollment: string): string {
    "Student '" + name + "' added successfully. Username: " + username + ", Initial password: " + enrollment
  }

  /**
    `add_individual_student`: the three required fields, then, in one
    transaction, the BatchCode (created with the form's class or "Class for
    <code>" and the default year and branch when it does not exist; an
    existing one is left as it is), the Batch, the user and the student.  A
    name with no word in it or a taken code aborts the transaction, so
    nothing is stored.
  */
  method AddIndividualStudent(p: Portal, enrollment: string, batchCode: string, studentName: string, className: string)
    returns (o: AddOutcome)
    requires p.Valid()
    modifies p
    ensures p.Valid()
    ensures o.FieldsRequired? <==> enrollment == "" || batchCode == "" || studentName == ""
    ensures o.AddFailed? <==>
      enrollment != "" && batchCode != "" && studentName != "" &&
      (AllSpace(studentName) || !CodeFree(old(p.students), enrollment))
    ensures o.AddFailed? ==>
      o.message == "Error adding student: " + (if AllSpace(studentName) then NoNameError else DuplicateCodeError)
    ensures !o.Added? ==> p.State() == old(p.State())
    ensures o.Added? ==>
      o.message == AddedMessage(studentName, o.username, enrollment) &&
      NameParts(studentName).Some? &&
      StudentStored(old(p.State()), p.State(), enrollment, batchCode, studentName, className,
                    NameParts(studentName).value.0, NameParts(studentName).value.1, o.username)
  {
    if enrollment == "" || batchCode == "" || studentName == "" {
      return FieldsRequired;
    }
    var parts := NameParts(studentName);
    if parts.None? {
      return AddFailed("Error adding student: " + NoNameError);
    }
    if enrollment in StudentCodes(p.students) {
      return AddFailed("Error adding student: " + DuplicateCodeError);
    }
    var username := StoreNewStudent(p, enrollment, batchCode, studentName, className, parts.value.0, parts.value.1);
    return Added(username, AddedMessage(studentName, username, enrollment));
  }

  /** The class a BatchCode created by `add_individual_student` gets. */
  function ClassOrDefault(className: string, batchCode: string): string {
    if className != "" then className else "Class for " + batchCode
  }

  /**
    The database after `add_individual_student` stored a student: the
    BatchCode row added when the code had none (existing rows untouched), the
    Batch, one new Student-role user with a username no one had, and one new
    student pointing at that user.  Uploads and notifications are unchanged.
  */
  ghost predicate StudentStored(before: Db, after: Db, enrollment: string, batchCode: string, studentName: string,
                                className: string, first: string, last: string, username: string)
  {
    && after.uploads == before.uploads && after.notifications == before.notifications
    && after.batches == before.batches + {batchCode}
    && after.batchCodes ==
         (if batchCode in BatchCodeKeys(before.batchCodes) then before.batchCodes
          else before.batchCodes + [BatchCode(before.nextId, batchCode, ClassOrDefault(className, batchCode),
                                              DefaultAcademicYear, DefaultBranch)])
    && username !in Usernames(before.users)
    && |after.users| == |before.users| + 1 && after.users[..|before.users|] == before.users
    && after.users[|before.users|].username == username
    && after.users[|before.users|].firstName == first && after.users[|before.users|].lastName == last
    && after.users[|before.users|].role == StudentRole && after.users[|before.users|].batchcode == batchCode
    && |after.students| == |before.students| + 1 && after.students[..|before.students|] == before.students
    && after.students[|before.students|].userId == after.users[|before.users|].id
    && after.students[|before.students|].code == enrollment
    && after.students[|before.students|].name == studentName
    && after.students[|before.students|].batch == Some(batchCode)
  }

  /**
    The writes of `add_individual_student` once the checks have passed: the
    BatchCode when it is missing, the Batch, the user and the student.
  */
  method StoreNewStudent(p: Portal, enrollment: string, batchCode: string, studentName: string, className: string,
                         first: string, last: string)
    returns (username: string)
    requires p.Valid() && CodeFree(p.students, enrollment)
    modifies p
    ensures p.Valid()
    ensures StudentStored(old(p.State()), p.State(), enrollment, batchCode, studentName, className, first, last, username)
  {
    if batchCode !in BatchCodeKeys(p.batchCodes) {
      var id := p.CreateBatchCode(batchCode, ClassOrDefault(className, batchCode), DefaultAcademicYear, DefaultBranch);
    }
    p.EnsureBatch(batchCode);
    ghost var beforeUser := p.State();
    var k, userId;
    username, k, userId := CreateStudentUser(p, first, last, batchCode);
    assert p.users[|p.users| - 1].id == userId;
    forall s | s in p.students
      ensures s.userId != userId
    {
      assert StudentRefsOk(beforeUser, s);
    }
    var studentId := p.CreateStudent(userId, enrollment, studentName, Some(batchCode));
  }

  // ----- Moving a student to another batch -----

  datatype TransferOutcome = TransferFieldsRequired | InvalidDate | InvalidStudentOrBatch | NotInBatch | Transferred

  const TransferTitle: string := "Batch Transfer Notification"

  function TransferMessage(fromBatch: string, toBatch: string, remarks: string): string {
    "You have been transferred from " + fromBatch + " to " + toBatch + ".\nRemarks: " +
    (if remarks != "" then remarks else "No remarks provided")
  }

  /**
    `transfer_student`: the four required fields, then the date, the student
    (an id that is not a number fails like a bad date, since both raise
    `ValueError`), the source Batch, and the target Batch, which is created
    when missing even if the transfer is then refused because the student is
    not in the source batch.  A transfer moves only that student and sends
    them one notice.
  */
  method TransferStudent(p: Portal, fromBatch: string, toBatch: string, studentId: Field<int>,
                         transferDate: Field<int>, remarks: string) returns (o: TransferOutcome)
    requires p.Valid()
    modifies p
    ensures p.Valid()
    ensures o.TransferFieldsRequired? <==> fromBatch == "" || toBatch == "" || studentId.Blank? || transferDate.Blank?
    ensures o.InvalidDate? <==>
      !(fromBatch == "" || toBatch == "" || studentId.Blank? || transferDate.Blank?) &&
      (transferDate.Malformed? || studentId.Malformed?)
    ensures o.InvalidStudentOrBatch? <==>
      fromBatch != "" && toBatch != "" && studentId.Given? && transferDate.Given? &&
      (FindStudent(old(p.students), studentId.value).None? || fromBatch !in old(p.batches))
    ensures o.NotInBatch? ==>
      FindStudent(old(p.students), studentId.value).Some? &&
      FindStudent(old(p.students), studentId.value).value.batch != Some(fromBatch) &&
      p.State() == old(p.State()).(batches := old(p.batches) + {toBatch})
    ensures o.Transferred? ==>
      studentId.Given? && FindStudent(old(p.students), studentId.value).Some? &&
      var s := FindStudent(old(p.students), studentId.value).value;
      s.batch == Some(fromBatch) &&
      p.batches == old(p.batches) + {toBatch} &&
      |p.students| == |old(p.students)| &&
      (forall i | 0 <= i < |p.students| ::
        p.students[i] == if old(p.students)[i].id == s.id then old(p.students)[i].(batch := Some(toBatch)) else old(p.students)[i]) &&
      p.notifications == old(p.notifications) + [Notification(s.userId, TransferTitle, TransferMessage(fromBatch, toBatch, remarks), false)] &&
      p.State() == old(p.State()).(batches := p.batches, students := p.students, notifications := p.notifications)
    ensures o.TransferFieldsRequired? || o.InvalidDate? || o.InvalidStudentOrBatch? ==> p.State() == old(p.State())
  {
    if fromBatch == "" || toBatch == "" || studentId.Blank? || transferDate.Blank? {
      return TransferFieldsRequired;
    }
    if transferDate.Malformed? || studentId.Malformed? {
      return InvalidDate;
    }
    var found := FindStudent(p.students, studentId.value);
    if found.None? || fromBatch !in p.batches {
      return InvalidStudentOrBatch;
    }
    var s := found.value;
    p.EnsureBatch(toBatch);
    if s.batch != Some(fromBatch) {
      return NotInBatch;
    }
    assert StudentRefsOk(p.State(), s);
    p.SetStudentBatch(s.id, Some(toBatch));
    p.CreateNotification(s.userId, TransferTitle, TransferMessage(fromBatch, toBatch, remarks));
    return Transferred;
  }

  // ----- Renaming a student's account -----

  datatype CredentialsOutcome = UsernameRequired | StudentNotFound | UsernameTaken | CredentialsUpdated(username: string)

  /** Another account than `userId` already has the name. */
  predicate UsernameTakenByOther(users: seq<User>, userId: nat, name: string) {
    exists u | u in users :: u.id != userId && u.username == name
  }

  /**
    `update_student_credentials` with respect to the username (the password
    is hashed and not modelled): a name is required, the student must exist,
    and a new name must not belong to another account.  Only that account's
    username changes.
  */
  method UpdateStudentCredentials(p: Portal, studentId: nat, username: string) returns (o: CredentialsOutcome)
    requires p.Valid()
    modifies p
    ensures p.Valid()
    ensures o.UsernameRequired? <==> username == ""
    ensures o.StudentNotFound? <==> username != "" && FindStudent(old(p.students), studentId).None?
    ensures o.UsernameTaken? <==>
      username != "" && FindStudent(old(p.students), studentId).Some? &&
      UsernameTakenByOther(old(p.users), FindStudent(old(p.students), studentId).value.userId, username)
    ensures !o.CredentialsUpdated? ==> p.State() == old(p.State())
    ensures o.CredentialsUpdated? ==>
      o.username == username && FindStudent(old(p.students), studentId).Some? &&
      var owner := FindStudent(old(p.students), studentId).value.userId;
      |p.users| == |old(p.users)| &&
      (forall i | 0 <= i < |p.users| ::
        p.users[i] == if old(p.users)[i].id == owner then old(p.users)[i].(username := username) else old(p.users)[i]) &&
      p.State() == old(p.State()).(users := p.users)
  {
    if username == "" {
      return UsernameRequired;
    }
    var found := FindStudent(p.students, studentId);
    if found.None? {
      return StudentNotFound;
    }
    var owner := found.value.userId;
    assert StudentRefsOk(p.State(), found.value);
    var current := FindUser(p.users, owner).value;
    if username != current.username {
      if UsernameTakenByOther(p.users, owner, username) {
        return UsernameTaken;
      }
    } else {
      forall u | u in p.users && u.id != owner
        ensures u.username != username
      {
        var i :| 0 <= i < |p.users| && p.users[i] == u;
        var j :| 0 <= j < |p.users| && p.users[j] == current;
        assert i != j;
        if i < j { assert DistinctUsers(p.users[i], p.users[j]); } else { assert DistinctUsers(p.users[j], p.users[i]); }
      }
    }
    p.SetUsername(owner, username);
    return CredentialsUpdated(username);
  }

  // ----- BatchCodes for users' batch codes -----

  function ClassFor(code: string): string {
    "Class for " + code
  }

  /** A BatchCode made up for a user's batch code: placeholder class, default year and branch. */
  predicate PlaceholderBatchCode(b: BatchCode) {
    b.className == ClassFor(b.code) && b.academicYear == DefaultAcademicYear && b.branch == DefaultBranch
  }

  /** The non-empty batch codes users carry. */
  function UserBatchCodes(users: seq<User>): set<string> {
    set u | u in users && u.batchcode != "" :: u.batchcode
  }

  /**
    The writes `manage_batchcodes` makes before it renders: a placeholder
    BatchCode for every users' batch code that has none, then a Batch for
    every BatchCode.  Existing BatchCodes, users, students, uploads and
    notifications are untouched.
  */
  method SyncBatchCodes(p: Portal)
    requires p.Valid()
    modifies p
    ensures p.Valid()
    ensures p.users == old(p.users) && p.students == old(p.students) &&
            p.uploads == old(p.uploads) && p.notifications == old(p.notifications)
    ensures ExtendsWithPlaceholders(old(p.batchCodes), p.batchCodes, p.users)
    ensures BatchCodeKeys(p.batchCodes) == BatchCodeKeys(old(p.batchCodes)) + UserBatchCodes(p.users)
    ensures p.batches == old(p.batches) + BatchCodeKeys(p.batchCodes)
  {
    CreateMissingBatchCodes(p);
    EnsureBatchesForCodes(p);
  }

  /** `after` is `before` followed by placeholder BatchCodes for new codes that users carry. */
  predicate ExtendsWithPlaceholders(before: seq<BatchCode>, after: seq<BatchCode>, users: seq<User>) {
    && |before| <= |after| && after[..|before|] == before
    && forall j | |before| <= j < |after| ::
         PlaceholderBatchCode(after[j]) && after[j].code in UserBatchCodes(users) && after[j].code !in BatchCodeKeys(before)
  }

  /** One more user adds their batch code, if they have one, to the codes seen so far. */
  lemma UserBatchCodesStep(users: seq<User>, i: nat)
    requires i < |users|
    ensures UserBatchCodes(users[..i + 1]) ==
      UserBatchCodes(users[..i]) + (if users[i].batchcode != "" then {users[i].batchcode} else {})
  {
    assert users[..i + 1] == users[..i] + [users[i]];
  }

  /**
    A placeholder row for user `i`'s uncovered code keeps the extension, and
    the keys then cover every code of the users up to and including `i`.
  */
  lemma ExtendWithPlaceholder(before: seq<BatchCode>, current: seq<BatchCode>, users: seq<User>, i: nat, row: BatchCode)
    requires i < |users| && ExtendsWithPlaceholders(before, current, users)
    requires BatchCodeKeys(current) == BatchCodeKeys(before) + UserBatchCodes(users[..i])
    requires PlaceholderBatchCode(row) && row.code == users[i].batchcode != "" && row.code !in BatchCodeKeys(current)
    ensures ExtendsWithPlaceholders(before, current + [row], users)
    ensures BatchCodeKeys(current + [row]) == BatchCodeKeys(before) + UserBatchCodes(users[..i + 1])
  {
    UserBatchCodesStep(users, i);
    assert users[i] in users;
    var after := current + [row];
    assert after[..|before|] == current[..|before|];
    assert BatchCodeKeys(before) <= BatchCodeKeys(current) by {
      forall b | b in before
        ensures b in current
      {
        var i :| 0 <= i < |before| && before[i] == b;
        assert current[i] == b;
      }
    }
    assert forall b | b in after :: b in current || b == row;
    assert BatchCodeKeys(after) == BatchCodeKeys(current) + {row.code};
  }

  /** A user without a code, or whose code is already covered, leaves the keys covering their code too. */
  lemma SkipCoveredUser(before: seq<BatchCode>, current: seq<BatchCode>, users: seq<User>, i: nat)
    requires i < |users|
    requires BatchCodeKeys(current) == BatchCodeKeys(before) + UserBatchCodes(users[..i])
    requires users[i].batchcode == "" || users[i].batchcode in BatchCodeKeys(current)
    ensures BatchCodeKeys(current) == BatchCodeKeys(before) + UserBatchCodes(users[..i + 1])
  {
    UserBatchCodesStep(users, i);
  }

  /** The first loop of the sync: users in table order, a placeholder for each uncovered batch code. */
  method CreateMissingBatchCodes(p: Portal)
    requires p.Valid()
    modifies p
    ensures p.Valid()
    ensures p.State() == old(p.State()).(batchCodes := p.batchCodes, nextId := p.nextId)
    ensures ExtendsWithPlaceholders(old(p.batchCodes), p.batchCodes, p.users)
    ensures BatchCodeKeys(p.batchCodes) == BatchCodeKeys(old(p.batchCodes)) + UserBatchCodes(p.users)
  {
    var i := 0;
    while i < |p.users|
      invariant 0 <= i <= |p.users|
      invariant p.Valid()
      invariant p.State() == old(p.State()).(batchCodes := p.batchCodes, nextId := p.nextId)
      invariant ExtendsWithPlaceholders(old(p.batchCodes), p.batchCodes, p.users)
      invariant BatchCodeKeys(p.batchCodes) == BatchCodeKeys(old(p.batchCodes)) + UserBatchCodes(p.users[..i])
    {
      var u := p.users[i];
      if u.batchcode != "" && u.batchcode !in BatchCodeKeys(p.batchCodes) {
        ghost var before := p.batchCodes;
        var row := BatchCode(p.nextId, u.batchcode, ClassFor(u.batchcode), DefaultAcademicYear, DefaultBranch);
        ExtendWithPlaceholder(old(p.batchCodes), before, p.users, i, row);
        var id := p.CreateBatchCode(u.batchcode, ClassFor(u.batchcode), DefaultAcademicYear, DefaultBranch);
        assert p.batchCodes == before + [row];
      } else {
        SkipCoveredUser(old(p.batchCodes), p.batchCodes, p.users, i);
      }
      i := i + 1;
    }
    assert p.users[..|p.users|] == p.users;
  }

  /** The second loop of the sync: `Batch.objects.get_or_create` for every BatchCode. */
  method EnsureBatchesForCodes(p: Portal)
    requires p.Valid()
    modifies p
    ensures p.Valid()
    ensures p.State() == old(p.State()).(batches := old(p.batches) + BatchCodeKeys(p.batchCodes))
  {
    var k := 0;
    while k < |p.batchCodes|
      invariant 0 <= k <= |p.batchCodes|
      invariant p.Valid()
      invariant p.State() == old(p.State()).(batches := old(p.batches) + BatchCodeKeys(p.batchCodes[..k]))
    {
      var b := p.batchCodes[k];
      assert p.batchCodes[..k + 1] == p.batchCodes[..k] + [b];
      assert BatchCodeKeys(p.batchCodes[..k + 1]) == BatchCodeKeys(p.batchCodes[..k]) + {b.code};
      p.EnsureBatch(b.code);
      k := k + 1;
    }
    assert p.batchCodes[..|p.batchCodes|] == p.batchCodes;
  }

  // ----- Deleting a BatchCode -----

  const DeletionTitle: string := "Batch Deletion Record"

  function DeletionMessage(code: string, reason: string): string {
    "Batch '" + code + "' was deleted.\nReason: " + reason
  }

  /** Some user with that id has the Admin role. */
  predicate IsAdminUser(users: seq<User>, id: nat) {
    exists u | u in users :: u.id == id && u.role == AdminRole
  }

  /** One deletion record for every Admin user, in table order. */
  function AdminNotices(users: seq<User>, message: string): (r: seq<Notification>)
    ensures forall n | n in r :: n.title == DeletionTitle && n.message == message && !n.isRead && IsAdminUser(users, n.userId)
    ensures forall u | u in users && u.role == AdminRole :: Notification(u.id, DeletionTitle, message, false) in r
  {
    if |users| == 0 then []
    else
      var init := users[..|users| - 1];
      var last := users[|users| - 1];
      assert users == init + [last];
      AdminNotices(init, message) +
      (if last.role == AdminRole then [Notification(last.id, DeletionTitle, message, false)] else [])
  }

  /** Every admin gets exactly one record and nobody else gets any, as long as user ids are unique. */
  lemma {:induction false} AdminNoticesOnce(users: seq<User>, message: string, user: nat)
    requires Pairwise(users, DistinctUsers)
    ensures NoticesTo(AdminNotices(users, message), user) == if IsAdminUser(users, user) then 1 else 0
  {
    if |users| > 0 {
      var init := users[..|users| - 1];
      var last := users[|users| - 1];
      assert users == init + [last];
      PrefixPairwise(users, |users| - 1, DistinctUsers);
      AdminNoticesOnce(init, message, user);
      var tail := if last.role == AdminRole then [Notification(last.id, DeletionTitle, message, false)] else [];
      NoticesToConcat(AdminNotices(init, message), tail, user);
      if last.role == AdminRole {
        assert tail[..0] == [];
      }
      assert IsAdminUser(users, user) <==> IsAdminUser(init, user) || (last.role == AdminRole && last.id == user);
      if last.id == user {
        forall u | u in init
          ensures u.id != user
        {
          var k :| 0 <= k < |init| && init[k] == u;
          assert DistinctUsers(users[k], users[|users| - 1]);
        }
      }
    }
  }

  /** The users whose student profile is in batch `code`. */
  function StudentUsersOfBatch(students: seq<Student>, code: BatchKey): set<nat> {
    set s | s in students && s.batch == Some(code) :: s.userId
  }

  /** The database once every admin holds the deletion record of `code`. */
  function NoticedDb(db: Db, code: string, reason: string): (r: Db)
    requires ValidDb(db)
    ensures ValidDb(r)
    ensures r == db.(notifications := db.notifications + AdminNotices(db.users, DeletionMessage(code, reason)))
  {
    var r := db.(notifications := db.notifications + AdminNotices(db.users, DeletionMessage(code, reason)));
    forall n | n in r.notifications
      ensures n.userId in UserIds(r.users)
    {
      if n !in db.notifications {
        var u :| u in db.users && u.id == n.userId && u.role == AdminRole;
      }
    }
    r
  }

  /** Then, when the Batch exists, its students' users are deleted and then the Batch itself. */
  function ClearedDb(db: Db, code: string, reason: string): (r: Db)
    requires ValidDb(db)
    ensures ValidDb(r)
  {
    var noticed := NoticedDb(db, code, reason);
    if code in db.batches
    then DeleteBatchDb(DeleteUsersDb(noticed, StudentUsersOfBatch(db.students, code)), code)
    else noticed
  }

  /**
    The database after `delete_batchcode` found BatchCode `b`: the admins'
    deletion records are added; when a Batch with that code exists, its
    students' users are deleted (taking the students and their notifications
    with them) and then the Batch; finally the BatchCode row goes.
  */
  function DeleteBatchCodeResult(db: Db, b: BatchCode, reason: string): (r: Db)
    requires ValidDb(db)
    ensures ValidDb(r)
  {
    DeleteBatchCodeDb(ClearedDb(db, b.code, reason), b.id)
  }

  /** The BatchCode row and the Batch are gone, and no remaining student is in that batch. */
  lemma DeletionRemovesBatch(db: Db, b: BatchCode, reason: string)
    requires ValidDb(db)
    ensures var r := DeleteBatchCodeResult(db, b, reason);
      && (forall x :: x in r.batchCodes <==> x in db.batchCodes && x.id != b.id)
      && b.code !in r.batches
      && (forall s | s in r.students :: s.batch != Some(b.code))
  {
    var cleared := ClearedDb(db, b.code, reason);
    if b.code !in db.batches {
      forall s | s in db.students
        ensures s.batch != Some(b.code)
      {
        assert StudentRefsOk(db, s);
      }
    } else {
      forall s | s in cleared.students
        ensures s.batch != Some(b.code)
      {
        var i :| 0 <= i < |cleared.students| && cleared.students[i] == s;
      }
    }
  }

  /**
    Exactly the users of the batch's students are deleted, and every student
    of another batch (or of none) stays as it was.
  */
  lemma DeletionRemovesBatchUsers(db: Db, b: BatchCode, reason: string)
    requires ValidDb(db)
    ensures var r := DeleteBatchCodeResult(db, b, reason);
      && (forall u :: u in r.users <==> u in db.users && u.id !in StudentUsersOfBatch(db.students, b.code))
      && (forall s | s in db.students && s.batch != Some(b.code) :: s in r.students)
  {
    var ids := StudentUsersOfBatch(db.students, b.code);
    var noticed := NoticedDb(db, b.code, reason);
    var cleared := ClearedDb(db, b.code, reason);
    if b.code in db.batches {
      var gone := DeleteUsersDb(noticed, ids);
      assert cleared == DeleteBatchDb(gone, b.code);
      forall s | s in db.students && s.batch != Some(b.code)
        ensures s in cleared.students
      {
        assert s in gone.students;
        var i :| 0 <= i < |gone.students| && gone.students[i] == s;
        assert cleared.students[i] == s;
      }
    } else {
      forall s | s in db.students
        ensures s.batch != Some(b.code)
      {
        assert StudentRefsOk(db, s);
      }
      assert ids == {};
    }
  }

  /** Every admin who survives the cascade holds a deletion record. */
  lemma DeletionRecordedForAdmins(db: Db, b: BatchCode, reason: string)
    requires ValidDb(db)
    ensures var r := DeleteBatchCodeResult(db, b, reason);
      forall u | u in r.users && u.role == AdminRole ::
        Notification(u.id, DeletionTitle, DeletionMessage(b.code, reason), false) in r.notifications
  {
    var msg := DeletionMessage(b.code, reason);
    var noticed := NoticedDb(db, b.code, reason);
    var cleared := ClearedDb(db, b.code, reason);
    forall u | u in cleared.users && u.role == AdminRole
      ensures Notification(u.id, DeletionTitle, msg, false) in cleared.notifications
    {
      assert u in db.users;
      assert Notification(u.id, DeletionTitle, msg, false) in noticed.notifications;
      if b.code in db.batches {
        var gone := DeleteUsersDb(noticed, StudentUsersOfBatch(db.students, b.code));
        assert cleared.notifications == gone.notifications;
      }
    }
  }

  /**
    The side effect on uploads: an upload of the deleted batch whose share
    list held only that batch's students (or nobody) keeps its row but loses
    both its batch and its share list, so it becomes a broadcast that every
    student may open while it is live.
  */
  lemma DeletedBatchUploadsBecomeBroadcasts(db: Db, b: BatchCode, reason: string, i: nat)
    requires ValidDb(db) && b in db.batchCodes && b.code in db.batches
    requires i < |db.uploads| && db.uploads[i].batch == Some(b.code)
    requires db.uploads[i].sharedWith <= StudentsOfUsers(db.students, StudentUsersOfBatch(db.students, b.code))
    ensures i < |DeleteBatchCodeResult(db, b, reason).uploads|
    ensures var u := DeleteBatchCodeResult(db, b, reason).uploads[i];
      && u.id == db.uploads[i].id && u.batch.None? && IsSharedWithAll(u)
      && forall s: Student, today: int :: IsAccessibleByStudent(u, s, today) <==> Live(u, today)
  {
    var msg := DeletionMessage(b.code, reason);
    var ids := StudentUsersOfBatch(db.students, b.code);
    var noticed := NoticedDb(db, b.code, reason);
    var gone := DeleteUsersDb(noticed, ids);
    assert gone.uploads[i] == DetachUpload(db.uploads[i], ids, StudentsOfUsers(db.students, ids));
    var cleared := DeleteBatchDb(gone, b.code);
    var r := DeleteBatchCodeResult(db, b, reason);
    assert r == DeleteBatchCodeDb(cleared, b.id);
    assert r.uploads == cleared.uploads;
    var u := r.uploads[i];
    forall s: Student, today: int
      ensures IsAccessibleByStudent(u, s, today) <==> Live(u, today)
    {
      AccessibleIffLiveAndScoped(u, s, today);
    }
  }

  lemma AdminNoticesStep(sent: seq<Notification>, users: seq<User>, i: nat, message: string)
    requires i < |users|
    ensures sent + AdminNotices(users[..i + 1], message)
         == sent + AdminNotices(users[..i], message)
            + (if users[i].role == AdminRole then [Notification(users[i].id, DeletionTitle, message, false)] else [])
  {
    assert users[..i + 1][..i] == users[..i];
  }

  /** The admin loop of `delete_batchcode`: a deletion record for each Admin user. */
  method NotifyAdmins(p: Portal, message: string)
    requires p.Valid()
    modifies p
    ensures p.Valid()
    ensures p.State() == old(p.State()).(notifications := old(p.notifications) + AdminNotices(old(p.users), message))
  {
    var i := 0;
    while i < |p.users|
      invariant 0 <= i <= |p.users|
      invariant p.Valid()
      invariant p.State() == old(p.State()).(notifications := old(p.notifications) + AdminNotices(p.users[..i], message))
    {
      var u := p.users[i];
      AdminNoticesStep(old(p.notifications), p.users, i, message);
      if u.role == AdminRole {
        assert u in p.users;
        p.CreateNotification(u.id, DeletionTitle, message);
      }
      i := i + 1;
    }
    assert p.users[..|p.users|] == p.users;
  }

  /** `Student.objects.filter(batch=...)` read for its users. */
  method BatchStudentUsers(p: Portal, code: BatchKey) returns (ids: set<nat>)
    ensures ids == StudentUsersOfBatch(p.students, code)
  {
    ids := {};
    var j := 0;
    while j < |p.students|
      invariant 0 <= j <= |p.students|
      invariant ids == StudentUsersOfBatch(p.students[..j], code)
    {
      var s := p.students[j];
      assert p.students[..j + 1] == p.students[..j] + [s];
      if s.batch == Some(code) {
        ids := ids + {s.userId};
      }
      j := j + 1;
    }
    assert p.students[..|p.students|] == p.students;
  }

  /**
    `delete_batchcode`: an unknown id changes nothing; otherwise the
    database becomes `DeleteBatchCodeResult`.  The students' users are
    deleted together rather than one by one, which ends in the same state.
  */
  method DeleteBatchCodeView(p: Portal, id: nat, reason: string) returns (found: bool)
    requires p.Valid()
    modifies p
    ensures p.Valid()
    ensures found <==> FindBatchCodeById(old(p.batchCodes), id).Some?
    ensures !found ==> p.State() == old(p.State())
    ensures found ==> p.State() == DeleteBatchCodeResult(old(p.State()), FindBatchCodeById(old(p.batchCodes), id).value, reason)
  {
    var lookup := FindBatchCodeById(p.batchCodes, id);
    if lookup.None? {
      return false;
    }
    var b := lookup.value;
    ghost var db := p.State();
    NotifyAdmins(p, DeletionMessage(b.code, reason));
    if b.code in p.batches {
      var ids := BatchStudentUsers(p, b.code);
      p.DeleteUsers(ids);
      p.DeleteBatch(b.code);
    }
    p.DeleteBatchCode(b.id);
    return true;
  }
}
