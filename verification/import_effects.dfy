/**
  What the bulk student import of core/views.py does to the database, stated
  row by row and for a whole sheet, with the lemmas that build the second
  from the first as the row loop goes.
*/
module ImportEffects {
  import opened Text
  import opened Entities
  import opened Store
  import opened Roster

  predicate HasBatchCode(batchCodes: seq<BatchCode>, code: string, className: string, academicYear: string, branch: string) {
    exists b | b in batchCodes :: b.code == code && b.className == className && b.academicYear == academicYear && b.branch == branch
  }

  /** Every BatchCode with code `code` carries the class, year and branch of `f`, and there is one. */
  predicate CodeCarries(batchCodes: seq<BatchCode>, code: string, f: RowFields) {
    && HasBatchCode(batchCodes, code, f.className, f.academicYear, f.branch)
    && forall b | b in batchCodes && b.code == code ::
         b.className == f.className && b.academicYear == f.academicYear && b.branch == f.branch
  }

  /** The code, name and batch of a student profile. */
  function Profile(s: Student): (string, string, Option<BatchKey>) {
    (s.code, s.name, s.batch)
  }

  /** The code, name and batch the profile created from row `f` gets. */
  function RowProfile(f: RowFields): (string, string, Option<BatchKey>) {
    (f.enrollment, f.studentName, Some(f.batchCode))
  }

  function RowProfiles(fs: seq<RowFields>): set<(string, string, Option<BatchKey>)> {
    set f | f in fs :: RowProfile(f)
  }

  /**
    What importing one accepted row `f` does to the database: its BatchCode
    is created or overwritten with the row's fields and no other BatchCode
    changes, its Batch exists, at most one Student-role user with the row's
    batch code is appended, and the student is appended exactly when the row
    did not fail.  Uploads and notifications are untouched.
  */
  ghost predicate RowImported(before: Db, after: Db, f: RowFields, failure: Option<string>) {
    && after.uploads == before.uploads && after.notifications == before.notifications
    && after.batches == before.batches + {f.batchCode}
    && CodeCarries(after.batchCodes, f.batchCode, f)
    && (forall b: BatchCode | b.code != f.batchCode :: b in after.batchCodes <==> b in before.batchCodes)
    && |before.users| <= |after.users| <= |before.users| + 1 && after.users[..|before.users|] == before.users
    && (forall i | |before.users| <= i < |after.users| ::
          after.users[i].role == StudentRole && after.users[i].batchcode == f.batchCode)
    && (failure.None? ==>
          |after.students| == |before.students| + 1 && after.students[..|before.students|] == before.students &&
          Profile(after.students[|before.students|]) == RowProfile(f))
    && (failure.Some? ==> after.students == before.students)
  }

  /** The fields of the rows of `rows` the row check accepts, in sheet order. */
  function AcceptedFields(rows: seq<Row>, m: map<StdColumn, string>): (fs: seq<RowFields>)
    ensures |fs| <= |rows|
    decreases |rows|
  {
    if rows == [] then []
    else
      var check := CheckRow(rows[|rows| - 1], m);
      AcceptedFields(rows[..|rows| - 1], m) + if check.Accepted? then [check.fields] else []
  }

  /** The batch codes the rows `fs` name. */
  function Codes(fs: seq<RowFields>): set<string> {
    set f | f in fs :: f.batchCode
  }

  /** The last of `fs` with batch code `code`: the row whose class, year and branch its BatchCode keeps. */
  function LastFor(fs: seq<RowFields>, code: string): (r: Option<RowFields>)
    ensures r.Some? <==> code in Codes(fs)
    ensures r.Some? ==> r.value in fs && r.value.batchCode == code
    decreases |fs|
  {
    if fs == [] then None
    else if fs[|fs| - 1].batchCode == code then Some(fs[|fs| - 1])
    else
      assert fs == fs[..|fs| - 1] + [fs[|fs| - 1]];
      LastFor(fs[..|fs| - 1], code)
  }

  /**
    What importing the accepted rows `fs` one after another does to the
    database `start`: every batch code they name has its Batch and a
    BatchCode carrying the fields of the last row naming it, every other
    BatchCode is as it was, the users and students tables only grow, each new
    user is a Student-role user with one of the rows' batch codes, and
    exactly `successful` students are added, each created from one of the
    rows.  Uploads and notifications are untouched.
  */
  ghost predicate ImportEffect(start: Db, now: Db, fs: seq<RowFields>, successful: nat) {
    && now.uploads == start.uploads && now.notifications == start.notifications
    && now.batches == start.batches + Codes(fs)
    && (forall code | LastFor(fs, code).Some? :: CodeCarries(now.batchCodes, code, LastFor(fs, code).value))
    && (forall b: BatchCode | b.code !in Codes(fs) :: b in now.batchCodes <==> b in start.batchCodes)
    && |start.users| <= |now.users| <= |start.users| + |fs| && now.users[..|start.users|] == start.users
    && (forall i | |start.users| <= i < |now.users| ::
          now.users[i].role == StudentRole && now.users[i].batchcode in Codes(fs))
    && successful <= |fs|
    && |now.students| == |start.students| + successful && now.students[..|start.students|] == start.students
    && (forall i | |start.students| <= i < |now.students| :: Profile(now.students[i]) in RowProfiles(fs))
  }

  lemma ImportNothing(db: Db, rows: seq<Row>, m: map<StdColumn, string>)
    ensures ImportedSoFar(db, db, rows, m, 0, 0)
  {
    assert rows[..0] == [];
    assert db.users[..|db.users|] == db.users && db.students[..|db.students|] == db.students;
  }

  /** The database after the row loop has gone through the first `k` rows. */
  ghost predicate ImportedSoFar(start: Db, now: Db, rows: seq<Row>, m: map<StdColumn, string>, k: nat, successful: nat)
    requires k <= |rows|
  {
    ImportEffect(start, now, AcceptedFields(rows[..k], m), successful)
  }

  lemma ImportedAll(start: Db, now: Db, rows: seq<Row>, m: map<StdColumn, string>, successful: nat)
    requires ImportedSoFar(start, now, rows, m, |rows|, successful)
    ensures ImportEffect(start, now, AcceptedFields(rows, m), successful)
  {
    assert rows[..|rows|] == rows;
  }

  /** The loop's step on the database: row `k` checked and, when accepted, imported. */
  lemma ImportRowStep(start: Db, before: Db, after: Db, rows: seq<Row>, m: map<StdColumn, string>, k: nat,
                      successful: nat, failure: Option<string>)
    requires k < |rows|
    requires ImportedSoFar(start, before, rows, m, k, successful)
    requires CheckRow(rows[k], m).Rejected? ==> failure.Some? && after == before
    requires CheckRow(rows[k], m).Accepted? ==> RowImported(before, after, CheckRow(rows[k], m).fields, failure)
    ensures ImportedSoFar(start, after, rows, m, k + 1, if failure.None? then successful + 1 else successful)
  {
    var fs := AcceptedFields(rows[..k], m);
    var check := CheckRow(rows[k], m);
    AcceptedFieldsStep(rows, m, k);
    if check.Accepted? {
      assert AcceptedFields(rows[..k + 1], m) == fs + [check.fields];
      ImportStep(start, before, after, fs, successful, check.fields, failure);
    } else {
      assert AcceptedFields(rows[..k + 1], m) == fs;
    }
  }

  /** The accepted fields of one more row. */
  lemma AcceptedFieldsStep(rows: seq<Row>, m: map<StdColumn, string>, k: nat)
    requires k < |rows|
    ensures AcceptedFields(rows[..k + 1], m) ==
      AcceptedFields(rows[..k], m) + if CheckRow(rows[k], m).Accepted? then [CheckRow(rows[k], m).fields] else []
  {
    assert rows[..k + 1][..k] == rows[..k];
  }

  lemma CodesSnoc(fs: seq<RowFields>, f: RowFields)
    ensures Codes(fs + [f]) == Codes(fs) + {f.batchCode}
  {
    assert f in fs + [f];
    forall g | g in fs
      ensures g in fs + [f]
    {
    }
  }

  /**
    One accepted row more: importing `f` into a database that holds the
    import of `fs` gives the import of `fs + [f]`.
  */
  lemma ImportStep(start: Db, before: Db, after: Db, fs: seq<RowFields>, successful: nat,
                   f: RowFields, failure: Option<string>)
    requires ImportEffect(start, before, fs, successful) && RowImported(before, after, f, failure)
    ensures ImportEffect(start, after, fs + [f], if failure.None? then successful + 1 else successful)
  {
    var gs := fs + [f];
    CodesSnoc(fs, f);
    ImportStepBatchCodes(start, before, after, fs, f, failure);
    ImportStepUsers(start, before, after, fs, f, failure);
    ImportStepStudents(start, before, after, fs, successful, f, failure);
  }

  lemma ImportStepBatchCodes(start: Db, before: Db, after: Db, fs: seq<RowFields>, f: RowFields, failure: Option<string>)
    requires forall code | LastFor(fs, code).Some? :: CodeCarries(before.batchCodes, code, LastFor(fs, code).value)
    requires forall b: BatchCode | b.code !in Codes(fs) :: b in before.batchCodes <==> b in start.batchCodes
    requires CodeCarries(after.batchCodes, f.batchCode, f)
    requires forall b: BatchCode | b.code != f.batchCode :: b in after.batchCodes <==> b in before.batchCodes
    requires Codes(fs + [f]) == Codes(fs) + {f.batchCode}
    ensures forall code | LastFor(fs + [f], code).Some? :: CodeCarries(after.batchCodes, code, LastFor(fs + [f], code).value)
    ensures forall b: BatchCode | b.code !in Codes(fs + [f]) :: b in after.batchCodes <==> b in start.batchCodes
  {
    var gs := fs + [f];
    assert gs[..|gs| - 1] == fs;
    forall code | LastFor(gs, code).Some?
      ensures CodeCarries(after.batchCodes, code, LastFor(gs, code).value)
    {
      if code != f.batchCode {
        var g := LastFor(fs, code).value;
        var b :| b in before.batchCodes && b.code == code && b.className == g.className &&
                 b.academicYear == g.academicYear && b.branch == g.branch;
        assert b in after.batchCodes;
      }
    }
  }

  lemma ImportStepUsers(start: Db, before: Db, after: Db, fs: seq<RowFields>, f: RowFields, failure: Option<string>)
    requires |start.users| <= |before.users| <= |start.users| + |fs| && before.users[..|start.users|] == start.users
    requires forall i | |start.users| <= i < |before.users| ::
      before.users[i].role == StudentRole && before.users[i].batchcode in Codes(fs)
    requires |before.users| <= |after.users| <= |before.users| + 1 && after.users[..|before.users|] == before.users
    requires forall i | |before.users| <= i < |after.users| ::
      after.users[i].role == StudentRole && after.users[i].batchcode == f.batchCode
    requires Codes(fs + [f]) == Codes(fs) + {f.batchCode}
    ensures |start.users| <= |after.users| <= |start.users| + |fs + [f]| && after.users[..|start.users|] == start.users
    ensures forall i | |start.users| <= i < |after.users| ::
      after.users[i].role == StudentRole && after.users[i].batchcode in Codes(fs + [f])
  {
    assert after.users[..|start.users|] == after.users[..|before.users|][..|start.users|];
    forall i | |start.users| <= i < |after.users|
      ensures after.users[i].role == StudentRole && after.users[i].batchcode in Codes(fs + [f])
    {
      if i < |before.users| {
        assert after.users[i] == after.users[..|before.users|][i];
      }
    }
  }

  lemma ImportStepStudents(start: Db, before: Db, after: Db, fs: seq<RowFields>, successful: nat,
                           f: RowFields, failure: Option<string>)
    requires successful <= |fs|
    requires |before.students| == |start.students| + successful && before.students[..|start.students|] == start.students
    requires forall i | |start.students| <= i < |before.students| :: Profile(before.students[i]) in RowProfiles(fs)
    requires failure.None? ==>
      |after.students| == |before.students| + 1 && after.students[..|before.students|] == before.students &&
      Profile(after.students[|before.students|]) == RowProfile(f)
    requires failure.Some? ==> after.students == before.students
    ensures var n := if failure.None? then successful + 1 else successful;
      n <= |fs + [f]| &&
      |after.students| == |start.students| + n && after.students[..|start.students|] == start.students
    ensures forall i | |start.students| <= i < |after.students| :: Profile(after.students[i]) in RowProfiles(fs + [f])
  {
    assert RowProfiles(fs + [f]) == RowProfiles(fs) + {RowProfile(f)} by {
      assert f in fs + [f];
      forall g | g in fs
        ensures g in fs + [f]
      {
      }
    }
    if failure.None? {
      assert after.students[..|start.students|] == after.students[..|before.students|][..|start.students|];
      forall i | |start.students| <= i < |before.students|
        ensures after.students[i] == before.students[i]
      {
        assert after.students[i] == after.students[..|before.students|][i];
      }
    }
  }

  /** The fields of a row are listed exactly when the row check accepts that row. */
  lemma AcceptedFieldsExactly(rows: seq<Row>, m: map<StdColumn, string>)
    ensures forall k | 0 <= k < |rows| && CheckRow(rows[k], m).Accepted? ::
      CheckRow(rows[k], m).fields in AcceptedFields(rows, m)
    ensures forall f | f in AcceptedFields(rows, m) :: exists k | 0 <= k < |rows| :: CheckRow(rows[k], m) == Accepted(f)
  {
    forall k | 0 <= k < |rows| && CheckRow(rows[k], m).Accepted?
      ensures CheckRow(rows[k], m).fields in AcceptedFields(rows, m)
    {
      AcceptedRowListed(rows, m, k);
    }
    ListedRowsAccepted(rows, m);
  }

  lemma {:induction false} AcceptedRowListed(rows: seq<Row>, m: map<StdColumn, string>, k: nat)
    requires k < |rows| && CheckRow(rows[k], m).Accepted?
    ensures CheckRow(rows[k], m).fields in AcceptedFields(rows, m)
    decreases |rows|
  {
    var front := rows[..|rows| - 1];
    var last := CheckRow(rows[|rows| - 1], m);
    var fs := AcceptedFields(rows, m);
    assert fs == AcceptedFields(front, m) + if last.Accepted? then [last.fields] else [];
    if k < |front| {
      assert rows[k] == front[k];
      AcceptedRowListed(front, m, k);
    } else {
      assert k == |rows| - 1 && last.Accepted?;
      assert fs == AcceptedFields(front, m) + [last.fields];
    }
  }

  lemma {:induction false} ListedRowsAccepted(rows: seq<Row>, m: map<StdColumn, string>)
    ensures forall f | f in AcceptedFields(rows, m) :: exists k | 0 <= k < |rows| :: CheckRow(rows[k], m) == Accepted(f)
    decreases |rows|
  {
    if rows != [] {
      var front := rows[..|rows| - 1];
      ListedRowsAccepted(front, m);
      var last := CheckRow(rows[|rows| - 1], m);
      var fs := AcceptedFields(rows, m);
      assert fs == AcceptedFields(front, m) + if last.Accepted? then [last.fields] else [];
      forall f | f in fs
        ensures exists k | 0 <= k < |rows| :: CheckRow(rows[k], m) == Accepted(f)
      {
        if f in AcceptedFields(front, m) {
          var j :| 0 <= j < |front| && CheckRow(front[j], m) == Accepted(f);
          assert rows[j] == front[j];
        } else {
          assert last == Accepted(f);
        }
      }
    }
  }

  /**
    After an import, the batch code of every accepted row has its Batch and a
    BatchCode, whatever happened to the row's student.
  */
  lemma ImportedBatchCodes(start: Db, now: Db, rows: seq<Row>, m: map<StdColumn, string>, successful: nat, k: nat)
    requires ImportEffect(start, now, AcceptedFields(rows, m), successful)
    requires k < |rows| && CheckRow(rows[k], m).Accepted?
    ensures CheckRow(rows[k], m).fields.batchCode in now.batches
    ensures CheckRow(rows[k], m).fields.batchCode in BatchCodeKeys(now.batchCodes)
  {
    AcceptedFieldsExactly(rows, m);
    var fs := AcceptedFields(rows, m);
    var code := CheckRow(rows[k], m).fields.batchCode;
    assert code in Codes(fs);
    var g := LastFor(fs, code).value;
    var b :| b in now.batchCodes && b.code == code && b.className == g.className &&
             b.academicYear == g.academicYear && b.branch == g.branch;
  }

  /**
    After an import, every student that was not there before carries the
    enrollment number, name and batch code of an accepted row of the sheet.
  */
  lemma ImportedStudentsFromRows(start: Db, now: Db, rows: seq<Row>, m: map<StdColumn, string>, successful: nat, i: nat)
    requires ImportEffect(start, now, AcceptedFields(rows, m), successful)
    requires |start.students| <= i < |now.students|
    ensures exists k | 0 <= k < |rows| && CheckRow(rows[k], m).Accepted? ::
      Profile(now.students[i]) == RowProfile(CheckRow(rows[k], m).fields)
  {
    AcceptedFieldsExactly(rows, m);
    var f :| f in AcceptedFields(rows, m) && Profile(now.students[i]) == RowProfile(f);
    var k :| 0 <= k < |rows| && CheckRow(rows[k], m) == Accepted(f);
  }
}
