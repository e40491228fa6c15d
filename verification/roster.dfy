/**
  The roster rules of the admin views (core/views.py): how spreadsheet headers
  are mapped onto the six standard columns, how a data row is checked, how a
  username is derived from a student's name, and how a student code is made
  up at sign-up.  The store updates that use them are in `CoreViews`.
*/
module Roster {
  import opened Text
  import opened Entities
  import opened Store

  // ----- Header mapping -----

  /** The standard columns, in the order the mapping visits them. */
  datatype StdColumn = EnrollmentNumber | BatchCodeColumn | StudentName | ClassColumn | AcademicYear | Branch

  const AllColumns: seq<StdColumn> := [EnrollmentNumber, BatchCodeColumn, StudentName, ClassColumn, AcademicYear, Branch]

  function StdName(c: StdColumn): string {
    match c
    case EnrollmentNumber => "Enrollment Number"
    case BatchCodeColumn => "Batch Code"
    case StudentName => "Student Name"
    case ClassColumn => "Class"
    case AcademicYear => "Academic Year"
    case Branch => "Branch"
  }

  /** The listed spellings of each standard column. */
  function Variations(c: StdColumn): seq<string> {
    match c
    case EnrollmentNumber =>
      ["enrollment number", "enrollment", "enrollment no", "enrollment no.", "enrollmentnumber", "enroll", "enrol",
       "enrollment_number", "enrollment_no", "ENROLLMENT NUMBER", "ENROLLMENT"]
    case BatchCodeColumn =>
      ["batch code", "batchcode", "batch", "batch no", "batch no.", "batchno", "batch_code", "batch_no", "BATCH CODE", "BATCH"]
    case StudentName =>
      ["student name", "studentname", "name", "full name", "fullname", "student_name", "full_name", "STUDENT NAME"]
    case ClassColumn =>
      ["class", "class name", "classname", "std", "standard", "class_name", "CLASS"]
    case AcademicYear =>
      ["academic year", "academicyear", "year", "academic", "academic_year", "academic session", "academic_session",
       "session year", "session_year"]
    case Branch =>
      ["branch", "branch name", "branchname", "campus", "branch_name", "location", "center"]
  }

  /** Lower-case, then drop spaces, underscores and hyphens. */
  function Normalise(h: string): (r: string)
    ensures ' ' !in r && '_' !in r && '-' !in r
  {
    RemoveChar(RemoveChar(RemoveChar(Lower(h), ' '), '_'), '-')
  }

  /** The normalised spellings a header may have to map to `c`: its variations and its own name. */
  function NormalisedNames(c: StdColumn): seq<string> {
    var names := Variations(c) + [StdName(c)];
    seq(|names|, i requires 0 <= i < |names| => Normalise(names[i]))
  }

  /** A header maps to `c` exactly when it normalises like the column's name or one of its variations. */
  lemma MatchesIffSpelling(header: string, c: StdColumn)
    ensures Matches(header, c) <==> exists v | v in Variations(c) + [StdName(c)] :: Normalise(header) == Normalise(v)
  {
    var names := Variations(c) + [StdName(c)];
    var r := NormalisedNames(c);
    assert |r| == |names|;
    assert forall i | 0 <= i < |names| :: r[i] == Normalise(names[i]);
    if Matches(header, c) {
      var i :| 0 <= i < |r| && r[i] == Normalise(header);
      assert names[i] in names;
    }
  }

  /** Whether a header's normalised form is one of `names`. */
  predicate MatchesAny(header: string, names: seq<string>) {
    Normalise(header) in names
  }

  predicate Matches(header: string, c: StdColumn) {
    MatchesAny(header, NormalisedNames(c))
  }

  /** The first header, in file order, whose normalised form is one of `names`. */
  function FirstIn(headers: seq<string>, names: seq<string>): (r: Option<nat>)
    ensures r.Some? ==> r.value < |headers|
  {
    if |headers| == 0 then None
    else if MatchesAny(headers[0], names) then Some(0)
    else match FirstIn(headers[1..], names)
      case None => None
      case Some(k) => Some(k + 1)
  }

  /** `FirstIn` finds a header that matches, and no earlier one does; `None` means no header matches. */
  lemma {:induction false} FirstInFinds(headers: seq<string>, names: seq<string>)
    ensures var r := FirstIn(headers, names);
      && (r.Some? ==> MatchesAny(headers[r.value], names))
      && (r.Some? ==> forall j | 0 <= j < r.value :: !MatchesAny(headers[j], names))
      && (r.None? ==> forall j | 0 <= j < |headers| :: !MatchesAny(headers[j], names))
  {
    if |headers| > 0 && !MatchesAny(headers[0], names) {
      FirstInFinds(headers[1..], names);
      var r := FirstIn(headers[1..], names);
      forall j | 1 <= j < |headers| && (r.None? || j < r.value + 1)
        ensures !MatchesAny(headers[j], names)
      {
        assert headers[j] == headers[1..][j - 1];
      }
      if r.Some? {
        assert headers[r.value + 1] == headers[1..][r.value];
      }
    }
  }

  /** The first header, in file order, that maps to `c`. */
  function FirstMatchIndex(headers: seq<string>, c: StdColumn): (r: Option<nat>)
    ensures r.Some? ==> r.value < |headers|
  {
    FirstIn(headers, NormalisedNames(c))
  }

  /** `FirstMatchIndex` finds a matching header and no earlier header matches. */
  lemma FirstMatchIndexIsFirst(headers: seq<string>, c: StdColumn)
    ensures var r := FirstMatchIndex(headers, c);
      && (r.Some? ==> Matches(headers[r.value], c) && forall j | 0 <= j < r.value :: !Matches(headers[j], c))
      && (r.None? ==> forall j | 0 <= j < |headers| :: !Matches(headers[j], c))
  {
    FirstInFinds(headers, NormalisedNames(c));
  }

  /** The inner loop of the mapping: the first header whose normalised form is one of `names`. */
  method FindHeader(headers: seq<string>, names: seq<string>) returns (r: Option<nat>)
    ensures r == FirstIn(headers, names)
  {
    var i := 0;
    while i < |headers|
      invariant 0 <= i <= |headers|
      invariant forall j | 0 <= j < i :: !MatchesAny(headers[j], names)
    {
      if Normalise(headers[i]) in names {
        FirstInIsFirstMatch(headers, names, Some(i));
        return Some(i);
      }
      i := i + 1;
    }
    FirstInIsFirstMatch(headers, names, None);
    return None;
  }

  /** `FirstIn` is the only answer that is a first match (or none when no header matches). */
  lemma FirstInIsFirstMatch(headers: seq<string>, names: seq<string>, r: Option<nat>)
    requires r.Some? ==> r.value < |headers| && MatchesAny(headers[r.value], names)
    requires r.Some? ==> forall j | 0 <= j < r.value :: !MatchesAny(headers[j], names)
    requires r.None? ==> forall j | 0 <= j < |headers| :: !MatchesAny(headers[j], names)
    ensures r == FirstIn(headers, names)
  {
    FirstInFinds(headers, names);
  }

  /** The mapping as a value: each column that some header matches, paired with its first match. */
  function ColumnMapping(headers: seq<string>): map<StdColumn, string> {
    map c: StdColumn | FirstMatchIndex(headers, c).Some? :: headers[FirstMatchIndex(headers, c).value]
  }

  /**
    `column_mapping`: for each standard column, the first header whose
    normalised form is the normalised form of one of its spellings.
  */
  method BuildColumnMapping(headers: seq<string>) returns (m: map<StdColumn, string>)
    ensures forall c :: c in m <==> FirstMatchIndex(headers, c).Some?
    ensures forall c | c in m :: m[c] == headers[FirstMatchIndex(headers, c).value]
    ensures m == ColumnMapping(headers)
  {
    m := map[];
    var k := 0;
    while k < |AllColumns|
      invariant 0 <= k <= |AllColumns|
      invariant m == PartialMapping(headers, k)
    {
      var c := AllColumns[k];
      var found := FindHeader(headers, NormalisedNames(c));
      PartialMappingStep(headers, k);
      if found.Some? {
        m := m[c := headers[found.value]];
      }
      k := k + 1;
    }
    PartialMappingComplete(headers);
  }

  /** The mapping for the first `k` standard columns only. */
  function PartialMapping(headers: seq<string>, k: nat): map<StdColumn, string> {
    map c: StdColumn | Rank(c) < k && FirstMatchIndex(headers, c).Some? :: headers[FirstMatchIndex(headers, c).value]
  }

  /** Once every column has been looked at, the partial mapping is the whole mapping. */
  lemma PartialMappingComplete(headers: seq<string>)
    ensures PartialMapping(headers, |AllColumns|) == ColumnMapping(headers)
  {
    assert forall c :: Rank(c) < |AllColumns|;
  }

  /** One more column extends the partial mapping by that column's first match, if any. */
  lemma PartialMappingStep(headers: seq<string>, k: nat)
    requires k < |AllColumns|
    ensures var c, f := AllColumns[k], FirstIn(headers, NormalisedNames(AllColumns[k]));
      PartialMapping(headers, k + 1) ==
        if f.Some? then PartialMapping(headers, k)[c := headers[f.value]] else PartialMapping(headers, k)
  {
    var c := AllColumns[k];
    assert Rank(c) == k;
  }

  /** The columns without which the import is refused. */
  const Essentials: seq<StdColumn> := [EnrollmentNumber, BatchCodeColumn, StudentName, ClassColumn]

  /** The position of a column in `AllColumns`, which is also the order missing ones are reported in. */
  function Rank(c: StdColumn): (i: nat)
    ensures i < |AllColumns| && AllColumns[i] == c
  {
    match c
    case EnrollmentNumber => 0
    case BatchCodeColumn => 1
    case StudentName => 2
    case ClassColumn => 3
    case AcademicYear => 4
    case Branch => 5
  }

  /** The unmapped essential columns, in the order they are reported. */
  function MissingEssentials(m: map<StdColumn, string>): (r: seq<StdColumn>)
    ensures forall c :: c in r <==> c in Essentials && c !in m
    ensures forall i, j | 0 <= i < j < |r| :: Rank(r[i]) < Rank(r[j])
  {
    (if EnrollmentNumber in m then [] else [EnrollmentNumber]) +
    (if BatchCodeColumn in m then [] else [BatchCodeColumn]) +
    (if StudentName in m then [] else [StudentName]) +
    (if ClassColumn in m then [] else [ClassColumn])
  }

  function Names(cs: seq<StdColumn>): seq<string> {
    seq(|cs|, i requires 0 <= i < |cs| => StdName(cs[i]))
  }

  function MissingColumnsMessage(missing: seq<StdColumn>, headers: seq<string>): string {
    "Missing essential columns in Excel file: " + Join(", ", Names(missing)) + ".\nFound columns: " + Join(", ", headers)
  }

  // ----- Row validation -----

  /**
    One spreadsheet row: stripped header label (the sheet's columns are renamed
    to their stripped labels before any row is read) to cell, `None` for an
    empty (NaN) cell; a label it lacks reads as empty.
  */
  type Row = map<string, Option<string>>

  /**
    The cell of column `c`: through the mapping, or the default academic year
    and branch when those columns are absent from the file.
  */
  function Cell(row: Row, m: map<StdColumn, string>, c: StdColumn): Option<string> {
    if c in m then (if m[c] in row then row[m[c]] else None)
    else if c == AcademicYear then Some(DefaultAcademicYear)
    else if c == Branch then Some(DefaultBranch)
    else None
  }

  datatype RowFields = RowFields(
    enrollment: string, batchCode: string, studentName: string,
    className: string, academicYear: string, branch: string)

  /**
    The outcome of checking a row.  A rejection records the reason and, when
    the check got as far as reading the name, the stripped name.
  */
  datatype RowCheck = Accepted(fields: RowFields) | Rejected(reason: string, name: Option<string>)

  /** `str.isdigit()`: at least one character, all of them digits. */
  predicate IsDigitString(s: string) {
    |s| > 0 && AllDigits(s)
  }

  /** The academic year check: with every '-' removed, a non-empty run of digits. */
  predicate ValidAcademicYear(year: string) {
    IsDigitString(RemoveChar(year, '-'))
  }

  function InvalidYearReason(year: string): string {
    "Invalid academic year format: " + year + ". Expected format: YYYY-YYYY"
  }

  /** The rows the import accepts, stated cell by cell. */
  predicate RowAcceptable(row: Row, m: map<StdColumn, string>) {
    && (forall c: StdColumn :: Cell(row, m, c).Some? && !AllSpace(Cell(row, m, c).value))
    && ValidAcademicYear(Strip(Cell(row, m, AcademicYear).value))
  }

  function Stripped(row: Row, m: map<StdColumn, string>, c: StdColumn): string
    requires Cell(row, m, c).Some?
  {
    Strip(Cell(row, m, c).value)
  }

  /**
    The per-row checks, in order: an empty cell, then a cell that is blank
    after stripping, then the academic year format.  An accepted row carries
    the six stripped cells.
  */
  function CheckRow(row: Row, m: map<StdColumn, string>): (r: RowCheck)
    ensures r.Accepted? ==> forall c: StdColumn :: Cell(row, m, c).Some?
    ensures r.Accepted? ==>
      r.fields == RowFields(Stripped(row, m, EnrollmentNumber), Stripped(row, m, BatchCodeColumn),
                            Stripped(row, m, StudentName), Stripped(row, m, ClassColumn),
                            Stripped(row, m, AcademicYear), Stripped(row, m, Branch))
    ensures r.Accepted? ==> r.fields.studentName != "" && r.fields.enrollment != "" && r.fields.batchCode != ""
    ensures r.Rejected? && r.name.Some? ==>
      Cell(row, m, StudentName).Some? && r.name.value == Stripped(row, m, StudentName)
  {
    if exists c: StdColumn :: Cell(row, m, c).None? then
      Rejected("Row contains empty values", None)
    else
      var f := RowFields(Stripped(row, m, EnrollmentNumber), Stripped(row, m, BatchCodeColumn),
                         Stripped(row, m, StudentName), Stripped(row, m, ClassColumn),
                         Stripped(row, m, AcademicYear), Stripped(row, m, Branch));
      if f.enrollment == "" || f.batchCode == "" || f.studentName == "" ||
         f.className == "" || f.academicYear == "" || f.branch == "" then
        Rejected("All fields are required", Some(f.studentName))
      else if !ValidAcademicYear(f.academicYear) then
        Rejected(InvalidYearReason(f.academicYear), Some(f.studentName))
      else
        Accepted(f)
  }

  /** The checks accept a row exactly when `RowAcceptable` holds of it. */
  lemma CheckRowAcceptsExactly(row: Row, m: map<StdColumn, string>)
    ensures CheckRow(row, m).Accepted? <==> RowAcceptable(row, m)
  {
    if c :| Cell(row, m, c).None? {
      assert !RowAcceptable(row, m);
    } else {
      StripCells(row, m);
      var blank := if Stripped(row, m, EnrollmentNumber) == "" then Some(EnrollmentNumber)
        else if Stripped(row, m, BatchCodeColumn) == "" then Some(BatchCodeColumn)
        else if Stripped(row, m, StudentName) == "" then Some(StudentName)
        else if Stripped(row, m, ClassColumn) == "" then Some(ClassColumn)
        else if Stripped(row, m, AcademicYear) == "" then Some(AcademicYear)
        else if Stripped(row, m, Branch) == "" then Some(Branch)
        else None;
      if blank.Some? {
        assert AllSpace(Cell(row, m, blank.value).value);
        assert CheckRow(row, m).Rejected?;
      } else {
        forall c: StdColumn
          ensures !AllSpace(Cell(row, m, c).value)
        {
          match c
          case EnrollmentNumber =>
          case BatchCodeColumn =>
          case StudentName =>
          case ClassColumn =>
          case AcademicYear =>
          case Branch =>
        }
        assert CheckRow(row, m).Accepted? <==> ValidAcademicYear(Stripped(row, m, AcademicYear));
      }
    }
  }

  /** A present cell strips to nothing exactly when it is blank. */
  lemma StripCells(row: Row, m: map<StdColumn, string>)
    requires forall c: StdColumn :: Cell(row, m, c).Some?
    ensures forall c: StdColumn :: (Stripped(row, m, c) == "" <==> AllSpace(Cell(row, m, c).value))
  {
    forall c: StdColumn
      ensures Stripped(row, m, c) == "" <==> AllSpace(Cell(row, m, c).value)
    {
      StripEmptyIffSpace(Cell(row, m, c).value);
    }
  }

  /** `f"Row {index + 2}: {name} - {reason}"`, with "Unknown" when no name has been read yet. */
  function RowError(index: nat, name: Option<string>, reason: string): string {
    RowLabel(index) + (if name.Some? then name.value else "Unknown") + " - " + reason
  }

  function RowLabel(index: nat): string {
    "Row " + NatToString(index + 2) + ": "
  }

  // ----- Usernames -----

  /** The name split as `split(maxsplit=1)`: first token and the rest ("" when there is none). */
  function NameParts(name: string): (r: Option<(string, string)>)
    ensures r.None? <==> AllSpace(name)
  {
    SplitFirstNoToken(name);
    match SplitFirst(name)
    case NoToken => None
    case Token(first, rest) => Some((first, rest))
  }

  /** `''.join(c for c in (first + last).lower() if c.isalnum())` */
  function BaseUsername(first: string, last: string): string {
    KeepAlnum(Lower(first + last))
  }

  /** The base username is just the alphanumerics of the lower-cased full name. */
  lemma BaseUsernameOfName(name: string)
    requires NameParts(name).Some?
    ensures BaseUsername(NameParts(name).value.0, NameParts(name).value.1) == KeepAlnum(Lower(name))
    ensures forall i | 0 <= i < |KeepAlnum(Lower(name))| :: IsAlnum(KeepAlnum(Lower(name))[i])
  {
    SplitFirstKeepAlnum(name);
    KeepAlnumIsAlnum(Lower(name));
  }

  /** The `k`-th name tried: the base itself, then the base followed by 1, 2, ... */
  function Candidate(base: string, k: nat): string {
    if k == 0 then base else base + NatToString(k)
  }

  lemma CandidateInjective(base: string, j: nat, k: nat)
    requires Candidate(base, j) == Candidate(base, k)
    ensures j == k
  {
    NatToStringRoundTrip(j);
    NatToStringRoundTrip(k);
    if j != 0 && k != 0 {
      assert NatToString(j) == Candidate(base, j)[|base|..];
      assert NatToString(k) == Candidate(base, k)[|base|..];
      NatToStringInjective(j, k);
    }
  }

  /** One more refused candidate: it is new, so fewer taken names remain unvisited. */
  lemma TriedGrows(base: string, k: nat, taken: set<string>, tried: set<string>)
    requires tried == set j | 0 <= j < k :: Candidate(base, j)
    requires tried <= taken && Candidate(base, k) in taken
    ensures tried + {Candidate(base, k)} == set j | 0 <= j < k + 1 :: Candidate(base, j)
    ensures |taken - (tried + {Candidate(base, k)})| < |taken - tried|
  {
    var u := Candidate(base, k);
    if u in tried {
      var j :| 0 <= j < k && Candidate(base, j) == u;
      CandidateInjective(base, j, k);
    }
    assert taken - tried == (taken - (tried + {u})) + {u};
  }

  /**
    The username loop: the least candidate that no user has yet.  It stops
    because every name it passes over is a different existing username.
  */
  method DeriveUsername(p: Portal, base: string) returns (username: string, k: nat)
    ensures username == Candidate(base, k)
    ensures username !in Usernames(p.users)
    ensures forall j | 0 <= j < k :: Candidate(base, j) in Usernames(p.users)
  {
    var taken := Usernames(p.users);
    username, k := base, 0;
    ghost var tried: set<string> := {};
    while username in taken
      invariant username == Candidate(base, k)
      invariant forall j | 0 <= j < k :: Candidate(base, j) in taken
      invariant tried == set j | 0 <= j < k :: Candidate(base, j)
      invariant tried <= taken
      decreases |taken - tried|
    {
      TriedGrows(base, k, taken, tried);
      tried := tried + {username};
      k := k + 1;
      username := base + NatToString(k);
    }
  }

  // ----- Student codes made up at sign-up and first login -----

  /**
    `f"{batch}-{n + 1:03d}"` when the user has a batch code (`n` students
    already in that batch), else `f"STU{id:04d}"`.
  */
  function DerivedStudentCode(batchCode: string, studentsInBatch: nat, userId: nat): string {
    if batchCode != "" then batchCode + "-" + ZeroPad(studentsInBatch + 1, 3)
    else "STU" + ZeroPad(userId, 4)
  }

  /**
    The code can be read back: after the batch code and '-' (or after "STU")
    comes a numeral of at least three (four) digits denoting the next position
    in the batch (the user id).
  */
  lemma DerivedStudentCodeDecodes(batchCode: string, studentsInBatch: nat, userId: nat)
    ensures var code := DerivedStudentCode(batchCode, studentsInBatch, userId);
      if batchCode != "" then
        |code| >= |batchCode| + 4 && code[..|batchCode| + 1] == batchCode + "-" &&
        AllDigits(code[|batchCode| + 1..]) && DigitsValue(code[|batchCode| + 1..]) == studentsInBatch + 1
      else
        |code| >= 7 && code[..3] == "STU" &&
        AllDigits(code[3..]) && DigitsValue(code[3..]) == userId
  {
    var code := DerivedStudentCode(batchCode, studentsInBatch, userId);
    if batchCode != "" {
      ZeroPadSpec(studentsInBatch + 1, 3);
      assert code[|batchCode| + 1..] == ZeroPad(studentsInBatch + 1, 3);
    } else {
      ZeroPadSpec(userId, 4);
      assert code[3..] == ZeroPad(userId, 4);
    }
  }
}
