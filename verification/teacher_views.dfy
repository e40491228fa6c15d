/**
  The teacher's upload form, `share_file` (teacher/views.py).  The request is
  screened field by field; then the batch is fetched or created, the upload
  saved (which notifies the students of the batch), and its share list set
  from the selection, or the upload deleted again when the selection is empty
  or names nobody in the batch.
*/
module TeacherViews {
  import opened Text
  import opened Entities
  import opened Queries
  import opened Uploads
  import opened Notifications
  import opened Store

  /** An uploaded file as the form delivers it; `size` in bytes. */
  datatype UploadedFile = UploadedFile(name: string, size: nat)

  /**
    The POST body: the text fields as typed, the two dates as parsed from
    their stripped text, the ids ticked in the student list and the file.
    The view strips the text fields and reads the id '0' as "all" before it
    looks at anything (`CleanForm`); every later step sees the cleaned form.
  */
  datatype ShareForm = ShareForm(
    teacherName: string,
    teacherCode: string,
    subject: string,
    topic: string,
    subTopic: string,
    batchCode: string,
    fromDate: Field<int>,
    toDate: Field<int>,
    selected: seq<string>,
    file: Option<UploadedFile>)

  // ----- Cleaning and screening the request -----

  /** The form as the view reads it: text fields stripped, '0' read as "all". */
  function CleanForm(f: ShareForm): ShareForm {
    f.(teacherName := Strip(f.teacherName), teacherCode := Strip(f.teacherCode), subject := Strip(f.subject),
       topic := Strip(f.topic), subTopic := Strip(f.subTopic), batchCode := Strip(f.batchCode),
       selected := NormaliseSelection(f.selected))
  }

  /** A file counts as given when there is one and it has a name (the truth value of Django's `File`). */
  predicate FileGiven(file: Option<UploadedFile>) {
    file.Some? && file.value.name != ""
  }

  /** The labels of the required fields of a cleaned form left empty, in the order the form lists them. */
  function MissingFields(g: ShareForm): (r: seq<string>)
    ensures r == [] <==>
      g.teacherName != "" && g.teacherCode != "" && g.subject != "" && g.topic != "" && g.batchCode != "" &&
      FileGiven(g.file)
  {
    (if g.teacherName == "" then ["Teacher Name"] else []) +
    (if g.teacherCode == "" then ["Teacher Code"] else []) +
    (if g.subject == "" then ["Subject"] else []) +
    (if g.topic == "" then ["Topic"] else []) +
    (if g.batchCode == "" then ["Batch Code"] else []) +
    (if FileGiven(g.file) then [] else ["File"])
  }

  /** A raw field counts as missing exactly when it is empty or white space only. */
  lemma MissingMeansBlank(f: ShareForm)
    ensures MissingFields(CleanForm(f)) == [] <==>
      !AllSpace(f.teacherName) && !AllSpace(f.teacherCode) && !AllSpace(f.subject) && !AllSpace(f.topic) &&
      !AllSpace(f.batchCode) && FileGiven(f.file)
  {
    StripEmptyIffSpace(f.teacherName);
    StripEmptyIffSpace(f.teacherCode);
    StripEmptyIffSpace(f.subject);
    StripEmptyIffSpace(f.topic);
    StripEmptyIffSpace(f.batchCode);
  }

  function MissingFieldsMessage(missing: seq<string>): string {
    "Please fill in all required fields: " + Join(", ", missing) + "."
  }

  /** `str.rfind(c)`: the last position of `c`, if any. */
  function LastIndex(s: string, c: char): (r: Option<nat>)
    ensures r.Some? ==> r.value < |s| && s[r.value] == c && forall k | r.value < k < |s| :: s[k] != c
    ensures r.None? ==> forall k | 0 <= k < |s| :: s[k] != c
  {
    if |s| == 0 then None
    else if s[|s| - 1] == c then Some(|s| - 1)
    else LastIndex(s[..|s| - 1], c)
  }

  /** Where the last path component starts. */
  function BaseStart(name: string): (start: nat)
    ensures start <= |name|
    ensures forall k | start <= k < |name| :: name[k] != '/'
  {
    match LastIndex(name, '/')
    case Some(i) => i + 1
    case None => 0
  }

  /**
    `os.path.splitext(name)[1]`: from the last dot of the last path component,
    unless everything before that dot in the component is dots too (".pdf"
    has no extension); otherwise empty.  A non-empty extension is a suffix of
    the name that starts with its only dot and holds no separator.
  */
  function Extension(name: string): (ext: string)
    ensures ext == "" ||
      (|ext| <= |name| && ext[0] == '.' && '.' !in ext[1..] && '/' !in ext && name == name[..|name| - |ext|] + ext)
  {
    var start := BaseStart(name);
    match LastIndex(name, '.')
    case Some(d) =>
      if start <= d && exists k | start <= k < d :: name[k] != '.' then
        assert name == name[..d] + name[d..];
        name[d..]
      else ""
    case None => ""
  }

  /** A file name whose stem has a character other than a dot keeps its last suffix. */
  lemma ExtensionOfName(stem: string, suffix: string)
    requires '/' !in stem && '/' !in suffix && '.' !in suffix
    requires exists k | 0 <= k < |stem| :: stem[k] != '.'
    ensures Extension(stem + "." + suffix) == "." + suffix
  {
    var name := stem + "." + suffix;
    assert LastIndex(name, '/').None? by {
      forall k | 0 <= k < |name|
        ensures name[k] != '/'
      {
        if k < |stem| { assert name[k] == stem[k]; }
        else if k > |stem| { assert name[k] == suffix[k - |stem| - 1]; }
      }
    }
    assert LastIndex(name, '.') == Some(|stem|) by {
      var r := LastIndex(name, '.');
      assert name[|stem|] == '.';
    }
    var k :| 0 <= k < |stem| && stem[k] != '.';
    assert name[k] == stem[k];
    assert name[|stem|..] == "." + suffix;
  }

  /** A name that is a dot and a suffix only has no extension, so ".pdf" is not a PDF. */
  lemma DotNameHasNoExtension(suffix: string)
    requires '/' !in suffix && '.' !in suffix
    ensures Extension("." + suffix) == ""
  {
    var name := "." + suffix;
    assert LastIndex(name, '.') == Some(0) by {
      assert name[0] == '.';
    }
  }

  const AllowedExtensions: seq<string> := [".pdf", ".doc", ".docx", ".jpg", ".jpeg"]

  /** `os.path.splitext(uploaded_file.name)[1].lower()`, empty when no file came with the form. */
  function FileExtension(file: Option<UploadedFile>): string {
    if file.Some? then Lower(Extension(file.value.name)) else ""
  }

  /** 1 GiB. */
  const MaxUploadSize: nat := 1024 * 1024 * 1024

  /** What the request ends with; every outcome but the two shares is a redirect with an error. */
  datatype ShareOutcome =
    | NotPermitted
    | FieldsMissing(message: string)
    | BadExtension
    | TooLarge
    | DatesReversed
    | BadDateFormat
    | EmptyBatch(message: string)
    | SaveFailed(message: string)
    | NoneSelected
    | NoValidStudents
    | SharedWithBatch(uploadId: nat, message: string)
    | SharedWithSelected(uploadId: nat, message: string)

  /** The refusals made before anything is read from or written to the database. */
  predicate Screened(o: ShareOutcome) {
    o.NotPermitted? || o.FieldsMissing? || o.BadExtension? || o.TooLarge? || o.DatesReversed? || o.BadDateFormat?
  }

  /**
    The cleaned requests that pass screening, stated condition by condition;
    `ext` is the file's lower-cased extension.
  */
  predicate AcceptableRequest(role: Role, g: ShareForm, ext: string) {
    && RoleName(role) in ["Teacher", "Admin"]
    && MissingFields(g) == []
    && ext in AllowedExtensions
    && g.file.value.size <= MaxUploadSize
    && !g.fromDate.Malformed? && !g.toDate.Malformed?
    && !(g.fromDate.Given? && g.toDate.Given? && g.fromDate.value > g.toDate.value)
  }

  /**
    The screening chain on the cleaned form: role, required fields,
    extension, size, date format and date order, in that order.  `None`
    exactly for an acceptable request; a missing-fields refusal lists the
    missing fields.
  */
  function Screen(role: Role, g: ShareForm, ext: string): (r: Option<ShareOutcome>)
    ensures r.None? <==> AcceptableRequest(role, g, ext)
    ensures r.Some? ==> Screened(r.value)
    ensures r.Some? && r.value.FieldsMissing? ==> r.value.message == MissingFieldsMessage(MissingFields(g))
  {
    if RoleName(role) !in ["Teacher", "Admin"] then Some(NotPermitted)
    else if MissingFields(g) != [] then Some(FieldsMissing(MissingFieldsMessage(MissingFields(g))))
    else if ext !in AllowedExtensions then Some(BadExtension)
    else if g.file.value.size > MaxUploadSize then Some(TooLarge)
    else if g.fromDate.Malformed? || g.toDate.Malformed? then Some(BadDateFormat)
    else if g.fromDate.Given? && g.toDate.Given? && g.fromDate.value > g.toDate.value then Some(DatesReversed)
    else None
  }

  /** Only teachers and administrators pass the role check. */
  lemma OnlyStaffShare(role: Role)
    ensures RoleName(role) in ["Teacher", "Admin"] <==> role == TeacherRole || role == AdminRole
  {
    assert RoleName(StudentRole) == "Student";
    assert "Student" != "Teacher" by { assert "Student"[0] != "Teacher"[0]; }
    assert "Student" != "Admin" by { assert "Student"[0] != "Admin"[0]; }
  }

  // ----- Sharing -----

  /** `Student.objects.filter(batch=batch)` */
  function BatchMembers(students: seq<Student>, code: BatchKey): seq<Student> {
    Filter(students, (s: Student) => s.batch == Some(code))
  }

  /** The ticked ids with '0' read as "all". */
  function NormaliseSelection(ids: seq<string>): (r: seq<string>)
    ensures |r| == |ids|
    ensures "all" in r <==> "all" in ids || "0" in ids
    ensures "0" !in r
    ensures forall x | x != "all" && x != "0" :: x in r <==> x in ids
  {
    if |ids| == 0 then []
    else [if ids[0] == "0" then "all" else ids[0]] + NormaliseSelection(ids[1..])
  }

  /** `Student.objects.filter(student_code__in=ids, batch=batch)`, as student ids. */
  function Picked(students: seq<Student>, code: BatchKey, ids: seq<string>): set<nat> {
    set s | s in students && s.code in ids && s.batch == Some(code) :: s.id
  }

  /** The row built from the cleaned form: active, scoped to the batch, shared with nobody in particular yet. */
  function NewUpload(id: nat, teacher: nat, g: ShareForm, fromDate: int, toDate: int, now: int): Upload {
    Upload(id, Some(teacher), g.teacherCode, Some(g.batchCode), g.subject, g.topic, g.subTopic, true,
           fromDate, toDate, now, {})
  }

  /** The database after `save()` of a new active upload: one more row and the notices to its recipients. */
  function SavedDb(db: Db, u: Upload): Db {
    db.(uploads := db.uploads + [u],
        notifications := db.notifications + FanOut(db.students, u, TeacherName(db.users, u.teacher)),
        nextId := db.nextId + 1)
  }

  function NotNullMessage(column: string): string {
    "Error uploading file: NOT NULL constraint failed: teacher_upload." + column
  }

  function EmptyBatchMessage(code: string): string {
    "Batch " + code + " has no students. Please add students to this batch first."
  }

  function BatchShareMessage(count: nat, code: string): string {
    "File shared successfully to all " + NatToString(count) + " students in batch " + code + "."
  }

  function SelectedShareMessage(count: nat, code: string): string {
    "File shared successfully to " + NatToString(count) + " selected students in batch " + code + "."
  }

  datatype Shared = Shared(outcome: ShareOutcome, db: Db)

  /**
    The selection step, on the snapshot `db` taken before the active upload
    `u` was saved: an empty selection, or one naming nobody in the batch,
    deletes the upload again but keeps the notices its save sent; "all"
    leaves it shared with the whole batch; otherwise it is shared with the
    ticked students of the batch.
  */
  function SelectionResult(db: Db, u: Upload, count: nat, ids: seq<string>): (r: Shared)
    requires u.batch.Some? && u.id == db.nextId
    ensures r.db == SavedDb(db, u).(uploads := r.db.uploads)
    ensures r.db.users == db.users && r.db.students == db.students && r.db.batchCodes == db.batchCodes
    ensures Saved(r.outcome)
    ensures r.outcome.NoneSelected? || r.outcome.NoValidStudents? ==> r.db.uploads == db.uploads
    ensures r.outcome.SharedWithBatch? || r.outcome.SharedWithSelected? ==>
      r.outcome.uploadId == u.id && |r.db.uploads| == |db.uploads| + 1 && r.db.uploads[..|db.uploads|] == db.uploads
    ensures r.outcome.SharedWithBatch? ==> "all" in ids && r.db.uploads[|db.uploads|] == u
    ensures r.outcome.SharedWithSelected? ==>
      "all" !in ids && r.db.uploads[|db.uploads|] == u.(sharedWith := Picked(db.students, u.batch.value, ids))
    ensures r.outcome.NoneSelected? || r.outcome.NoValidStudents? || r.outcome.SharedWithBatch? ||
      (r.outcome.SharedWithSelected? && Picked(db.students, u.batch.value, ids) != {})
  {
    var saved := SavedDb(db, u);
    var code := u.batch.value;
    if |ids| == 0 then Shared(NoneSelected, saved.(uploads := db.uploads))
    else if "all" in ids then Shared(SharedWithBatch(u.id, BatchShareMessage(count, code)), saved)
    else
      var picked := Picked(db.students, code, ids);
      if picked == {} then Shared(NoValidStudents, saved.(uploads := db.uploads))
      else Shared(SharedWithSelected(u.id, SelectedShareMessage(|picked|, code)),
                  saved.(uploads := db.uploads + [u.(sharedWith := picked)]))
  }

  /**
    The cleaned request once screened: the batch is fetched or created and
    must have students; an explicit `None` date overrides the column default,
    so a blank date makes the insert fail and nothing is saved.
  */
  function AcceptedResult(db: Db, actor: User, g: ShareForm, now: int): Shared
    requires !g.fromDate.Malformed? && !g.toDate.Malformed?
  {
    var count := |BatchMembers(db.students, g.batchCode)|;
    if count == 0 then Shared(EmptyBatch(EmptyBatchMessage(g.batchCode)), db.(batches := db.batches + {g.batchCode}))
    else if g.fromDate.Blank? then Shared(SaveFailed(NotNullMessage("from_date")), db)
    else if g.toDate.Blank? then Shared(SaveFailed(NotNullMessage("to_date")), db)
    else SelectionResult(db, NewUpload(db.nextId, actor.id, g, g.fromDate.value, g.toDate.value, now), count, g.selected)
  }

  /** The request on a database snapshot, once cleaned. */
  function ShareResult(db: Db, actor: User, g: ShareForm, ext: string, now: int): Shared {
    match Screen(actor.role, g, ext)
    case Some(refusal) => Shared(refusal, db)
    case None => AcceptedResult(db, actor, g, now)
  }

  /** The whole request on a database snapshot. */
  function ShareFileResult(db: Db, actor: User, f: ShareForm, now: int): Shared {
    var g := CleanForm(f);
    ShareResult(db, actor, g, FileExtension(g.file), now)
  }

  /** The upload a successful share leaves as the last row. */
  function SharedUpload(r: Shared): Upload
    requires |r.db.uploads| > 0
  {
    r.db.uploads[|r.db.uploads| - 1]
  }

  /** The requests that get as far as saving the upload. */
  predicate Saved(o: ShareOutcome) {
    o.NoneSelected? || o.NoValidStudents? || o.SharedWithBatch? || o.SharedWithSelected?
  }

  /** Sharing a file never changes users, students or batch codes. */
  lemma ShareKeepsPeople(db: Db, actor: User, g: ShareForm, ext: string, now: int)
    ensures var r := ShareResult(db, actor, g, ext, now);
      r.db.users == db.users && r.db.students == db.students && r.db.batchCodes == db.batchCodes
  {
    if Screen(actor.role, g, ext).None? && |BatchMembers(db.students, g.batchCode)| > 0 &&
       g.fromDate.Given? && g.toDate.Given? {
      var u := NewUpload(db.nextId, actor.id, g, g.fromDate.value, g.toDate.value, now);
      assert ShareResult(db, actor, g, ext, now) == SelectionResult(db, u, |BatchMembers(db.students, g.batchCode)|, g.selected);
    }
  }

  /** A request refused by screening, or whose save fails, changes nothing. */
  lemma RefusalsChangeNothing(db: Db, actor: User, g: ShareForm, ext: string, now: int)
    ensures var r := ShareResult(db, actor, g, ext, now);
      Screened(r.outcome) || r.outcome.SaveFailed? ==> r.db == db
  {
    var count := |BatchMembers(db.students, g.batchCode)|;
    if Screen(actor.role, g, ext).None? && count > 0 && g.fromDate.Given? && g.toDate.Given? {
      var u := NewUpload(db.nextId, actor.id, g, g.fromDate.value, g.toDate.value, now);
      assert Saved(SelectionResult(db, u, count, g.selected).outcome);
    }
  }

  /** A batch without students is refused, but its `Batch` row has been created on the way. */
  lemma EmptyBatchCreatesBatch(db: Db, actor: User, g: ShareForm, ext: string, now: int)
    ensures var r := ShareResult(db, actor, g, ext, now);
      r.outcome.EmptyBatch? ==> r.db == db.(batches := db.batches + {g.batchCode})
  {
    var count := |BatchMembers(db.students, g.batchCode)|;
    if Screen(actor.role, g, ext).None? && count > 0 && g.fromDate.Given? && g.toDate.Given? {
      var u := NewUpload(db.nextId, actor.id, g, g.fromDate.value, g.toDate.value, now);
      assert Saved(SelectionResult(db, u, count, g.selected).outcome);
    }
  }

  /**
    A request that saved its upload passed screening, named a batch with
    students and gave both dates; what follows is the selection step.
  */
  lemma SavedRequest(db: Db, actor: User, g: ShareForm, ext: string, now: int)
    requires Saved(ShareResult(db, actor, g, ext, now).outcome)
    ensures AcceptableRequest(actor.role, g, ext)
    ensures |BatchMembers(db.students, g.batchCode)| > 0
    ensures g.fromDate.Given? && g.toDate.Given?
    ensures ShareResult(db, actor, g, ext, now) ==
      SelectionResult(db, NewUpload(db.nextId, actor.id, g, g.fromDate.value, g.toDate.value, now),
                      |BatchMembers(db.students, g.batchCode)|, g.selected)
  {
    assert Screen(actor.role, g, ext).None?;
  }

  /**
    Once the upload has been saved, each user's notices grow by exactly one
    when they are the user of a student of the batch and by none otherwise,
    whatever the selection then does to the upload.
  */
  lemma ShareNotifiesBatch(db: Db, actor: User, g: ShareForm, ext: string, now: int, user: nat)
    requires ValidDb(db)
    requires Saved(ShareResult(db, actor, g, ext, now).outcome)
    ensures NoticesTo(ShareResult(db, actor, g, ext, now).db.notifications, user) ==
      NoticesTo(db.notifications, user) +
      (if exists s | s in db.students :: s.batch == Some(g.batchCode) && s.userId == user then 1 else 0)
  {
    SavedRequest(db, actor, g, ext, now);
    var u := NewUpload(db.nextId, actor.id, g, g.fromDate.value, g.toDate.value, now);
    var name := TeacherName(db.users, u.teacher);
    assert ShareResult(db, actor, g, ext, now).db.notifications == db.notifications + FanOut(db.students, u, name);
    NoticesToConcat(db.notifications, FanOut(db.students, u, name), user);
    FanOutOncePerRecipient(db.students, u, name, user);
    assert HasRecipientUser(db.students, u, user) <==>
      exists s | s in db.students :: s.batch == Some(g.batchCode) && s.userId == user;
  }

  /** Student ids are unique, so a student is picked exactly when their own code was ticked. */
  lemma PickedMember(students: seq<Student>, code: BatchKey, ids: seq<string>, s: Student)
    requires Pairwise(students, DistinctStudents) && s in students
    ensures s.id in Picked(students, code, ids) <==> s.code in ids && s.batch == Some(code)
  {
    if s.id in Picked(students, code, ids) {
      var t :| t in students && t.code in ids && t.batch == Some(code) && t.id == s.id;
      var i :| 0 <= i < |students| && students[i] == t;
      var j :| 0 <= j < |students| && students[j] == s;
      assert i == j;
    }
  }

  /** The audience of the upload the selection step keeps. */
  lemma SelectionAudience(db: Db, u: Upload, count: nat, ids: seq<string>, s: Student, today: int)
    requires ValidDb(db) && s in db.students
    requires u.batch.Some? && u.id == db.nextId && u.sharedWith == {}
    requires var o := SelectionResult(db, u, count, ids).outcome; o.SharedWithBatch? || o.SharedWithSelected?
    ensures var r := SelectionResult(db, u, count, ids);
      |r.db.uploads| > 0 &&
      (IsAccessibleByStudent(SharedUpload(r), s, today) <==>
        Live(u, today) && s.batch == u.batch && ("all" in ids || s.code in ids))
  {
    var r := SelectionResult(db, u, count, ids);
    var v := SharedUpload(r);
    AccessibleIffLiveAndScoped(v, s, today);
    if r.outcome.SharedWithSelected? {
      PickedMember(db.students, u.batch.value, ids, s);
    }
  }

  /**
    Who can open the shared upload: with "all" ticked, every student of the
    batch; otherwise exactly the students of the batch whose code was ticked.
    Nobody outside the batch can, whatever was ticked.
  */
  lemma ShareAudience(db: Db, actor: User, g: ShareForm, ext: string, now: int, s: Student, today: int)
    requires ValidDb(db) && s in db.students
    requires var o := ShareResult(db, actor, g, ext, now).outcome; o.SharedWithBatch? || o.SharedWithSelected?
    ensures var r := ShareResult(db, actor, g, ext, now);
      |r.db.uploads| > 0 &&
      (IsAccessibleByStudent(SharedUpload(r), s, today) <==>
        Live(SharedUpload(r), today) && s.batch == Some(g.batchCode) && ("all" in g.selected || s.code in g.selected))
  {
    SavedRequest(db, actor, g, ext, now);
    var u := NewUpload(db.nextId, actor.id, g, g.fromDate.value, g.toDate.value, now);
    SelectionAudience(db, u, |BatchMembers(db.students, g.batchCode)|, g.selected, s, today);
  }

  /**
    The audience in terms of the raw form: the batch code as typed, and '0'
    counting as "all".
  */
  lemma ShareFileAudience(db: Db, actor: User, f: ShareForm, now: int, s: Student, today: int)
    requires ValidDb(db) && s in db.students
    requires var o := ShareFileResult(db, actor, f, now).outcome; o.SharedWithBatch? || o.SharedWithSelected?
    ensures var r := ShareFileResult(db, actor, f, now);
      |r.db.uploads| > 0 &&
      (IsAccessibleByStudent(SharedUpload(r), s, today) <==>
        Live(SharedUpload(r), today) && s.batch == Some(Strip(f.batchCode)) &&
        ("all" in f.selected || "0" in f.selected || s.code in f.selected))
  {
    var g := CleanForm(f);
    var ext := FileExtension(g.file);
    assert ShareFileResult(db, actor, f, now) == ShareResult(db, actor, g, ext, now);
    ShareAudience(db, actor, g, ext, now, s, today);
    SelectsCode(f.selected, s.code);
  }

  /** After normalising, a code is selected exactly when it, "all" or '0' was ticked. */
  lemma SelectsCode(ids: seq<string>, code: string)
    ensures ("all" in NormaliseSelection(ids) || code in NormaliseSelection(ids)) <==>
      ("all" in ids || "0" in ids || code in ids)
  {
  }

  /**
    A student of the batch left out of a narrowed share was still notified
    when the upload was saved, yet cannot open it.
  */
  lemma NoticedWithoutAccess(db: Db, actor: User, g: ShareForm, ext: string, now: int, s: Student, today: int)
    requires ValidDb(db) && s in db.students
    requires ShareResult(db, actor, g, ext, now).outcome.SharedWithSelected?
    requires s.batch == Some(g.batchCode) && s.code !in g.selected
    ensures var r := ShareResult(db, actor, g, ext, now);
      NoticesTo(r.db.notifications, s.userId) == NoticesTo(db.notifications, s.userId) + 1 &&
      |r.db.uploads| > 0 && !IsAccessibleByStudent(SharedUpload(r), s, today)
  {
    ShareNotifiesBatch(db, actor, g, ext, now, s.userId);
    ShareAudience(db, actor, g, ext, now, s, today);
  }

  /**
    The view: the portal ends in the state `ShareFileResult` describes and
    the request ends with its outcome.
  */
  method ShareFile(p: Portal, actor: User, f: ShareForm, now: int) returns (o: ShareOutcome)
    requires p.Valid() && actor in p.users
    modifies p
    ensures p.Valid()
    ensures Shared(o, p.State()) == ShareFileResult(old(p.State()), actor, f, now)
  {
    var g := CleanForm(f);
    var screened := Screen(actor.role, g, FileExtension(g.file));
    if screened.Some? {
      return screened.value;
    }
    o := ShareAccepted(p, actor, g, now);
  }

  /** The view past screening: batch, save and selection. */
  method ShareAccepted(p: Portal, actor: User, g: ShareForm, now: int) returns (o: ShareOutcome)
    requires p.Valid() && actor in p.users
    requires !g.fromDate.Malformed? && !g.toDate.Malformed?
    modifies p
    ensures p.Valid()
    ensures Shared(o, p.State()) == AcceptedResult(old(p.State()), actor, g, now)
  {
    ghost var before := p.State();
    var code := g.batchCode;
    var count := |BatchMembers(p.students, code)|;
    p.EnsureBatch(code);
    if count == 0 {
      return EmptyBatch(EmptyBatchMessage(code));
    }
    assert code in before.batches by {
      var s := BatchMembers(before.students, code)[0];
      assert s in before.students;
      assert StudentRefsOk(before, s);
    }
    assert p.State() == before;
    if g.fromDate.Blank? {
      return SaveFailed(NotNullMessage("from_date"));
    }
    if g.toDate.Blank? {
      return SaveFailed(NotNullMessage("to_date"));
    }
    var u := NewUpload(p.nextId, actor.id, g, g.fromDate.value, g.toDate.value, now);
    assert actor.id in UserIds(p.users);
    o := SaveAndSelect(p, u, count, g.selected);
  }

  /** Removing the row just appended gives back the table as it was. */
  lemma DropFreshUpload(db: Db, u: Upload)
    requires ValidDb(db) && u.id == db.nextId
    ensures Filter(db.uploads + [u], OtherThan(u.id)) == db.uploads
  {
    forall x | x in db.uploads
      ensures OtherThan(u.id)(x)
    {
      assert UploadRefsOk(db, x);
    }
    FilterDropsLast(db.uploads, u, OtherThan(u.id));
  }

  /** Setting the share list of the row just appended changes that row only. */
  lemma SharesOfFreshUpload(us: seq<Upload>, u: Upload, shares: set<nat>, after: seq<Upload>)
    requires forall x | x in us :: x.id != u.id
    requires |after| == |us| + 1
    requires forall i | 0 <= i < |after| ::
      after[i] == if (us + [u])[i].id == u.id then (us + [u])[i].(sharedWith := shares) else (us + [u])[i]
    ensures after == us + [u.(sharedWith := shares)]
  {
    forall i | 0 <= i < |us|
      ensures after[i] == us[i]
    {
      assert (us + [u])[i] == us[i];
      assert us[i] in us;
    }
    assert (us + [u])[|us|] == u;
  }

  /**
    Saves the active upload `u`, scoped to a batch with `count` students, and
    applies the normalised selection `ids` to it.
  */
  method SaveAndSelect(p: Portal, u: Upload, count: nat, ids: seq<string>) returns (o: ShareOutcome)
    requires p.Valid() && u.id == p.nextId && u.isActive && u.sharedWith == {}
    requires u.batch.Some? && u.batch.value in p.batches
    requires u.teacher.Some? && u.teacher.value in UserIds(p.users)
    modifies p
    ensures p.Valid()
    ensures Shared(o, p.State()) == SelectionResult(old(p.State()), u, count, ids)
  {
    ghost var before := p.State();
    var code := u.batch.value;
    var id := p.SaveNewUpload(u);
    assert p.State() == SavedDb(before, u);
    assert u.(id := id) == u;
    assert forall x | x in before.uploads :: x.id != id by {
      forall x | x in before.uploads
        ensures x.id != id
      {
        assert UploadRefsOk(before, x);
      }
    }
    if |ids| == 0 {
      p.DeleteUpload(id);
      DropFreshUpload(before, u);
      return NoneSelected;
    }
    if "all" in ids {
      p.SetShares(id, {});
      SharesOfFreshUpload(before.uploads, u, {}, p.uploads);
      assert u.(sharedWith := {}) == u;
      return SharedWithBatch(id, BatchShareMessage(count, code));
    }
    var picked := Picked(p.students, code, ids);
    if picked == {} {
      p.DeleteUpload(id);
      DropFreshUpload(before, u);
      return NoValidStudents;
    }
    p.SetShares(id, picked);
    SharesOfFreshUpload(before.uploads, u, picked, p.uploads);
    return SharedWithSelected(id, SelectedShareMessage(|picked|, code));
  }
}
