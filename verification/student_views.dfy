/**
  The student-facing pages (student/views.py): `view_file`, which decides
  whether a file is served, and `received_files`, which lists the files a
  student (or an administrator) can see, grouped by subject.
*/
module StudentViews {
  import opened Text
  import opened Entities
  import opened Queries
  import opened Uploads
  import opened StudentFiles
  import opened Store
  import CoreViews

  // ----- Opening a file -----

  /** `Student.objects.get(user=user)` */
  function StudentOfUser(students: seq<Student>, userId: nat): (r: Option<Student>)
    ensures r.Some? ==> r.value in students && r.value.userId == userId
    ensures r.None? ==> forall s | s in students :: s.userId != userId
  {
    if |students| == 0 then None
    else if students[0].userId == userId then Some(students[0])
    else StudentOfUser(students[1..], userId)
  }

  /** `Upload.objects.get(id=file_id, is_active=True)` */
  function ActiveUpload(uploads: seq<Upload>, id: nat): (r: Option<Upload>)
    ensures r.Some? ==> r.value in uploads && r.value.id == id && r.value.isActive
    ensures r.None? ==> forall u | u in uploads :: !(u.id == id && u.isActive)
  {
    if |uploads| == 0 then None
    else if uploads[0].id == id && uploads[0].isActive then Some(uploads[0])
    else ActiveUpload(uploads[1..], id)
  }

  datatype ViewOutcome =
    | PermissionDenied
    | FileNotFound
    | Expired(toDate: int)
    | MissingOnDisk
    | NoStudentProfile
    | AccessDenied
    | Served(upload: Upload)

  /**
    `view_file`: the role, then an active upload with that id, then expiry
    (`from_date` is not consulted), then the file on disk (`stored`), and for
    a student their profile and the resolver.  Administrators skip the
    resolver; teachers are always refused.
  */
  function ViewFile(db: Db, user: User, fileId: nat, today: int, stored: bool): (r: ViewOutcome)
    ensures r.Served? ==> r.upload in db.uploads && r.upload.id == fileId && Live(r.upload, today)
    ensures user.role == TeacherRole ==> r == PermissionDenied
  {
    if RoleName(user.role) !in ["Student", "Admin"] then PermissionDenied
    else match ActiveUpload(db.uploads, fileId)
      case None => FileNotFound
      case Some(u) =>
        if today > u.toDate then Expired(u.toDate)
        else if !stored then MissingOnDisk
        else if RoleName(user.role) == "Student" then
          match StudentOfUser(db.students, user.id)
          case None => NoStudentProfile
          case Some(s) => if IsAccessibleByStudent(u, s, today) then Served(u) else AccessDenied
        else Served(u)
  }

  /** Upload ids are unique, so the upload found by id is the only one with that id. */
  lemma UploadById(db: Db, u: Upload, v: Upload)
    requires ValidDb(db) && u in db.uploads && v in db.uploads && u.id == v.id
    ensures u == v
  {
    var i :| 0 <= i < |db.uploads| && db.uploads[i] == u;
    var j :| 0 <= j < |db.uploads| && db.uploads[j] == v;
    assert i == j;
  }

  /** A user has at most one student profile. */
  lemma ProfileOfUser(db: Db, s: Student)
    requires ValidDb(db) && s in db.students
    ensures StudentOfUser(db.students, s.userId) == Some(s)
  {
    var t := StudentOfUser(db.students, s.userId).value;
    var i :| 0 <= i < |db.students| && db.students[i] == t;
    var j :| 0 <= j < |db.students| && db.students[j] == s;
    assert i == j;
  }

  /**
    For a student with a profile, a stored file is served exactly when the
    resolver grants the student access to the upload with that id.
  */
  lemma StudentServedIffAccessible(db: Db, user: User, fileId: nat, today: int, s: Student)
    requires ValidDb(db) && user.role == StudentRole && s in db.students && s.userId == user.id
    ensures ViewFile(db, user, fileId, today, true).Served? <==>
      exists u | u in db.uploads :: u.id == fileId && IsAccessibleByStudent(u, s, today)
  {
    ProfileOfUser(db, s);
    var found := ActiveUpload(db.uploads, fileId);
    if u :| u in db.uploads && u.id == fileId && IsAccessibleByStudent(u, s, today) {
      assert found.Some? && found.value == u by {
        assert u.isActive;
        if found.Some? { UploadById(db, u, found.value); }
      }
    }
  }

  /** For an administrator, a stored file is served exactly when the upload with that id is live. */
  lemma AdminServedIffLive(db: Db, user: User, fileId: nat, today: int)
    requires ValidDb(db) && user.role == AdminRole
    ensures ViewFile(db, user, fileId, today, true).Served? <==>
      exists u | u in db.uploads :: u.id == fileId && Live(u, today)
  {
    var found := ActiveUpload(db.uploads, fileId);
    if u :| u in db.uploads && u.id == fileId && Live(u, today) {
      assert found.Some? && found.value == u by {
        if found.Some? { UploadById(db, u, found.value); }
      }
    }
  }

  // ----- The received-files listing -----

  /** One entry of the listing, without the disk-dependent link. */
  datatype FileCard = FileCard(
    id: nat,
    title: string,
    teacher: string,
    topic: string,
    subTopic: string,
    batch: string,
    available: bool,
    fromDate: int,
    toDate: int)

  datatype SubjectGroup = SubjectGroup(subject: string, cards: seq<FileCard>)

  /** "topic - sub topic", or the topic alone when there is no sub topic. */
  function CardTitle(u: Upload): string {
    if u.subTopic != "" then u.topic + " - " + u.subTopic else u.topic
  }

  /** The teacher's full name, else their username; "Unknown Teacher" once the teacher is gone. */
  function TeacherLabel(users: seq<User>, teacher: Option<nat>): string {
    if teacher.None? then "Unknown Teacher"
    else match FindUser(users, teacher.value)
      case Some(t) => if FullName(t) != "" then FullName(t) else t.username
      case None => "Unknown Teacher"
  }

  function Card(u: Upload, users: seq<User>, today: int): FileCard {
    FileCard(u.id, CardTitle(u), TeacherLabel(users, u.teacher), u.topic, u.subTopic,
             if u.batch.Some? then u.batch.value else "General", today <= u.toDate, u.fromDate, u.toDate)
  }

  /** The cards of the files with `subject`, in listing order. */
  function CardsFor(files: seq<Upload>, subject: string, users: seq<User>, today: int): (r: seq<FileCard>)
    ensures forall c | c in r :: exists u | u in files :: u.subject == subject && c == Card(u, users, today)
  {
    if |files| == 0 then []
    else
      var u := files[|files| - 1];
      assert files == files[..|files| - 1] + [u];
      CardsFor(files[..|files| - 1], subject, users, today) + (if u.subject == subject then [Card(u, users, today)] else [])
  }

  lemma {:induction false} CardsForComplete(files: seq<Upload>, subject: string, users: seq<User>, today: int, u: Upload)
    requires u in files && u.subject == subject
    ensures Card(u, users, today) in CardsFor(files, subject, users, today)
  {
    var init := files[..|files| - 1];
    if u != files[|files| - 1] {
      assert files == init + [files[|files| - 1]];
      CardsForComplete(init, subject, users, today, u);
    }
  }

  predicate StrictlySorted(xs: seq<string>) {
    forall i, j | 0 <= i < j < |xs| :: LexLess(xs[i], xs[j])
  }

  /** Inserts `x` into a strictly sorted list unless it is already there. */
  function InsertSubject(x: string, xs: seq<string>): (r: seq<string>)
    requires StrictlySorted(xs)
    ensures StrictlySorted(r)
    ensures forall y :: y in r <==> y == x || y in xs
  {
    if |xs| == 0 then [x]
    else if x == xs[0] then xs
    else if LexLess(x, xs[0]) then
      forall j | 0 <= j < |xs| ensures LexLess(x, xs[j]) {
        if j > 0 { LexLessTransitive(x, xs[0], xs[j]); }
      }
      [x] + xs
    else
      LexLessTrichotomy(x, xs[0]);
      var rest := InsertSubject(x, xs[1..]);
      assert forall y | y in rest :: LexLess(xs[0], y) by {
        forall y | y in rest ensures LexLess(xs[0], y) {
          if y != x {
            var j :| 0 <= j < |xs[1..]| && xs[1..][j] == y;
            assert xs[j + 1] == y;
          }
        }
      }
      assert xs == [xs[0]] + xs[1..];
      [xs[0]] + rest
  }

  /** `sorted({file.subject for file in files})` */
  function SortedSubjects(files: seq<Upload>): (r: seq<string>)
    ensures StrictlySorted(r)
    ensures forall y :: y in r <==> exists u | u in files :: u.subject == y
  {
    if |files| == 0 then []
    else
      var init := files[..|files| - 1];
      var last := files[|files| - 1];
      assert files == init + [last];
      InsertSubject(last.subject, SortedSubjects(init))
  }

  /**
    The groups `received_files` keeps, for the subjects in order: a group per
    non-empty subject that has cards.  Files without a subject are listed
    nowhere.
  */
  function GroupsFor(subjects: seq<string>, files: seq<Upload>, users: seq<User>, today: int): (r: seq<SubjectGroup>)
    ensures forall g | g in r ::
      g.subject in subjects && g.subject != "" && g.cards != [] && g.cards == CardsFor(files, g.subject, users, today)
  {
    if |subjects| == 0 then []
    else
      var last := subjects[|subjects| - 1];
      var cards := if last == "" then [] else CardsFor(files, last, users, today);
      GroupsFor(subjects[..|subjects| - 1], files, users, today) +
      (if cards == [] then [] else [SubjectGroup(last, cards)])
  }

  predicate GroupsOrdered(gs: seq<SubjectGroup>) {
    forall i, j | 0 <= i < j < |gs| :: LexLess(gs[i].subject, gs[j].subject)
  }

  lemma {:induction false} GroupsForOrdered(subjects: seq<string>, files: seq<Upload>, users: seq<User>, today: int)
    requires StrictlySorted(subjects)
    ensures GroupsOrdered(GroupsFor(subjects, files, users, today))
  {
    if |subjects| > 0 {
      var init := subjects[..|subjects| - 1];
      var last := subjects[|subjects| - 1];
      assert StrictlySorted(init);
      GroupsForOrdered(init, files, users, today);
      var front := GroupsFor(init, files, users, today);
      var r := GroupsFor(subjects, files, users, today);
      forall i, j | 0 <= i < j < |r|
        ensures LexLess(r[i].subject, r[j].subject)
      {
        if j >= |front| {
          assert r[i] == front[i] && front[i] in front;
          var k :| 0 <= k < |init| && init[k] == front[i].subject;
          assert subjects[k] == init[k];
        } else {
          assert r[i] == front[i] && r[j] == front[j];
        }
      }
    }
  }

  lemma {:induction false} GroupsForComplete(subjects: seq<string>, files: seq<Upload>, users: seq<User>, today: int, u: Upload)
    requires u in files && u.subject != "" && u.subject in subjects
    ensures exists g | g in GroupsFor(subjects, files, users, today) ::
      g.subject == u.subject && Card(u, users, today) in g.cards
  {
    var init := subjects[..|subjects| - 1];
    var last := subjects[|subjects| - 1];
    GroupsForStep(subjects, files, users, today);
    if last == u.subject {
      CardsForComplete(files, u.subject, users, today, u);
      var cards := CardsFor(files, last, users, today);
      assert Card(u, users, today) in cards;
      var g := SubjectGroup(last, cards);
      assert GroupsFor(subjects, files, users, today) == GroupsFor(init, files, users, today) + [g];
      assert g in GroupsFor(subjects, files, users, today);
    } else {
      assert subjects == init + [last];
      GroupsForComplete(init, files, users, today, u);
      var g :| g in GroupsFor(init, files, users, today) && g.subject == u.subject && Card(u, users, today) in g.cards;
      assert g in GroupsFor(subjects, files, users, today);
    }
  }

  /** One step of `GroupsFor`: the groups of all but the last subject, then the last subject's group if it has cards. */
  lemma GroupsForStep(subjects: seq<string>, files: seq<Upload>, users: seq<User>, today: int)
    requires |subjects| > 0
    ensures var last := subjects[|subjects| - 1];
      var cards := if last == "" then [] else CardsFor(files, last, users, today);
      GroupsFor(subjects, files, users, today) ==
        GroupsFor(subjects[..|subjects| - 1], files, users, today) + (if cards == [] then [] else [SubjectGroup(last, cards)])
  {
  }

  /** The subject groups of a listing. */
  function ListingOf(files: seq<Upload>, users: seq<User>, today: int): seq<SubjectGroup> {
    GroupsFor(SortedSubjects(files), files, users, today)
  }

  /**
    The grouping is exact: groups come in ascending subject order, each holds
    the cards of precisely the files of its subject, and every file with a
    subject shows up in its group.
  */
  lemma ListingExact(files: seq<Upload>, users: seq<User>, today: int)
    ensures GroupsOrdered(ListingOf(files, users, today))
    ensures forall g | g in ListingOf(files, users, today) ::
      g.subject != "" && g.cards == CardsFor(files, g.subject, users, today)
    ensures forall u | u in files && u.subject != "" ::
      exists g | g in ListingOf(files, users, today) :: g.subject == u.subject && Card(u, users, today) in g.cards
  {
    var subjects := SortedSubjects(files);
    GroupsForOrdered(subjects, files, users, today);
    forall u | u in files && u.subject != ""
      ensures exists g | g in ListingOf(files, users, today) :: g.subject == u.subject && Card(u, users, today) in g.cards
    {
      GroupsForComplete(subjects, files, users, today, u);
    }
  }

  /**
    The loop of `received_files`: a dictionary keyed by every subject, to
    which each file with a subject appends its card, then the subjects in
    order without the empty groups.
  */
  method GroupBySubject(files: seq<Upload>, users: seq<User>, today: int) returns (groups: seq<SubjectGroup>)
    ensures groups == ListingOf(files, users, today)
  {
    var subjects := SortedSubjects(files);
    var bySubject := FillSubjects(files, subjects, users, today);
    BucketsHoldCards(files, subjects, users, today);
    groups := [];
    var j := 0;
    while j < |subjects|
      invariant 0 <= j <= |subjects|
      invariant groups == GroupsFor(subjects[..j], files, users, today)
    {
      var s := subjects[j];
      assert subjects[..j + 1][..j] == subjects[..j];
      GroupsForStep(subjects[..j + 1], files, users, today);
      if bySubject[s] != [] {
        groups := groups + [SubjectGroup(s, bySubject[s])];
      }
      j := j + 1;
    }
    assert subjects[..|subjects|] == subjects;
  }

  /**
    `files_by_subject` once the loop has seen `files`: a bucket per subject,
    to which each file with a non-empty subject has appended its card.
  */
  function Buckets(files: seq<Upload>, subjects: seq<string>, users: seq<User>, today: int): (m: map<string, seq<FileCard>>)
    requires forall u | u in files :: u.subject in subjects
    ensures forall s :: s in m <==> s in subjects
  {
    if |files| == 0 then map s | s in subjects :: []
    else
      var u := files[|files| - 1];
      var m := Buckets(files[..|files| - 1], subjects, users, today);
      if u.subject != "" then m[u.subject := m[u.subject] + [Card(u, users, today)]] else m
  }

  /** Each subject's bucket holds exactly the cards of that subject's files, in order. */
  lemma {:induction false} BucketsHoldCards(files: seq<Upload>, subjects: seq<string>, users: seq<User>, today: int)
    requires forall u | u in files :: u.subject in subjects
    ensures forall s | s in Buckets(files, subjects, users, today) ::
      Buckets(files, subjects, users, today)[s] == if s == "" then [] else CardsFor(files, s, users, today)
  {
    if |files| > 0 {
      BucketsHoldCards(files[..|files| - 1], subjects, users, today);
    }
  }

  /** The dictionary keyed by every subject, to which each file with a subject appends its card. */
  method FillSubjects(files: seq<Upload>, subjects: seq<string>, users: seq<User>, today: int)
      returns (bySubject: map<string, seq<FileCard>>)
    requires forall u | u in files :: u.subject in subjects
    ensures bySubject == Buckets(files, subjects, users, today)
  {
    bySubject := map s | s in subjects :: [];
    var i := 0;
    while i < |files|
      invariant 0 <= i <= |files|
      invariant bySubject == Buckets(files[..i], subjects, users, today)
    {
      var u := files[i];
      assert u in files && files[..i + 1][..i] == files[..i];
      if u.subject != "" {
        bySubject := bySubject[u.subject := bySubject[u.subject] + [Card(u, users, today)]];
      }
      i := i + 1;
    }
    assert files[..|files|] == files;
  }

  datatype Listing =
    | NotAllowed
    | ProfileFailed(message: string)
    | NoBatch
    | NoFiles
    | Files(groups: seq<SubjectGroup>)

  /** A listing of `files`, or the "no files" page when there are none or none has a subject. */
  function ListingFor(files: seq<Upload>, users: seq<User>, today: int): Listing {
    if files == [] || ListingOf(files, users, today) == [] then NoFiles
    else Files(ListingOf(files, users, today))
  }

  predicate IsActiveUpload(u: Upload) {
    u.isActive
  }

  /** The administrator's listing source: every active upload, expired or not. */
  function AdminFiles(uploads: seq<Upload>): seq<Upload> {
    Filter(uploads, IsActiveUpload)
  }

  /** The profile a student gets on first visit: code from the signup batch code or "STU<id>", no batch. */
  function DefaultProfile(id: nat, user: User): Student {
    var code := if user.batchcode != "" then user.batchcode else "STU" + NatToString(user.id);
    var name := if FullName(user) != "" then FullName(user) else user.username;
    Student(id, user.id, code, name, None)
  }

  /**
    A student's listing: the batch-or-shared uploads, but only once the
    student has a batch; otherwise an empty page, whatever is shared with
    them directly.  Each card comes from a live upload of the student's
    batch or shared with them, filed under its own subject.
  */
  lemma StudentListingSound(uploads: seq<Upload>, s: Student, users: seq<User>, today: int, g: SubjectGroup, c: FileCard)
    requires s.batch.Some?
    requires var l := ListingFor(BatchOrSharedFiles(uploads, s, today), users, today); l.Files? && g in l.groups
    requires c in g.cards
    ensures exists u | u in uploads ::
      Live(u, today) && BatchOrShared(u, s) && u.subject == g.subject && c == Card(u, users, today)
  {
    var files := BatchOrSharedFiles(uploads, s, today);
    ListingExact(files, users, today);
    var u :| u in files && u.subject == g.subject && c == Card(u, users, today);
  }

  /**
    `received_files`.  Only students and administrators get a listing.  A
    student without a profile gets one created (the request fails when its
    default code is taken) and, having no batch yet, an empty page; so does a
    student whose profile has no batch.
  */
  method ReceivedFiles(p: Portal, user: User, today: int) returns (r: Listing)
    requires p.Valid() && user in p.users
    modifies p
    ensures p.Valid()
    ensures user.role == TeacherRole ==> r == NotAllowed && p.State() == old(p.State())
    ensures user.role == AdminRole ==>
      r == ListingFor(AdminFiles(old(p.uploads)), old(p.users), today) && p.State() == old(p.State())
    ensures user.role == StudentRole ==> match StudentOfUser(old(p.students), user.id)
      case Some(s) =>
        p.State() == old(p.State()) &&
        r == if s.batch.None? then NoBatch else ListingFor(BatchOrSharedFiles(old(p.uploads), s, today), old(p.users), today)
      case None =>
        var s := DefaultProfile(old(p.nextId), user);
        if s.code in StudentCodes(old(p.students)) then
          r == ProfileFailed("Error loading files: " + CoreViews.DuplicateCodeError) && p.State() == old(p.State())
        else
          r == NoBatch &&
          p.State() == old(p.State()).(students := old(p.students) + [s], nextId := old(p.nextId) + 1)
  {
    assert RoleName(TeacherRole) == "Teacher";
    if RoleName(user.role) !in ["Student", "Admin"] {
      return NotAllowed;
    }
    if RoleName(user.role) == "Admin" {
      assert user.role == AdminRole;
      r := ShowListing(AdminFiles(p.uploads), p.users, today);
      return;
    }
    assert user.role == StudentRole;
    var found := StudentOfUser(p.students, user.id);
    var s: Student;
    if found.None? {
      s := DefaultProfile(p.nextId, user);
      if s.code in StudentCodes(p.students) {
        return ProfileFailed("Error loading files: " + CoreViews.DuplicateCodeError);
      }
      assert user.id in UserIds(p.users);
      var id := p.CreateStudent(user.id, s.code, s.name, None);
      return NoBatch;
    }
    s := found.value;
    if s.batch.None? {
      return NoBatch;
    }
    r := ShowListing(BatchOrSharedFiles(p.uploads, s, today), p.users, today);
  }

  /** Renders the listing of `files`: the "no files" page or the subject groups. */
  method ShowListing(files: seq<Upload>, users: seq<User>, today: int) returns (r: Listing)
    ensures r == ListingFor(files, users, today)
  {
    if files == [] {
      return NoFiles;
    }
    var groups := GroupBySubject(files, users, today);
    if groups == [] {
      return NoFiles;
    }
    return Files(groups);
  }
}
