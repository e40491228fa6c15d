/**
  The portal's database: the Batch, BatchCode, User, Student, Upload and
  Notification tables, held by one `Portal` object whose fields the views
  update.  Rows get their primary keys from one counter, `nextId`.  Deletions
  follow the foreign keys' `on_delete` rules: a deleted user takes their
  student profile and notifications with them (CASCADE) and is cleared from
  the uploads they taught (SET_NULL); a deleted batch is cleared from its
  students and uploads (SET_NULL); a deleted student leaves every share list.
*/
module Store {
  import opened Text
  import opened Entities
  import opened Queries
  import opened Notifications

  /** A snapshot of every table. */
  datatype Db = Db(
    batches: set<BatchKey>,
    batchCodes: seq<BatchCode>,
    users: seq<User>,
    students: seq<Student>,
    uploads: seq<Upload>,
    notifications: seq<Notification>,
    nextId: nat)

  function UserIds(users: seq<User>): set<nat> {
    set u | u in users :: u.id
  }

  function StudentIds(students: seq<Student>): set<nat> {
    set s | s in students :: s.id
  }

  function Usernames(users: seq<User>): set<string> {
    set u | u in users :: u.username
  }

  function StudentCodes(students: seq<Student>): set<string> {
    set s | s in students :: s.code
  }

  function BatchCodeKeys(batchCodes: seq<BatchCode>): set<string> {
    set b | b in batchCodes :: b.code
  }

  // The unique columns of each table, as a relation every two rows must satisfy.
  predicate DistinctUsers(a: User, b: User) {
    a.id != b.id && a.username != b.username
  }

  predicate DistinctStudents(a: Student, b: Student) {
    a.id != b.id && a.code != b.code && a.userId != b.userId
  }

  predicate DistinctUploads(a: Upload, b: Upload) {
    a.id != b.id
  }

  predicate DistinctBatchCodes(a: BatchCode, b: BatchCode) {
    a.id != b.id && a.code != b.code
  }

  predicate InBatches(batches: set<BatchKey>, b: Option<BatchKey>) {
    b.Some? ==> b.value in batches
  }

  predicate StudentRefsOk(db: Db, s: Student) {
    s.id < db.nextId && s.userId in UserIds(db.users) && InBatches(db.batches, s.batch)
  }

  predicate UploadRefsOk(db: Db, u: Upload) {
    && u.id < db.nextId
    && (u.teacher.Some? ==> u.teacher.value in UserIds(db.users))
    && InBatches(db.batches, u.batch)
    && u.sharedWith <= StudentIds(db.students)
  }

  /** The database constraints: unique columns, ids below the counter, and foreign keys that resolve. */
  predicate ValidDb(db: Db) {
    && Pairwise(db.users, DistinctUsers)
    && Pairwise(db.students, DistinctStudents)
    && Pairwise(db.uploads, DistinctUploads)
    && Pairwise(db.batchCodes, DistinctBatchCodes)
    && (forall u | u in db.users :: u.id < db.nextId)
    && (forall b | b in db.batchCodes :: b.id < db.nextId)
    && (forall s | s in db.students :: StudentRefsOk(db, s))
    && (forall u | u in db.uploads :: UploadRefsOk(db, u))
    && (forall n | n in db.notifications :: n.userId in UserIds(db.users))
  }

  // ----- Lookups (`objects.get` / `filter(...).first()`) -----

  function FindUser(users: seq<User>, id: nat): (r: Option<User>)
    ensures r.Some? ==> r.value in users && r.value.id == id
    ensures r.None? ==> id !in UserIds(users)
  {
    if |users| == 0 then None
    else if users[0].id == id then Some(users[0])
    else
      assert users == [users[0]] + users[1..];
      FindUser(users[1..], id)
  }

  function FindStudent(students: seq<Student>, id: int): (r: Option<Student>)
    ensures r.Some? ==> r.value in students && r.value.id == id
    ensures r.None? ==> id !in StudentIds(students)
  {
    if |students| == 0 then None
    else if students[0].id == id then Some(students[0])
    else
      assert students == [students[0]] + students[1..];
      FindStudent(students[1..], id)
  }

  function FindBatchCodeById(batchCodes: seq<BatchCode>, id: nat): (r: Option<BatchCode>)
    ensures r.Some? ==> r.value in batchCodes && r.value.id == id
    ensures r.None? ==> forall b | b in batchCodes :: b.id != id
  {
    if |batchCodes| == 0 then None
    else if batchCodes[0].id == id then Some(batchCodes[0])
    else
      assert batchCodes == [batchCodes[0]] + batchCodes[1..];
      FindBatchCodeById(batchCodes[1..], id)
  }

  /** The filter `exclude(id=...)` on the uploads table. */
  function OtherThan(id: nat): Upload -> bool {
    (x: Upload) => x.id != id
  }

  /** The users with user `userId` renamed to `name`; ids are kept, and so is uniqueness when the name is free. */
  function RenameUser(users: seq<User>, userId: nat, name: string): (r: seq<User>)
    ensures |r| == |users|
    ensures forall i | 0 <= i < |r| :: r[i] == if users[i].id == userId then users[i].(username := name) else users[i]
    ensures UserIds(r) == UserIds(users)
    ensures Pairwise(users, DistinctUsers) && (forall u | u in users && u.id != userId :: u.username != name) ==>
      Pairwise(r, DistinctUsers)
  {
    var r := seq(|users|, i requires 0 <= i < |users| => if users[i].id == userId then users[i].(username := name) else users[i]);
    assert UserIds(r) == UserIds(users) by {
      forall x | x in UserIds(users)
        ensures x in UserIds(r)
      {
        var u :| u in users && u.id == x;
        var i :| 0 <= i < |users| && users[i] == u;
        assert r[i].id == x;
      }
    }
    assert Pairwise(users, DistinctUsers) && (forall u | u in users && u.id != userId :: u.username != name) ==>
      Pairwise(r, DistinctUsers) by {
      if Pairwise(users, DistinctUsers) && (forall u | u in users && u.id != userId :: u.username != name) {
        forall i, j | 0 <= i < j < |r|
          ensures DistinctUsers(r[i], r[j])
        {
          assert DistinctUsers(users[i], users[j]);
          assert users[i] in users && users[j] in users;
        }
      }
    }
    r
  }

  /**
    The student table after `student.batch = …; student.save()`: only the
    student with that id changes batch; ids, codes and users stay distinct.
  */
  function MoveStudent(students: seq<Student>, studentId: nat, batch: Option<BatchKey>): (r: seq<Student>)
    ensures |r| == |students|
    ensures forall i | 0 <= i < |r| :: r[i] == if students[i].id == studentId then students[i].(batch := batch) else students[i]
    ensures StudentIds(r) == StudentIds(students)
    ensures Pairwise(students, DistinctStudents) ==> Pairwise(r, DistinctStudents)
  {
    var r := seq(|students|, i requires 0 <= i < |students| => if students[i].id == studentId then students[i].(batch := batch) else students[i]);
    assert StudentIds(r) == StudentIds(students) by {
      forall x | x in StudentIds(students)
        ensures x in StudentIds(r)
      {
        var s :| s in students && s.id == x;
        var i :| 0 <= i < |students| && students[i] == s;
        assert r[i].id == x;
      }
    }
    assert Pairwise(students, DistinctStudents) ==> Pairwise(r, DistinctStudents) by {
      if Pairwise(students, DistinctStudents) {
        forall i, j | 0 <= i < j < |r|
          ensures DistinctStudents(r[i], r[j])
        {
          assert DistinctStudents(students[i], students[j]);
        }
      }
    }
    r
  }

  // ----- The notifications `Upload.save` sends for a new upload -----

  /** "A teacher" when the upload has no teacher, else the teacher's full name. */
  function TeacherName(users: seq<User>, teacher: Option<nat>): string {
    if teacher.None? then "A teacher"
    else match FindUser(users, teacher.value)
      case Some(t) => FullName(t)
      case None => "A teacher"
  }

  /**
    Who `save` notifies: with a batch, the students of that batch; without
    one, the students the upload is shared with.
  */
  predicate Recipient(u: Upload, s: Student) {
    if u.batch.Some? then s.batch == u.batch else s.id in u.sharedWith
  }

  /** The batch variant naming the upload's batch, or the personal variant naming the student's own batch. */
  function NoticeFor(u: Upload, s: Student, teacherName: string): Notification {
    if u.batch.Some? then FileNotification(s.userId, u.subject, u.topic, teacherName, u.batch, true)
    else FileNotification(s.userId, u.subject, u.topic, teacherName, s.batch, false)
  }

  /** One notice per recipient among `students`, in table order. */
  function FanOut(students: seq<Student>, u: Upload, teacherName: string): (r: seq<Notification>)
    ensures |r| <= |students|
    ensures forall n | n in r :: n.title == FileTitle(u.subject) && !n.isRead
    ensures forall n | n in r :: exists s | s in students :: Recipient(u, s) && n.userId == s.userId
  {
    if |students| == 0 then []
    else
      var init := students[..|students| - 1];
      var last := students[|students| - 1];
      assert students == init + [last];
      FanOut(init, u, teacherName) + (if Recipient(u, last) then [NoticeFor(u, last, teacherName)] else [])
  }

  lemma FanOutSnoc(students: seq<Student>, s: Student, u: Upload, teacherName: string)
    ensures FanOut(students + [s], u, teacherName)
         == FanOut(students, u, teacherName) + (if Recipient(u, s) then [NoticeFor(u, s, teacherName)] else [])
  {
    assert (students + [s])[..|students + [s]| - 1] == students;
  }

  /** One more student of the notification loop appends at most their notice. */
  lemma FanOutStep(sent: seq<Notification>, students: seq<Student>, i: nat, u: Upload, teacherName: string)
    requires i < |students|
    ensures sent + FanOut(students[..i + 1], u, teacherName)
         == sent + FanOut(students[..i], u, teacherName)
            + (if Recipient(u, students[i]) then [NoticeFor(u, students[i], teacherName)] else [])
  {
    assert students[..i + 1] == students[..i] + [students[i]];
    FanOutSnoc(students[..i], students[i], u, teacherName);
  }

  /** Notifications created by saving `u` for the first time: none unless it is active. */
  function SaveNotices(students: seq<Student>, u: Upload, teacherName: string): seq<Notification> {
    if u.isActive then FanOut(students, u, teacherName) else []
  }

  /** The number of notifications owned by `user`. */
  function NoticesTo(ns: seq<Notification>, user: nat): nat {
    if |ns| == 0 then 0
    else NoticesTo(ns[..|ns| - 1], user) + (if ns[|ns| - 1].userId == user then 1 else 0)
  }

  lemma {:induction false} NoticesToConcat(a: seq<Notification>, b: seq<Notification>, user: nat)
    ensures NoticesTo(a + b, user) == NoticesTo(a, user) + NoticesTo(b, user)
  {
    if |b| > 0 {
      assert (a + b)[..|a + b| - 1] == a + b[..|b| - 1];
      NoticesToConcat(a, b[..|b| - 1], user);
    } else {
      assert a + b == a;
    }
  }

  /** Some recipient of `u` among `students` belongs to `user`. */
  predicate HasRecipientUser(students: seq<Student>, u: Upload, user: nat) {
    exists s | s in students :: s.userId == user && Recipient(u, s)
  }

  lemma NoticesToSingleStep(u: Upload, s: Student, teacherName: string, user: nat)
    ensures NoticesTo(if Recipient(u, s) then [NoticeFor(u, s, teacherName)] else [], user)
         == if Recipient(u, s) && s.userId == user then 1 else 0
  {
    if Recipient(u, s) {
      assert [NoticeFor(u, s, teacherName)][..0] == [];
    }
  }

  /**
    Every recipient is notified exactly once and nobody else at all, as long as
    no two students share a user.
  */
  lemma {:induction false} FanOutOncePerRecipient(students: seq<Student>, u: Upload, teacherName: string, user: nat)
    requires Pairwise(students, DistinctStudents)
    ensures NoticesTo(FanOut(students, u, teacherName), user) == if HasRecipientUser(students, u, user) then 1 else 0
  {
    if |students| > 0 {
      var init := students[..|students| - 1];
      var last := students[|students| - 1];
      PrefixPairwise(students, |students| - 1, DistinctStudents);
      FanOutOncePerRecipient(init, u, teacherName, user);
      var tail := if Recipient(u, last) then [NoticeFor(u, last, teacherName)] else [];
      assert FanOut(students, u, teacherName) == FanOut(init, u, teacherName) + tail;
      NoticesToConcat(FanOut(init, u, teacherName), tail, user);
      NoticesToSingleStep(u, last, teacherName, user);
      HasRecipientUserLast(students, u, user);
    }
  }

  /**
    Splitting off the last student: `user` has a recipient either among the
    others or as the last one, and never both when no two students share a user.
  */
  lemma HasRecipientUserLast(students: seq<Student>, u: Upload, user: nat)
    requires |students| > 0 && Pairwise(students, DistinctStudents)
    ensures var init, last := students[..|students| - 1], students[|students| - 1];
      (HasRecipientUser(students, u, user) <==>
        HasRecipientUser(init, u, user) || (Recipient(u, last) && last.userId == user)) &&
      (Recipient(u, last) && last.userId == user ==> !HasRecipientUser(init, u, user))
  {
    var init, last := students[..|students| - 1], students[|students| - 1];
    assert students == init + [last];
    if Recipient(u, last) && last.userId == user {
      forall s | s in init
        ensures s.userId != user
      {
        var k :| 0 <= k < |init| && init[k] == s;
        assert DistinctStudents(students[k], students[|students| - 1]);
      }
    }
  }

  /** For a batch upload every notice is the batch variant naming the upload's batch. */
  lemma {:induction false} FanOutBatchVariant(students: seq<Student>, u: Upload, teacherName: string)
    requires u.batch.Some? && u.batch.value != ""
    ensures forall n | n in FanOut(students, u, teacherName) :: n.message == BatchMessage(u.topic, teacherName, u.batch.value)
  {
    if |students| > 0 {
      var init := students[..|students| - 1];
      assert students == init + [students[|students| - 1]];
      FanOutBatchVariant(init, u, teacherName);
    }
  }

  // ----- Cascading deletes -----

  /** Clears deleted users from an upload's teacher and deleted students from its share list. */
  function DetachUpload(u: Upload, userIds: set<nat>, studentIds: set<nat>): Upload {
    u.(teacher := if u.teacher.Some? && u.teacher.value in userIds then None else u.teacher,
       sharedWith := u.sharedWith - studentIds)
  }

  /** The students whose user is among `userIds`. */
  function StudentsOfUsers(students: seq<Student>, userIds: set<nat>): set<nat> {
    set s | s in students && s.userId in userIds :: s.id
  }

  /**
    Deleting the users `ids` (`user.delete()` for each): the users, their
    student profiles and their notifications disappear; uploads keep their
    place but lose those teachers and those students from their share lists.
  */
  function DeleteUsersDb(db: Db, ids: set<nat>): (r: Db)
    requires ValidDb(db)
    ensures ValidDb(r)
    ensures forall u :: u in r.users <==> u in db.users && u.id !in ids
    ensures forall s :: s in r.students <==> s in db.students && s.userId !in ids
    ensures forall n :: n in r.notifications <==> n in db.notifications && n.userId !in ids
    ensures |r.uploads| == |db.uploads|
    ensures forall i | 0 <= i < |r.uploads| ::
      r.uploads[i] == db.uploads[i].(teacher := r.uploads[i].teacher, sharedWith := r.uploads[i].sharedWith)
    ensures forall i | 0 <= i < |r.uploads| ::
      (r.uploads[i].teacher.Some? <==> db.uploads[i].teacher.Some? && db.uploads[i].teacher.value !in ids) &&
      (r.uploads[i].teacher.Some? ==> r.uploads[i].teacher == db.uploads[i].teacher)
    ensures forall i | 0 <= i < |r.uploads| :: r.uploads[i].sharedWith == db.uploads[i].sharedWith * StudentIds(r.students)
    ensures r.batches == db.batches && r.batchCodes == db.batchCodes && r.nextId == db.nextId
  {
    var gone := StudentsOfUsers(db.students, ids);
    var users := Filter(db.users, (u: User) => u.id !in ids);
    var students := Filter(db.students, (s: Student) => s.userId !in ids);
    var uploads := seq(|db.uploads|, i requires 0 <= i < |db.uploads| => DetachUpload(db.uploads[i], ids, gone));
    var notifications := Filter(db.notifications, (n: Notification) => n.userId !in ids);
    var r := Db(db.batches, db.batchCodes, users, students, uploads, notifications, db.nextId);
    DeleteUsersValid(db, ids, r);
    DeleteUsersShares(db, ids, r);
    r
  }

  /**
    A share list loses exactly the students whose user was deleted: what is
    left is the old list restricted to the students that remain.
  */
  lemma DeleteUsersShares(db: Db, ids: set<nat>, r: Db)
    requires ValidDb(db)
    requires r.students == Filter(db.students, (s: Student) => s.userId !in ids)
    requires r.uploads == seq(|db.uploads|, i requires 0 <= i < |db.uploads| =>
      DetachUpload(db.uploads[i], ids, StudentsOfUsers(db.students, ids)))
    ensures forall i | 0 <= i < |r.uploads| :: r.uploads[i].sharedWith == db.uploads[i].sharedWith * StudentIds(r.students)
  {
    var gone := StudentsOfUsers(db.students, ids);
    forall i, sid | 0 <= i < |r.uploads| && sid in db.uploads[i].sharedWith
      ensures sid !in gone <==> sid in StudentIds(r.students)
    {
      assert UploadRefsOk(db, db.uploads[i]);
      if sid in gone {
        var t :| t in db.students && t.userId in ids && t.id == sid;
        var b :| 0 <= b < |db.students| && db.students[b] == t;
        forall x | x in r.students
          ensures x.id != sid
        {
          var c :| 0 <= c < |db.students| && db.students[c] == x;
          assert c != b;
          if c < b {
            assert DistinctStudents(db.students[c], db.students[b]);
          } else {
            assert DistinctStudents(db.students[b], db.students[c]);
          }
        }
      } else {
        var s :| s in db.students && s.id == sid;
        assert s in r.students;
      }
    }
  }

  lemma DeleteUsersValid(db: Db, ids: set<nat>, r: Db)
    requires ValidDb(db)
    requires r.batches == db.batches && r.batchCodes == db.batchCodes && r.nextId == db.nextId
    requires r.users == Filter(db.users, (u: User) => u.id !in ids)
    requires r.students == Filter(db.students, (s: Student) => s.userId !in ids)
    requires r.uploads == seq(|db.uploads|, i requires 0 <= i < |db.uploads| =>
      DetachUpload(db.uploads[i], ids, StudentsOfUsers(db.students, ids)))
    requires r.notifications == Filter(db.notifications, (n: Notification) => n.userId !in ids)
    ensures ValidDb(r)
  {
    var gone := StudentsOfUsers(db.students, ids);
    FilterPairwise(db.users, (u: User) => u.id !in ids, DistinctUsers);
    FilterPairwise(db.students, (s: Student) => s.userId !in ids, DistinctStudents);
    forall i, j | 0 <= i < j < |r.uploads|
      ensures DistinctUploads(r.uploads[i], r.uploads[j])
    {
      assert DistinctUploads(db.uploads[i], db.uploads[j]);
    }
    forall s | s in r.students
      ensures StudentRefsOk(r, s)
    {
      assert StudentRefsOk(db, s);
      var owner :| owner in db.users && owner.id == s.userId;
      assert owner in r.users;
    }
    forall u | u in r.uploads
      ensures UploadRefsOk(r, u)
    {
      var i :| 0 <= i < |r.uploads| && r.uploads[i] == u;
      var old_u := db.uploads[i];
      assert old_u in db.uploads;
      assert UploadRefsOk(db, old_u);
      if u.teacher.Some? {
        var t :| t in db.users && t.id == u.teacher.value;
        assert t in r.users;
      }
      forall sid | sid in u.sharedWith
        ensures sid in StudentIds(r.students)
      {
        var s :| s in db.students && s.id == sid;
        assert s.userId in ids ==> sid in gone;
        assert s in r.students;
      }
    }
    forall n | n in r.notifications
      ensures n.userId in UserIds(r.users)
    {
      var owner :| owner in db.users && owner.id == n.userId;
      assert owner in r.users;
    }
  }

  function DetachBatchFromStudent(s: Student, code: BatchKey): Student {
    if s.batch == Some(code) then s.(batch := None) else s
  }

  function DetachBatchFromUpload(u: Upload, code: BatchKey): Upload {
    if u.batch == Some(code) then u.(batch := None) else u
  }

  /**
    Deleting the Batch `code`: it leaves the batch table, and its students and
    uploads keep their rows with the batch cleared; nothing else changes.
  */
  function DeleteBatchDb(db: Db, code: BatchKey): (r: Db)
    requires ValidDb(db)
    ensures ValidDb(r)
    ensures r.batches == db.batches - {code}
    ensures |r.students| == |db.students| && |r.uploads| == |db.uploads|
    ensures forall i | 0 <= i < |r.students| ::
      r.students[i].batch != Some(code) && r.students[i] == db.students[i].(batch := r.students[i].batch) &&
      (db.students[i].batch != Some(code) ==> r.students[i] == db.students[i])
    ensures forall i | 0 <= i < |r.uploads| ::
      r.uploads[i].batch != Some(code) && r.uploads[i] == db.uploads[i].(batch := r.uploads[i].batch) &&
      (db.uploads[i].batch != Some(code) ==> r.uploads[i] == db.uploads[i])
    ensures r.users == db.users && r.batchCodes == db.batchCodes && r.notifications == db.notifications
    ensures r.nextId == db.nextId
  {
    var students := DetachStudents(db.students, code);
    var uploads := DetachUploads(db.uploads, code);
    var r := db.(batches := db.batches - {code}, students := students, uploads := uploads);
    forall s | s in students
      ensures StudentRefsOk(r, s)
    {
      var i :| 0 <= i < |students| && students[i] == s;
      assert StudentRefsOk(db, db.students[i]);
    }
    forall u | u in uploads
      ensures UploadRefsOk(r, u)
    {
      var i :| 0 <= i < |uploads| && uploads[i] == u;
      assert UploadRefsOk(db, db.uploads[i]);
    }
    r
  }

  /** The students with the batch `code` cleared; ids and uniqueness are kept. */
  function DetachStudents(students: seq<Student>, code: BatchKey): (r: seq<Student>)
    ensures |r| == |students|
    ensures forall i | 0 <= i < |r| :: r[i] == DetachBatchFromStudent(students[i], code)
    ensures Pairwise(students, DistinctStudents) ==> Pairwise(r, DistinctStudents)
    ensures StudentIds(r) == StudentIds(students)
  {
    var r := seq(|students|, i requires 0 <= i < |students| => DetachBatchFromStudent(students[i], code));
    assert Pairwise(students, DistinctStudents) ==> Pairwise(r, DistinctStudents) by {
      if Pairwise(students, DistinctStudents) {
        forall i, j | 0 <= i < j < |r|
          ensures DistinctStudents(r[i], r[j])
        {
          assert DistinctStudents(students[i], students[j]);
        }
      }
    }
    assert StudentIds(r) == StudentIds(students) by {
      forall x | x in StudentIds(students)
        ensures x in StudentIds(r)
      {
        var s :| s in students && s.id == x;
        var i :| 0 <= i < |students| && students[i] == s;
        assert r[i].id == x;
      }
    }
    r
  }

  /** The uploads with the batch `code` cleared; uniqueness is kept. */
  function DetachUploads(uploads: seq<Upload>, code: BatchKey): (r: seq<Upload>)
    ensures |r| == |uploads|
    ensures forall i | 0 <= i < |r| :: r[i] == DetachBatchFromUpload(uploads[i], code)
    ensures Pairwise(uploads, DistinctUploads) ==> Pairwise(r, DistinctUploads)
  {
    var r := seq(|uploads|, i requires 0 <= i < |uploads| => DetachBatchFromUpload(uploads[i], code));
    assert Pairwise(uploads, DistinctUploads) ==> Pairwise(r, DistinctUploads) by {
      if Pairwise(uploads, DistinctUploads) {
        forall i, j | 0 <= i < j < |r|
          ensures DistinctUploads(r[i], r[j])
        {
          assert DistinctUploads(uploads[i], uploads[j]);
        }
      }
    }
    r
  }

  /** Deleting the BatchCode row `id`; no other table refers to it. */
  function DeleteBatchCodeDb(db: Db, id: nat): (r: Db)
    requires ValidDb(db)
    ensures ValidDb(r)
    ensures forall b :: b in r.batchCodes <==> b in db.batchCodes && b.id != id
    ensures r == db.(batchCodes := r.batchCodes)
  {
    FilterPairwise(db.batchCodes, (b: BatchCode) => b.id != id, DistinctBatchCodes);
    db.(batchCodes := Filter(db.batchCodes, (b: BatchCode) => b.id != id))
  }

  /** The database object the views work on. */
  class Portal {
    var batches: set<BatchKey>
    var batchCodes: seq<BatchCode>
    var users: seq<User>
    var students: seq<Student>
    var uploads: seq<Upload>
    var notifications: seq<Notification>
    var nextId: nat

    function State(): Db
      reads this
    {
      Db(batches, batchCodes, users, students, uploads, notifications, nextId)
    }

    predicate Valid()
      reads this
    {
      ValidDb(State())
    }

    /** An empty database. */
    constructor ()
      ensures Valid()
      ensures State() == Db({}, [], [], [], [], [], 1)
    {
      batches, batchCodes, users, students, uploads, notifications := {}, [], [], [], [], [];
      nextId := 1;
    }

    /** `Notification.objects.create(user=..., title=..., message=...)`: one unread row for that user. */
    method CreateNotification(userId: nat, title: string, message: string)
      requires Valid() && userId in UserIds(users)
      modifies this
      ensures Valid()
      ensures State() == old(State()).(notifications := old(notifications) + [Notification(userId, title, message, false)])
    {
      notifications := notifications + [Notification(userId, title, message, false)];
    }

    /** `Batch.objects.get_or_create(batch_code=code)`. */
    method EnsureBatch(code: BatchKey)
      requires Valid()
      modifies this
      ensures Valid()
      ensures State() == old(State()).(batches := old(batches) + {code})
    {
      batches := batches + {code};
    }

    /** `BatchCode.objects.create(...)` for a code not yet taken. */
    method CreateBatchCode(code: string, className: string, academicYear: string, branch: string) returns (id: nat)
      requires Valid() && code !in BatchCodeKeys(batchCodes)
      modifies this
      ensures Valid()
      ensures id == old(nextId)
      ensures State() == old(State()).(batchCodes := old(batchCodes) + [BatchCode(id, code, className, academicYear, branch)],
                                       nextId := id + 1)
    {
      id := nextId;
      var row := BatchCode(id, code, className, academicYear, branch);
      forall i, j | 0 <= i < j < |batchCodes + [row]|
        ensures DistinctBatchCodes((batchCodes + [row])[i], (batchCodes + [row])[j])
      {
        if j == |batchCodes| {
          assert batchCodes[i] in batchCodes;
        }
      }
      batchCodes := batchCodes + [row];
      nextId := nextId + 1;
    }

    /** Sets the class, year and branch of the existing BatchCode `code` (`batch_code_obj.save()`). */
    method UpdateBatchCode(code: string, className: string, academicYear: string, branch: string)
      requires Valid() && code in BatchCodeKeys(batchCodes)
      modifies this
      ensures Valid()
      ensures |batchCodes| == |old(batchCodes)|
      ensures forall i | 0 <= i < |batchCodes| ::
        batchCodes[i] == if old(batchCodes)[i].code == code
                         then old(batchCodes)[i].(className := className, academicYear := academicYear, branch := branch)
                         else old(batchCodes)[i]
      ensures State() == old(State()).(batchCodes := batchCodes)
    {
      var bcs := batchCodes;
      var updated := seq(|bcs|, i requires 0 <= i < |bcs| =>
        if bcs[i].code == code then bcs[i].(className := className, academicYear := academicYear, branch := branch) else bcs[i]);
      forall i, j | 0 <= i < j < |updated|
        ensures DistinctBatchCodes(updated[i], updated[j])
      {
        assert DistinctBatchCodes(bcs[i], bcs[j]);
      }
      forall b | b in updated
        ensures b.id < nextId
      {
        var i :| 0 <= i < |updated| && updated[i] == b;
        assert bcs[i] in bcs;
      }
      batchCodes := updated;
    }

    /** `User.objects.create(...)` for an unused username. */
    method CreateUser(username: string, firstName: string, lastName: string, role: Role, batchcode: string) returns (id: nat)
      requires Valid() && username !in Usernames(users)
      modifies this
      ensures Valid()
      ensures id == old(nextId)
      ensures State() == old(State()).(users := old(users) + [User(id, username, firstName, lastName, role, batchcode)],
                                       nextId := id + 1)
    {
      id := nextId;
      var row := User(id, username, firstName, lastName, role, batchcode);
      ghost var before := State();
      forall i, j | 0 <= i < j < |users + [row]|
        ensures DistinctUsers((users + [row])[i], (users + [row])[j])
      {
        if j == |users| {
          assert users[i] in users;
        }
      }
      users := users + [row];
      nextId := nextId + 1;
      assert UserIds(before.users) <= UserIds(users);
      forall s | s in students
        ensures StudentRefsOk(State(), s)
      {
        assert StudentRefsOk(before, s);
      }
      forall u | u in uploads
        ensures UploadRefsOk(State(), u)
      {
        assert UploadRefsOk(before, u);
      }
    }

    /** `Student.objects.create(...)` for an unused code and a user without a profile. */
    method CreateStudent(userId: nat, code: string, name: string, batch: Option<BatchKey>) returns (id: nat)
      requires Valid()
      requires code !in StudentCodes(students)
      requires userId in UserIds(users) && forall s | s in students :: s.userId != userId
      requires InBatches(batches, batch)
      modifies this
      ensures Valid()
      ensures id == old(nextId)
      ensures State() == old(State()).(students := old(students) + [Student(id, userId, code, name, batch)],
                                       nextId := id + 1)
    {
      id := nextId;
      var row := Student(id, userId, code, name, batch);
      ghost var before := State();
      forall i, j | 0 <= i < j < |students + [row]|
        ensures DistinctStudents((students + [row])[i], (students + [row])[j])
      {
        if j == |students| {
          assert students[i] in students;
          assert StudentRefsOk(before, students[i]);
        }
      }
      students := students + [row];
      nextId := nextId + 1;
      assert StudentIds(before.students) <= StudentIds(students);
      forall s | s in students
        ensures StudentRefsOk(State(), s)
      {
        if s != row {
          assert StudentRefsOk(before, s);
        }
      }
      forall u | u in uploads
        ensures UploadRefsOk(State(), u)
      {
        assert UploadRefsOk(before, u);
      }
    }

    /** `student.batch = batch; student.save()`: only that student's batch changes. */
    method SetStudentBatch(studentId: nat, batch: Option<BatchKey>)
      requires Valid() && InBatches(batches, batch)
      modifies this
      ensures Valid()
      ensures |students| == |old(students)|
      ensures forall i | 0 <= i < |students| ::
        students[i] == if old(students)[i].id == studentId then old(students)[i].(batch := batch) else old(students)[i]
      ensures State() == old(State()).(students := students)
    {
      ghost var before := State();
      var updated := MoveStudent(students, studentId, batch);
      students := updated;
      forall s | s in students
        ensures StudentRefsOk(State(), s)
      {
        var i :| 0 <= i < |updated| && updated[i] == s;
        assert StudentRefsOk(before, before.students[i]);
      }
      forall u | u in uploads
        ensures UploadRefsOk(State(), u)
      {
        assert UploadRefsOk(before, u);
      }
    }

    /** `user.username = name; user.save()` for a name no other user has. */
    method SetUsername(userId: nat, name: string)
      requires Valid()
      requires forall u | u in users && u.id != userId :: u.username != name
      modifies this
      ensures Valid()
      ensures |users| == |old(users)|
      ensures forall i | 0 <= i < |users| ::
        users[i] == if old(users)[i].id == userId then old(users)[i].(username := name) else old(users)[i]
      ensures State() == old(State()).(users := users)
    {
      ghost var before := State();
      var updated := RenameUser(users, userId, name);
      forall u | u in updated
        ensures u.id < nextId
      {
        assert u.id in UserIds(updated);
      }
      users := updated;
      forall s | s in students
        ensures StudentRefsOk(State(), s)
      {
        assert StudentRefsOk(before, s);
      }
      forall u | u in uploads
        ensures UploadRefsOk(State(), u)
      {
        assert UploadRefsOk(before, u);
      }
    }

    /** The INSERT half of `Upload.save()` for a new upload: the row gets a fresh id. */
    method InsertUpload(u: Upload) returns (id: nat)
      requires Valid()
      requires InBatches(batches, u.batch) && u.sharedWith <= StudentIds(students)
      requires u.teacher.Some? ==> u.teacher.value in UserIds(users)
      modifies this
      ensures Valid()
      ensures id == old(nextId)
      ensures State() == old(State()).(uploads := old(uploads) + [u.(id := id)], nextId := id + 1)
    {
      id := nextId;
      var row := u.(id := id);
      ghost var before := State();
      forall i, j | 0 <= i < j < |uploads + [row]|
        ensures DistinctUploads((uploads + [row])[i], (uploads + [row])[j])
      {
        if j == |uploads| {
          assert uploads[i] in uploads;
          assert UploadRefsOk(before, uploads[i]);
        }
      }
      uploads := uploads + [row];
      nextId := nextId + 1;
      forall s | s in students
        ensures StudentRefsOk(State(), s)
      {
        assert StudentRefsOk(before, s);
      }
      forall x | x in uploads
        ensures UploadRefsOk(State(), x)
      {
        if x != row {
          assert UploadRefsOk(before, x);
        }
      }
    }

    /** The notification loop of `Upload.save()`: one `create_file_notification` per recipient, in table order. */
    method NotifyRecipients(u: Upload, teacherName: string)
      requires Valid()
      modifies this
      ensures Valid()
      ensures State() == old(State()).(notifications := old(notifications) + FanOut(students, u, teacherName))
    {
      var i := 0;
      while i < |students|
        invariant 0 <= i <= |students|
        invariant Valid()
        invariant State() == old(State()).(notifications := old(notifications) + FanOut(students[..i], u, teacherName))
      {
        var s := students[i];
        FanOutStep(old(notifications), students, i, u, teacherName);
        if Recipient(u, s) {
          assert s in students;
          assert StudentRefsOk(State(), s);
          var n := NoticeFor(u, s, teacherName);
          assert Notification(n.userId, n.title, n.message, false) == n;
          CreateNotification(n.userId, n.title, n.message);
        }
        i := i + 1;
      }
      assert students[..|students|] == students;
    }

    /**
      `Upload.save()` of a new upload: the row is inserted with a fresh id and,
      when it is active, every recipient is notified once.
    */
    method SaveNewUpload(u: Upload) returns (id: nat)
      requires Valid()
      requires InBatches(batches, u.batch) && u.sharedWith <= StudentIds(students)
      requires u.teacher.Some? ==> u.teacher.value in UserIds(users)
      modifies this
      ensures Valid()
      ensures id == old(nextId)
      ensures State() == old(State()).(
        uploads := old(uploads) + [u.(id := id)],
        notifications := old(notifications) + SaveNotices(old(students), u, TeacherName(old(users), u.teacher)),
        nextId := id + 1)
    {
      id := InsertUpload(u);
      if u.isActive {
        NotifyRecipients(u, TeacherName(users, u.teacher));
      }
    }

    /** `Upload.save()` of an upload that already has a row: the row is replaced and nobody is notified. */
    method ResaveUpload(u: Upload)
      requires Valid()
      requires u.id in set x | x in uploads :: x.id
      requires InBatches(batches, u.batch) && u.sharedWith <= StudentIds(students)
      requires u.teacher.Some? ==> u.teacher.value in UserIds(users)
      modifies this
      ensures Valid()
      ensures |uploads| == |old(uploads)|
      ensures forall i | 0 <= i < |uploads| :: uploads[i] == if old(uploads)[i].id == u.id then u else old(uploads)[i]
      ensures State() == old(State()).(uploads := uploads)
      ensures notifications == old(notifications)
    {
      var us := uploads;
      var updated := seq(|us|, i requires 0 <= i < |us| => if us[i].id == u.id then u else us[i]);
      forall i, j | 0 <= i < j < |updated|
        ensures DistinctUploads(updated[i], updated[j])
      {
        assert DistinctUploads(us[i], us[j]);
      }
      forall x | x in updated
        ensures UploadRefsOk(State(), x)
      {
        var i :| 0 <= i < |updated| && updated[i] == x;
        assert us[i] in us;
      }
      uploads := updated;
    }

    /** `upload.delete()`: the row and its share list go; notifications already sent stay. */
    method DeleteUpload(uploadId: nat)
      requires Valid()
      modifies this
      ensures Valid()
      ensures forall x :: x in uploads <==> x in old(uploads) && x.id != uploadId
      ensures uploads == Filter(old(uploads), OtherThan(uploadId))
      ensures State() == old(State()).(uploads := uploads)
    {
      ghost var before := State();
      FilterPairwise(uploads, OtherThan(uploadId), DistinctUploads);
      uploads := Filter(uploads, OtherThan(uploadId));
      forall x | x in uploads
        ensures UploadRefsOk(State(), x)
      {
        assert UploadRefsOk(before, x);
      }
    }

    /** `upload.shared_with.set(...)` / `.clear()`: only that upload's share list changes. */
    method SetShares(uploadId: nat, shares: set<nat>)
      requires Valid() && shares <= StudentIds(students)
      modifies this
      ensures Valid()
      ensures |uploads| == |old(uploads)|
      ensures forall i | 0 <= i < |uploads| ::
        uploads[i] == if old(uploads)[i].id == uploadId then old(uploads)[i].(sharedWith := shares) else old(uploads)[i]
      ensures State() == old(State()).(uploads := uploads)
    {
      var us := uploads;
      ghost var before := State();
      var updated := seq(|us|, i requires 0 <= i < |us| => if us[i].id == uploadId then us[i].(sharedWith := shares) else us[i]);
      forall i, j | 0 <= i < j < |updated|
        ensures DistinctUploads(updated[i], updated[j])
      {
        assert DistinctUploads(us[i], us[j]);
      }
      forall x | x in updated
        ensures UploadRefsOk(State(), x)
      {
        var i :| 0 <= i < |updated| && updated[i] == x;
        assert UploadRefsOk(before, us[i]);
      }
      uploads := updated;
    }

    /** Deletes the users `ids` with everything that cascades from them. */
    method DeleteUsers(ids: set<nat>)
      requires Valid()
      modifies this
      ensures Valid()
      ensures State() == DeleteUsersDb(old(State()), ids)
    {
      var r := DeleteUsersDb(State(), ids);
      users, students, uploads, notifications := r.users, r.students, r.uploads, r.notifications;
    }

    /** `batch.delete()` for the Batch `code`, clearing it from students and uploads. */
    method DeleteBatch(code: BatchKey)
      requires Valid()
      modifies this
      ensures Valid()
      ensures State() == DeleteBatchDb(old(State()), code)
    {
      var r := DeleteBatchDb(State(), code);
      batches, students, uploads := r.batches, r.students, r.uploads;
    }

    /** `batch_code.delete()` for the BatchCode row `id`. */
    method DeleteBatchCode(id: nat)
      requires Valid()
      modifies this
      ensures Valid()
      ensures State() == DeleteBatchCodeDb(old(State()), id)
    {
      batchCodes := DeleteBatchCodeDb(State(), id).batchCodes;
    }
  }
}
