/**
  The portal's records, one datatype per table row.  Primary keys are `id`
  fields; a foreign key is the id (or, for batches, the batch code) of the row
  it points to.  Dates are day numbers and `uploadedAt` a timestamp; "today"
  and "now" are always passed in.
*/
module Entities {
  import opened Text

  datatype Option<+T> = None | Some(value: T)

  /** A form field that must parse: missing or empty, unparseable, or a value. */
  datatype Field<T> = Blank | Malformed | Given(value: T)

  /** `Role.role_name`: a closed set of three roles. */
  datatype Role = AdminRole | TeacherRole | StudentRole

  /**
    The role name as stored and as the views compare it ("Admin", "Student",
    "Teacher"); lower-cased it is the choice key.  Distinct roles have
    distinct names (`RoleNameInjective`).
  */
  function RoleName(r: Role): (name: string)
    ensures Lower(name) in ["admin", "teacher", "student"]
  {
    match r
    case AdminRole =>
      assert forall i | 0 <= i < 5 :: Lower("Admin")[i] == "admin"[i];
      assert Lower("Admin") == "admin";
      "Admin"
    case TeacherRole =>
      assert forall i | 0 <= i < 7 :: Lower("Teacher")[i] == "teacher"[i];
      assert Lower("Teacher") == "teacher";
      "Teacher"
    case StudentRole =>
      assert forall i | 0 <= i < 7 :: Lower("Student")[i] == "student"[i];
      assert Lower("Student") == "student";
      "Student"
  }

  /** `role_name` is unique: no two roles share a name. */
  lemma RoleNameInjective(a: Role, b: Role)
    ensures RoleName(a) == RoleName(b) ==> a == b
  {
  }

  /** The operational cohort (teacher `Batch`) is identified by its unique code. */
  type BatchKey = string

  /** `BatchCode`: administrative metadata of a cohort, unique by `code`. */
  datatype BatchCode = BatchCode(id: nat, code: string, className: string, academicYear: string, branch: string)

  /** `User`: unique `username`, a role, and the batch code the user signed up or was imported with. */
  datatype User = User(id: nat, username: string, firstName: string, lastName: string, role: Role, batchcode: string)

  /** `Student`: one per user, unique `code`, optional batch. */
  datatype Student = Student(id: nat, userId: nat, code: string, name: string, batch: Option<BatchKey>)

  /**
    `Upload`: a shared file.  `subTopic` is "" when absent; `sharedWith` holds
    student ids (the many-to-many `shared_with`).
  */
  datatype Upload = Upload(
    id: nat,
    teacher: Option<nat>,
    teacherCode: string,
    batch: Option<BatchKey>,
    subject: string,
    topic: string,
    subTopic: string,
    isActive: bool,
    fromDate: int,
    toDate: int,
    uploadedAt: int,
    sharedWith: set<nat>)

  /** `Notification`: owned by one user, unread when created. */
  datatype Notification = Notification(userId: nat, title: string, message: string, isRead: bool)

  const DefaultAcademicYear: string := "2025-2026"
  const DefaultBranch: string := "Nehru nagar"

  /** `get_full_name()`: first and last name joined by a space, then stripped. */
  function FullName(u: User): string {
    Strip(u.firstName + " " + u.lastName)
  }

  /** `is_shared_with_all()`: no student was singled out. */
  predicate IsSharedWithAll(u: Upload) {
    |u.sharedWith| == 0
  }
}
