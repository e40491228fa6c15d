/**
  The upload listings a student sees: `Student.get_active_files`
  (student/models.py) and the looser "batch or shared" query used by the
  received-files page and the dashboard counters.
*/
module StudentFiles {
  import opened Entities
  import opened Queries
  import opened Uploads

  /** `filter(shared_with=student)` */
  predicate DirectShare(u: Upload, s: Student) {
    s.id in u.sharedWith
  }

  /** `filter(batch=student.batch, num_shared=0)`, only asked when the student has a batch. */
  predicate BatchShare(u: Upload, s: Student) {
    s.batch.Some? && u.batch == s.batch && IsSharedWithAll(u)
  }

  /** `filter(batch__isnull=True, num_shared=0)` */
  predicate GeneralShare(u: Upload) {
    u.batch.None? && IsSharedWithAll(u)
  }

  /** A permutation has the same elements. */
  lemma SameMultisetSameElements(a: seq<Upload>, b: seq<Upload>)
    requires multiset(a) == multiset(b)
    ensures forall x :: x in a <==> x in b
  {
    forall x
      ensures x in a <==> x in b
    {
      assert x in a <==> x in multiset(a);
      assert x in b <==> x in multiset(b);
    }
  }

  /**
    `get_active_files`: the union of direct, batch and general shares among the
    live uploads, each once, newest first.
  */
  function ActiveFiles(uploads: seq<Upload>, s: Student, today: int): (r: seq<Upload>)
    ensures NoDuplicates(r)
    ensures NewestFirstOrder(r)
    ensures forall u :: u in r ==> u.isActive && u.toDate >= today
    ensures forall u :: u in r <==>
      u in uploads && Live(u, today) && (DirectShare(u, s) || BatchShare(u, s) || GeneralShare(u))
  {
    var live := Filter(uploads, u => Live(u, today));
    var direct := Filter(live, u => DirectShare(u, s));
    var batch := if s.batch.Some? then Filter(live, u => BatchShare(u, s)) else [];
    var general := Filter(live, GeneralShare);
    var sorted := NewestFirst(direct + batch + general);
    SameMultisetSameElements(sorted, direct + batch + general);
    Distinct(sorted)
  }

  /**
    The listing holds exactly the uploads the resolver lets the student open:
    `get_active_files` and `is_accessible_by_student` agree on every upload.
  */
  lemma ActiveFilesExact(uploads: seq<Upload>, s: Student, today: int)
    ensures forall u :: u in ActiveFiles(uploads, s, today) <==>
      u in uploads && IsAccessibleByStudent(u, s, today)
  {
    forall u
      ensures u in ActiveFiles(uploads, s, today) <==> u in uploads && IsAccessibleByStudent(u, s, today)
    {
      AccessibleIffLiveAndScoped(u, s, today);
    }
  }

  /**
    `get_active_files` as written: the query of `ActiveFiles` inside a `try`
    whose `except` logs the error and returns `Upload.objects.none()`.
    `fails` says whether building the query raised.  It ends in
    `select_related` on the result of `union`, which Django refuses with
    `NotSupportedError`, so as written it is always true and the listing is
    always empty.
  */
  function GetActiveFiles(uploads: seq<Upload>, s: Student, today: int, fails: bool): (r: seq<Upload>)
    ensures forall u | u in r :: u in uploads && IsAccessibleByStudent(u, s, today)
    ensures fails ==> r == []
    ensures !fails ==> forall u | u in uploads && IsAccessibleByStudent(u, s, today) :: u in r
  {
    ActiveFilesExact(uploads, s, today);
    if fails then [] else ActiveFiles(uploads, s, today)
  }

  /**
    The cost of the `except` branch: every upload the resolver grants the
    student is in the intended listing and missing from the listing as
    written, for instance a live upload with no batch and no share list.
  */
  lemma GetActiveFilesLosesGranted(uploads: seq<Upload>, s: Student, today: int, u: Upload)
    requires u in uploads && IsAccessibleByStudent(u, s, today)
    ensures u in ActiveFiles(uploads, s, today)
    ensures u !in GetActiveFiles(uploads, s, today, true)
  {
    ActiveFilesExact(uploads, s, today);
  }

  /** A broadcast upload that is live today is granted to every student, so the gap is never empty. */
  lemma BroadcastIsGranted(s: Student, today: int)
    ensures var u := Upload(1, None, "", None, "Maths", "Algebra", "", true, today, today, 0, {});
      IsAccessibleByStudent(u, s, today) && u in ActiveFiles([u], s, today) && GetActiveFiles([u], s, today, true) == []
  {
    var u := Upload(1, None, "", None, "Maths", "Algebra", "", true, today, today, 0, {});
    GetActiveFilesLosesGranted([u], s, today, u);
  }

  /** `Q(batch=student.batch) | Q(shared_with=student)`; a missing batch matches uploads without one. */
  predicate BatchOrShared(u: Upload, s: Student) {
    u.batch == s.batch || s.id in u.sharedWith
  }

  /** The received-files and dashboard query: live uploads matching `BatchOrShared`, each once, newest first. */
  function BatchOrSharedFiles(uploads: seq<Upload>, s: Student, today: int): (r: seq<Upload>)
    ensures NoDuplicates(r)
    ensures NewestFirstOrder(r)
    ensures forall u :: u in r <==> u in uploads && Live(u, today) && BatchOrShared(u, s)
  {
    var matching := Filter(uploads, u => Live(u, today) && BatchOrShared(u, s));
    var sorted := NewestFirst(matching);
    SameMultisetSameElements(sorted, matching);
    Distinct(sorted)
  }

  /**
    What the looser query lists beyond the resolver: live uploads of the
    student's batch (or, for a student without a batch, uploads without one)
    that are shared exclusively with other students.
  */
  lemma BatchOrSharedOverreach(uploads: seq<Upload>, s: Student, today: int, u: Upload)
    ensures u in BatchOrSharedFiles(uploads, s, today) && !IsAccessibleByStudent(u, s, today) <==>
      u in uploads && Live(u, today) && u.batch == s.batch && s.id !in u.sharedWith && !IsSharedWithAll(u)
  {
    AccessibleIffLiveAndScoped(u, s, today);
  }

  /**
    What the looser query misses: the unscoped broadcasts (no batch, no share
    list), for every student who has a batch.
  */
  lemma BatchOrSharedOmits(uploads: seq<Upload>, s: Student, today: int, u: Upload)
    ensures u in uploads && IsAccessibleByStudent(u, s, today) && u !in BatchOrSharedFiles(uploads, s, today) <==>
      u in uploads && Live(u, today) && u.batch.None? && s.batch.Some? && IsSharedWithAll(u)
  {
    AccessibleIffLiveAndScoped(u, s, today);
  }
}
