/**
  Who may open an upload: `Upload.is_accessible_by_student` and
  `is_shared_with_all` (teacher/models.py).
*/
module Uploads {
  import opened Entities

  /**
    The resolver, an ordered chain of early returns: inactive, then expired,
    then a direct share, then an exclusive share list, then the batch scope,
    and finally the unscoped broadcast.  `from_date` is never consulted, so a
    file is readable before its window opens.  Batches are compared by code,
    which is unique, so this is the same as comparing the batch rows' ids.
  */
  function IsAccessibleByStudent(u: Upload, s: Student, today: int): (r: bool)
    ensures !u.isActive ==> !r
    ensures today > u.toDate ==> !r
    ensures u.isActive && today <= u.toDate && s.id in u.sharedWith ==> r
    ensures !IsSharedWithAll(u) && s.id !in u.sharedWith ==> !r
    ensures IsSharedWithAll(u) && u.batch.Some? && s.batch.None? ==> !r
    ensures IsSharedWithAll(u) && u.batch.Some? && s.batch.Some? ==>
      (r <==> u.isActive && today <= u.toDate && s.batch.value == u.batch.value)
    ensures IsSharedWithAll(u) && u.batch.None? ==> (r <==> u.isActive && today <= u.toDate)
  {
    if !u.isActive then false
    else if today > u.toDate then false
    else if s.id in u.sharedWith then true
    else if !IsSharedWithAll(u) then false
    else if u.batch.Some? then
      if s.batch.None? then false
      else u.batch.value == s.batch.value
    else true
  }

  /** Access is decided without looking at `from_date`, the teacher or the file's content fields. */
  lemma AccessIgnoresFromDate(u: Upload, s: Student, today: int, fromDate: int)
    ensures IsAccessibleByStudent(u.(fromDate := fromDate), s, today) == IsAccessibleByStudent(u, s, today)
  {
  }

  /** The student side of the decision depends only on the student's id and batch. */
  lemma AccessDependsOnIdAndBatch(u: Upload, s: Student, t: Student, today: int)
    requires s.id == t.id && s.batch == t.batch
    ensures IsAccessibleByStudent(u, s, today) == IsAccessibleByStudent(u, t, today)
  {
  }

  /** Live window of the listings: active and not yet expired. */
  predicate Live(u: Upload, today: int) {
    u.isActive && u.toDate >= today
  }

  /**
    The resolver as one formula: a live upload that is shared with the student
    directly, or shared with nobody in particular and either scoped to the
    student's batch or to no batch at all.
  */
  lemma AccessibleIffLiveAndScoped(u: Upload, s: Student, today: int)
    ensures IsAccessibleByStudent(u, s, today) <==>
      Live(u, today) &&
      (s.id in u.sharedWith ||
       (IsSharedWithAll(u) && (u.batch.None? || (s.batch.Some? && s.batch == u.batch))))
  {
  }
}
