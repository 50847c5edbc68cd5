/** The enrollment schema of src/models/enrollment.model.ts: trimmed required ids, a date
    defaulting to the current time, a status enum defaulting to 'active', a progress
    percentage in 0..100 defaulting to 0, and a unique compound index on (userId, courseId). */
module EnrollmentModel {
  import opened Wrappers
  import opened Text
  import opened Tables

  const EnrollmentStatuses: set<string> := {"active", "completed", "cancelled"}
  const DefaultEnrollmentStatus: string := "active"

  /** An enrollment as a caller submits it; a path it leaves out is None. Dates are
      milliseconds since the epoch. */
  datatype EnrollmentInput = EnrollmentInput(
    userId: Option<string>,
    courseId: Option<string>,
    enrollmentDate: Option<int>,
    status: Option<string>,
    progress: Option<int>)

  /** An enrollment document after casting and defaults. */
  datatype Enrollment = Enrollment(
    userId: string,
    courseId: string,
    enrollmentDate: int,
    status: string,
    progress: int)

  /** Casting with the defaults applied: Date.now for the date, 'active', progress 0. */
  function NewEnrollment(e: EnrollmentInput, now: int): (r: Enrollment)
    ensures IsTrimOf(r.userId, e.userId.GetOr("")) && IsTrimOf(r.courseId, e.courseId.GetOr(""))
    ensures r.enrollmentDate == (if e.enrollmentDate.Some? then e.enrollmentDate.value else now)
    ensures r.status == (if e.status.Some? then e.status.value else DefaultEnrollmentStatus)
    ensures r.progress == (if e.progress.Some? then e.progress.value else 0)
  {
    Enrollment(
      Trim(e.userId.GetOr("")),
      Trim(e.courseId.GetOr("")),
      e.enrollmentDate.GetOr(now),
      e.status.GetOr(DefaultEnrollmentStatus),
      e.progress.GetOr(0))
  }

  /** The validators: ids required, status in the enum, progress within 0..100. */
  predicate EnrollmentValid(e: Enrollment) {
    && e.userId != ""
    && e.courseId != ""
    && e.status in EnrollmentStatuses
    && 0 <= e.progress <= 100
  }

  /** An enrollment naming only a user and a course is valid exactly when both trimmed
      ids are non-empty; it starts now, active, at 0 %. */
  lemma {:induction false} EnrollmentDefaults(userId: string, courseId: string, now: int)
    ensures var e := NewEnrollment(EnrollmentInput(Some(userId), Some(courseId), None, None, None), now);
      && e.enrollmentDate == now && e.status == "active" && e.progress == 0
      && (EnrollmentValid(e) <==> !AllWhitespace(userId) && !AllWhitespace(courseId))
  {
    TrimEmptyIffBlank(userId);
    TrimEmptyIffBlank(courseId);
  }

  /** The compound index key. */
  function EnrollmentKey(e: Enrollment): (string, string) {
    (e.userId, e.courseId)
  }

  /** The enrollment collection: every document valid, at most one per (userId, courseId). */
  ghost predicate EnrollmentTableValid(rows: seq<Enrollment>) {
    && (forall k :: 0 <= k < |rows| ==> EnrollmentValid(rows[k]))
    && UniqueBy(rows, EnrollmentKey)
  }

  const EnrollmentValidationFailed: string := "Enrollment validation failed"

  /** Enrollment.create: cast, validate, insert under the compound unique index. */
  function CreateEnrollment(rows: seq<Enrollment>, e: EnrollmentInput, now: int): (r: Result<seq<Enrollment>, string>)
    ensures var d := NewEnrollment(e, now);
      r.Ok? <==> EnrollmentValid(d) && !KeyTaken(rows, EnrollmentKey, EnrollmentKey(d))
    ensures r.Ok? ==> r.value == rows + [NewEnrollment(e, now)]
  {
    var d := NewEnrollment(e, now);
    if !EnrollmentValid(d) then Err(EnrollmentValidationFailed) else Insert(rows, EnrollmentKey, d)
  }

  /** An accepted insert keeps the collection valid, and enrolling the same user in the
      same course again is refused with the duplicate-key error, at any time and whatever
      the other fields say. */
  lemma {:induction false} EnrollTwiceRefused(rows: seq<Enrollment>, e: EnrollmentInput, now: int, again: EnrollmentInput, later: int)
    requires EnrollmentTableValid(rows) && CreateEnrollment(rows, e, now).Ok?
    requires again.userId == e.userId && again.courseId == e.courseId
    ensures EnrollmentTableValid(CreateEnrollment(rows, e, now).value)
    ensures CreateEnrollment(CreateEnrollment(rows, e, now).value, again, later).Err?
  {
    var d := NewEnrollment(e, now);
    InsertKeepsUnique(rows, EnrollmentKey, d);
    var r := rows + [d];
    assert r[|rows|] == d;
    assert KeyTaken(r, EnrollmentKey, EnrollmentKey(NewEnrollment(again, later)));
  }
}
