/** The progress schemas of src/models/course.progress.model.ts: per-chapter completion,
    per-section lists of chapters, and one progress record per (userId, courseId). */
module ProgressModel {
  import opened Wrappers
  import opened Text
  import opened Tables

  /** Progress on one chapter. `completed` is required, so absent (None) is refused but
      false is accepted. */
  datatype ChapterProgress = ChapterProgress(chapterId: string, completed: Option<bool>)

  datatype SectionProgress = SectionProgress(sectionId: string, chapters: seq<ChapterProgress>)

  /** A progress record as a caller submits it; a path it leaves out is None. Dates are
      milliseconds since the epoch. */
  datatype ProgressInput = ProgressInput(
    userId: Option<string>,
    courseId: Option<string>,
    enrollmentDate: Option<int>,
    overallProgress: Option<int>,
    sections: Option<seq<SectionProgress>>,
    lastAccessedTimestamp: Option<int>)

  datatype UserCourseProgress = UserCourseProgress(
    userId: string,
    courseId: string,
    enrollmentDate: Option<int>,
    overallProgress: int,
    sections: seq<SectionProgress>,
    lastAccessedTimestamp: Option<int>)

  /** Casting: chapterId is trimmed. */
  function CastChapterProgress(c: ChapterProgress): (r: ChapterProgress)
    ensures IsTrimOf(r.chapterId, c.chapterId) && r.completed == c.completed
  {
    c.(chapterId := Trim(c.chapterId))
  }

  /** Casting: sectionId is trimmed and every chapter entry is cast. */
  function CastSectionProgress(s: SectionProgress): (r: SectionProgress)
    ensures IsTrimOf(r.sectionId, s.sectionId) && |r.chapters| == |s.chapters|
    ensures forall k :: 0 <= k < |r.chapters| ==> r.chapters[k] == CastChapterProgress(s.chapters[k])
  {
    SectionProgress(
      Trim(s.sectionId),
      seq(|s.chapters|, k requires 0 <= k < |s.chapters| => CastChapterProgress(s.chapters[k])))
  }

  /** Casting: ids trimmed, overallProgress defaults to 0, sections default to the empty
      array and are cast in turn. */
  function NewProgress(p: ProgressInput): (r: UserCourseProgress)
    ensures IsTrimOf(r.userId, p.userId.GetOr("")) && IsTrimOf(r.courseId, p.courseId.GetOr(""))
    ensures r.overallProgress == (if p.overallProgress.Some? then p.overallProgress.value else 0)
    ensures |r.sections| == |p.sections.GetOr([])|
    ensures forall k :: 0 <= k < |r.sections| ==> r.sections[k] == CastSectionProgress(p.sections.GetOr([])[k])
    ensures r.enrollmentDate == p.enrollmentDate && r.lastAccessedTimestamp == p.lastAccessedTimestamp
  {
    var sections := p.sections.GetOr([]);
    UserCourseProgress(
      Trim(p.userId.GetOr("")),
      Trim(p.courseId.GetOr("")),
      p.enrollmentDate,
      p.overallProgress.GetOr(0),
      seq(|sections|, k requires 0 <= k < |sections| => CastSectionProgress(sections[k])),
      p.lastAccessedTimestamp)
  }

  predicate ChapterProgressValid(c: ChapterProgress) {
    c.chapterId != "" && c.completed.Some?
  }

  /** The validators of a section entry: id required, at least one chapter, each valid. */
  predicate SectionProgressValid(s: SectionProgress) {
    && s.sectionId != ""
    && |s.chapters| > 0
    && (forall k :: 0 <= k < |s.chapters| ==> ChapterProgressValid(s.chapters[k]))
  }

  /** The validators of a progress record: ids and both dates required, overallProgress
      within 0..100, at least one section, each valid. */
  predicate ProgressValid(p: UserCourseProgress) {
    && p.userId != ""
    && p.courseId != ""
    && p.enrollmentDate.Some?
    && 0 <= p.overallProgress <= 100
    && |p.sections| > 0
    && (forall k :: 0 <= k < |p.sections| ==> SectionProgressValid(p.sections[k]))
    && p.lastAccessedTimestamp.Some?
  }

  /** Required on a Boolean path refuses only an absent value: an uncompleted chapter is
      recorded, a chapter whose completion is missing is refused, and so is a blank id. */
  lemma {:induction false} ChapterProgressRequired(id: string)
    ensures ChapterProgressValid(CastChapterProgress(ChapterProgress(id, Some(false)))) <==> !AllWhitespace(id)
    ensures !ChapterProgressValid(CastChapterProgress(ChapterProgress(id, None)))
  {
    TrimEmptyIffBlank(id);
  }

  /** A record submitted without overallProgress starts at 0; one without sections, or
      with a section that lists no chapter, is refused. */
  lemma ProgressRefusals(p: ProgressInput)
    ensures p.overallProgress.None? ==> NewProgress(p).overallProgress == 0
    ensures p.sections.None? || p.sections == Some([]) ==> !ProgressValid(NewProgress(p))
    ensures (exists k :: 0 <= k < |p.sections.GetOr([])| && p.sections.GetOr([])[k].chapters == []) ==>
      !ProgressValid(NewProgress(p))
  {
  }

  /** The compound index key. */
  function ProgressKey(p: UserCourseProgress): (string, string) {
    (p.userId, p.courseId)
  }

  /** The progress collection: every document valid, at most one per (userId, courseId). */
  ghost predicate ProgressTableValid(rows: seq<UserCourseProgress>) {
    && (forall k :: 0 <= k < |rows| ==> ProgressValid(rows[k]))
    && UniqueBy(rows, ProgressKey)
  }

  const ProgressValidationFailed: string := "UserCourseProgress validation failed"

  /** UserCourseProgress.create: cast, validate, insert under the compound unique index. */
  function CreateProgress(rows: seq<UserCourseProgress>, p: ProgressInput): (r: Result<seq<UserCourseProgress>, string>)
    ensures var d := NewProgress(p);
      r.Ok? <==> ProgressValid(d) && !KeyTaken(rows, ProgressKey, ProgressKey(d))
    ensures r.Ok? ==> r.value == rows + [NewProgress(p)]
  {
    var d := NewProgress(p);
    if !ProgressValid(d) then Err(ProgressValidationFailed) else Insert(rows, ProgressKey, d)
  }

  /** An accepted insert keeps the collection valid, and a second record for the same user
      and course is refused. */
  lemma {:induction false} ProgressTwiceRefused(rows: seq<UserCourseProgress>, p: ProgressInput, again: ProgressInput)
    requires ProgressTableValid(rows) && CreateProgress(rows, p).Ok?
    requires again.userId == p.userId && again.courseId == p.courseId
    ensures ProgressTableValid(CreateProgress(rows, p).value)
    ensures CreateProgress(CreateProgress(rows, p).value, again).Err?
  {
    var d := NewProgress(p);
    InsertKeepsUnique(rows, ProgressKey, d);
    var r := rows + [d];
    assert r[|rows|] == d;
    assert KeyTaken(r, ProgressKey, ProgressKey(NewProgress(again)));
  }
}
