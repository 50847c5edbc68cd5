/** The section schema of src/models/section.model.ts: trimmed required id and title, a
    description defaulting to "", and a non-empty list of embedded chapters. */
module SectionModel {
  import opened Wrappers
  import opened Text
  import opened Tables
  import opened ChapterModel

  /** A section as a request submits it; a path the request leaves out is None. */
  datatype SectionInput = SectionInput(
    sectionId: Option<string>,
    sectionTitle: Option<string>,
    sectionDescription: Option<string>,
    chapters: Option<seq<ChapterInput>>)

  /** A section document after casting. A required string the input did not carry is the
      empty string here: the required validator refuses both alike. */
  datatype Section = Section(
    sectionId: string,
    sectionTitle: string,
    sectionDescription: string,
    chapters: seq<Chapter>)

  /** Casting: sectionId and sectionTitle are trimmed, the description defaults to "",
      an absent chapter list is the empty array, and each chapter is cast in turn. */
  function CastSection(s: SectionInput): (r: Section)
    ensures IsTrimOf(r.sectionId, s.sectionId.GetOr("")) && IsTrimOf(r.sectionTitle, s.sectionTitle.GetOr(""))
    ensures r.sectionDescription == s.sectionDescription.GetOr("")
    ensures |r.chapters| == |s.chapters.GetOr([])|
    ensures forall k :: 0 <= k < |r.chapters| ==> r.chapters[k] == CastChapter(s.chapters.GetOr([])[k])
  {
    var chapters := s.chapters.GetOr([]);
    Section(
      Trim(s.sectionId.GetOr("")),
      Trim(s.sectionTitle.GetOr("")),
      s.sectionDescription.GetOr(""),
      seq(|chapters|, k requires 0 <= k < |chapters| => CastChapter(chapters[k])))
  }

  /** The validators of a cast section, including those of its chapters. */
  predicate SectionValid(s: Section) {
    && s.sectionId != ""
    && s.sectionTitle != ""
    && |s.chapters| > 0
    && (forall k :: 0 <= k < |s.chapters| ==> ChapterValid(s.chapters[k]))
  }

  /** A section without chapters is refused; so is one whose id or title is blank, since
      trimming precedes the required check. A missing description is stored as "". */
  lemma {:induction false} SectionRefusals(s: SectionInput)
    ensures s.sectionDescription.None? ==> CastSection(s).sectionDescription == ""
    ensures s.chapters.None? || s.chapters == Some([]) ==> !SectionValid(CastSection(s))
    ensures AllWhitespace(s.sectionId.GetOr("")) ==> !SectionValid(CastSection(s))
    ensures AllWhitespace(s.sectionTitle.GetOr("")) ==> !SectionValid(CastSection(s))
  {
    TrimEmptyIffBlank(s.sectionId.GetOr(""));
    TrimEmptyIffBlank(s.sectionTitle.GetOr(""));
  }

  /** A section is accepted exactly when its trimmed id and title are non-empty and it
      carries at least one chapter, each of which is accepted. */
  lemma {:induction false} SectionAccepted(s: SectionInput)
    ensures SectionValid(CastSection(s)) <==>
      && !AllWhitespace(s.sectionId.GetOr(""))
      && !AllWhitespace(s.sectionTitle.GetOr(""))
      && |s.chapters.GetOr([])| > 0
      && (forall k :: 0 <= k < |s.chapters.GetOr([])| ==> ChapterValid(CastChapter(s.chapters.GetOr([])[k])))
  {
    TrimEmptyIffBlank(s.sectionId.GetOr(""));
    TrimEmptyIffBlank(s.sectionTitle.GetOr(""));
  }

  function SectionKey(s: Section): string {
    s.sectionId
  }

  /** The section collection: every document valid, sectionId unique. */
  ghost predicate SectionTableValid(rows: seq<Section>) {
    && (forall k :: 0 <= k < |rows| ==> SectionValid(rows[k]))
    && UniqueBy(rows, SectionKey)
  }

  const SectionValidationFailed: string := "Section validation failed"

  /** Section.create: cast, validate, insert under the unique sectionId index. */
  function CreateSection(rows: seq<Section>, s: SectionInput): (r: Result<seq<Section>, string>)
    ensures r.Ok? <==> SectionValid(CastSection(s)) && !KeyTaken(rows, SectionKey, CastSection(s).sectionId)
    ensures r.Ok? ==> r.value == rows + [CastSection(s)]
  {
    var d := CastSection(s);
    if !SectionValid(d) then Err(SectionValidationFailed) else Insert(rows, SectionKey, d)
  }

  /** An accepted insert keeps the collection valid. */
  lemma {:induction false} CreateSectionKeepsValid(rows: seq<Section>, s: SectionInput)
    requires SectionTableValid(rows) && CreateSection(rows, s).Ok?
    ensures SectionTableValid(CreateSection(rows, s).value)
  {
    InsertKeepsUnique(rows, SectionKey, CastSection(s));
  }
}
