/** The course schema of src/models/course.model.ts: required and trimmed text paths with
    length limits, a non-negative optional price, the level and status enums, a non-empty
    list of embedded sections, embedded enrollments, and the unique courseId. */
module CourseModel {
  import opened Wrappers
  import opened Text
  import opened Tables
  import opened SectionModel
  import opened EnrollmentModel

  const Levels: set<string> := {"Beginner", "Intermediate", "Advanced"}
  const Statuses: set<string> := {"Draft", "Published"}
  const TitleMaxLength: nat := 100
  const DescriptionMaxLength: nat := 500

  /** A course document. `oid` is its _id, the ObjectId MongoDB assigns; a required string
      that is absent is the empty string here, since the required validator refuses both
      alike. teacherName, title, description and category hold their trimmed values: the
      schema's trim setters run whenever they are assigned. */
  datatype Course = Course(
    oid: string,
    courseId: string,
    teacherId: string,
    teacherName: string,
    title: string,
    description: Option<string>,
    category: string,
    image: Option<string>,
    price: Option<int>,
    level: string,
    status: string,
    sections: seq<Section>,
    enrollments: seq<Enrollment>)

  /** The validators save runs on a course, including those of its embedded documents. */
  predicate CourseValid(c: Course) {
    && c.courseId != ""
    && c.teacherId != ""
    && c.teacherName != ""
    && c.title != "" && Utf16Length(c.title) <= TitleMaxLength
    && (c.description.None? || Utf16Length(c.description.value) <= DescriptionMaxLength)
    && c.category != ""
    && (c.price.None? || c.price.value >= 0)
    && c.level in Levels
    && c.status in Statuses
    && |c.sections| > 0
    && (forall k :: 0 <= k < |c.sections| ==> SectionValid(c.sections[k]))
    && (forall k :: 0 <= k < |c.enrollments| ==> EnrollmentValid(c.enrollments[k]))
  }

  /** The value a trimmed optional path stores. */
  function TrimmedOpt(v: Option<string>): (r: Option<string>)
    ensures r.None? <==> v.None?
    ensures v.Some? ==> IsTrimOf(r.value, v.value)
  {
    match v
    case None => None
    case Some(s) => Some(Trim(s))
  }

  /** A course is refused when it has no section, when a required text path is blank
      (trimming happens first), or when its title or description is too long. */
  lemma {:induction false} CourseRefusals(c: Course, raw: string)
    ensures c.sections == [] ==> !CourseValid(c)
    ensures AllWhitespace(raw) && (c.title == Trim(raw) || c.teacherName == Trim(raw) || c.category == Trim(raw)) ==>
      !CourseValid(c)
    ensures Utf16Length(c.title) > TitleMaxLength ==> !CourseValid(c)
    ensures c.description.Some? && Utf16Length(c.description.value) > DescriptionMaxLength ==> !CourseValid(c)
  {
    TrimEmptyIffBlank(raw);
  }

  /** Lengths are counted in UTF-16 units: a title of 60 emoji is 120 units long and is
      refused, though it has only 60 characters. */
  lemma EmojiTitleRefused(c: Course)
    requires |c.title| == 60 && forall k :: 0 <= k < |c.title| ==> c.title[k] as int > 0xFFFF
    ensures !CourseValid(c)
  {
    Utf16LengthOfPlanes(c.title);
  }

  function CourseKey(c: Course): string {
    c.courseId
  }

  function ObjectIdOf(c: Course): string {
    c.oid
  }

  /** An _id as the database holds it and ObjectId's toString writes it: 24 lower-case
      hex digits. */
  predicate IsStoredObjectId(s: string) {
    |s| == 24 && forall k :: 0 <= k < |s| ==> IsLowerHexChar(s[k])
  }

  // The unique indexes of the embedded schemas. Mongoose builds each one in the course
  // collection under its path prefix: sections.sectionId, sections.chapters.chapterId,
  // sections.chapters.comments.commentId and the pair (enrollments.userId,
  // enrollments.courseId). Each is a multikey index, so a document holds the set of
  // values its arrays carry.

  function SectionIds(c: Course): (r: set<string>)
    ensures forall k :: 0 <= k < |c.sections| ==> c.sections[k].sectionId in r
    ensures forall id :: id in r ==> exists k :: 0 <= k < |c.sections| && c.sections[k].sectionId == id
  {
    set s | s in c.sections :: s.sectionId
  }

  function ChapterIds(c: Course): set<string> {
    set s, ch | s in c.sections && ch in s.chapters :: ch.chapterId
  }

  function CommentIds(c: Course): set<string> {
    set s, ch, m | s in c.sections && ch in s.chapters && m in ch.comments :: m.commentId
  }

  function EnrollmentKeys(c: Course): set<(string, string)> {
    set e | e in c.enrollments :: (e.userId, e.courseId)
  }

  /** Two documents share no value of the embedded unique indexes. Values may repeat
      within one document: a unique index constrains separate documents only. */
  predicate EmbeddedKeysDisjoint(a: Course, b: Course) {
    && SectionIds(a) !! SectionIds(b)
    && ChapterIds(a) !! ChapterIds(b)
    && CommentIds(a) !! CommentIds(b)
    && EnrollmentKeys(a) !! EnrollmentKeys(b)
  }

  /** The course collection: every document valid with a stored _id, courseId and _id
      unique, and no two documents sharing a value of an embedded unique index. */
  ghost predicate CourseTableValid(rows: seq<Course>) {
    && (forall k :: 0 <= k < |rows| ==> CourseValid(rows[k]) && IsStoredObjectId(rows[k].oid))
    && UniqueBy(rows, CourseKey)
    && UniqueBy(rows, ObjectIdOf)
    && (forall a, b :: a in rows && b in rows && a.oid != b.oid ==> EmbeddedKeysDisjoint(a, b))
  }

  /** Removing the courses that hold a courseId keeps the collection valid. */
  lemma WithoutKeepsValid(rows: seq<Course>, courseId: string)
    requires CourseTableValid(rows)
    ensures CourseTableValid(Without(rows, CourseKey, courseId))
  {
    WithoutUnique(rows, CourseKey, courseId, CourseKey);
    WithoutUnique(rows, CourseKey, courseId, ObjectIdOf);
    var w := Without(rows, CourseKey, courseId);
    forall k | 0 <= k < |w| ensures CourseValid(w[k]) && IsStoredObjectId(w[k].oid) {
      assert w[k] in w;
      var j :| 0 <= j < |rows| && rows[j] == w[k];
    }
  }

  /** Some document other than the one at position i has courseId k. */
  predicate KeyTakenElsewhere(rows: seq<Course>, i: nat, k: string) {
    exists j :: 0 <= j < |rows| && j != i && rows[j].courseId == k
  }

  /** Some document shares a value of an embedded unique index with c. */
  predicate EmbeddedKeyTaken(rows: seq<Course>, c: Course) {
    exists j :: 0 <= j < |rows| && !EmbeddedKeysDisjoint(rows[j], c)
  }

  /** Some document other than the one at position i shares a value of an embedded
      unique index with c. */
  predicate EmbeddedKeyTakenElsewhere(rows: seq<Course>, i: nat, c: Course) {
    exists j :: 0 <= j < |rows| && j != i && !EmbeddedKeysDisjoint(rows[j], c)
  }

  /** Replacing the document at position i by a valid one with the same _id, whose courseId
      and embedded index values no other document holds, keeps the collection valid. */
  lemma {:induction false} ReplaceKeepsValid(rows: seq<Course>, i: nat, c: Course)
    requires CourseTableValid(rows) && i < |rows|
    requires CourseValid(c) && c.oid == rows[i].oid && !KeyTakenElsewhere(rows, i, c.courseId)
    requires !EmbeddedKeyTakenElsewhere(rows, i, c)
    ensures CourseTableValid(rows[i := c])
  {
    var r := rows[i := c];
    forall a, b | a in r && b in r && a.oid != b.oid ensures EmbeddedKeysDisjoint(a, b) {
      var ka :| 0 <= ka < |r| && r[ka] == a;
      var kb :| 0 <= kb < |r| && r[kb] == b;
      if ka == i {
        assert r[kb] == rows[kb] && kb != i;
        assert EmbeddedKeysDisjoint(rows[kb], c);
      } else if kb == i {
        assert r[ka] == rows[ka];
        assert EmbeddedKeysDisjoint(rows[ka], c);
      } else {
        assert r[ka] == rows[ka] && r[kb] == rows[kb];
        assert a in rows && b in rows;
      }
    }
    forall a, b | 0 <= a < b < |r| ensures CourseKey(r[a]) != CourseKey(r[b]) && ObjectIdOf(r[a]) != ObjectIdOf(r[b]) {
      if a == i {
        assert r[b] == rows[b];
      } else if b == i {
        assert r[a] == rows[a];
      } else {
        assert r[a] == rows[a] && r[b] == rows[b];
      }
    }
  }
}
