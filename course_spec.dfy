/** The handlers of src/controllers/course.controller.ts as functions of the course
    collection and their inputs. uuidv4 is a supply `uuid` of identifiers drawn in call
    order (the n-th call yields uuid(n)); Cloudinary uploads and fs.existsSync are inputs.
    CourseStore performs the same steps in place; CourseProperties states what they promise. */
module CourseSpec {
  import opened Wrappers
  import opened Text
  import opened Tables
  import opened GetAuth
  import opened ChapterModel
  import opened SectionModel
  import opened CourseModel

  /** A reply: status, success flag and message, or an error thrown to the error
      middleware, which answers 500. */
  datatype Reply = Reply(status: int, success: bool, message: string) | Thrown(message: string)

  /** The course collection and the number of identifiers drawn from the uuid supply. */
  datatype CourseDb = CourseDb(courses: seq<Course>, drawn: nat)

  /** What uploadOnCloudinary yields: a response, null (it catches upload errors and
      returns null), or an error it throws (from the unlink in its own catch block). */
  datatype Upload = Uploaded(response: UploadResponse) | UploadNull | UploadThrew(message: string)

  datatype UploadResponse = UploadResponse(
    publicId: string,
    secureUrl: string,
    format: string,
    duration: Option<real>,
    resourceType: string)

  /** The error MongoDB reports for `.skip` or `.limit` given a negative or NaN value
      surfaces as this reply from the handler's catch block. */
  const RetrieveFailed: string := "Failed to retrieve courses"
  const CourseNotFound: string := "Course not found"
  const ImageUploadFailed: string := "Error uploading image to Cloudinary"
  const CourseValidationFailed: string := "Course validation failed"
  /** The TypeError of `section.chapters.map` when a section has no chapters. */
  const ChaptersUndefined: string := "Cannot read properties of undefined (reading 'map')"

  // ---------------------------------------------------------------- getCourses

  const ValidCategories: seq<string> := ["all", "Beginner", "Intermediate", "Advanced"]

  /** The query filter getCourses builds: none, an exact category, or a case-insensitive
      pattern. */
  datatype CategoryFilter = NoFilter | Exact(category: string) | Pattern(pattern: string)

  /** The filter choice of getCourses. A value in the list gives an exact match, 'all'
      included; any other truthy value gives a pattern (its `!== 'all'` test can no longer
      fail); an absent or empty value gives no filter. */
  function CategoryFilterOf(category: Option<string>): (f: CategoryFilter)
    ensures f.NoFilter? <==> !Truthy(category)
    ensures f.Exact? <==> Truthy(category) && category.value in ValidCategories
    ensures f.Pattern? <==> Truthy(category) && category.value !in ValidCategories
    ensures !f.NoFilter? ==> f == Exact(category.value) || f == Pattern(category.value)
  {
    if Truthy(category) && category.value in ValidCategories then Exact(category.value)
    else if Truthy(category) && category.value != "all" then Pattern(category.value)
    else NoFilter
  }

  predicate Matches(f: CategoryFilter, c: Course) {
    match f
    case NoFilter => true
    case Exact(x) => c.category == x
    case Pattern(p) => ContainsIgnoreCase(c.category, p)
  }

  /** Course.find(filter) and countDocuments(filter): the matching courses in collection
      order. */
  function Filtered(rows: seq<Course>, f: CategoryFilter): (r: seq<Course>)
    ensures |r| <= |rows|
    ensures forall c :: c in r <==> c in rows && Matches(f, c)
  {
    if rows == [] then []
    else (if Matches(f, rows[0]) then [rows[0]] else []) + Filtered(rows[1..], f)
  }

  /** `.skip(skip).limit(limit)` with limit >= 0, where 0 means no limit. */
  function Window(rows: seq<Course>, skip: nat, limit: nat): (r: seq<Course>)
    ensures |r| == if skip >= |rows| then 0 else if limit == 0 || |rows| - skip < limit then |rows| - skip else limit
    ensures forall k :: 0 <= k < |r| ==> r[k] == rows[skip + k]
  {
    if skip >= |rows| then []
    else if limit == 0 || |rows| - skip < limit then rows[skip..]
    else rows[skip..skip + limit]
  }

  /** The product a * b, as repeated addition of a. Paging computes its skip with it, so
      that a proof about a page brings in the multiplication (ProductIsMul) only where it
      needs its value. */
  function Product(a: int, b: int): int
    decreases if b < 0 then -b else b
  {
    if b == 0 then 0 else if b > 0 then Product(a, b - 1) + a else Product(a, b + 1) - a
  }

  /** Product is multiplication. */
  lemma {:induction false} ProductIsMul(a: int, b: int)
    ensures Product(a, b) == a * b
    decreases if b < 0 then -b else b
  {
    if b > 0 {
      ProductIsMul(a, b - 1);
    } else if b < 0 {
      ProductIsMul(a, b + 1);
    }
  }

  /** A product of non-negative factors is non-negative. */
  lemma {:induction false} ProductNonNegative(a: int, b: int)
    requires a >= 0 && b >= 0
    ensures Product(a, b) >= 0
    decreases b
  {
    if b > 0 {
      ProductNonNegative(a, b - 1);
    }
  }

  /** Math.ceil(a / b) for integers. */
  function CeilDiv(a: int, b: int): int
    requires b != 0
  {
    if b > 0 then -((-a) / b) else -(a / (-b))
  }

  /** CeilDiv(a, b) is the least multiple count covering a: the ceiling of a / b. */
  lemma CeilDivBounds(a: int, b: int)
    requires b != 0
    ensures b > 0 ==> (CeilDiv(a, b) - 1) * b < a <= CeilDiv(a, b) * b
    ensures b < 0 ==> CeilDiv(a, b) * b <= a < (CeilDiv(a, b) - 1) * b
  {
    if b > 0 {
      CeilDivPositive(a, b);
    } else {
      CeilDivPositive(-a, -b);
      var r := -(a / (-b));
      assert r * (-b) == -(r * b) && (r - 1) * (-b) == -((r - 1) * b);
    }
  }

  lemma CeilDivPositive(a: int, b: int)
    requires b > 0
    ensures var r := -((-a) / b); (r - 1) * b < a <= r * b
  {
    var q, m := (-a) / b, (-a) % b;
    assert -a == q * b + m && 0 <= m < b;
    var r := -q;
    assert r * b == -(q * b);
    assert (r - 1) * b == r * b - b;
  }

  datatype CoursesQuery = CoursesQuery(category: Option<string>, page: Option<string>, limit: Option<string>)

  /** The data of a successful getCourses reply. totalPages is None where JavaScript
      computes Infinity or NaN (pageSize 0), which JSON writes as null. */
  datatype CoursesPage = CoursesPage(
    courses: seq<Course>,
    totalCourses: nat,
    totalPages: Option<int>,
    currentPage: int,
    pageSize: int)

  const DefaultPage: int := 1
  const DefaultLimit: int := 10

  /** parseInt of a query parameter, or of its default when the parameter is absent. */
  function QueryNumber(v: Option<string>, default: int): (r: Option<int>)
    ensures v.None? ==> r == Some(default)
  {
    match v
    case None => Some(default)
    case Some(s) => ParseInt(s)
  }

  /** The reply of getCourses once page and limit are numbers: a negative skip is refused
      by the database and lands in the catch block; a negative limit is applied as its
      absolute value, as the MongoDB driver does. */
  function PageOf(matching: seq<Course>, page: int, size: int): (r: (Reply, Option<CoursesPage>))
    ensures r.1.Some? <==> r.0 == Reply(200, true, "Courses retrieved successfully")
    ensures r.1.None? ==> r.0 == Reply(500, false, RetrieveFailed)
    ensures r.1.Some? ==> forall c :: c in r.1.value.courses ==> c in matching
  {
    var skip := Product(page - 1, size);
    if skip < 0 then (Reply(500, false, RetrieveFailed), None)
    else
      var limit := if size < 0 then -size else size;
      var pages := if size == 0 then None else Some(CeilDiv(|matching|, size));
      var w := Window(matching, skip, limit);
      assert forall c :: c in w ==> c in matching by {
        forall c | c in w ensures c in matching {
          var k :| 0 <= k < |w| && w[k] == c;
        }
      }
      (Reply(200, true, "Courses retrieved successfully"),
       Some(CoursesPage(w, |matching|, pages, page, size)))
  }

  /** getCourses: the category filter, then page and limit read with parseInt; a page or
      limit that parses to NaN is refused by the database and lands in the catch block. */
  function GetCourses(rows: seq<Course>, q: CoursesQuery): (r: (Reply, Option<CoursesPage>))
    ensures r.1.Some? <==> r.0 == Reply(200, true, "Courses retrieved successfully")
    ensures r.1.None? ==> r.0 == Reply(500, false, RetrieveFailed)
  {
    match (QueryNumber(q.page, DefaultPage), QueryNumber(q.limit, DefaultLimit))
    case (Some(page), Some(size)) => PageOf(Filtered(rows, CategoryFilterOf(q.category)), page, size)
    case _ => (Reply(500, false, RetrieveFailed), None)
  }

  // ---------------------------------------------------------------- getCourse

  /** The pattern ^[0-9a-fA-F]{24}$. */
  predicate IsObjectIdHex(s: string) {
    |s| == 24 && forall k :: 0 <= k < |s| ==> IsHexChar(s[k])
  }

  /** getCourse: the id format check, then Course.findById, which casts the id to an
      ObjectId and so reads its hex digits without regard to case. */
  function GetCourse(rows: seq<Course>, id: string): (r: (Reply, Option<Course>))
    ensures !IsObjectIdHex(id) ==> r == (Reply(400, false, "Invalid course ID format"), None)
    ensures r.1.Some? <==> r.0 == Reply(200, true, "Course retrieved successfully")
    ensures r.1.Some? ==> r.1.value in rows && r.1.value.oid == Lower(id)
  {
    if !IsObjectIdHex(id) then (Reply(400, false, "Invalid course ID format"), None)
    else
      match FindBy(rows, ObjectIdOf, Lower(id))
      case None => (Reply(404, false, CourseNotFound), None)
      case Some(c) => (Reply(200, true, "Course retrieved successfully"), Some(c))
  }

  // ---------------------------------------------------------------- createCourse

  /** The body fields createCourse reads. */
  datatype CourseBody = CourseBody(
    teacherId: Option<string>,
    teacherName: Option<string>,
    title: Option<string>,
    description: Option<string>,
    category: Option<string>,
    price: Option<string>,
    level: Option<string>,
    status: Option<string>,
    image: Option<string>)

  const FieldsRequired: string := "Teacher Id, Teacher Name, Title, and Category are required"

  /** The image step of createCourse: "" without an image; the upload's URL, or undefined
      (None) when the upload returned null; a 500 when it threw. */
  function CreateImage(image: Option<string>, upload: Upload): (r: Result<Option<string>, string>)
    ensures !Truthy(image) ==> r == Ok(Some(""))
    ensures r.Err? <==> Truthy(image) && upload.UploadThrew?
  {
    if !Truthy(image) then Ok(Some(""))
    else
      match upload
      case Uploaded(resp) => Ok(Some(resp.secureUrl))
      case UploadNull => Ok(None)
      case UploadThrew(_) => Err(ImageUploadFailed)
  }

  /** `new Course({...})`: the defaults of the handler, then the schema's casts. A price
      that Number() cannot read is a cast error, which fails validation. */
  function NewCourse(oid: string, courseId: string, b: CourseBody, image: Option<string>): (r: Result<Course, string>)
    ensures r.Ok? ==> r.value.sections == [] && r.value.enrollments == []
    ensures r.Ok? ==> r.value.oid == oid && r.value.courseId == courseId && r.value.image == image
  {
    var price := if Truthy(b.price) then NumberOf(b.price.value) else Some(0);
    match price
    case None => Err(CourseValidationFailed)
    case Some(p) =>
      Ok(Course(
        oid,
        courseId,
        b.teacherId.GetOr(""),
        Trim(b.teacherName.GetOr("")),
        Trim(if Truthy(b.title) then b.title.value else "Untitled Course"),
        Some(Trim(if Truthy(b.description) then b.description.value else "")),
        Trim(if Truthy(b.category) then b.category.value else "Uncategorized"),
        image,
        Some(p),
        if Truthy(b.level) then b.level.value else "Beginner",
        if Truthy(b.status) then b.status.value else "Draft",
        [],
        []))
  }

  /** save() of a new document: validation, then the insert under the unique courseId
      and _id indexes and the unique indexes of the embedded schemas. */
  function SaveNew(rows: seq<Course>, c: Course): (r: Result<seq<Course>, string>)
    ensures r.Ok? <==> CourseValid(c) && !KeyTaken(rows, CourseKey, c.courseId) && !KeyTaken(rows, ObjectIdOf, c.oid) &&
                       !EmbeddedKeyTaken(rows, c)
    ensures r.Ok? ==> r.value == rows + [c]
  {
    if !CourseValid(c) then Err(CourseValidationFailed)
    else if KeyTaken(rows, CourseKey, c.courseId) || KeyTaken(rows, ObjectIdOf, c.oid) || EmbeddedKeyTaken(rows, c) then
      Err(DuplicateKey)
    else Ok(rows + [c])
  }

  /** createCourse. `oid` is the ObjectId the new document receives. */
  function CreateCourse(db: CourseDb, uuid: nat -> string, oid: string, b: CourseBody, upload: Upload): (r: (CourseDb, Reply, Option<Course>))
    ensures r.2.Some? <==> r.1 == Reply(201, true, "Course created successfully")
    ensures r.1.Reply? && r.1.status != 201 ==> r.0.courses == db.courses
  {
    if !Truthy(b.teacherId) || !Truthy(b.teacherName) || !Truthy(b.title) || !Truthy(b.category) then
      (db, Reply(400, false, FieldsRequired), None)
    else if !IsObjectIdHex(b.teacherId.value) then
      (db, Reply(400, false, "Invalid Teacher ID"), None)
    else
      match CreateImage(b.image, upload)
      case Err(e) => (db, Reply(500, false, e), None)
      case Ok(image) =>
        var db1 := db.(drawn := db.drawn + 1);
        match NewCourse(oid, uuid(db.drawn), b, image)
        case Err(_) => (db1, Reply(500, false, "Error creating course"), None)
        case Ok(c) =>
          match SaveNew(db.courses, c)
          case Err(_) => (db1, Reply(500, false, "Error creating course"), None)
          case Ok(rows) => (db1.(courses := rows), Reply(201, true, "Course created successfully"), Some(c))
  }

  // ---------------------------------------------------------------- updateCourse

  /** The body fields updateCourse hands to Object.assign; a key the body lacks is None. */
  datatype CoursePatch = CoursePatch(
    courseId: Option<string>,
    teacherId: Option<string>,
    teacherName: Option<string>,
    title: Option<string>,
    description: Option<string>,
    category: Option<string>,
    image: Option<string>,
    price: Option<string>,
    level: Option<string>,
    status: Option<string>,
    sections: Option<seq<SectionInput>>)

  /** updateData after the price, image and sections steps: a key it lacks is None; for
      image and price, Some(None) is a key whose value clears the stored path (undefined
      for image, '' for price, which Mongoose casts to null). */
  datatype UpdateData = UpdateData(
    courseId: Option<string>,
    teacherId: Option<string>,
    teacherName: Option<string>,
    title: Option<string>,
    description: Option<string>,
    category: Option<string>,
    image: Option<Option<string>>,
    price: Option<Option<int>>,
    level: Option<string>,
    status: Option<string>,
    sections: Option<seq<SectionInput>>)

  const InvalidPrice: string := "Invalid price format. Price must be a valid number."

  /** The price step: a truthy price is parsed with parseInt and multiplied by 100, NaN is
      refused; a falsy price ('') is passed on unchanged and clears the stored price. */
  function NormalizePrice(price: Option<string>): (r: Result<Option<Option<int>>, string>)
    ensures price.None? ==> r == Ok(None)
    ensures price == Some("") ==> r == Ok(Some(None))
    ensures Truthy(price) ==> (r.Err? <==> ParseInt(price.value).None?)
    ensures Truthy(price) && r.Ok? ==> r.value == Some(Some(ParseInt(price.value).value * 100))
    ensures r.Err? ==> r.error == InvalidPrice
  {
    match price
    case None => Ok(None)
    case Some(s) =>
      if s == "" then Ok(Some(None))
      else
        match ParseInt(s)
        case None => Err(InvalidPrice)
        case Some(v) => Ok(Some(Some(v * 100)))
  }

  /** The image step: a truthy image is uploaded and replaced by the secure URL, or by
      undefined when the upload returned null; a falsy image ('') is passed on. */
  function UpdateImage(image: Option<string>, upload: Upload): (r: Result<Option<Option<string>>, string>)
    ensures image.None? ==> r == Ok(None)
    ensures image == Some("") ==> r == Ok(Some(Some("")))
    ensures r.Err? <==> Truthy(image) && upload.UploadThrew?
    ensures Truthy(image) && upload.UploadNull? ==> r == Ok(Some(None))
    ensures Truthy(image) && upload.Uploaded? ==> r == Ok(Some(Some(upload.response.secureUrl)))
  {
    match image
    case None => Ok(None)
    case Some(s) =>
      if s == "" then Ok(Some(Some("")))
      else
        match upload
        case Uploaded(resp) => Ok(Some(Some(resp.secureUrl)))
        case UploadNull => Ok(Some(None))
        case UploadThrew(_) => Err(ImageUploadFailed)
  }

  /** A chapter with its id filled in from draw n when it has none. */
  function FilledChapter(c: ChapterInput, uuid: nat -> string, n: nat): ChapterInput {
    if Truthy(c.chapterId) then c else c.(chapterId := Some(uuid(n)))
  }

  /** The number of chapters without an id. */
  function MissingChapterIds(chs: seq<ChapterInput>): nat {
    if chs == [] then 0
    else MissingChapterIds(chs[..|chs| - 1]) + (if Truthy(chs[|chs| - 1].chapterId) then 0 else 1)
  }

  /** The inner `map` of updateCourse: each chapter without an id receives the next
      identifier of the supply, in list order; the counter after it is returned. */
  function FillChapters(chs: seq<ChapterInput>, uuid: nat -> string, next: nat): (r: (seq<ChapterInput>, nat))
    ensures |r.0| == |chs| && r.1 == next + MissingChapterIds(chs)
    decreases |chs|
  {
    if chs == [] then ([], next)
    else
      var (done, n) := FillChapters(chs[..|chs| - 1], uuid, next);
      var last := chs[|chs| - 1];
      (done + [FilledChapter(last, uuid, n)], if Truthy(last.chapterId) then n else n + 1)
  }

  /** One section of the outer `map`: its id first, then its chapters; a section without
      a chapter list makes `section.chapters.map` throw. */
  function FillSection(s: SectionInput, uuid: nat -> string, next: nat): (r: (Result<SectionInput, string>, nat))
    ensures r.0.Ok? <==> s.chapters.Some?
    ensures r.0.Err? ==> r.0.error == ChaptersUndefined
    ensures next <= r.1
  {
    var sid := if Truthy(s.sectionId) then s.sectionId else Some(uuid(next));
    var n := if Truthy(s.sectionId) then next else next + 1;
    match s.chapters
    case None => (Err(ChaptersUndefined), n)
    case Some(chs) =>
      var (filled, n2) := FillChapters(chs, uuid, n);
      (Ok(s.(sectionId := sid, chapters := Some(filled))), n2)
  }

  /** The outer `map` of updateCourse over the submitted sections, in order; it stops at
      the first section that throws. */
  function FillSections(secs: seq<SectionInput>, uuid: nat -> string, next: nat): (r: (Result<seq<SectionInput>, string>, nat))
    ensures r.0.Ok? ==> |r.0.value| == |secs|
    ensures next <= r.1
    decreases |secs|
  {
    if secs == [] then (Ok([]), next)
    else
      var (init, n) := FillSections(secs[..|secs| - 1], uuid, next);
      match init
      case Err(e) => (Err(e), n)
      case Ok(done) =>
        var (last, n2) := FillSection(secs[|secs| - 1], uuid, n);
        match last
        case Err(e) => (Err(e), n2)
        case Ok(s) => (Ok(done + [s]), n2)
  }

  /** The sections step: nothing without a sections key, else the filled list. */
  function UpdateSections(sections: Option<seq<SectionInput>>, uuid: nat -> string, next: nat): (r: (Result<Option<seq<SectionInput>>, string>, nat))
    ensures sections.None? ==> r == (Ok(None), next)
    ensures next <= r.1
  {
    match sections
    case None => (Ok(None), next)
    case Some(secs) =>
      var (filled, n) := FillSections(secs, uuid, next);
      match filled
      case Err(e) => (Err(e), n)
      case Ok(f) => (Ok(Some(f)), n)
  }

  function CastSections(secs: seq<SectionInput>): (r: seq<Section>)
    ensures |r| == |secs| && forall k :: 0 <= k < |r| ==> r[k] == CastSection(secs[k])
  {
    seq(|secs|, k requires 0 <= k < |secs| => CastSection(secs[k]))
  }

  /** Object.assign(course, updateData): every key present overwrites its path through
      the schema's setters (trimming where the schema trims); every other path keeps its
      value. */
  function Assign(c: Course, u: UpdateData): Course {
    c.(
      courseId := u.courseId.GetOr(c.courseId),
      teacherId := u.teacherId.GetOr(c.teacherId),
      teacherName := if u.teacherName.Some? then Trim(u.teacherName.value) else c.teacherName,
      title := if u.title.Some? then Trim(u.title.value) else c.title,
      description := if u.description.Some? then TrimmedOpt(u.description) else c.description,
      category := if u.category.Some? then Trim(u.category.value) else c.category,
      image := u.image.GetOr(c.image),
      price := u.price.GetOr(c.price),
      level := u.level.GetOr(c.level),
      status := u.status.GetOr(c.status),
      sections := if u.sections.Some? then CastSections(u.sections.value) else c.sections)
  }

  /** save() of an existing document: validation, then the unique courseId index and the
      unique indexes of the embedded schemas against every other document. */
  function SaveExisting(rows: seq<Course>, i: nat, c: Course): (r: Result<seq<Course>, string>)
    requires i < |rows|
    ensures r.Ok? <==> CourseValid(c) && !KeyTakenElsewhere(rows, i, c.courseId) && !EmbeddedKeyTakenElsewhere(rows, i, c)
    ensures r.Ok? ==> r.value == rows[i := c]
    ensures r.Err? && CourseValid(c) ==> r.error == DuplicateKey
  {
    if !CourseValid(c) then Err(CourseValidationFailed)
    else if KeyTakenElsewhere(rows, i, c.courseId) || EmbeddedKeyTakenElsewhere(rows, i, c) then Err(DuplicateKey)
    else Ok(rows[i := c])
  }

  /** updateData assembled from the patch and the results of the three steps. */
  function DataOf(p: CoursePatch, price: Option<Option<int>>, image: Option<Option<string>>, sections: Option<seq<SectionInput>>): UpdateData {
    UpdateData(p.courseId, p.teacherId, p.teacherName, p.title, p.description, p.category,
      image, price, p.level, p.status, sections)
  }

  /** The part of updateCourse after the ownership check, for the course at position i. */
  function UpdateOwned(db: CourseDb, uuid: nat -> string, i: nat, p: CoursePatch, upload: Upload): (r: (CourseDb, Reply, Option<Course>))
    requires i < |db.courses|
    ensures r.2.Some? <==> r.1 == Reply(200, true, "Course updated successfully")
    ensures r.2.None? ==> r.0.courses == db.courses
    ensures r.2.Some? ==> r.0.courses == db.courses[i := r.2.value]
    ensures r.2.Some? ==> CourseValid(r.2.value) && !KeyTakenElsewhere(db.courses, i, r.2.value.courseId)
    ensures r.2.Some? ==> !EmbeddedKeyTakenElsewhere(db.courses, i, r.2.value)
    ensures r.2.Some? ==> r.2.value.oid == db.courses[i].oid && r.2.value.enrollments == db.courses[i].enrollments
    ensures db.drawn <= r.0.drawn
  {
    match NormalizePrice(p.price)
    case Err(e) => (db, Reply(400, false, e), None)
    case Ok(price) =>
      match UpdateImage(p.image, upload)
      case Err(e) => (db, Reply(500, false, e), None)
      case Ok(image) =>
        var (sections, n) := UpdateSections(p.sections, uuid, db.drawn);
        match sections
        case Err(e) => (db.(drawn := n), Thrown(e), None)
        case Ok(secs) =>
          var updated := Assign(db.courses[i], DataOf(p, price, image, secs));
          match SaveExisting(db.courses, i, updated)
          case Err(e) => (db.(drawn := n), Thrown(e), None)
          case Ok(rows) => (CourseDb(rows, n), Reply(200, true, "Course updated successfully"), Some(updated))
  }

  /** updateCourse: getAuth, findOne({ courseId }), the owner check, then the update. */
  function UpdateCourse(db: CourseDb, uuid: nat -> string, user: Option<RequestUser>, courseId: string, p: CoursePatch, upload: Upload): (r: (CourseDb, Reply, Option<Course>))
    ensures r.2.Some? <==> r.1 == Reply(200, true, "Course updated successfully")
  {
    match GetAuth.GetAuth(user)
    case Err(e) => (db, Thrown(e), None)
    case Ok(auth) =>
      match IndexBy(db.courses, CourseKey, courseId)
      case None => (db, Reply(404, false, CourseNotFound), None)
      case Some(i) =>
        if db.courses[i].teacherId != auth.userId then
          (db, Reply(403, false, "Not authorized to update this course"), None)
        else UpdateOwned(db, uuid, i, p, upload)
  }

  // ---------------------------------------------------------------- deleteCourse

  /** deleteCourse: getAuth, findOne({ courseId }), the owner check, then
      findOneAndDelete({ courseId }); the reply carries the deleted course. */
  function DeleteCourse(db: CourseDb, user: Option<RequestUser>, courseId: string): (r: (CourseDb, Reply, Option<Course>))
    ensures r.2.Some? <==> r.1 == Reply(200, true, "Course deleted successfully")
    ensures r.0.drawn == db.drawn
  {
    match GetAuth.GetAuth(user)
    case Err(e) => (db, Thrown(e), None)
    case Ok(auth) =>
      match FindBy(db.courses, CourseKey, courseId)
      case None => (db, Reply(404, false, CourseNotFound), None)
      case Some(c) =>
        if c.teacherId != auth.userId then
          (db, Reply(403, false, "Not authorized to delete this course"), None)
        else
          (db.(courses := DeleteBy(db.courses, CourseKey, courseId)), Reply(200, true, "Course deleted successfully"), Some(c))
  }

  // ---------------------------------------------------------------- uploadVideo

  /** The multer file of the request. */
  datatype VideoFile = VideoFile(mimetype: string, size: nat, path: string)

  const AllowedVideoTypes: seq<string> := ["video/mp4", "video/avi", "video/mov", "video/mkv"]
  const MaxVideoSize: nat := 500 * 1024 * 1024

  /** uploadVideo: no file, a type outside the list, a size above 500 MiB and a path that
      does not exist are refused in that order before any upload; then the upload's
      outcome decides. It never touches the course collection. */
  function UploadVideo(file: Option<VideoFile>, pathExists: bool, upload: Upload): (r: (Reply, Option<UploadResponse>))
    ensures r.1.Some? <==> r.0 == Reply(200, true, "Video uploaded successfully")
    ensures r.1.Some? ==> upload.Uploaded? && r.1.value == upload.response
  {
    match file
    case None => (Reply(400, false, "No video file provided"), None)
    case Some(f) =>
      if f.mimetype !in AllowedVideoTypes then
        (Reply(400, false, "Invalid video format. Allowed formats are MP4, AVI, MOV, MKV."), None)
      else if f.size > MaxVideoSize then
        (Reply(400, false, "Video file is too large. Maximum size is 500MB."), None)
      else if !pathExists then
        (Reply(400, false, "File path does not exist"), None)
      else
        match upload
        case UploadNull => (Reply(500, false, "Error uploading video to Cloudinary"), None)
        case UploadThrew(_) => (Reply(500, false, "Error uploading video"), None)
        case Uploaded(resp) => (Reply(200, true, "Video uploaded successfully"), Some(resp))
  }
}
