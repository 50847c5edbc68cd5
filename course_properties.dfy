/** What the handlers of src/controllers/course.controller.ts promise, stated over the
    step functions of CourseSpec. */
module CourseProperties {
  import opened Wrappers
  import opened Text
  import opened Tables
  import opened GetAuth
  import opened UserModel
  import opened ChapterModel
  import opened SectionModel
  import opened CourseModel
  import opened CourseSpec

  // ---------------------------------------------------------------- getCourses

  /** Every course a page lists comes from the collection and passes the category filter. */
  lemma {:induction false} PageCoursesMatch(rows: seq<Course>, q: CoursesQuery)
    requires GetCourses(rows, q).1.Some?
    ensures forall c :: c in GetCourses(rows, q).1.value.courses ==>
      c in rows && Matches(CategoryFilterOf(q.category), c)
  {
    var page := QueryNumber(q.page, DefaultPage).value;
    var size := QueryNumber(q.limit, DefaultLimit).value;
    assert GetCourses(rows, q) == PageOf(Filtered(rows, CategoryFilterOf(q.category)), page, size);
  }

  /** 'all' is in the list of valid categories, so it filters on the category 'all'
      instead of lifting the filter: only courses whose category is literally 'all' are
      listed. */
  lemma {:induction false} AllIsALiteralCategory(rows: seq<Course>, page: Option<string>, limit: Option<string>)
    ensures CategoryFilterOf(Some("all")) == Exact("all")
    ensures var r := GetCourses(rows, CoursesQuery(Some("all"), page, limit));
      r.1.Some? ==> forall c :: c in r.1.value.courses ==> c.category == "all"
  {
    assert "all" == ValidCategories[0];
    var q := CoursesQuery(Some("all"), page, limit);
    if GetCourses(rows, q).1.Some? {
      PageCoursesMatch(rows, q);
    }
  }

  /** A category outside the list is a case-insensitive pattern: 'beginner' finds the
      courses of category 'Beginner', and so does any part of it such as 'BEG'. */
  lemma PatternIgnoresCase(c: Course)
    requires c.category == "Beginner"
    ensures CategoryFilterOf(Some("beginner")) == Pattern("beginner")
    ensures Matches(CategoryFilterOf(Some("beginner")), c)
    ensures Matches(CategoryFilterOf(Some("BEG")), c)
  {
    assert "beginner" !in ValidCategories;
    assert "BEG" !in ValidCategories;
    assert Lower("Beginner") == "beginner";
    assert Lower("BEG") == "beg";
    assert MatchesAt(c.category, "beginner", 0);
    assert MatchesAt(c.category, "BEG", 0);
  }

  /** A query whose page and limit parse, in whatever spelling parseInt accepts, to p and n. */
  predicate AsksPage(q: CoursesQuery, p: int, n: int)
  {
    QueryNumber(q.page, DefaultPage) == Some(p) && QueryNumber(q.limit, DefaultLimit) == Some(n)
  }

  /** The reply of getCourses once page and limit have parsed to numbers p, n >= 1: the
      matching courses from position Product(p - 1, n) = (p-1)*n on, n of them at most, in collection order
      (Window); the count of every match; ceil(count / n) pages; p and n echoed. */
  lemma {:induction false} ParsedPaging(rows: seq<Course>, q: CoursesQuery, p: int, n: int)
    requires AsksPage(q, p, n) && p >= 1 && n >= 1
    ensures GetCourses(rows, q).0 == Reply(200, true, "Courses retrieved successfully")
    ensures GetCourses(rows, q).1.Some?
    ensures GetCourses(rows, q).1.value.courses == Window(Filtered(rows, CategoryFilterOf(q.category)), Product(p - 1, n), n)
    ensures GetCourses(rows, q).1.value.totalCourses == |Filtered(rows, CategoryFilterOf(q.category))|
    ensures GetCourses(rows, q).1.value.totalPages == Some(CeilDiv(|Filtered(rows, CategoryFilterOf(q.category))|, n))
    ensures GetCourses(rows, q).1.value.currentPage == p && GetCourses(rows, q).1.value.pageSize == n
  {
    AskedPage(rows, q, p, n);
    ParsedPage(Filtered(rows, CategoryFilterOf(q.category)), p, n);
  }

  /** A query asking for page p of n is answered by that page of its category's matches. */
  lemma AskedPage(rows: seq<Course>, q: CoursesQuery, p: int, n: int)
    requires AsksPage(q, p, n)
    ensures GetCourses(rows, q) == PageOf(Filtered(rows, CategoryFilterOf(q.category)), p, n)
  {
  }

  /** Page p of n matches from position Product(p - 1, n) on. */
  lemma ParsedPage(matching: seq<Course>, p: int, n: int)
    requires p >= 1 && n >= 1
    ensures Product(p - 1, n) >= 0
    ensures PageOf(matching, p, n) == (Reply(200, true, "Courses retrieved successfully"),
      Some(CoursesPage(Window(matching, Product(p - 1, n), n), |matching|, Some(CeilDiv(|matching|, n)), p, n)))
  {
    ProductNonNegative(p - 1, n);
  }

  lemma MulNonNegative(a: int, b: int)
    requires a >= 0 && b >= 0
    ensures a * b >= 0
  {
  }

  /** The decimal form of a number read as a query parameter gives that number back. */
  lemma {:induction false} QueryNumberDecimal(n: int, default: int)
    ensures QueryNumber(Some(DecimalString(n)), default) == Some(n)
  {
    ParseIntDecimal(n, []);
    assert DecimalString(n) + [] == DecimalString(n);
  }

  /** The query of page p with n courses per page, as a client writes it. */
  function PageQuery(category: Option<string>, p: int, n: int): (q: CoursesQuery)
    ensures q.category == category && AsksPage(q, p, n)
  {
    QueryNumberDecimal(p, DefaultPage);
    QueryNumberDecimal(n, DefaultLimit);
    CoursesQuery(category, Some(DecimalString(p)), Some(DecimalString(n)))
  }

  /** Without page and limit the reply is the first page of ten. */
  lemma {:induction false} DefaultPaging(rows: seq<Course>, category: Option<string>)
    ensures var r := GetCourses(rows, CoursesQuery(category, None, None));
      var matching := Filtered(rows, CategoryFilterOf(category));
      && r.0 == Reply(200, true, "Courses retrieved successfully")
      && r.1.Some?
      && r.1.value.courses == (if |matching| <= 10 then matching else matching[..10])
      && r.1.value.totalCourses == |matching|
      && r.1.value.totalPages == Some(CeilDiv(|matching|, 10))
      && r.1.value.currentPage == 1 && r.1.value.pageSize == 10
  {
    var matching := Filtered(rows, CategoryFilterOf(category));
    ParsedPaging(rows, CoursesQuery(category, None, None), 1, 10);
    var w := Window(matching, 0, 10);
    if |matching| <= 10 {
      assert w == matching;
    } else {
      assert w == matching[..10];
    }
  }

  /** Position i falls on page i / n + 1, whose skip is i less its offset i % n. */
  lemma PageOfPosition(i: int, n: int)
    requires i >= 0 && n >= 1
    ensures i / n + 1 >= 1 && 0 <= i % n < n
    ensures Product(i / n, n) == i - i % n
  {
    ProductIsMul(i / n, n);
  }

  /** Paging partitions the matches: with n per page, the i-th match is listed at position
      i % n of page i / n + 1. */
  lemma {:induction false} EveryCourseOnItsPage(rows: seq<Course>, q: CoursesQuery, n: int, i: int)
    requires n >= 1 && AsksPage(q, i / n + 1, n)
    requires 0 <= i < |Filtered(rows, CategoryFilterOf(q.category))|
    ensures var r := GetCourses(rows, q);
      r.1.Some? && i % n < |r.1.value.courses| &&
      r.1.value.courses[i % n] == Filtered(rows, CategoryFilterOf(q.category))[i]
  {
    PageOfPosition(i, n);
    AskedPage(rows, q, i / n + 1, n);
    OffsetOnPage(Filtered(rows, CategoryFilterOf(q.category)), n, i / n, i % n);
  }

  /** The course at position offset of the page after `before` full pages. */
  lemma OffsetOnPage(matching: seq<Course>, n: int, before: int, offset: int)
    requires n >= 1 && before >= 0 && 0 <= offset < n && Product(before, n) + offset < |matching|
    ensures var r := PageOf(matching, before + 1, n);
      r.1.Some? && offset < |r.1.value.courses| && r.1.value.courses[offset] == matching[Product(before, n) + offset]
  {
    assert before + 1 - 1 == before;
    ParsedPage(matching, before + 1, n);
    WindowAt(matching, Product(before, n), n, offset);
  }

  /** The offset-th course of a window that reaches that far. */
  lemma WindowAt(rows: seq<Course>, skip: nat, limit: nat, offset: nat)
    requires offset < limit && skip + offset < |rows|
    ensures offset < |Window(rows, skip, limit)| && Window(rows, skip, limit)[offset] == rows[skip + offset]
  {
  }

  /** totalPages names the last non-empty page: with at least one match, the reply for
      page t = totalPages names t >= 1 pages and lists at least one course (and by
      PageAfterLastEmpty the page after it lists none). */
  lemma {:induction false} TotalPagesIsLastPage(rows: seq<Course>, q: CoursesQuery, n: int)
    requires n >= 1 && |Filtered(rows, CategoryFilterOf(q.category))| > 0
    requires AsksPage(q, CeilDiv(|Filtered(rows, CategoryFilterOf(q.category))|, n), n)
    ensures var t := CeilDiv(|Filtered(rows, CategoryFilterOf(q.category))|, n);
      && t >= 1
      && GetCourses(rows, q).1.Some?
      && GetCourses(rows, q).1.value.totalPages == Some(t)
      && GetCourses(rows, q).1.value.courses != []
  {
    var matching := Filtered(rows, CategoryFilterOf(q.category));
    AskedPage(rows, q, CeilDiv(|matching|, n), n);
    LastPageOf(matching, n);
  }

  /** The page after the last one lists no course. */
  lemma {:induction false} PageAfterLastEmpty(rows: seq<Course>, q: CoursesQuery, n: int)
    requires n >= 1
    requires AsksPage(q, CeilDiv(|Filtered(rows, CategoryFilterOf(q.category))|, n) + 1, n)
    ensures GetCourses(rows, q).1.Some? && GetCourses(rows, q).1.value.courses == []
  {
    var matching := Filtered(rows, CategoryFilterOf(q.category));
    AskedPage(rows, q, CeilDiv(|matching|, n) + 1, n);
    PastLastPageOf(matching, n);
  }

  lemma LastPageOf(matching: seq<Course>, n: int)
    requires n >= 1 && |matching| > 0
    ensures var t := CeilDiv(|matching|, n);
      && t >= 1
      && PageOf(matching, t, n).1.Some?
      && PageOf(matching, t, n).1.value.totalPages == Some(t)
      && PageOf(matching, t, n).1.value.courses != []
  {
    LastPageBounds(|matching|, n);
    var t := CeilDiv(|matching|, n);
    ParsedPage(matching, t, n);
    WindowAt(matching, Product(t - 1, n), n, 0);
  }

  lemma PastLastPageOf(matching: seq<Course>, n: int)
    requires n >= 1
    ensures var t := CeilDiv(|matching|, n);
      PageOf(matching, t + 1, n).1.Some? && PageOf(matching, t + 1, n).1.value.courses == []
  {
    var t := CeilDiv(|matching|, n);
    CeilDivBounds(|matching|, n);
    if t >= 0 {
      ProductIsMul(t, n);
      ParsedPage(matching, t + 1, n);
      assert t + 1 - 1 == t;
    } else {
      MulNonNegative(-t, n);
      assert false;
    }
  }

  /** The skip of the last page falls inside the matches, that of the page after it does not. */
  lemma LastPageBounds(total: int, n: int)
    requires total > 0 && n >= 1
    ensures CeilDiv(total, n) >= 1
    ensures 0 <= Product(CeilDiv(total, n) - 1, n) < total
  {
    CeilDivBounds(total, n);
    var t := CeilDiv(total, n);
    if t < 1 {
      MulNonNegative(1 - t, n);
    }
    MulNonNegative(t - 1, n);
    ProductIsMul(t - 1, n);
  }

  /** A negative number of pages of at least one course each is a negative skip. */
  lemma {:induction false} ProductNegative(a: int, b: int)
    requires a < 0 && b >= 1
    ensures Product(a, b) < 0
    decreases b
  {
    if b > 1 {
      ProductNegative(a, b - 1);
    }
  }

  /** A page number below 1 gives a negative skip, which the database refuses; so does a
      page or limit that does not start with a digit (NaN). */
  lemma {:induction false} BadPagingRefused(rows: seq<Course>, q: CoursesQuery, p: int, n: int, s: string)
    requires p <= 0 && n >= 1 && AsksPage(q, p, n)
    requires |s| > 0 && 'a' <= s[0] <= 'z'
    ensures GetCourses(rows, q) == (Reply(500, false, RetrieveFailed), None)
    ensures GetCourses(rows, q.(page := Some(s))) == (Reply(500, false, RetrieveFailed), None)
    ensures GetCourses(rows, q.(limit := Some(s))) == (Reply(500, false, RetrieveFailed), None)
  {
    AskedPage(rows, q, p, n);
    ProductNegative(p - 1, n);
    LetterIsNaN(s);
  }

  /** parseInt reads nothing from a word that begins with a letter. */
  lemma LetterIsNaN(s: string)
    requires |s| > 0 && 'a' <= s[0] <= 'z'
    ensures ParseInt(s) == None
  {
    assert !IsWhitespace(s[0]);
    assert LeadingWs(s) == 0;
    assert s[0..] == s;
    assert SignStripped(s) == s;
  }

  // ---------------------------------------------------------------- getCourse

  /** In a valid collection getCourse answers 200 with the one course whose _id is the
      given id, 404 when no course has it, and 400 for anything but 24 hex digits. */
  lemma {:induction false} GetCourseLookup(rows: seq<Course>, id: string)
    requires CourseTableValid(rows)
    ensures GetCourse(rows, id).0 == Reply(404, false, CourseNotFound) <==>
      IsObjectIdHex(id) && !KeyTaken(rows, ObjectIdOf, Lower(id))
    ensures forall i :: 0 <= i < |rows| && rows[i].oid == Lower(id) && IsObjectIdHex(id) ==>
      GetCourse(rows, id) == (Reply(200, true, "Course retrieved successfully"), Some(rows[i]))
  {
    forall i | 0 <= i < |rows| && rows[i].oid == Lower(id) && IsObjectIdHex(id)
      ensures GetCourse(rows, id) == (Reply(200, true, "Course retrieved successfully"), Some(rows[i]))
    {
      assert KeyTaken(rows, ObjectIdOf, Lower(id));
      var c := FindBy(rows, ObjectIdOf, Lower(id)).value;
      var j :| 0 <= j < |rows| && rows[j] == c;
      assert ObjectIdOf(rows[j]) == ObjectIdOf(rows[i]);
      assert j == i;
    }
  }

  /** The case of the hex digits does not matter: any spelling of a stored _id finds the
      course, as findById's cast to ObjectId does. */
  lemma {:induction false} GetCourseIgnoresCase(rows: seq<Course>, id: string)
    requires CourseTableValid(rows)
    ensures GetCourse(rows, id) == GetCourse(rows, Lower(id))
    ensures forall i :: 0 <= i < |rows| && Lower(id) == rows[i].oid ==>
      GetCourse(rows, id) == (Reply(200, true, "Course retrieved successfully"), Some(rows[i]))
  {
    LowerKeepsObjectIdHex(id);
    LowerIdempotent(id);
    GetCourseLookup(rows, id);
    forall i | 0 <= i < |rows| && Lower(id) == rows[i].oid
      ensures IsObjectIdHex(id)
    {
      assert IsStoredObjectId(rows[i].oid);
      forall k | 0 <= k < |id| ensures IsHexChar(id[k]) {
        assert IsLowerHexChar(Lower(id)[k]);
      }
    }
  }

  lemma LowerKeepsObjectIdHex(id: string)
    ensures IsObjectIdHex(Lower(id)) <==> IsObjectIdHex(id)
  {
    if IsObjectIdHex(Lower(id)) {
      forall k | 0 <= k < |id| ensures IsHexChar(id[k]) {
        assert IsHexChar(Lower(id)[k]);
      }
    }
  }

  lemma LowerIdempotent(s: string)
    ensures Lower(Lower(s)) == Lower(s)
  {
  }

  // ---------------------------------------------------------------- createCourse

  /** createCourse checks the four required fields, then the teacher id, then the image
      upload; each refusal leaves the collection and the identifier supply untouched. */
  lemma {:induction false} CreateCourseRefusals(db: CourseDb, uuid: nat -> string, oid: string, b: CourseBody, upload: Upload)
    ensures var r := CreateCourse(db, uuid, oid, b, upload);
      && (!Truthy(b.teacherId) || !Truthy(b.teacherName) || !Truthy(b.title) || !Truthy(b.category) ==>
            r == (db, Reply(400, false, FieldsRequired), None))
      && (Truthy(b.teacherId) && Truthy(b.teacherName) && Truthy(b.title) && Truthy(b.category) &&
          !IsObjectIdHex(b.teacherId.value) ==>
            r == (db, Reply(400, false, "Invalid Teacher ID"), None))
      && (Truthy(b.teacherId) && Truthy(b.teacherName) && Truthy(b.title) && Truthy(b.category) &&
          IsObjectIdHex(b.teacherId.value) && Truthy(b.image) && upload.UploadThrew? ==>
            r == (db, Reply(500, false, ImageUploadFailed), None))
  {
  }

  /** The defaults createCourse applies: no description gives '', no price gives 0, no
      level 'Beginner', no status 'Draft', and sections and enrollments start empty. A
      price is read with Number(), so one it cannot read fails the cast. */
  lemma {:induction false} CreateCourseDefaults(oid: string, courseId: string, b: CourseBody, image: Option<string>)
    ensures !Truthy(b.price) ==> NewCourse(oid, courseId, b, image).Ok?
    ensures Truthy(b.price) ==> (NewCourse(oid, courseId, b, image).Ok? <==> NumberOf(b.price.value).Some?)
    ensures var r := NewCourse(oid, courseId, b, image);
      r.Ok? ==>
        && r.value.price == (if Truthy(b.price) then NumberOf(b.price.value) else Some(0))
        && (!Truthy(b.description) ==> r.value.description == Some(""))
        && (!Truthy(b.level) ==> r.value.level == "Beginner")
        && (!Truthy(b.status) ==> r.value.status == "Draft")
        && (Truthy(b.title) ==> IsTrimOf(r.value.title, b.title.value))
        && r.value.sections == [] && r.value.enrollments == []
  {
    assert Trim("") == "" by {
      TrimEmptyIffBlank("");
    }
  }

  /** Every course createCourse builds has an empty section list, which the schema's
      validator refuses: once the checks and the upload pass, the save fails and the reply
      is 500. No request ever stores a course; only the identifier drawn for it is spent. */
  lemma {:induction false} CreateCourseNeverStores(db: CourseDb, uuid: nat -> string, oid: string, b: CourseBody, upload: Upload)
    ensures var r := CreateCourse(db, uuid, oid, b, upload);
      && r.0.courses == db.courses && r.2.None?
      && r.1 != Reply(201, true, "Course created successfully")
    ensures (Truthy(b.teacherId) && Truthy(b.teacherName) && Truthy(b.title) && Truthy(b.category) &&
             IsObjectIdHex(b.teacherId.value) && !(Truthy(b.image) && upload.UploadThrew?)) ==>
      CreateCourse(db, uuid, oid, b, upload) == (db.(drawn := db.drawn + 1), Reply(500, false, "Error creating course"), None)
  {
    if Truthy(b.teacherId) && Truthy(b.teacherName) && Truthy(b.title) && Truthy(b.category) &&
       IsObjectIdHex(b.teacherId.value) && CreateImage(b.image, upload).Ok? {
      NewCourseUnsaveable(db.courses, oid, uuid(db.drawn), b, CreateImage(b.image, upload).value);
    }
  }

  /** No course createCourse builds passes validation. */
  lemma {:induction false} NewCourseUnsaveable(rows: seq<Course>, oid: string, courseId: string, b: CourseBody, image: Option<string>)
    ensures NewCourse(oid, courseId, b, image).Ok? ==> SaveNew(rows, NewCourse(oid, courseId, b, image).value).Err?
  {
    if NewCourse(oid, courseId, b, image).Ok? {
      CourseRefusals(NewCourse(oid, courseId, b, image).value, "");
    }
  }

  // ---------------------------------------------------------------- updateCourse and deleteCourse

  /** A request authenticated by the JWT strategy carries a User document, which has no
      userId: getAuth throws, so update and delete end in the error middleware for every
      such request and change nothing. */
  lemma {:induction false} StrategyUsersCannotUpdateOrDelete(db: CourseDb, uuid: nat -> string, u: User, courseId: string, p: CoursePatch, upload: Upload)
    ensures UpdateCourse(db, uuid, Some(RequestUserOf(u)), courseId, p, upload) == (db, Thrown(NotAuthenticated), None)
    ensures DeleteCourse(db, Some(RequestUserOf(u)), courseId) == (db, Thrown(NotAuthenticated), None)
  {
    GetAuthRejectsUserDocuments(u);
  }

  /** An id no course holds gives 404 for update and delete, and nothing changes. */
  lemma {:induction false} UnknownCourseNotFound(db: CourseDb, uuid: nat -> string, user: Option<RequestUser>, courseId: string, p: CoursePatch, upload: Upload)
    requires GetAuth.GetAuth(user).Ok? && !KeyTaken(db.courses, CourseKey, courseId)
    ensures UpdateCourse(db, uuid, user, courseId, p, upload) == (db, Reply(404, false, CourseNotFound), None)
    ensures DeleteCourse(db, user, courseId) == (db, Reply(404, false, CourseNotFound), None)
  {
  }

  /** Only the teacher who owns the course may update or delete it: anyone else gets 403
      and nothing changes. */
  lemma {:induction false} OwnershipGate(db: CourseDb, uuid: nat -> string, user: Option<RequestUser>, courseId: string, p: CoursePatch, upload: Upload, i: nat)
    requires CourseTableValid(db.courses) && i < |db.courses| && db.courses[i].courseId == courseId
    requires GetAuth.GetAuth(user).Ok? && db.courses[i].teacherId != GetAuth.GetAuth(user).value.userId
    ensures UpdateCourse(db, uuid, user, courseId, p, upload) == (db, Reply(403, false, "Not authorized to update this course"), None)
    ensures DeleteCourse(db, user, courseId) == (db, Reply(403, false, "Not authorized to delete this course"), None)
  {
    IndexByUnique(db.courses, CourseKey, i);
    FindByUnique(db.courses, CourseKey, i);
  }

  /** Under a unique index the document found by a key is the one holding it. */
  lemma {:induction false} FindByUnique(rows: seq<Course>, key: Course -> string, i: nat)
    requires UniqueBy(rows, key) && i < |rows|
    ensures FindBy(rows, key, key(rows[i])) == Some(rows[i])
  {
    assert KeyTaken(rows, key, key(rows[i]));
    var c := FindBy(rows, key, key(rows[i])).value;
    var j :| 0 <= j < |rows| && rows[j] == c;
    assert key(rows[j]) == key(rows[i]);
    assert j == i;
  }

  /** For the owner the steps run in order: a price parseInt cannot read is refused with
      400, then a failing upload with 500, then a section without a chapter list throws;
      none of these stores anything. */
  lemma {:induction false} OwnerUpdateRefusals(db: CourseDb, uuid: nat -> string, user: Option<RequestUser>, courseId: string, p: CoursePatch, upload: Upload, i: nat)
    requires CourseTableValid(db.courses) && i < |db.courses| && db.courses[i].courseId == courseId
    requires GetAuth.GetAuth(user).Ok? && db.courses[i].teacherId == GetAuth.GetAuth(user).value.userId
    ensures var r := UpdateCourse(db, uuid, user, courseId, p, upload);
      && (Truthy(p.price) && ParseInt(p.price.value).None? ==> r == (db, Reply(400, false, InvalidPrice), None))
      && (NormalizePrice(p.price).Ok? && Truthy(p.image) && upload.UploadThrew? ==>
            r == (db, Reply(500, false, ImageUploadFailed), None))
      && (NormalizePrice(p.price).Ok? && UpdateImage(p.image, upload).Ok? && p.sections.Some? &&
          (exists k :: 0 <= k < |p.sections.value| && p.sections.value[k].chapters.None?) ==>
            r.1 == Thrown(ChaptersUndefined) && r.0.courses == db.courses)
  {
    IndexByUnique(db.courses, CourseKey, i);
    if p.sections.Some? {
      FillSectionsEffect(p.sections.value, uuid, db.drawn);
    }
  }

  /** What a successful update stores at the course's position: the course merged with
      updateData, which holds the normalised price, the uploaded image and the sections
      with their ids filled in; the identifier counter moves past the ids drawn. */
  lemma {:induction false} UpdateStores(db: CourseDb, uuid: nat -> string, user: Option<RequestUser>, courseId: string, p: CoursePatch, upload: Upload, i: nat)
    requires CourseTableValid(db.courses) && i < |db.courses| && db.courses[i].courseId == courseId
    requires UpdateCourse(db, uuid, user, courseId, p, upload).2.Some?
    ensures var r := UpdateCourse(db, uuid, user, courseId, p, upload);
      && GetAuth.GetAuth(user).Ok? && db.courses[i].teacherId == GetAuth.GetAuth(user).value.userId
      && NormalizePrice(p.price).Ok? && UpdateImage(p.image, upload).Ok?
      && UpdateSections(p.sections, uuid, db.drawn).0.Ok?
      && r.2.value == Assign(db.courses[i], DataOf(p, NormalizePrice(p.price).value, UpdateImage(p.image, upload).value,
                                               UpdateSections(p.sections, uuid, db.drawn).0.value))
      && r.0 == CourseDb(db.courses[i := r.2.value], UpdateSections(p.sections, uuid, db.drawn).1)
  {
    IndexByUnique(db.courses, CourseKey, i);
  }

  /** The unique index on sections.sectionId spans the course collection: an owner's
      update whose sections carry a sectionId that another course already holds throws at
      save, and nothing is stored. */
  lemma {:induction false} UpdateSharedSectionRefused(db: CourseDb, uuid: nat -> string, user: Option<RequestUser>, courseId: string,
                                                       p: CoursePatch, upload: Upload, i: nat, j: nat, k: nat, l: nat)
    requires CourseTableValid(db.courses) && i < |db.courses| && db.courses[i].courseId == courseId
    requires GetAuth.GetAuth(user).Ok? && db.courses[i].teacherId == GetAuth.GetAuth(user).value.userId
    requires NormalizePrice(p.price).Ok? && UpdateImage(p.image, upload).Ok?
    requires UpdateSections(p.sections, uuid, db.drawn).0.Ok? && UpdateSections(p.sections, uuid, db.drawn).0.value.Some?
    requires j < |db.courses| && j != i && l < |db.courses[j].sections|
    requires k < |UpdateSections(p.sections, uuid, db.drawn).0.value.value|
    requires CastSection(UpdateSections(p.sections, uuid, db.drawn).0.value.value[k]).sectionId == db.courses[j].sections[l].sectionId
    ensures var r := UpdateCourse(db, uuid, user, courseId, p, upload);
      && r.1.Thrown? && r.2.None? && r.0.courses == db.courses
  {
    IndexByUnique(db.courses, CourseKey, i);
    var secs := UpdateSections(p.sections, uuid, db.drawn).0.value.value;
    var updated := Assign(db.courses[i], DataOf(p, NormalizePrice(p.price).value, UpdateImage(p.image, upload).value, Some(secs)));
    assert updated.sections[k].sectionId in SectionIds(updated);
    assert db.courses[j].sections[l].sectionId in SectionIds(db.courses[j]);
    assert !EmbeddedKeysDisjoint(db.courses[j], updated);
    assert EmbeddedKeyTakenElsewhere(db.courses, i, updated);
  }

  /** Every update keeps the collection valid, leaves every other course as it was, and
      never lowers the identifier counter. */
  lemma {:induction false} UpdateKeepsValid(db: CourseDb, uuid: nat -> string, user: Option<RequestUser>, courseId: string, p: CoursePatch, upload: Upload)
    requires CourseTableValid(db.courses)
    ensures var r := UpdateCourse(db, uuid, user, courseId, p, upload);
      && CourseTableValid(r.0.courses)
      && db.drawn <= r.0.drawn
      && (r.2.None? ==> r.0.courses == db.courses)
      && (r.2.Some? ==>
            && |r.0.courses| == |db.courses|
            && (forall j :: 0 <= j < |db.courses| && db.courses[j].courseId != courseId ==> r.0.courses[j] == db.courses[j])
            && (forall j :: 0 <= j < |db.courses| && db.courses[j].courseId == courseId ==>
                  r.0.courses[j] == r.2.value && r.2.value.oid == db.courses[j].oid))
  {
    var r := UpdateCourse(db, uuid, user, courseId, p, upload);
    if r.2.Some? {
      var i := IndexBy(db.courses, CourseKey, courseId).value;
      ReplaceKeepsValid(db.courses, i, r.2.value);
      forall j | 0 <= j < |db.courses| && db.courses[j].courseId == courseId ensures j == i {
        assert CourseKey(db.courses[j]) == CourseKey(db.courses[i]);
      }
    }
  }

  /** The stored price is parseInt(price) * 100: the decimal form of n followed by
      anything that is not a digit stores 100 * n, so "12.99" stores 1200. */
  lemma {:induction false} PriceInCents(n: int, fraction: string)
    requires fraction == [] || !IsDigit(fraction[0])
    ensures NormalizePrice(Some(DecimalString(n) + fraction)) == Ok(Some(Some(n * 100)))
  {
    ParseIntDecimal(n, fraction);
  }

  /** The price a successful update stores for the decimal form of n is 100 * n. */
  lemma {:induction false} StoredPrice(db: CourseDb, uuid: nat -> string, user: Option<RequestUser>, courseId: string, p: CoursePatch, upload: Upload, n: int)
    requires CourseTableValid(db.courses)
    ensures var r := UpdateCourse(db, uuid, user, courseId, p, upload);
      r.2.Some? ==> CourseValid(r.2.value) && (p.price == Some(DecimalString(n)) ==> r.2.value.price == Some(n * 100))
  {
    var r := UpdateCourse(db, uuid, user, courseId, p, upload);
    if r.2.Some? {
      var i := IndexBy(db.courses, CourseKey, courseId).value;
      UpdateStores(db, uuid, user, courseId, p, upload, i);
      UpdateKeepsValid(db, uuid, user, courseId, p, upload);
      assert r.0.courses[i] == r.2.value;
      if p.price == Some(DecimalString(n)) {
        PriceInCents(n, []);
        assert DecimalString(n) + [] == DecimalString(n);
      }
    }
  }

  /** A negative price parses, but the schema's minimum refuses it, so an update with one
      never succeeds; an empty price clears the stored one; an image whose upload returned
      null erases the stored image. */
  lemma {:induction false} UpdatePriceAndImage(db: CourseDb, uuid: nat -> string, user: Option<RequestUser>, courseId: string, p: CoursePatch, upload: Upload, n: int)
    requires CourseTableValid(db.courses)
    ensures var r := UpdateCourse(db, uuid, user, courseId, p, upload);
      && (n < 0 && p.price == Some(DecimalString(n)) ==> r.2.None? && r.0.courses == db.courses)
      && (p.price == Some("") && r.2.Some? ==> r.2.value.price == None)
      && (Truthy(p.image) && upload == UploadNull && r.2.Some? ==> r.2.value.image == None)
  {
    var r := UpdateCourse(db, uuid, user, courseId, p, upload);
    UpdateKeepsValid(db, uuid, user, courseId, p, upload);
    StoredPrice(db, uuid, user, courseId, p, upload, n);
    if r.2.Some? {
      var i := IndexBy(db.courses, CourseKey, courseId).value;
      UpdateStores(db, uuid, user, courseId, p, upload, i);
    }
  }

  /** An updateData that says nothing. */
  const NoChange: UpdateData := UpdateData(None, None, None, None, None, None, None, None, None, None, None)

  /** Object.assign overwrites exactly the submitted paths: a path updateData lacks keeps
      its value, and a submitted one holds the submitted value through the schema's
      setter. */
  lemma AssignMerges(c: Course, u: UpdateData)
    ensures var a := Assign(c, u);
      && a.oid == c.oid && a.enrollments == c.enrollments
      && a.courseId == (if u.courseId.Some? then u.courseId.value else c.courseId)
      && a.teacherId == (if u.teacherId.Some? then u.teacherId.value else c.teacherId)
      && (u.teacherName.Some? ==> IsTrimOf(a.teacherName, u.teacherName.value)) && (u.teacherName.None? ==> a.teacherName == c.teacherName)
      && (u.title.Some? ==> IsTrimOf(a.title, u.title.value)) && (u.title.None? ==> a.title == c.title)
      && (u.description.Some? ==> IsTrimOf(a.description.value, u.description.value)) && (u.description.None? ==> a.description == c.description)
      && (u.category.Some? ==> IsTrimOf(a.category, u.category.value)) && (u.category.None? ==> a.category == c.category)
      && a.image == (if u.image.Some? then u.image.value else c.image)
      && a.price == (if u.price.Some? then u.price.value else c.price)
      && a.level == (if u.level.Some? then u.level.value else c.level)
      && a.status == (if u.status.Some? then u.status.value else c.status)
      && (u.sections.Some? ==> a.sections == CastSections(u.sections.value)) && (u.sections.None? ==> a.sections == c.sections)
    ensures Assign(c, NoChange) == c
  {
  }

  /** Submitting the same body twice stores the same course as submitting it once. */
  lemma {:induction false} AssignIdempotent(c: Course, u: UpdateData)
    ensures Assign(Assign(c, u), u) == Assign(c, u)
  {
    var a := Assign(c, u);
    var b := Assign(a, u);
    assert b.teacherName == a.teacherName by {
      if u.teacherName.Some? { TrimIdempotent(u.teacherName.value); }
    }
    assert b.title == a.title by {
      if u.title.Some? { TrimIdempotent(u.title.value); }
    }
    assert b.description == a.description by {
      if u.description.Some? { TrimIdempotent(u.description.value); }
    }
    assert b.category == a.category by {
      if u.category.Some? { TrimIdempotent(u.category.value); }
    }
  }

  /** Later keys win: two successive updates equal one update with the second body laid
      over the first. */
  function Overlay(first: UpdateData, second: UpdateData): (r: UpdateData)
    ensures r.courseId == (if second.courseId.Some? then second.courseId else first.courseId)
    ensures r.sections == (if second.sections.Some? then second.sections else first.sections)
  {
    UpdateData(
      if second.courseId.Some? then second.courseId else first.courseId,
      if second.teacherId.Some? then second.teacherId else first.teacherId,
      if second.teacherName.Some? then second.teacherName else first.teacherName,
      if second.title.Some? then second.title else first.title,
      if second.description.Some? then second.description else first.description,
      if second.category.Some? then second.category else first.category,
      if second.image.Some? then second.image else first.image,
      if second.price.Some? then second.price else first.price,
      if second.level.Some? then second.level else first.level,
      if second.status.Some? then second.status else first.status,
      if second.sections.Some? then second.sections else first.sections)
  }

  lemma AssignLaterWins(c: Course, first: UpdateData, second: UpdateData)
    ensures Assign(Assign(c, first), second) == Assign(c, Overlay(first, second))
  {
  }

  // ---------------------------------------------------------------- ids of sections and chapters

  /** A supply of identifiers that never repeats, as uuidv4 is meant to be. */
  ghost predicate Injective(uuid: nat -> string) {
    forall a: nat, b: nat :: a != b ==> uuid(a) != uuid(b)
  }

  /** An id after filling: a truthy id is kept, a missing one is a draw from [lo, hi). */
  ghost predicate IdFilled(orig: Option<string>, filled: Option<string>, uuid: nat -> string, lo: nat, hi: nat) {
    if Truthy(orig) then filled == orig else exists d: nat :: lo <= d < hi && filled == Some(uuid(d))
  }

  /** A chapter after filling: its id filled, every other path as submitted. */
  ghost predicate ChapterFilled(c: ChapterInput, f: ChapterInput, uuid: nat -> string, lo: nat, hi: nat) {
    f.(chapterId := c.chapterId) == c && IdFilled(c.chapterId, f.chapterId, uuid, lo, hi)
  }

  /** A section after filling: its id and the ids of all its chapters filled, every other
      path as submitted. */
  ghost predicate SectionFilled(s: SectionInput, f: SectionInput, uuid: nat -> string, lo: nat, hi: nat) {
    && s.chapters.Some? && f.chapters.Some?
    && f.(sectionId := s.sectionId, chapters := s.chapters) == s
    && IdFilled(s.sectionId, f.sectionId, uuid, lo, hi)
    && |f.chapters.value| == |s.chapters.value|
    && forall j :: 0 <= j < |s.chapters.value| ==> ChapterFilled(s.chapters.value[j], f.chapters.value[j], uuid, lo, hi)
  }

  /** The k-th chapter receives the draw after those of the chapters before it. */
  lemma {:induction false} FillChaptersEffect(chs: seq<ChapterInput>, uuid: nat -> string, next: nat)
    ensures forall k {:trigger FillChapters(chs, uuid, next).0[k]} :: 0 <= k < |chs| ==>
      FillChapters(chs, uuid, next).0[k] == FilledChapter(chs[k], uuid, next + MissingChapterIds(chs[..k]))
    decreases |chs|
  {
    if chs != [] {
      var init := chs[..|chs| - 1];
      FillChaptersEffect(init, uuid, next);
      forall k | 0 <= k < |chs|
        ensures FillChapters(chs, uuid, next).0[k] == FilledChapter(chs[k], uuid, next + MissingChapterIds(chs[..k]))
      {
        if k < |init| {
          assert FillChapters(init, uuid, next).0[k] == FilledChapter(init[k], uuid, next + MissingChapterIds(init[..k]));
        }
        FillChaptersStep(chs, uuid, next, k);
      }
    }
  }

  /** The chapter map on a list agrees with the map on all but its last chapter, and fills
      the last chapter from the draw after theirs. */
  lemma {:induction false} FillChaptersStep(chs: seq<ChapterInput>, uuid: nat -> string, next: nat, k: nat)
    requires k < |chs|
    requires k < |chs| - 1 ==>
      FillChapters(chs[..|chs| - 1], uuid, next).0[k] ==
        FilledChapter(chs[..|chs| - 1][k], uuid, next + MissingChapterIds(chs[..|chs| - 1][..k]))
    ensures FillChapters(chs, uuid, next).0[k] == FilledChapter(chs[k], uuid, next + MissingChapterIds(chs[..k]))
  {
    var init := chs[..|chs| - 1];
    var done := FillChapters(init, uuid, next).0;
    var out := FillChapters(chs, uuid, next).0;
    assert out == done + [FilledChapter(chs[|chs| - 1], uuid, next + MissingChapterIds(init))];
    if k < |init| {
      assert out[k] == done[k];
      assert chs[..k] == init[..k] && chs[k] == init[k];
    } else {
      assert chs[..k] == init;
    }
  }

  /** Counting the missing ids one chapter further. */
  lemma {:induction false} MissingChapterIdsStep(chs: seq<ChapterInput>, k: nat)
    requires k < |chs|
    ensures MissingChapterIds(chs[..k + 1]) == MissingChapterIds(chs[..k]) + (if Truthy(chs[k].chapterId) then 0 else 1)
  {
    assert chs[..k + 1][..k] == chs[..k];
  }

  lemma {:induction false} MissingChapterIdsMonotone(chs: seq<ChapterInput>, a: nat, b: nat)
    requires a <= b <= |chs|
    ensures MissingChapterIds(chs[..a]) <= MissingChapterIds(chs[..b])
    decreases b - a
  {
    if a < b {
      MissingChapterIdsStep(chs, a);
      MissingChapterIdsMonotone(chs, a + 1, b);
    }
  }

  /** The chapter map keeps every truthy chapterId, gives every other chapter a draw of
      its own from [next, counter after), changes nothing else, and with a supply that
      never repeats the drawn ids are pairwise distinct. */
  lemma {:induction false} FilledChapterIds(chs: seq<ChapterInput>, uuid: nat -> string, next: nat)
    ensures var r := FillChapters(chs, uuid, next);
      forall k :: 0 <= k < |chs| ==> ChapterFilled(chs[k], r.0[k], uuid, next, r.1)
    ensures var r := FillChapters(chs, uuid, next);
      Injective(uuid) ==>
        forall a, b :: 0 <= a < b < |chs| && !Truthy(chs[a].chapterId) && !Truthy(chs[b].chapterId) ==>
          r.0[a].chapterId != r.0[b].chapterId
  {
    var r := FillChapters(chs, uuid, next);
    FillChaptersEffect(chs, uuid, next);
    assert chs[..|chs|] == chs;
    forall k | 0 <= k < |chs| ensures ChapterFilled(chs[k], r.0[k], uuid, next, r.1) {
      if !Truthy(chs[k].chapterId) {
        MissingChapterIdsStep(chs, k);
        MissingChapterIdsMonotone(chs, k + 1, |chs|);
        var d := next + MissingChapterIds(chs[..k]);
        assert next <= d < r.1 && r.0[k].chapterId == Some(uuid(d));
      }
    }
    if Injective(uuid) {
      forall a, b | 0 <= a < b < |chs| && !Truthy(chs[a].chapterId) && !Truthy(chs[b].chapterId)
        ensures r.0[a].chapterId != r.0[b].chapterId
      {
        MissingChapterIdsStep(chs, a);
        MissingChapterIdsMonotone(chs, a + 1, b);
        assert next + MissingChapterIds(chs[..a]) != next + MissingChapterIds(chs[..b]);
      }
    }
  }

  /** A fill over [lo, hi) is a fill over any wider range. */
  lemma {:induction false} SectionFilledWiden(s: SectionInput, f: SectionInput, uuid: nat -> string, lo: nat, hi: nat, lo2: nat, hi2: nat)
    requires SectionFilled(s, f, uuid, lo, hi) && lo2 <= lo && hi <= hi2
    ensures SectionFilled(s, f, uuid, lo2, hi2)
  {
    forall j | 0 <= j < |s.chapters.value|
      ensures ChapterFilled(s.chapters.value[j], f.chapters.value[j], uuid, lo2, hi2)
    {
      assert ChapterFilled(s.chapters.value[j], f.chapters.value[j], uuid, lo, hi);
    }
  }

  /** One section: it is filled when it has a chapter list and throws otherwise. */
  lemma {:induction false} FillSectionEffect(s: SectionInput, uuid: nat -> string, next: nat)
    ensures var r := FillSection(s, uuid, next);
      r.0.Ok? ==> SectionFilled(s, r.0.value, uuid, next, r.1)
  {
    if s.chapters.Some? {
      var n := if Truthy(s.sectionId) then next else next + 1;
      var chs := s.chapters.value;
      FilledChapterIds(chs, uuid, n);
      var r := FillSection(s, uuid, next);
      var f := r.0.value;
      forall j | 0 <= j < |chs| ensures ChapterFilled(chs[j], f.chapters.value[j], uuid, next, r.1) {
        assert ChapterFilled(chs[j], f.chapters.value[j], uuid, n, r.1);
      }
    }
  }

  /** The section map: it succeeds exactly when every section has a chapter list, and then
      every section and chapter keeps its truthy id and receives a draw from [next, counter
      after) otherwise, with nothing else changed. */
  lemma {:induction false} FillSectionsEffect(secs: seq<SectionInput>, uuid: nat -> string, next: nat)
    ensures var r := FillSections(secs, uuid, next);
      r.0.Ok? <==> forall k :: 0 <= k < |secs| ==> secs[k].chapters.Some?
    ensures var r := FillSections(secs, uuid, next);
      r.0.Err? ==> r.0.error == ChaptersUndefined
    ensures var r := FillSections(secs, uuid, next);
      r.0.Ok? ==> forall k :: 0 <= k < |secs| ==> SectionFilled(secs[k], r.0.value[k], uuid, next, r.1)
    decreases |secs|
  {
    if secs != [] {
      var init := secs[..|secs| - 1];
      var last := secs[|secs| - 1];
      FillSectionsEffect(init, uuid, next);
      var (ri, n) := FillSections(init, uuid, next);
      var r := FillSections(secs, uuid, next);
      if ri.Ok? {
        FillSectionEffect(last, uuid, n);
        if r.0.Ok? {
          forall k | 0 <= k < |secs| ensures SectionFilled(secs[k], r.0.value[k], uuid, next, r.1) {
            if k < |init| {
              assert secs[k] == init[k] && r.0.value[k] == ri.value[k];
              SectionFilledWiden(init[k], ri.value[k], uuid, next, n, next, r.1);
            } else {
              SectionFilledWiden(last, r.0.value[k], uuid, n, r.1, next, r.1);
            }
          }
        } else {
          assert !last.chapters.Some?;
        }
      } else {
        var k :| 0 <= k < |init| && !init[k].chapters.Some?;
        assert secs[k] == init[k];
      }
    }
  }

  /** Once a section throws, the sections after it are not visited: the whole map ends
      with the error and the counter of the prefix that threw. */
  lemma {:induction false} FillSectionsStopsAtError(secs: seq<SectionInput>, uuid: nat -> string, next: nat, j: nat)
    requires j <= |secs| && FillSections(secs[..j], uuid, next).0.Err?
    ensures FillSections(secs, uuid, next) == FillSections(secs[..j], uuid, next)
    decreases |secs| - j
  {
    if j < |secs| {
      assert secs[..|secs| - 1][..j] == secs[..j];
      FillSectionsStopsAtError(secs[..|secs| - 1], uuid, next, j);
    } else {
      assert secs[..j] == secs;
    }
  }

  // ---------------------------------------------------------------- deleteCourse

  /** The owner's delete removes exactly the course with that id: none is left, every
      other course stays in order, and the collection stays valid; the reply carries the
      removed course. Every other outcome changes nothing. */
  lemma {:induction false} DeleteEffect(db: CourseDb, user: Option<RequestUser>, courseId: string)
    requires CourseTableValid(db.courses)
    ensures var r := DeleteCourse(db, user, courseId);
      && CourseTableValid(r.0.courses)
      && (r.2.None? ==> r.0 == db)
      && (r.2.Some? ==>
            && r.0.courses == Without(db.courses, CourseKey, courseId)
            && !KeyTaken(r.0.courses, CourseKey, courseId)
            && |r.0.courses| == |db.courses| - 1
            && r.2.value in db.courses && r.2.value.courseId == courseId
            && r.2.value.teacherId == GetAuth.GetAuth(user).value.userId)
  {
    var r := DeleteCourse(db, user, courseId);
    if r.2.Some? {
      DeleteByEffect(db.courses, CourseKey, courseId);
      WithoutKeepsValid(db.courses, courseId);
    }
  }

  // ---------------------------------------------------------------- uploadVideo

  /** uploadVideo answers 200 with the upload's response exactly when a file is given,
      its type is allowed, its size is at most 500 MiB, its path exists and the upload
      succeeds; otherwise the first failing check decides the reply. */
  lemma {:induction false} UploadVideoChecks(file: Option<VideoFile>, pathExists: bool, upload: Upload)
    ensures var r := UploadVideo(file, pathExists, upload);
      r.0 == Reply(200, true, "Video uploaded successfully") <==>
        file.Some? && file.value.mimetype in AllowedVideoTypes && file.value.size <= MaxVideoSize &&
        pathExists && upload.Uploaded?
    ensures var r := UploadVideo(file, pathExists, upload);
      && (file.None? ==> r.0 == Reply(400, false, "No video file provided"))
      && (file.Some? && file.value.mimetype !in AllowedVideoTypes ==>
            r.0 == Reply(400, false, "Invalid video format. Allowed formats are MP4, AVI, MOV, MKV."))
      && (file.Some? && file.value.mimetype in AllowedVideoTypes && file.value.size > MaxVideoSize ==>
            r.0 == Reply(400, false, "Video file is too large. Maximum size is 500MB."))
      && (file.Some? && file.value.mimetype in AllowedVideoTypes && file.value.size <= MaxVideoSize && !pathExists ==>
            r.0 == Reply(400, false, "File path does not exist"))
  {
  }

  /** Exactly 500 MiB is accepted and one byte more is refused; a file of the wrong type
      is refused for its type even when it is also too large. */
  lemma {:induction false} VideoSizeBoundary(path: string, resp: UploadResponse)
    ensures UploadVideo(Some(VideoFile("video/mp4", 524288000, path)), true, Uploaded(resp)) ==
      (Reply(200, true, "Video uploaded successfully"), Some(resp))
    ensures UploadVideo(Some(VideoFile("video/mp4", 524288001, path)), true, Uploaded(resp)).0 ==
      Reply(400, false, "Video file is too large. Maximum size is 500MB.")
    ensures UploadVideo(Some(VideoFile("image/png", 524288001, path)), true, Uploaded(resp)).0 ==
      Reply(400, false, "Invalid video format. Allowed formats are MP4, AVI, MOV, MKV.")
  {
    assert "video/mp4" == AllowedVideoTypes[0];
    assert "image/png" !in AllowedVideoTypes;
  }
}
