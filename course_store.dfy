/** The handlers of src/controllers/course.controller.ts that change the course
    collection, as methods of a store holding it. Each method performs the handler's steps
    in the handler's order and is proved to reach CourseSpec's net effect, about which
    CourseProperties states the promises. The id-filling `map` loops of updateCourse are
    loops here, drawing from the store's identifier supply as they go. */
module CourseStore {
  import opened Wrappers
  import opened Text
  import opened Tables
  import opened GetAuth
  import opened ChapterModel
  import opened SectionModel
  import opened CourseModel
  import CourseSpec
  import CourseProperties

  class CourseStore {
    var courses: seq<Course>
    /** How many identifiers uuidv4 has handed out so far. */
    var drawn: nat
    /** The identifiers uuidv4 hands out, in call order. */
    const uuid: nat -> string

    ghost function Db(): CourseSpec.CourseDb
      reads this
    {
      CourseSpec.CourseDb(courses, drawn)
    }

    ghost predicate Valid()
      reads this
    {
      CourseTableValid(courses)
    }

    /** An empty collection and a fresh supply. */
    constructor (uuid: nat -> string)
      ensures Valid()
      ensures courses == [] && drawn == 0 && this.uuid == uuid
    {
      courses := [];
      drawn := 0;
      this.uuid := uuid;
    }

    /** The inner `map` of updateCourse: a chapter without an id receives the identifier
        of draw n, and n moves on. */
    method FillChapters(chs: seq<ChapterInput>, next: nat) returns (filled: seq<ChapterInput>, n: nat)
      ensures (filled, n) == CourseSpec.FillChapters(chs, uuid, next)
    {
      filled, n := [], next;
      var i := 0;
      while i < |chs|
        invariant 0 <= i <= |chs|
        invariant (filled, n) == CourseSpec.FillChapters(chs[..i], uuid, next)
      {
        var c := chs[i];
        if !Truthy(c.chapterId) {
          c := c.(chapterId := Some(uuid(n)));
          n := n + 1;
        }
        filled := filled + [c];
        assert chs[..i + 1][..i] == chs[..i];
        i := i + 1;
      }
      assert chs[..|chs|] == chs;
    }

    /** The outer `map` of updateCourse: each section first receives its id, then its
        chapters theirs; a section without a chapter list throws, and the sections after
        it are not visited. */
    method FillSections(secs: seq<SectionInput>, next: nat) returns (filled: Result<seq<SectionInput>, string>, n: nat)
      ensures (filled, n) == CourseSpec.FillSections(secs, uuid, next)
    {
      var done: seq<SectionInput> := [];
      n := next;
      var i := 0;
      while i < |secs|
        invariant 0 <= i <= |secs|
        invariant (Ok(done), n) == CourseSpec.FillSections(secs[..i], uuid, next)
      {
        var s := secs[i];
        if !Truthy(s.sectionId) {
          s := s.(sectionId := Some(uuid(n)));
          n := n + 1;
        }
        assert secs[..i + 1][..i] == secs[..i];
        if s.chapters.None? {
          CourseProperties.FillSectionsStopsAtError(secs, uuid, next, i + 1);
          return Err(CourseSpec.ChaptersUndefined), n;
        }
        var chs, n2 := FillChapters(s.chapters.value, n);
        s := s.(chapters := Some(chs));
        n := n2;
        done := done + [s];
        i := i + 1;
      }
      assert secs[..|secs|] == secs;
      filled := Ok(done);
    }

    /** createCourse: the field checks, the image upload, a courseId drawn from uuidv4,
        then save. */
    method CreateCourse(oid: string, b: CourseSpec.CourseBody, upload: CourseSpec.Upload)
      returns (reply: CourseSpec.Reply, created: Option<Course>)
      requires Valid()
      modifies this
      ensures Valid()
      ensures (Db(), reply, created) == CourseSpec.CreateCourse(old(Db()), uuid, oid, b, upload)
    {
      CourseProperties.CreateCourseRefusals(Db(), uuid, oid, b, upload);
      CourseProperties.CreateCourseNeverStores(Db(), uuid, oid, b, upload);
      if !Truthy(b.teacherId) || !Truthy(b.teacherName) || !Truthy(b.title) || !Truthy(b.category) {
        return CourseSpec.Reply(400, false, CourseSpec.FieldsRequired), None;
      }
      if !CourseSpec.IsObjectIdHex(b.teacherId.value) {
        return CourseSpec.Reply(400, false, "Invalid Teacher ID"), None;
      }
      var image := CourseSpec.CreateImage(b.image, upload);
      if image.Err? {
        return CourseSpec.Reply(500, false, image.error), None;
      }
      var courseId := uuid(drawn);
      drawn := drawn + 1;
      var built := CourseSpec.NewCourse(oid, courseId, b, image.value);
      if built.Err? {
        return CourseSpec.Reply(500, false, "Error creating course"), None;
      }
      var c := built.value;
      CourseProperties.NewCourseUnsaveable(courses, oid, courseId, b, image.value);
      var saved := CourseSpec.SaveNew(courses, c);
      courses := match saved case Ok(rows) => rows case Err(_) => courses;
      reply := if saved.Ok? then CourseSpec.Reply(201, true, "Course created successfully")
        else CourseSpec.Reply(500, false, "Error creating course");
      created := if saved.Ok? then Some(c) else None;
    }

    /** updateCourse: getAuth, findOne({ courseId }), the owner check, the price, image
        and sections steps on updateData, Object.assign, then save. */
    method UpdateCourse(user: Option<RequestUser>, courseId: string, p: CourseSpec.CoursePatch, upload: CourseSpec.Upload)
      returns (reply: CourseSpec.Reply, updated: Option<Course>)
      requires Valid()
      modifies this
      ensures Valid()
      ensures (Db(), reply, updated) == CourseSpec.UpdateCourse(old(Db()), uuid, user, courseId, p, upload)
    {
      CourseProperties.UpdateKeepsValid(Db(), uuid, user, courseId, p, upload);
      var auth := GetAuth.GetAuth(user);
      if auth.Err? {
        return CourseSpec.Thrown(auth.error), None;
      }
      var found := IndexBy(courses, CourseKey, courseId);
      if found.None? {
        return CourseSpec.Reply(404, false, CourseSpec.CourseNotFound), None;
      }
      var i := found.value;
      if courses[i].teacherId != auth.value.userId {
        return CourseSpec.Reply(403, false, "Not authorized to update this course"), None;
      }
      var price := CourseSpec.NormalizePrice(p.price);
      if price.Err? {
        return CourseSpec.Reply(400, false, price.error), None;
      }
      var image := CourseSpec.UpdateImage(p.image, upload);
      if image.Err? {
        return CourseSpec.Reply(500, false, image.error), None;
      }
      var sections: Option<seq<SectionInput>> := None;
      if p.sections.Some? {
        var filled, n := FillSections(p.sections.value, drawn);
        drawn := n;
        if filled.Err? {
          return CourseSpec.Thrown(filled.error), None;
        }
        sections := Some(filled.value);
      }
      var course := CourseSpec.Assign(courses[i], CourseSpec.DataOf(p, price.value, image.value, sections));
      var saved := CourseSpec.SaveExisting(courses, i, course);
      if saved.Err? {
        return CourseSpec.Thrown(saved.error), None;
      }
      courses := saved.value;
      return CourseSpec.Reply(200, true, "Course updated successfully"), Some(course);
    }

    /** deleteCourse: getAuth, findOne({ courseId }), the owner check, then
        findOneAndDelete({ courseId }). */
    method DeleteCourse(user: Option<RequestUser>, courseId: string)
      returns (reply: CourseSpec.Reply, deleted: Option<Course>)
      requires Valid()
      modifies this
      ensures Valid()
      ensures (Db(), reply, deleted) == CourseSpec.DeleteCourse(old(Db()), user, courseId)
    {
      CourseProperties.DeleteEffect(Db(), user, courseId);
      var auth := GetAuth.GetAuth(user);
      if auth.Err? {
        return CourseSpec.Thrown(auth.error), None;
      }
      var found := FindBy(courses, CourseKey, courseId);
      if found.None? {
        return CourseSpec.Reply(404, false, CourseSpec.CourseNotFound), None;
      }
      if found.value.teacherId != auth.value.userId {
        return CourseSpec.Reply(403, false, "Not authorized to delete this course"), None;
      }
      courses := DeleteBy(courses, CourseKey, courseId);
      return CourseSpec.Reply(200, true, "Course deleted successfully"), found;
    }
  }
}
