/**
 The course endpoints: GET, POST, PUT and DELETE on `/courses/<id>` and GET
 on `/courses`, as transitions on the courses table. The table is an id-keyed
 map; a request either aborts (the table stays as it was) or yields the new
 table and the reply. Loading a request body through the course schema is a
 parameter of the model; it is handed the row already stored under the path
 id, since the schema loads an instance of the model and updates that row.
 */
module CourseResource {
  import opened Common
  import opened Entities
  import opened Models

  /** The JSON body of a POST or PUT: any of the course columns. */
  datatype CourseBody = CourseBody(courseId: Option<int>, name: Option<string>, description: Option<string>)

  /** The two projections of a course: `only=('course_id', 'name')` and the
      full schema with every column. */
  datatype CourseView =
    | ShortCourse(courseId: int, name: string)
    | FullCourse(courseId: int, name: string, description: string)

  /** The `{'status': ..., 'message': ...}` reply of a mutation. */
  datatype Reply = Reply(status: int, message: Message)

  /** A successful mutation: the table afterwards and the reply. */
  datatype Outcome = Outcome(courses: map<int, Course>, reply: Reply)

  /** Loading a body through the course schema: the row stored under the
      body's id (if any), the body and whether the load is partial give a
      course instance, or a 400 validation abort. */
  type Loader = (Option<Course>, CourseBody, bool) -> Result<Course>

  /** The table after a request: the new one, or the old one when it aborted. */
  function After(courses: map<int, Course>, r: Result<Outcome>): map<int, Course>
  {
    if r.Ok? then r.value.courses else courses
  }

  // ---------------------------------------------------------------------
  // The `full` query flag
  // ---------------------------------------------------------------------

  /** Lower-casing of one character; letters outside A-Z are kept. */
  function Lower(c: char): char
  {
    if 'A' <= c <= 'Z' then (c as int - 'A' as int + 'a' as int) as char else c
  }

  function LowerString(s: string): (r: string)
    ensures |r| == |s|
    ensures forall i :: 0 <= i < |s| ==> r[i] == Lower(s[i])
  {
    seq(|s|, i requires 0 <= i < |s| => Lower(s[i]))
  }

  /** A string lower-cases to "true" exactly when it spells "true" in any
      mix of cases. */
  lemma TrueSpelling(v: string)
    ensures LowerString(v) == "true" <==>
              && |v| == 4
              && v[0] in "tT" && v[1] in "rR"
              && v[2] in "uU" && v[3] in "eE"
  {
    var lv := LowerString(v);
    if |v| == 4 && v[0] in "tT" && v[1] in "rR" && v[2] in "uU" && v[3] in "eE" {
      assert lv == "true";
    }
    if lv == "true" {
      assert Lower(v[0]) == 't' && Lower(v[1]) == 'r' && Lower(v[2]) == 'u' && Lower(v[3]) == 'e';
    }
  }

  /** `request.args.get('full', 'false').lower() == 'true'`: the full
      projection is chosen exactly for a four-letter flag spelling "true" in
      any mix of cases; an absent flag gives the short projection. */
  predicate WantsFull(full: Option<string>): (b: bool)
    ensures full.None? ==> !b
    ensures full.Some? ==>
              (b <==>
                 && |full.value| == 4
                 && full.value[0] in "tT" && full.value[1] in "rR"
                 && full.value[2] in "uU" && full.value[3] in "eE")
  {
    TrueSpelling(full.GetOr("false"));
    LowerString(full.GetOr("false")) == "true"
  }

  /** The projection a flag selects. */
  function View(c: Course, full: Option<string>): (v: CourseView)
    ensures v.courseId == c.courseId && v.name == c.name
    ensures v.FullCourse? <==> WantsFull(full)
    ensures v.FullCourse? ==> v.description == c.description
  {
    if WantsFull(full) then FullCourse(c.courseId, c.name, c.description) else ShortCourse(c.courseId, c.name)
  }

  // ---------------------------------------------------------------------
  // `/courses/<id>`
  // ---------------------------------------------------------------------

  /** `Course.get`: the course in the projection the flag selects, or a 404
      abort naming the id. */
  function Get(courses: map<int, Course>, courseId: int, full: Option<string>): (r: Result<CourseView>)
    ensures r.Ok? <==> courseId in courses
    ensures r.Ok? ==> r.value == View(courses[courseId], full)
    ensures r.Err? ==> r.failure == NotFoundFailure(CourseKind, Some(courseId))
  {
    var course :- FindByIdOr404(courses, Some(courseId), CourseKind);
    Ok(View(course, full))
  }

  /** The body with the path id written over its `course_id`. */
  function WithPathId(body: CourseBody, courseId: int): (b: CourseBody)
    ensures b.courseId == Some(courseId)
    ensures b.name == body.name && b.description == body.description
  {
    body.(courseId := Some(courseId))
  }

  /** The 200 reply of a mutation, with the verb's message formatted with
      the path id. */
  function Done(key: string, courseId: int): Reply
  {
    Reply(StatusOk, Formatted(key, Some(courseId)))
  }

  /** Load the body under the path id and save the instance. */
  function LoadAndSave(courses: map<int, Course>, courseId: int, body: CourseBody, load: Loader, partial: bool, key: string): (r: Result<Outcome>)
    ensures r.Ok? <==> load(FindById(courses, courseId), WithPathId(body, courseId), partial).Ok?
    ensures r.Err? ==> r.failure == load(FindById(courses, courseId), WithPathId(body, courseId), partial).failure
    ensures r.Ok? ==>
              var c := load(FindById(courses, courseId), WithPathId(body, courseId), partial).value;
              && FindById(r.value.courses, c.courseId) == Some(c)
              && (forall k :: k != c.courseId ==> FindById(r.value.courses, k) == FindById(courses, k))
              && r.value.reply == Done(key, courseId)
  {
    var c :- load(FindById(courses, courseId), WithPathId(body, courseId), partial);
    Ok(Outcome(Save(courses, c.courseId, c), Done(key, courseId)))
  }

  /** `Course.post`: a full (non-partial) load of the body under the path id,
      saved, replying "course_post". */
  function Post(courses: map<int, Course>, courseId: int, body: CourseBody, load: Loader): (r: Result<Outcome>)
    ensures r.Ok? <==> load(FindById(courses, courseId), WithPathId(body, courseId), false).Ok?
    ensures r.Ok? ==>
              var c := load(FindById(courses, courseId), WithPathId(body, courseId), false).value;
              && FindById(r.value.courses, c.courseId) == Some(c)
              && (forall k :: k != c.courseId ==> FindById(r.value.courses, k) == FindById(courses, k))
              && r.value.reply == Reply(200, Formatted("course_post", Some(courseId)))
  {
    LoadAndSave(courses, courseId, body, load, false, "course_post")
  }

  /** `Course.put`: a partial load of the body under the path id, saved,
      replying "course_put". */
  function Put(courses: map<int, Course>, courseId: int, body: CourseBody, load: Loader): (r: Result<Outcome>)
    ensures r.Ok? <==> load(FindById(courses, courseId), WithPathId(body, courseId), true).Ok?
    ensures r.Ok? ==>
              var c := load(FindById(courses, courseId), WithPathId(body, courseId), true).value;
              && FindById(r.value.courses, c.courseId) == Some(c)
              && (forall k :: k != c.courseId ==> FindById(r.value.courses, k) == FindById(courses, k))
              && r.value.reply == Reply(200, Formatted("course_put", Some(courseId)))
  {
    LoadAndSave(courses, courseId, body, load, true, "course_put")
  }

  /** `Course.delete`: the course removed, replying "course_delete", or a 404
      abort naming the id. */
  function Delete(courses: map<int, Course>, courseId: int): (r: Result<Outcome>)
    ensures r.Ok? <==> courseId in courses
    ensures r.Err? ==> r.failure == NotFoundFailure(CourseKind, Some(courseId))
    ensures r.Ok? ==>
              && FindById(r.value.courses, courseId) == None
              && (forall k :: k != courseId ==> FindById(r.value.courses, k) == FindById(courses, k))
              && r.value.reply == Reply(200, Formatted("course_delete", Some(courseId)))
  {
    var _ :- FindByIdOr404(courses, Some(courseId), CourseKind);
    Ok(Outcome(Models.Delete(courses, courseId), Done("course_delete", courseId)))
  }

  // ---------------------------------------------------------------------
  // Properties of the transitions
  // ---------------------------------------------------------------------

  /** The `course_id` of a POST or PUT body never matters: the path id
      replaces it. */
  lemma BodyIdIgnored(courses: map<int, Course>, courseId: int, body: CourseBody, other: Option<int>, load: Loader)
    ensures Post(courses, courseId, body, load) == Post(courses, courseId, body.(courseId := other), load)
    ensures Put(courses, courseId, body, load) == Put(courses, courseId, body.(courseId := other), load)
  {
    assert WithPathId(body, courseId) == WithPathId(body.(courseId := other), courseId);
  }

  /** The loader keeps the `course_id` of the body it loads. */
  ghost predicate KeepsId(load: Loader)
  {
    forall e: Option<Course>, b: CourseBody, partial: bool ::
      load(e, b, partial).Ok? && b.courseId.Some? ==> load(e, b, partial).value.courseId == b.courseId.value
  }

  /** The loader updates the stored row: a column the body leaves out keeps
      the stored row's value. */
  ghost predicate MergesIntoRow(load: Loader)
  {
    forall e: Course, b: CourseBody, partial: bool :: load(Some(e), b, partial).Ok? ==>
      && (b.name.None? ==> load(Some(e), b, partial).value.name == e.name)
      && (b.description.None? ==> load(Some(e), b, partial).value.description == e.description)
  }

  /** With a loader that keeps the id, a successful POST or PUT stores the
      loaded course under the path id and leaves every other course as it
      was, whatever id the body named. */
  lemma SavedUnderPathId(courses: map<int, Course>, courseId: int, body: CourseBody, load: Loader, partial: bool)
    requires KeepsId(load)
    ensures
      var r := if partial then Put(courses, courseId, body, load) else Post(courses, courseId, body, load);
      r.Ok? ==>
        && courseId in After(courses, r)
        && After(courses, r)[courseId].courseId == courseId
        && (forall k :: k != courseId ==> FindById(After(courses, r), k) == FindById(courses, k))
  {
    var b := WithPathId(body, courseId);
    var e := FindById(courses, courseId);
    if load(e, b, partial).Ok? {
      assert load(e, b, partial).value.courseId == courseId;
    }
  }

  /** A request that aborts leaves the table as it was; in particular a
      DELETE of a missing id changes nothing. */
  lemma DeleteMissingKeepsTable(courses: map<int, Course>, courseId: int)
    requires courseId !in courses
    ensures Delete(courses, courseId).Err?
    ensures Delete(courses, courseId).failure.status == NotFound
    ensures After(courses, Delete(courses, courseId)) == courses
  {
  }

  /** A DELETE of a present id removes exactly that course: the table
      afterwards is the old one without its key. */
  lemma DeleteRemovesExactly(courses: map<int, Course>, courseId: int)
    requires courseId in courses
    ensures After(courses, Delete(courses, courseId)).Keys == courses.Keys - {courseId}
    ensures forall k :: k in After(courses, Delete(courses, courseId)) ==> After(courses, Delete(courses, courseId))[k] == courses[k]
  {
    var t := After(courses, Delete(courses, courseId));
    forall k | k in t
      ensures k in courses && t[k] == courses[k]
    {
      assert FindById(t, k) == FindById(courses, k);
    }
    forall k | k in courses && k != courseId
      ensures k in t
    {
      assert FindById(t, k) == FindById(courses, k);
    }
  }

  /** A course that was just POSTed with a loader that keeps the id is
      found by GET under the path id, and a DELETE of it restores a table
      that did not have that id. */
  lemma PostGetDelete(courses: map<int, Course>, courseId: int, body: CourseBody, load: Loader, full: Option<string>)
    requires KeepsId(load)
    requires courseId !in courses
    requires Post(courses, courseId, body, load).Ok?
    ensures
      var t := Post(courses, courseId, body, load).value.courses;
      && Get(t, courseId, full).Ok?
      && Get(t, courseId, full).value.courseId == courseId
      && After(t, Delete(t, courseId)) == courses
  {
    var b := WithPathId(body, courseId);
    var c := load(FindById(courses, courseId), b, false).value;
    assert c.courseId == courseId;
    var t := Post(courses, courseId, body, load).value.courses;
    assert t == courses[courseId := c];
  }

  /** A PUT of a stored course, with a loader that keeps the id and
      updates the stored row, leaves every column the body omits as it was:
      the stored course is the old row with only the given columns
      replaced. */
  lemma PutKeepsUnsetColumns(courses: map<int, Course>, courseId: int, body: CourseBody, load: Loader)
    requires KeepsId(load) && MergesIntoRow(load)
    requires CoursesKeyed(courses) && courseId in courses
    requires Put(courses, courseId, body, load).Ok?
    ensures
      var stored := courses[courseId];
      var t := Put(courses, courseId, body, load).value.courses;
      && courseId in t
      && t[courseId].courseId == stored.courseId
      && (body.name.None? ==> t[courseId].name == stored.name)
      && (body.description.None? ==> t[courseId].description == stored.description)
  {
    var b := WithPathId(body, courseId);
    var e := courses[courseId];
    var c := load(Some(e), b, true).value;
    assert c.courseId == courseId;
    assert b.name == body.name && b.description == body.description;
    var t := Put(courses, courseId, body, load).value.courses;
    assert FindById(t, courseId) == Some(c);
  }

  // ---------------------------------------------------------------------
  // `/courses`
  // ---------------------------------------------------------------------

  /** `CourseList.get`: every course in ascending id order, each in the
      projection the flag selects. */
  method ListCourses(courses: map<int, Course>, full: Option<string>) returns (r: seq<CourseView>)
    requires CoursesKeyed(courses)
    ensures |r| == |courses|
    ensures forall i, j :: 0 <= i < j < |r| ==> r[i].courseId < r[j].courseId
    ensures forall i :: 0 <= i < |r| ==> r[i].courseId in courses && r[i] == View(courses[r[i].courseId], full)
    ensures forall id :: id in courses ==> exists i :: 0 <= i < |r| && r[i].courseId == id
  {
    var ids, rows := GetAll(courses);
    r := seq(|rows|, i requires 0 <= i < |rows| => View(rows[i], full));
    forall id | id in courses
      ensures exists i :: 0 <= i < |r| && r[i].courseId == id
    {
      var i :| 0 <= i < |ids| && ids[i] == id;
      assert r[i].courseId == id;
    }
  }
}
