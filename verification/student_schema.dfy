/**
 The student schemas: the name validators, the short projection with its
 flattened group and course names, and the pre-load hook that applies the
 business rules of creating and updating a student before the payload is
 loaded. The HTTP verb the hook inspects becomes an explicit operation tag.
 */
module StudentSchema {
  import opened Common
  import opened Entities
  import opened Models

  // ---------------------------------------------------------------------
  // Field validators
  // ---------------------------------------------------------------------

  const NameMinLength: int := 1
  const NameMaxLength: int := 50

  /** The `Length(min=1, max=50)` validator of `first_name` and `last_name`. */
  predicate ValidName(s: string)
  {
    NameMinLength <= |s| <= NameMaxLength
  }

  const ValidationFailure: Failure := Failure(BadRequest, Text("ValidationError"))

  /** Field validation of a load: a name that is present must pass the
      length validator, otherwise the load fails with a 400 validation
      error. An absent name is not validated. */
  function ValidateNames(firstName: Option<string>, lastName: Option<string>): (r: Result<()>)
    ensures r.Ok? <==>
              && (firstName.Some? ==> 1 <= |firstName.value| <= 50)
              && (lastName.Some? ==> 1 <= |lastName.value| <= 50)
    ensures r.Err? ==> r.failure == ValidationFailure
  {
    if firstName.Some? && !ValidName(firstName.value) then Err(ValidationFailure)
    else if lastName.Some? && !ValidName(lastName.value) then Err(ValidationFailure)
    else Ok(())
  }

  /** Names the schema accepts always fit the `String(50)` columns, so a row
      built from them is refused by the table only for a dangling group. */
  lemma AcceptedNamesFitColumns(s: Student, groups: map<int, Group>)
    requires ValidateNames(Some(s.firstName), Some(s.lastName)).Ok?
    ensures StudentRowFits(s, groups) <==> (s.groupId.Some? ==> s.groupId.value in groups)
  {
  }

  // ---------------------------------------------------------------------
  // Short projection
  // ---------------------------------------------------------------------

  datatype ShortStudent = ShortStudent(
    studentId: int,
    firstName: string,
    lastName: string,
    groupName: Option<string>,
    courseNames: Option<string>)

  /** `group_name`: the name of the student's group as the relationship
      loads it; a student without a group, or whose group row is missing,
      has none. */
  function GroupName(s: Student, groups: map<int, Group>): (r: Option<string>)
    ensures r.Some? <==> s.groupId.Some? && s.groupId.value in groups
    ensures r.Some? ==> r.value == groups[s.groupId.value].name
  {
    match s.groupId
    case None => None
    case Some(g) =>
      match FindById(groups, g)
      case None => None
      case Some(group) => Some(group.name)
  }

  /** For a row whose group reference exists, `group_name` is absent
      exactly when the student has no group. */
  lemma GroupNameAbsentIffNoGroup(s: Student, groups: map<int, Group>)
    requires s.groupId.Some? ==> s.groupId.value in groups
    ensures GroupName(s, groups).None? <==> s.groupId.None?
    ensures s.groupId.Some? ==> GroupName(s, groups) == Some(groups[s.groupId.value].name)
  {
  }

  /** `sep.join(parts)`: each part at its offset, a separator after every
      part but the last, and the last part ending the string; no parts give
      the empty string. */
  function Join(parts: seq<string>, sep: string): (r: string)
    ensures |parts| == 0 ==> r == ""
    ensures forall i {:trigger Offset(parts, sep, i)} :: 0 <= i < |parts| ==>
              && Offset(parts, sep, i) + |parts[i]| <= |r|
              && r[Offset(parts, sep, i)..Offset(parts, sep, i) + |parts[i]|] == parts[i]
    ensures forall i {:trigger Offset(parts, sep, i)} :: 0 <= i && i + 1 < |parts| ==>
              && Offset(parts, sep, i) + |parts[i]| + |sep| <= |r|
              && r[Offset(parts, sep, i) + |parts[i]|..Offset(parts, sep, i) + |parts[i]| + |sep|] == sep
    ensures |parts| > 0 ==> Offset(parts, sep, |parts| - 1) + |parts[|parts| - 1]| == |r|
  {
    JoinPartsAtOffsets(parts, sep);
    JoinPartsSeparators(parts, sep);
    JoinPartsLength(parts, sep);
    JoinParts(parts, sep)
  }

  /** The joined string built part by part. */
  function JoinParts(parts: seq<string>, sep: string): string
    decreases |parts|
  {
    if |parts| == 0 then ""
    else if |parts| == 1 then parts[0]
    else parts[0] + sep + JoinParts(parts[1..], sep)
  }

  /** Where the `i`-th part starts in the joined string: every earlier part
      followed by one separator. */
  function Offset(parts: seq<string>, sep: string, i: nat): nat
    requires i <= |parts|
    decreases i
  {
    if i == 0 then 0 else |parts[0]| + |sep| + Offset(parts[1..], sep, i - 1)
  }

  lemma SliceOfSuffix(a: string, b: string, lo: int, hi: int)
    requires |a| <= lo <= hi <= |a| + |b|
    ensures (a + b)[lo..hi] == b[lo - |a|..hi - |a|]
  {
    assert forall k :: 0 <= k < hi - lo ==> (a + b)[lo..hi][k] == b[lo - |a|..hi - |a|][k];
  }

  /** The layout of a joined string: each part sits at its offset, a
      separator follows every part but the last, and the last part ends
      the string. Together these determine the joined string completely. */
  lemma {:induction false} JoinLayout(parts: seq<string>, sep: string, i: nat)
    requires i < |parts|
    ensures Offset(parts, sep, i) + |parts[i]| <= |JoinParts(parts, sep)|
    ensures JoinParts(parts, sep)[Offset(parts, sep, i)..Offset(parts, sep, i) + |parts[i]|] == parts[i]
    ensures i + 1 < |parts| ==>
              && Offset(parts, sep, i) + |parts[i]| + |sep| <= |JoinParts(parts, sep)|
              && JoinParts(parts, sep)[Offset(parts, sep, i) + |parts[i]|..Offset(parts, sep, i) + |parts[i]| + |sep|] == sep
    ensures i + 1 == |parts| ==> Offset(parts, sep, i) + |parts[i]| == |JoinParts(parts, sep)|
    decreases i
  {
    if i == 0 {
      assert Offset(parts, sep, 0) == 0;
      if |parts| == 1 {
        assert JoinParts(parts, sep) == parts[0];
      } else {
        JoinLayoutFirst(parts, sep);
      }
    } else {
      var tail := parts[1..];
      var head := parts[0] + sep;
      JoinLayout(tail, sep, i - 1);
      assert tail[i - 1] == parts[i];
      ShiftLayout(JoinParts(parts, sep), head, JoinParts(tail, sep), Offset(parts, sep, i), Offset(tail, sep, i - 1), parts[i], sep, i + 1 == |parts|);
    }
  }

  /** The first of at least two parts starts the joined string and is
      followed by a separator. */
  lemma JoinLayoutFirst(parts: seq<string>, sep: string)
    requires 2 <= |parts|
    ensures |parts[0]| + |sep| <= |JoinParts(parts, sep)|
    ensures JoinParts(parts, sep)[..|parts[0]|] == parts[0]
    ensures JoinParts(parts, sep)[|parts[0]|..|parts[0]| + |sep|] == sep
  {
    var joined := JoinParts(parts, sep);
    assert joined == parts[0] + sep + JoinParts(parts[1..], sep);
  }

  /** A part (and the separator after it) found at `at` in `rest` sits at
      `|head| + at` in `whole == head + rest`. */
  lemma ShiftLayout(whole: string, head: string, rest: string, off: int, at: nat, part: string, sep: string, last: bool)
    requires whole == head + rest && off == |head| + at
    requires at + |part| <= |rest| && rest[at..at + |part|] == part
    requires !last ==> at + |part| + |sep| <= |rest| && rest[at + |part|..at + |part| + |sep|] == sep
    requires last ==> at + |part| == |rest|
    ensures 0 <= off && off + |part| <= |whole|
    ensures whole[off..off + |part|] == part
    ensures !last ==> off + |part| + |sep| <= |whole| && whole[off + |part|..off + |part| + |sep|] == sep
    ensures last ==> off + |part| == |whole|
  {
    SliceOfSuffix(head, rest, off, off + |part|);
    if !last {
      SliceOfSuffix(head, rest, off + |part|, off + |part| + |sep|);
    }
  }

  lemma JoinPartsAtOffsets(parts: seq<string>, sep: string)
    ensures forall i {:trigger Offset(parts, sep, i)} :: 0 <= i < |parts| ==>
              && Offset(parts, sep, i) + |parts[i]| <= |JoinParts(parts, sep)|
              && JoinParts(parts, sep)[Offset(parts, sep, i)..Offset(parts, sep, i) + |parts[i]|] == parts[i]
  {
    forall i | 0 <= i < |parts|
      ensures Offset(parts, sep, i) + |parts[i]| <= |JoinParts(parts, sep)|
      ensures JoinParts(parts, sep)[Offset(parts, sep, i)..Offset(parts, sep, i) + |parts[i]|] == parts[i]
    {
      JoinLayout(parts, sep, i);
    }
  }

  lemma JoinPartsLength(parts: seq<string>, sep: string)
    ensures |parts| == 0 ==> JoinParts(parts, sep) == ""
    ensures |parts| > 0 ==> Offset(parts, sep, |parts| - 1) + |parts[|parts| - 1]| == |JoinParts(parts, sep)|
  {
    if |parts| > 0 {
      JoinLayout(parts, sep, |parts| - 1);
    }
  }

  lemma JoinPartsSeparators(parts: seq<string>, sep: string)
    ensures forall i {:trigger Offset(parts, sep, i)} :: 0 <= i && i + 1 < |parts| ==>
              && Offset(parts, sep, i) + |parts[i]| + |sep| <= |JoinParts(parts, sep)|
              && JoinParts(parts, sep)[Offset(parts, sep, i) + |parts[i]|..Offset(parts, sep, i) + |parts[i]| + |sep|] == sep
  {
    forall i | 0 <= i && i + 1 < |parts|
      ensures Offset(parts, sep, i) + |parts[i]| + |sep| <= |JoinParts(parts, sep)|
      ensures JoinParts(parts, sep)[Offset(parts, sep, i) + |parts[i]|..Offset(parts, sep, i) + |parts[i]| + |sep|] == sep
    {
      JoinLayout(parts, sep, i);
    }
  }

  function Names(courses: seq<Course>): (r: seq<string>)
    ensures |r| == |courses| && forall i :: 0 <= i < |courses| ==> r[i] == courses[i].name
  {
    seq(|courses|, i requires 0 <= i < |courses| => courses[i].name)
  }

  const CourseNameSeparator: string := ", "

  /** `course_names`: nothing for a student without courses, otherwise the
      course names joined by ", " in the order of the course list. */
  function CourseNames(courses: seq<Course>): (r: Option<string>)
    ensures r.None? <==> |courses| == 0
  {
    if |courses| == 0 then None else Some(Join(Names(courses), CourseNameSeparator))
  }

  /** Where each course name sits in `course_names`. */
  lemma CourseNamesLayout(courses: seq<Course>, i: nat)
    requires i < |courses|
    ensures CourseNames(courses).Some?
    ensures var text := CourseNames(courses).value;
            var at := Offset(Names(courses), CourseNameSeparator, i);
            && at + |courses[i].name| <= |text|
            && text[at..at + |courses[i].name|] == courses[i].name
            && (i + 1 < |courses| ==>
                  && at + |courses[i].name| + 2 <= |text|
                  && text[at + |courses[i].name|..at + |courses[i].name| + 2] == ", ")
            && (i + 1 == |courses| ==> at + |courses[i].name| == |text|)
  {
    assert Names(courses)[i] == courses[i].name;
  }

  /** The short projection of a student: its id and names as stored, the
      name of its group when that group exists, and its course names joined
      in course-list order when it has any courses. */
  function DumpShort(s: Student, groups: map<int, Group>): (r: ShortStudent)
    ensures r.studentId == s.studentId && r.firstName == s.firstName && r.lastName == s.lastName
    ensures r.groupName.Some? <==> s.groupId.Some? && s.groupId.value in groups
    ensures r.groupName.Some? ==> r.groupName.value == groups[s.groupId.value].name
    ensures r.courseNames.None? <==> |s.courses| == 0
    ensures r.courseNames.Some? ==> r.courseNames.value == Join(Names(s.courses), CourseNameSeparator)
  {
    ShortStudent(s.studentId, s.firstName, s.lastName, GroupName(s, groups), CourseNames(s.courses))
  }

  // ---------------------------------------------------------------------
  // The dictionary semantics of removing courses
  // ---------------------------------------------------------------------

  /** `list(dict.fromkeys(s))`: each element once, at its first occurrence. */
  function FromKeys<T(==,!new)>(s: seq<T>): (r: seq<T>)
    ensures Distinct(r)
    ensures forall x :: x in r <==> x in s
    decreases |s|
  {
    if |s| == 0 then []
    else
      var kept := FromKeys(s[..|s| - 1]);
      if s[|s| - 1] in kept then kept else kept + [s[|s| - 1]]
  }

  /** Popping every element of `deletion` from the dictionary `d`. */
  function Without<T(==,!new)>(d: seq<T>, deletion: seq<T>): (r: seq<T>)
    ensures forall x :: x in r <==> x in d && x !in deletion
    ensures Distinct(d) ==> Distinct(r)
    decreases |d|
  {
    if |d| == 0 then []
    else
      var kept := Without(d[..|d| - 1], deletion);
      if d[|d| - 1] in deletion then kept else kept + [d[|d| - 1]]
  }

  /** The index of the first occurrence of `x`. */
  function FirstIndex<T(==)>(s: seq<T>, x: T): (k: nat)
    requires x in s
    ensures k < |s| && s[k] == x
    ensures forall j :: 0 <= j < k ==> s[j] != x
    decreases |s|
  {
    if s[0] == x then 0 else 1 + FirstIndex(s[1..], x)
  }

  /** Every element of `r` occurs in `s`, and `r` lists them in the order
      of their first occurrences in `s`. */
  predicate InFirstOccurrenceOrder<T(==)>(r: seq<T>, s: seq<T>)
  {
    && (forall i :: 0 <= i < |r| ==> r[i] in s)
    && (forall i, j :: 0 <= i < j < |r| ==> FirstIndex(s, r[i]) < FirstIndex(s, r[j]))
  }

  lemma FirstIndexInPrefix<T>(p: seq<T>, x: T, y: T)
    requires y in p
    ensures FirstIndex(p + [x], y) == FirstIndex(p, y)
  {
    var k := FirstIndex(p, y);
    assert (p + [x])[k] == y;
  }

  lemma FirstIndexOfNew<T>(p: seq<T>, x: T)
    requires x !in p
    ensures FirstIndex(p + [x], x) == |p|
  {
    assert (p + [x])[|p|] == x;
  }

  lemma {:induction false} FromKeysOrder<T(!new)>(s: seq<T>)
    ensures InFirstOccurrenceOrder(FromKeys(s), s)
    decreases |s|
  {
    if |s| > 0 {
      var p := s[..|s| - 1];
      var x := s[|s| - 1];
      assert s == p + [x];
      var kept := FromKeys(p);
      FromKeysOrder(p);
      forall y | y in p
        ensures FirstIndex(s, y) == FirstIndex(p, y)
      {
        FirstIndexInPrefix(p, x, y);
      }
      if x !in kept {
        FirstIndexOfNew(p, x);
        var r := kept + [x];
        forall i, j | 0 <= i < j < |r|
          ensures FirstIndex(s, r[i]) < FirstIndex(s, r[j])
        {
          if j < |kept| {
            assert r[i] == kept[i] && r[j] == kept[j];
          } else {
            assert r[i] == kept[i] && r[j] == x;
          }
        }
      }
    }
  }

  lemma {:induction false} WithoutKeepsOrder<T(!new)>(d: seq<T>, deletion: seq<T>, s: seq<T>)
    requires InFirstOccurrenceOrder(d, s)
    ensures InFirstOccurrenceOrder(Without(d, deletion), s)
    decreases |d|
  {
    if |d| > 0 {
      var p := d[..|d| - 1];
      var x := d[|d| - 1];
      assert InFirstOccurrenceOrder(p, s);
      WithoutKeepsOrder(p, deletion, s);
      var kept := Without(p, deletion);
      if x !in deletion {
        var r := kept + [x];
        forall i, j | 0 <= i < j < |r|
          ensures FirstIndex(s, r[i]) < FirstIndex(s, r[j])
        {
          if j == |kept| {
            assert r[i] in p;
            var k :| 0 <= k < |p| && p[k] == r[i];
            assert d[k] == r[i] && d[|d| - 1] == r[j];
          } else {
            assert r[i] == kept[i] && r[j] == kept[j];
          }
        }
      }
    }
  }

  /** The course list after `delete_courses`, the dictionary built from the
      held courses with every deleted course popped: duplicates collapse,
      every occurrence of a deleted course goes, and the survivors keep the
      order of their first occurrences. */
  function DeleteCourses(held: seq<Course>, deletion: seq<Course>): (r: seq<Course>)
    ensures Distinct(r)
    ensures forall c :: c in r <==> c in held && c !in deletion
    ensures InFirstOccurrenceOrder(r, held)
  {
    FromKeysOrder(held);
    WithoutKeepsOrder(FromKeys(held), deletion, held);
    Without(FromKeys(held), deletion)
  }

  lemma {:induction false} WithoutUnheld<T(!new)>(d: seq<T>, deletion: seq<T>, x: T)
    requires x !in d
    ensures Without(d, deletion + [x]) == Without(d, deletion)
    decreases |d|
  {
    if |d| > 0 {
      WithoutUnheld(d[..|d| - 1], deletion, x);
      assert d[|d| - 1] in deletion + [x] <==> d[|d| - 1] in deletion;
    }
  }

  /** Listing a course the student does not hold for deletion changes
      nothing. */
  lemma DeleteUnheldIsNoop(held: seq<Course>, deletion: seq<Course>, c: Course)
    requires c !in held
    ensures DeleteCourses(held, deletion + [c]) == DeleteCourses(held, deletion)
  {
    WithoutUnheld(FromKeys(held), deletion, c);
  }

  lemma {:induction false} FromKeysOfDistinct<T(!new)>(s: seq<T>)
    requires Distinct(s)
    ensures FromKeys(s) == s
    decreases |s|
  {
    if |s| > 0 {
      var p := s[..|s| - 1];
      FromKeysOfDistinct(p);
      assert s[|s| - 1] !in p;
      assert s == p + [s[|s| - 1]];
    }
  }

  lemma {:induction false} WithoutNothingHeld<T(!new)>(d: seq<T>, deletion: seq<T>)
    requires forall x :: x in d ==> x !in deletion
    ensures Without(d, deletion) == d
    decreases |d|
  {
    if |d| > 0 {
      var p := d[..|d| - 1];
      WithoutNothingHeld(p, deletion);
      assert d == p + [d[|d| - 1]];
    }
  }

  /** Deleting only courses a student without duplicates does not hold
      leaves the list exactly as it was. */
  lemma DeleteNothingHeldKeepsList(held: seq<Course>, deletion: seq<Course>)
    requires Distinct(held)
    requires forall c :: c in deletion ==> c !in held
    ensures DeleteCourses(held, deletion) == held
  {
    FromKeysOfDistinct(held);
    WithoutNothingHeld(held, deletion);
  }

  // ---------------------------------------------------------------------
  // The pre-load hook
  // ---------------------------------------------------------------------

  /** The HTTP verb of the request: POST creates, PUT updates, and any
      other verb leaves the payload alone. */
  datatype Operation = Create | Update | OtherMethod

  /** The keys of a student payload the hook reads; an absent key is None. */
  datatype StudentFields = StudentFields(
    studentId: Option<int>,
    firstName: Option<string>,
    lastName: Option<string>,
    groupId: Option<int>,
    courses: Option<seq<int>>,
    addCourses: Option<seq<int>>,
    deleteCourses: Option<seq<int>>)

  /** The payload is a JSON object, or some other JSON value. */
  datatype Payload = Dict(fields: StudentFields) | NotDict(raw: string)

  /** The hook's outcome: the payload it hands on, the course records that
      replaced the `courses` ids (on create), and the students table with
      the updated student's course list (on update). */
  datatype PreLoaded = PreLoaded(payload: Payload, resolvedCourses: Option<seq<Course>>, students: map<int, Student>)

  /** Python truthiness of `data.get(key)` for an id list: present and
      non-empty. */
  predicate Given(ids: Option<seq<int>>)
  {
    ids.Some? && |ids.value| > 0
  }

  /** The id is present and taken in the table. */
  predicate Taken<T>(t: map<int, T>, id: Option<int>)
  {
    id.Some? && id.value in t
  }

  /** Every id of a given list is a known course. */
  predicate AllKnown(courses: map<int, Course>, ids: Option<seq<int>>)
  {
    Given(ids) ==> forall i :: 0 <= i < |ids.value| ==> ids.value[i] in courses
  }

  const PutCoursesFailure: Failure := Failure(BadRequest, Text("student_err_put_courses"))

  /** The records of a given id list, or no records when the list is not given. */
  function ResolveGiven(courses: map<int, Course>, ids: Option<seq<int>>): Result<seq<Course>>
  {
    if Given(ids) then ResolveAll(courses, ids.value, CourseKind) else Ok([])
  }

  /** The course list after the update: `add_courses` extends the held list,
      then `delete_courses`, when given, rebuilds it without the deleted
      courses. */
  function UpdatedCourses(held: seq<Course>, courses: map<int, Course>, f: StudentFields): (r: Result<seq<Course>>)
    ensures r.Ok? <==> AllKnown(courses, f.addCourses) && AllKnown(courses, f.deleteCourses)
    ensures !AllKnown(courses, f.addCourses) ==>
              r.Err? && exists i :: FirstMissing(courses, f.addCourses.value, i)
                                    && r.failure == NotFoundFailure(CourseKind, Some(f.addCourses.value[i]))
    ensures AllKnown(courses, f.addCourses) && !AllKnown(courses, f.deleteCourses) ==>
              r.Err? && exists i :: FirstMissing(courses, f.deleteCourses.value, i)
                                    && r.failure == NotFoundFailure(CourseKind, Some(f.deleteCourses.value[i]))
    ensures AllKnown(courses, f.addCourses) && !Given(f.deleteCourses) ==>
              r == Ok(held + Resolved(courses, f.addCourses))
    ensures AllKnown(courses, f.addCourses) && AllKnown(courses, f.deleteCourses) && Given(f.deleteCourses) ==>
              r == Ok(DeleteCourses(held + Resolved(courses, f.addCourses), Resolved(courses, f.deleteCourses)))
  {
    var added :- ResolveGiven(courses, f.addCourses);
    ResolveGivenIsResolved(courses, f.addCourses);
    var extended := held + added;
    if Given(f.deleteCourses) then
      var deletion :- ResolveAll(courses, f.deleteCourses.value, CourseKind);
      ResolveGivenIsResolved(courses, f.deleteCourses);
      Ok(DeleteCourses(extended, deletion))
    else
      Ok(extended)
  }

  /** `process_data`, the pre-load hook of the full student schema. */
  function ProcessData(op: Operation, payload: Payload, students: map<int, Student>, courses: map<int, Course>): (r: Result<PreLoaded>)
    // Anything but a JSON object, and any verb but POST and PUT, passes untouched.
    ensures payload.NotDict? || op == OtherMethod ==> r == Ok(PreLoaded(payload, None, students))
    ensures r.Ok? ==> r.value.payload == payload
    // Create: the id check comes before any course is resolved.
    ensures op == Create && payload.Dict? && Taken(students, payload.fields.studentId) ==>
              r == Err(ExistsFailure(StudentKind, payload.fields.studentId))
    ensures op == Create && payload.Dict? && !Taken(students, payload.fields.studentId) ==>
              (r.Ok? <==> AllKnown(courses, payload.fields.courses))
    ensures op == Create && r.Ok? ==> r.value.students == students
    ensures op == Create && payload.Dict? && r.Ok? ==>
              (r.value.resolvedCourses.Some? <==> Given(payload.fields.courses))
    ensures op == Create && payload.Dict? && r.Ok? && Given(payload.fields.courses) ==>
              var ids := payload.fields.courses.value;
              && |r.value.resolvedCourses.value| == |ids|
              && forall i :: 0 <= i < |ids| ==> r.value.resolvedCourses.value[i] == courses[ids[i]]
    ensures op == Create && payload.Dict? && !Taken(students, payload.fields.studentId)
            && Given(payload.fields.courses) && r.Err? ==>
              exists i :: FirstMissing(courses, payload.fields.courses.value, i)
                          && r.failure == NotFoundFailure(CourseKind, Some(payload.fields.courses.value[i]))
    // Update: a missing student first, then a bare course list, then the id lists.
    ensures op == Update && payload.Dict? && !Taken(students, payload.fields.studentId) ==>
              r == Err(NotFoundFailure(StudentKind, payload.fields.studentId))
    ensures op == Update && payload.Dict? && Taken(students, payload.fields.studentId) && Given(payload.fields.courses) ==>
              r == Err(PutCoursesFailure)
    ensures op == Update && payload.Dict? && Taken(students, payload.fields.studentId) && !Given(payload.fields.courses) ==>
              (r.Ok? <==> AllKnown(courses, payload.fields.addCourses) && AllKnown(courses, payload.fields.deleteCourses))
    // The added ids are resolved before the deleted ones; the first unknown id aborts with 404.
    ensures op == Update && payload.Dict? && Taken(students, payload.fields.studentId) && !Given(payload.fields.courses)
            && Given(payload.fields.addCourses) && !AllKnown(courses, payload.fields.addCourses) ==>
              r.Err? && exists i :: FirstMissing(courses, payload.fields.addCourses.value, i)
                                    && r.failure == NotFoundFailure(CourseKind, Some(payload.fields.addCourses.value[i]))
    ensures op == Update && payload.Dict? && Taken(students, payload.fields.studentId) && !Given(payload.fields.courses)
            && AllKnown(courses, payload.fields.addCourses)
            && Given(payload.fields.deleteCourses) && !AllKnown(courses, payload.fields.deleteCourses) ==>
              r.Err? && exists i :: FirstMissing(courses, payload.fields.deleteCourses.value, i)
                                    && r.failure == NotFoundFailure(CourseKind, Some(payload.fields.deleteCourses.value[i]))
    ensures op == Update && payload.Dict? && r.Ok? ==>
              var id := payload.fields.studentId.value;
              && r.value.resolvedCourses == None
              && r.value.students.Keys == students.Keys
              && (forall k :: k in students && k != id ==> r.value.students[k] == students[k])
              && r.value.students[id] == students[id].(courses := r.value.students[id].courses)
  {
    match payload
    case NotDict(_) => Ok(PreLoaded(payload, None, students))
    case Dict(f) =>
      match op
      case OtherMethod => Ok(PreLoaded(payload, None, students))
      case Create =>
        var idFree :- NotFindByIdOr400(students, f.studentId, StudentKind);
        if Given(f.courses) then
          var resolved :- ResolveAll(courses, f.courses.value, CourseKind);
          Ok(PreLoaded(payload, Some(resolved), students))
        else
          Ok(PreLoaded(payload, None, students))
      case Update =>
        var student :- FindByIdOr404(students, f.studentId, StudentKind);
        if Given(f.courses) then
          Err(PutCoursesFailure)
        else
          var kept :- UpdatedCourses(student.courses, courses, f);
          Ok(PreLoaded(payload, None, students[f.studentId.value := student.(courses := kept)]))
  }

  /** The records of a given id list whose ids are all known. */
  function Resolved(courses: map<int, Course>, ids: Option<seq<int>>): seq<Course>
    requires AllKnown(courses, ids)
  {
    if Given(ids) then seq(|ids.value|, i requires 0 <= i < |ids.value| => courses[ids.value[i]]) else []
  }

  lemma ResolveGivenIsResolved(courses: map<int, Course>, ids: Option<seq<int>>)
    requires AllKnown(courses, ids)
    ensures ResolveGiven(courses, ids) == Ok(Resolved(courses, ids))
  {
    if Given(ids) {
      var r := ResolveAll(courses, ids.value, CourseKind);
      assert r.Ok?;
      assert r.value == Resolved(courses, ids);
    }
  }

  /** The course list a successful update leaves: without `delete_courses`
      it is the held list extended by the added courses, duplicates and
      all; with it, it holds each course once, exactly the held or added
      courses that were not deleted, in first-occurrence order. */
  lemma UpdateCourseList(payload: Payload, students: map<int, Student>, courses: map<int, Course>)
    requires payload.Dict? && ProcessData(Update, payload, students, courses).Ok?
    ensures Taken(students, payload.fields.studentId)
    ensures AllKnown(courses, payload.fields.addCourses) && AllKnown(courses, payload.fields.deleteCourses)
    ensures var f := payload.fields;
            var id := f.studentId.value;
            var extended := students[id].courses + Resolved(courses, f.addCourses);
            var after := ProcessData(Update, payload, students, courses).value.students[id].courses;
            && (!Given(f.deleteCourses) ==> after == extended)
            && (Given(f.deleteCourses) ==>
                  && Distinct(after)
                  && (forall c :: c in after <==> c in extended && c !in Resolved(courses, f.deleteCourses))
                  && InFirstOccurrenceOrder(after, extended))
  {
    var f := payload.fields;
    var id := f.studentId.value;
    ResolveGivenIsResolved(courses, f.addCourses);
    ResolveGivenIsResolved(courses, f.deleteCourses);
  }

  /** Adds are applied before deletes: a course listed in both
      `add_courses` and `delete_courses` ends up absent. */
  lemma AddThenDeleteRemoves(payload: Payload, students: map<int, Student>, courses: map<int, Course>, courseId: int)
    requires payload.Dict? && ProcessData(Update, payload, students, courses).Ok?
    requires payload.fields.addCourses.Some? && courseId in payload.fields.addCourses.value
    requires payload.fields.deleteCourses.Some? && courseId in payload.fields.deleteCourses.value
    ensures courseId in courses
    ensures var after := ProcessData(Update, payload, students, courses).value.students[payload.fields.studentId.value].courses;
            courses[courseId] !in after
  {
    UpdateCourseList(payload, students, courses);
    var f := payload.fields;
    var i :| 0 <= i < |f.deleteCourses.value| && f.deleteCourses.value[i] == courseId;
    assert Resolved(courses, f.deleteCourses)[i] == courses[courseId];
  }

  /** `add_courses` extends rather than unites: adding a course the student
      already holds lists it twice in the in-memory course list. */
  lemma AddHeldCourseDuplicates()
    ensures var math := Course(1, "Math", "");
            var jo := Student(5, "Jo", "Do", None, [math]);
            var payload := Dict(StudentFields(Some(5), None, None, None, None, Some([1]), None));
            var r := ProcessData(Update, payload, map[5 := jo], map[1 := math]);
            r.Ok? && r.value.students[5].courses == [math, math]
  {
    var math := Course(1, "Math", "");
    var f := StudentFields(Some(5), None, None, None, None, Some([1]), None);
    var resolved := ResolveAll(map[1 := math], [1], CourseKind);
    assert resolved.Ok?;
    assert resolved.value == [math];
    assert Given(f.addCourses) && !Given(f.deleteCourses);
    assert ResolveGiven(map[1 := math], f.addCourses) == Ok([math]);
    assert [math] + [math] == [math, math];
    assert UpdatedCourses([math], map[1 := math], f) == Ok([math, math]);
  }

  /** A deletion list, even one naming only courses the student does not
      hold, rebuilds the in-memory list through `dict.fromkeys`, which
      collapses duplicates. After adding a held course, a deletion of an
      unheld one leaves one copy where the same update without it leaves
      two. */
  lemma DeleteUnheldCollapsesDuplicates()
    ensures var math := Course(1, "Math", "");
            var physics := Course(2, "Physics", "");
            var jo := Student(5, "Jo", "Do", None, [math]);
            var payload := Dict(StudentFields(Some(5), None, None, None, None, Some([1]), Some([2])));
            var r := ProcessData(Update, payload, map[5 := jo], map[1 := math, 2 := physics]);
            r.Ok? && r.value.students[5].courses == [math]
  {
    var math := Course(1, "Math", "");
    var physics := Course(2, "Physics", "");
    var jo := Student(5, "Jo", "Do", None, [math]);
    var students := map[5 := jo];
    var table := map[1 := math, 2 := physics];
    var f := StudentFields(Some(5), None, None, None, None, Some([1]), Some([2]));
    assert FindByIdOr404(students, f.studentId, StudentKind) == Ok(jo);
    assert !Given(f.courses);
    CollapsedUpdate(math, physics, f);
    assert ProcessData(Update, Dict(f), students, table) == Ok(PreLoaded(Dict(f), None, students[5 := jo.(courses := [math])]));
  }

  lemma CollapsedUpdate(math: Course, physics: Course, f: StudentFields)
    requires math == Course(1, "Math", "") && physics == Course(2, "Physics", "")
    requires f == StudentFields(Some(5), None, None, None, None, Some([1]), Some([2]))
    ensures UpdatedCourses([math], map[1 := math, 2 := physics], f) == Ok([math])
  {
    var table := map[1 := math, 2 := physics];
    assert AllKnown(table, f.addCourses) && AllKnown(table, f.deleteCourses);
    assert Resolved(table, f.addCourses) == [math];
    assert Resolved(table, f.deleteCourses) == [physics];
    assert [math] + [math] == [math, math];
    DuplicateSurvivesOnce(math, physics);
  }

  lemma DuplicateSurvivesOnce(a: Course, b: Course)
    requires a != b
    ensures DeleteCourses([a, a], [b]) == [a]
  {
    assert [a][..0] == [] && [a, a][..1] == [a];
    assert FromKeys([a]) == [a];
    assert FromKeys([a, a]) == [a];
    assert Without([a], [b]) == [a];
  }

  // ---------------------------------------------------------------------
  // Course records held by students
  // ---------------------------------------------------------------------

  /** Every course a student holds is the course table's record under its
      id, as an ORM session's identity map guarantees: one object per row. */
  predicate CoursesCurrent(students: map<int, Student>, courses: map<int, Course>)
  {
    forall id, c :: id in students && c in students[id].courses ==> c.courseId in courses && courses[c.courseId] == c
  }

  lemma ResolvedAreCurrent(courses: map<int, Course>, ids: Option<seq<int>>)
    requires CoursesKeyed(courses) && AllKnown(courses, ids)
    ensures forall c :: c in Resolved(courses, ids) ==> c.courseId in courses && courses[c.courseId] == c
  {
    forall c | c in Resolved(courses, ids)
      ensures c.courseId in courses && courses[c.courseId] == c
    {
      var i :| 0 <= i < |Resolved(courses, ids)| && Resolved(courses, ids)[i] == c;
      assert Given(ids);
      var id := ids.value[i];
      assert id in courses && c == courses[id];
      assert courses[id].courseId == id;
    }
  }

  /** The hook only ever hands a student records taken from the course
      table, so held courses stay the table's records. */
  lemma ProcessDataKeepsCoursesCurrent(op: Operation, payload: Payload, students: map<int, Student>, courses: map<int, Course>)
    requires CoursesKeyed(courses) && CoursesCurrent(students, courses)
    requires ProcessData(op, payload, students, courses).Ok?
    ensures CoursesCurrent(ProcessData(op, payload, students, courses).value.students, courses)
  {
    if op == Update && payload.Dict? {
      UpdateCourseList(payload, students, courses);
      var f := payload.fields;
      var id := f.studentId.value;
      ResolvedAreCurrent(courses, f.addCourses);
      var after := ProcessData(op, payload, students, courses).value.students;
      forall k, c | k in after && c in after[k].courses
        ensures c.courseId in courses && courses[c.courseId] == c
      {
        if k == id {
          assert c in students[id].courses + Resolved(courses, f.addCourses);
        }
      }
    }
  }

  /** With held courses current, `delete_courses` removes by id: after an
      update that lists deletions, a course remains exactly when the student
      held or was given it and its id is not among the deleted ids. */
  lemma DeleteRemovesById(payload: Payload, students: map<int, Student>, courses: map<int, Course>)
    requires CoursesKeyed(courses) && CoursesCurrent(students, courses)
    requires payload.Dict? && ProcessData(Update, payload, students, courses).Ok?
    requires Given(payload.fields.deleteCourses)
    ensures Taken(students, payload.fields.studentId) && AllKnown(courses, payload.fields.addCourses)
    ensures var f := payload.fields;
            var id := f.studentId.value;
            var extended := students[id].courses + Resolved(courses, f.addCourses);
            var after := ProcessData(Update, payload, students, courses).value.students[id].courses;
            forall c :: c in after <==> c in extended && c.courseId !in f.deleteCourses.value
  {
    UpdateCourseList(payload, students, courses);
    var f := payload.fields;
    var id := f.studentId.value;
    var extended := students[id].courses + Resolved(courses, f.addCourses);
    var deletion := Resolved(courses, f.deleteCourses);
    ResolvedAreCurrent(courses, f.addCourses);
    forall c | c in extended
      ensures c in deletion <==> c.courseId in f.deleteCourses.value
    {
      assert courses[c.courseId] == c;
      if c.courseId in f.deleteCourses.value {
        var i :| 0 <= i < |f.deleteCourses.value| && f.deleteCourses.value[i] == c.courseId;
        assert deletion[i] == c;
      }
      if c in deletion {
        var i :| 0 <= i < |deletion| && deletion[i] == c;
        assert f.deleteCourses.value[i] == c.courseId;
      }
    }
  }
}
