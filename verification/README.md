# University REST API — a Dafny model of its core

This project models the core of a small Flask/SQLAlchemy/marshmallow REST API.
The API serves students, courses and groups. The model covers four parts:

- **Data access for one id-keyed table** (`Models`, from
  `api_university/models/student.py`): the "or 404" and "or 400" lookups,
  resolving a list of ids, the largest id, the listing in ascending id order,
  and saving or deleting a row. A table is a `map<int, T>` from primary key to
  row. The course model is not part of this model, so the course table uses
  the same operations with the course message keys.
- **The student schemas** (`StudentSchema`, from
  `api_university/schemas/student.py`):
  - the `Length(min=1, max=50)` name validators;
  - the short projection's `group_name` and `course_names`;
  - the `process_data` pre-load hook, which creates or updates a student. The
    HTTP verb it inspects is an explicit `Operation` tag (`Create`, `Update`,
    `OtherMethod`). The hook's in-place edit of the student's course list is a
    new students table in the result.
- **Fixture generation** (`DataPreparation` and `Numerals`, from
  `api_university/data/data_preparation.py`):
  - free seats per group, and group names;
  - course instances;
  - students that take a seat each through `_assign_student_to_group` while
    seats last.

  Each random draw is a parameter, with the range the random call guarantees
  as a precondition. The seats dictionary is a sequence of `(group, seats)`
  entries in insertion order, because the assignment depends on that order.
- **The course endpoints** (`CourseResource`, from
  `api_university/resources/course.py`). GET, POST, PUT and DELETE on
  `/courses/<id>` and GET on `/courses` are transitions on the course table.
  A request either aborts with a status and a message, leaving the table
  unchanged, or yields the new table and its reply.

`Common` holds `Option`, the `Result` of a request step (used with `:-`, so
the first abort ends the step, as `abort` does) and the `Message` of a
response. A message is a translation key, optionally formatted with an id.
`Entities` holds the records and the column constraints of the tables.

The hook edits the in-memory `student.courses` list, and the model states
what that list holds when the hook returns. What the database stores after
the commit is not modelled. That depends on the association table and the
ORM's flush of the collection. So the facts below are about the list the
hook leaves, not about what a later GET returns:

- `add_courses` extends the list with `list.extend`. Adding a course the
  student already holds therefore lists it twice in memory (see
  `StudentSchema.AddHeldCourseDuplicates`). It is not an idempotent union.
- `delete_courses` rebuilds the list through `dict.fromkeys`. Duplicates
  collapse to their first occurrence and every deleted course goes.
- A deletion of a course the student does not hold is no different from the
  same deletion without it. It is still a deletion, though, so the rebuild
  runs: after `add_courses` lists a held course, a deletion of an unheld one
  leaves a single copy in memory where the update without the deletion
  leaves two (see `StudentSchema.DeleteUnheldCollapsesDuplicates`).

Where the code and its documentation disagree, the model follows the code:

- On PUT, the student lookup runs before the bare `courses` check. A PUT for a
  missing student therefore fails with 404 even when it also carries a
  non-empty `courses` list. The 400 for that list comes only for an existing
  student.
- `_generate_group_name` is documented as producing names like "AA-11", but
  it draws `randint(10, 100)`. The number 100 gives the six-character name
  "AA-100" (see `DataPreparation.HundredGivesThreeDigits`).

## Model

| member | source | states |
|---|---|---|
| Models.FindById | api_university/models/student.py:38-39 | A row is found exactly when its key is in the table, and it is the row stored under that key. |
| Models.FindByIdOr404 | api_university/models/student.py:42-45 | Succeeds exactly when an id is given and found, with that row. Otherwise it aborts with 404 and "student_not_found" formatted with the id. |
| Models.NotFindByIdOr400 | api_university/models/student.py:48-51 | Aborts with 400 and "student_exists" formatted with the id exactly when the id is taken. Otherwise it passes. |
| Models.ResolveAll | api_university/models/student.py:54-59 | Succeeds exactly when every id is known, with the rows in the order of the ids. Otherwise the 404 names the first unknown id. |
| Models.GetByIdsOr404 | api_university/models/student.py:54-59 | No id list gives no rows. A list gives its rows in order, or a 404 when any id is unknown. |
| Models.GetMaxId | api_university/models/student.py:31-35 | 0 for an empty table, otherwise a key of the table that no key exceeds. |
| Models.SortedIds | api_university/models/student.py:23-24 | Every key exactly once, in strictly ascending order. |
| Models.GetAll | api_university/models/student.py:23-24 | Every row exactly once, in ascending key order, each paired with its key. |
| Models.GetAllStudents | api_university/models/student.py:23-24 | Every student of the table exactly once, with strictly ascending `student_id`. |
| Models.Save | api_university/models/student.py:61-63 | Afterwards the key finds the saved row, and every other key finds what it found before. |
| Models.Delete | api_university/models/student.py:65-67 | Afterwards the key finds nothing, and every other key finds what it found before. |
| Models.SaveThenDeleteRestores | api_university/models/student.py:61-67 | Saving a row under an unused key and deleting it again gives back the original table. |
| Models.SaveStudentKeepsTable | api_university/models/student.py:13-17 | Saving a student under its own id keeps every row stored under its own id. It also keeps every row within the column widths and the group foreign key. |
| StudentSchema.ValidateNames | api_university/schemas/student.py:29-30 | A load passes name validation exactly when each given name has 1 to 50 characters; otherwise it aborts with a 400 validation error. |
| StudentSchema.AcceptedNamesFitColumns | api_university/schemas/student.py:20-21 | Names the validators accept fit the `String(50)` columns, so only a dangling group can make such a row unacceptable. |
| StudentSchema.GroupName | api_university/schemas/student.py:22 | `group_name` is present exactly when the student has a group whose row exists, and it is that group's name. |
| StudentSchema.GroupNameAbsentIffNoGroup | api_university/schemas/student.py:22 | For a student whose group reference, if any, names an existing group, `group_name` is absent exactly when the student has no group. |
| StudentSchema.CourseNames | api_university/schemas/student.py:23-24 | `course_names` is absent exactly when the course list is empty. |
| StudentSchema.Join | api_university/schemas/student.py:23 | `sep.join(parts)` is empty for no parts. Otherwise every part sits at its offset, a separator follows every part but the last, and the last part ends the string. This determines the joined string completely. |
| StudentSchema.JoinLayout | api_university/schemas/student.py:23 | Built part by part, as `sep.join` concatenates, the `i`-th part sits at its offset and is followed by a separator unless it is the last part. The last part ends the string. |
| StudentSchema.DumpShort | api_university/schemas/student.py:14-24 | The short projection keeps the student's id and names. It has a group name exactly when the student's group exists, and then it is that group's name. It has course names exactly when the student has courses, and then they are the course names joined by ", " in course-list order. |
| StudentSchema.CourseNamesLayout | api_university/schemas/student.py:23-24 | `course_names` lists the course names in course-list order, separated by ", ", with nothing before the first or after the last. |
| StudentSchema.FromKeys | api_university/schemas/student.py:68 | `list(dict.fromkeys(s))` holds no duplicate, and an element is in it exactly when it is in `s`. |
| StudentSchema.FromKeysOrder | api_university/schemas/student.py:68 | `list(dict.fromkeys(s))` lists the elements in the order of their first occurrence in `s`. |
| StudentSchema.Without | api_university/schemas/student.py:69-70 | Popping the deleted keys leaves exactly the keys that were not deleted, and it keeps a list duplicate-free. |
| StudentSchema.WithoutKeepsOrder | api_university/schemas/student.py:69-71 | Popping keys keeps the survivors in their order. |
| StudentSchema.DeleteCourses | api_university/schemas/student.py:66-71 | After `delete_courses` the list has no duplicates. It holds exactly the held courses that were not deleted, in first-occurrence order. |
| StudentSchema.DeleteUnheldIsNoop | api_university/schemas/student.py:66-71 | Adding a course the student does not hold to a deletion list changes nothing, compared with the same deletion without it. |
| StudentSchema.DeleteUnheldCollapsesDuplicates | api_university/schemas/student.py:62-71 | Adding course 1 to a student who holds it, while deleting course 2 which the student does not hold, leaves the in-memory list `[math]`. The same update without the deletion leaves `[math, math]`. |
| StudentSchema.DeleteNothingHeldKeepsList | api_university/schemas/student.py:66-71 | Deleting only unheld courses from a duplicate-free list leaves it exactly as it was. |
| StudentSchema.ProcessData | api_university/schemas/student.py:45-72 | Anything but a JSON object, and any verb but POST or PUT, passes unchanged. POST: a taken id aborts with 400 before any course is resolved; otherwise it succeeds exactly when every given course id is known, replacing the ids by their records in order. PUT: a missing student aborts with 404 first, then a non-empty bare `courses` list with 400. Otherwise it succeeds exactly when every added and deleted id is known, and only that student's course list changes. An unknown course id fails with 404 naming the first unknown id of its list. The added ids are checked before the deleted ones. |
| StudentSchema.UpdatedCourses | api_university/schemas/student.py:62-71 | The update succeeds exactly when every added and every deleted id is a known course. An unknown added id fails with 404 naming the first one, before any deleted id is looked at. Without deletions the list is the held list extended by the added records. With deletions it is the `delete_courses` rebuild of that extended list. |
| StudentSchema.ResolveGivenIsResolved | api_university/schemas/student.py:62-67 | A given list of known course ids resolves to their records in order. A missing or empty list resolves to no records. |
| StudentSchema.UpdateCourseList | api_university/schemas/student.py:62-71 | After a successful update without deletions, the list is the old list extended by the added courses, duplicates kept. With deletions, it holds each course once: exactly the held or added courses not deleted, in first-occurrence order. |
| StudentSchema.AddThenDeleteRemoves | api_university/schemas/student.py:62-71 | Adds come before deletes, so a course in both lists ends up absent. |
| StudentSchema.AddHeldCourseDuplicates | api_university/schemas/student.py:62-64 | Adding course 1 to a student who holds it gives the in-memory course list `[math, math]`. |
| StudentSchema.ProcessDataKeepsCoursesCurrent | api_university/schemas/student.py:45-72 | If every course a student holds is the course table's record under its id, that still holds after a successful hook. |
| StudentSchema.DeleteRemovesById | api_university/schemas/student.py:66-71 | When held courses are the table's records, a successful update with deletions keeps a course exactly when the student held it or was given it and its id is not among the deleted ids. |
| Numerals.ToDecimal | api_university/data/data_preparation.py:28 | `str(n)` is a non-empty string of decimal digits with no leading zero. |
| Numerals.FromToDecimal | api_university/data/data_preparation.py:28 | Reading back the digits of `str(n)` gives `n`. |
| Numerals.DecimalLength | api_university/data/data_preparation.py:26-28 | The numbers 10 to 99 have two digits; 100 to 999 have three. |
| DataPreparation.GenerateAvailablePlaces | api_university/data/data_preparation.py:9-20 | Groups 1 to n, in order and without repeats, each with a seat count inside the drawn range. Non-negative bounds give non-negative counts. |
| DataPreparation.AssignStudentToGroup | api_university/data/data_preparation.py:53-65 | No group exactly when the seats sum to zero, and then nothing changes. Otherwise it returns the first group in dictionary order with non-zero seats, which loses exactly one seat. Non-negative seats stay non-negative. |
| DataPreparation.GenerateGroupName | api_university/data/data_preparation.py:23-29 | A group name is two drawn letters, the separator and the decimal digits of the drawn number. The digits read back to that number and take three places exactly for 100. |
| DataPreparation.HundredGivesThreeDigits | api_university/data/data_preparation.py:24-26 | The draw 100 gives the six-character name "AA-100", outside the documented "AA-11" shape. |
| DataPreparation.GenerateGroupInstances | api_university/data/data_preparation.py:32-39 | Groups numbered 1 to n in order, each with a name of the group-name shape. |
| DataPreparation.GenerateCourseInstances | api_university/data/data_preparation.py:42-50 | One course per table entry in table order, numbered from 1, with the title-cased name and description of that entry. |
| DataPreparation.Pick | api_university/data/data_preparation.py:79 | The sampled courses are the courses at the drawn positions, in draw order. |
| DataPreparation.PickDistinct | api_university/data/data_preparation.py:79 | Sampling distinct positions gives distinct courses whenever the course list is itself duplicate-free. |
| DataPreparation.AssignKeepsAccount | api_university/data/data_preparation.py:74-80 | One more student taking a seat keeps the seat bookkeeping. Every group has lost one seat per student in it. A student has no group exactly when earlier students took every seat. With non-negative seats, the number of placed students is the smaller of the student count and the seat total. |
| DataPreparation.NewStudent | api_university/data/data_preparation.py:75-79 | A generated student has the drawn id, the title-cased drawn names, the group it was given, and one to three courses from the list. The courses are distinct when the list is. |
| DataPreparation.GenerateStudentInstances | api_university/data/data_preparation.py:68-80 | One student per draw, built from that draw. The i-th student gets the i-th drawn id, so the ids are a permutation of 1 to n. Each group loses one seat per student placed in it, and a student is left without a group exactly when earlier students took every seat. With non-negative seats no group is over-filled, and min(students, seats) students get a group. Every student with a group got the first group, in dictionary order, that still had seats after the earlier students took theirs. |
| DataPreparation.FirstFitStep | api_university/data/data_preparation.py:61-80 | Placing one more student through the seat assignment keeps every placement first-fit. The new student's group is the first group in dictionary order with seats left after all earlier students, and earlier placements are unchanged. |
| DataPreparation.FirstFitTakesFirstGroup | api_university/data/data_preparation.py:61-65 | With one seat in each of groups 1 and 2, a first-fit student who gets a group gets group 1, never group 2. |
| CourseResource.TrueSpelling | api_university/resources/course.py:21 | A string lower-cases to "true" exactly when it has four characters spelling "true" in any mix of cases. |
| CourseResource.WantsFull | api_university/resources/course.py:21-24 | The full projection is chosen exactly for a four-letter `full` value spelling "true" in any mix of cases. An absent flag gives the short projection. |
| CourseResource.View | api_university/resources/course.py:9-10 | The short projection carries only `course_id` and `name`. The full projection also carries `description` and is chosen exactly when the flag asks for it. |
| CourseResource.Get | api_university/resources/course.py:18-25 | Succeeds exactly when the course exists, with its projection. Otherwise it aborts with 404 and "course_not_found" formatted with the id. |
| CourseResource.WithPathId | api_university/resources/course.py:31 | The body's `course_id` becomes the path id, and its other fields are kept. |
| CourseResource.LoadAndSave | api_university/resources/course.py:30-34 | The body is loaded together with the row stored under the path id. The loaded instance is saved under its id with every other row kept, and the reply is 200 with the verb's message. A failed load aborts with the loader's failure. |
| CourseResource.Post | api_university/resources/course.py:28-34 | Succeeds exactly when a non-partial load of the body under the path id succeeds. It stores the loaded course under its id, keeps every other course, and replies 200 with "course_post" formatted with the path id. |
| CourseResource.Put | api_university/resources/course.py:37-43 | Succeeds exactly when a partial load of the body under the path id succeeds. It stores the loaded course under its id, keeps every other course, and replies 200 with "course_put" formatted with the path id. |
| CourseResource.Delete | api_university/resources/course.py:46-50 | Succeeds exactly when the course exists: it removes that id, keeps every other course, and replies 200 with "course_delete". A missing id aborts with 404. |
| CourseResource.BodyIdIgnored | api_university/resources/course.py:28-43 | POST and PUT give the same result whatever `course_id` the body carries. |
| CourseResource.SavedUnderPathId | api_university/resources/course.py:28-43 | With a loader that keeps the body's id, a successful POST or PUT stores the course under the path id and leaves every other course as it was. |
| CourseResource.DeleteMissingKeepsTable | api_university/resources/course.py:46-50 | A DELETE of a missing id aborts with 404 and leaves the table unchanged. |
| CourseResource.DeleteRemovesExactly | api_university/resources/course.py:46-50 | A DELETE of a present id leaves exactly the other keys, each with its old row. |
| CourseResource.PutKeepsUnsetColumns | api_university/resources/course.py:37-43 | Suppose the loader keeps the id and updates the stored row. Then a PUT of a stored course keeps its id, and every column the body leaves out keeps its old value. |
| CourseResource.PostGetDelete | api_university/resources/course.py:16-50 | After a POST to an unused id, GET finds the course under that id, and DELETE restores the original table. |
| CourseResource.ListCourses | api_university/resources/course.py:53-62 | Every course exactly once, in strictly ascending id order, each in the projection the flag selects. |

## Left out

- `api_university/db/db_operations.py` and `api_university/app.py` are framework glue and database seeding. They are not part of this model.
- `get_number_of_students` is not part of this model. It calls `.first()` on the integer that `count()` returns.
- The custom query methods `get_or_404` and `not_exists_or_400` are not part of this model. They are taken as "abort exactly when the key is missing" and "abort exactly when the key is present".
- The course model is not part of this model. `find_by_id_or_404`, `get_courses_by_ids_or_404` and `get_all_courses` for courses are modelled by analogy with the student model, with the course message keys.
- Database commits are not modelled: integrity errors, sessions, cascades, the uniqueness of the student-course association rows, and how the flush turns the in-memory course list into association rows. Course records are compared structurally. The identity map, which makes a held course the same object as the table's row, is the predicate `StudentSchema.CoursesCurrent`. The deletion lemmas that do not assume it also cover tables outside it.
- CourseResource.Post: the course schema is not part of this model. Loading a body is the `Loader` parameter, which is given the row stored under the path id. What a full load accepts and how `unknown=INCLUDE` treats extra keys are not stated. The only assumption about the loader is the optional `KeepsId`.
- CourseResource.Put: the partial load is the same `Loader` parameter, called with the stored row. The contract does not fix which columns the loaded instance takes from that row. `CourseResource.PutKeepsUnsetColumns` states the update of the stored row under the assumption `MergesIntoRow`. That is how the course schema, loading an instance of the model, is expected to behave. It is assumed rather than derived, because the schema is not part of this model.
- A request body that is not a JSON object makes `course_json['course_id'] = ...` raise, which gives a 500. This is not modelled: `CourseBody` is always an object.
- CourseResource.WantsFull: the flag is lower-cased by ASCII case mapping, whereas Python's `str.lower` maps all of Unicode. No non-ASCII character lower-cases to one of `t`, `r`, `u`, `e` alone, so the comparison with "true" comes out the same.
- The translated message texts are not modelled; a message is its key and format argument.
- StudentSchema.ValidateNames: only the name length validators are modelled. The remaining field deserialization of the full schema (`load_only`, `dump_only`, nested group and course schemas) is not.
- StudentSchema.DumpShort: the `ordered` field order of the JSON output is not modelled.
- DataPreparation: `random` is not modelled. Every draw is a parameter, constrained to the range of its random call. `str.title` is a `string -> string` parameter.
- DataPreparation.GenerateAvailablePlaces: the `ValueError` that `randint` raises when the lower bound exceeds the upper bound is not modelled. The draw precondition cannot be met then for any group, so that error path is excluded rather than returned.
- DataPreparation.GenerateStudentInstances: these exceptions of the random calls are not modelled:
  - `sample(courses, k)` raising when there are fewer than `k` courses;
  - `choice` raising `IndexError` on an empty first- or last-name list;
  - `sample` raising for a negative number of students.

  The draw precondition asks for `k` distinct course positions and for name indices inside the lists. The student count is a `nat`. So these error paths are excluded rather than returned.
- The `__main__` demonstration block of `data_preparation.py` prints to the console and is not modelled.
