/**
 The rows of the university schema. A student belongs to at most one group
 and holds an ordered list of courses; the list holds the course records
 themselves, as the ORM relationship does.
 */
module Entities {
  import opened Common

  datatype Group = Group(groupId: int, name: string)

  datatype Course = Course(courseId: int, name: string, description: string)

  datatype Student = Student(
    studentId: int,
    firstName: string,
    lastName: string,
    groupId: Option<int>,
    courses: seq<Course>)

  /** Width of the `first_name` and `last_name` columns, `String(50)`. */
  const NameColumnWidth: int := 50

  /** What the `students` table accepts for a row: both names fit their
      columns, and `group_id`, when set, references an existing group. */
  predicate StudentRowFits(s: Student, groups: map<int, Group>)
  {
    && |s.firstName| <= NameColumnWidth
    && |s.lastName| <= NameColumnWidth
    && (s.groupId.Some? ==> s.groupId.value in groups)
  }

  /** Every student is stored under its own `student_id`. */
  predicate StudentsKeyed(students: map<int, Student>)
  {
    forall id :: id in students ==> students[id].studentId == id
  }

  /** Every course is stored under its own `course_id`. */
  predicate CoursesKeyed(courses: map<int, Course>)
  {
    forall id :: id in courses ==> courses[id].courseId == id
  }
}
