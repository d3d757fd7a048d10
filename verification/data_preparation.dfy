/**
 Generation of the development fixtures: groups with random names, courses
 numbered from a name-to-description table, a random number of free seats
 per group, and students that take one seat each while seats last. Every
 random draw is a parameter, constrained only to the range the random call
 guarantees.
 */
module DataPreparation {
  import opened Common
  import opened Entities
  import opened Numerals

  /** How many values `range(1, n + 1)` yields. */
  function RangeLength(n: int): nat
  {
    if n > 0 then n else 0
  }

  // ---------------------------------------------------------------------
  // Free seats per group
  // ---------------------------------------------------------------------

  /** One entry of the seats dictionary: a group and its free seats. The
      dictionary is a sequence of entries in insertion order. */
  datatype Seat = Seat(groupId: int, free: int)

  /** `sum(available_places_in_groups.values())`. */
  function Sum(places: seq<Seat>): int
    decreases |places|
  {
    if |places| == 0 then 0 else places[0].free + Sum(places[1..])
  }

  predicate NonNegative(places: seq<Seat>)
  {
    forall i :: 0 <= i < |places| ==> places[i].free >= 0
  }

  /** Dictionary keys are distinct. */
  predicate DistinctGroups(places: seq<Seat>)
  {
    forall i, j :: 0 <= i < j < |places| ==> places[i].groupId != places[j].groupId
  }

  function GroupIds(places: seq<Seat>): set<int>
  {
    set s | s in places :: s.groupId
  }

  /** `generate_available_places_in_groups`: groups 1 to `numberOfGroups`,
      in that order, each with the seats drawn by `randint(lower, upper)`. */
  function GenerateAvailablePlaces(lower: int, upper: int, numberOfGroups: int, draws: seq<int>): (r: seq<Seat>)
    requires |draws| == RangeLength(numberOfGroups)
    requires forall i :: 0 <= i < |draws| ==> lower <= draws[i] <= upper
    ensures |r| == RangeLength(numberOfGroups)
    ensures DistinctGroups(r)
    ensures forall i :: 0 <= i < |r| ==> r[i].groupId == i + 1 && lower <= r[i].free <= upper
    ensures lower >= 0 ==> NonNegative(r)
  {
    seq(|draws|, i requires 0 <= i < |draws| => Seat(i + 1, draws[i]))
  }

  lemma {:induction false} SumNonNegative(places: seq<Seat>)
    requires NonNegative(places)
    ensures Sum(places) >= 0
    decreases |places|
  {
    if |places| > 0 {
      SumNonNegative(places[1..]);
    }
  }

  /** Changing the seats of one entry changes the sum by the difference. */
  lemma {:induction false} SumUpdate(places: seq<Seat>, i: nat, v: int)
    requires i < |places|
    ensures Sum(places[i := places[i].(free := v)]) == Sum(places) - places[i].free + v
    decreases |places|
  {
    var updated := places[i := places[i].(free := v)];
    if i == 0 {
      assert updated[1..] == places[1..];
    } else {
      assert updated[1..] == places[1..][i - 1 := places[i].(free := v)];
      SumUpdate(places[1..], i - 1, v);
    }
  }

  /** A non-zero sum has an entry with non-zero seats. */
  lemma {:induction false} OpenSeat(places: seq<Seat>) returns (j: nat)
    requires Sum(places) != 0
    ensures j < |places| && places[j].free != 0
    decreases |places|
  {
    if places[0].free != 0 {
      j := 0;
    } else {
      var k := OpenSeat(places[1..]);
      j := k + 1;
    }
  }

  /** Entry `i` is the first, in dictionary order, with non-zero seats. */
  predicate FirstOpen(places: seq<Seat>, i: int)
  {
    && 0 <= i < |places|
    && places[i].free != 0
    && forall j :: 0 <= j < i ==> places[j].free == 0
  }

  /** `_assign_student_to_group`: no group when the seats sum to zero, and
      then nothing changes; otherwise the first group with non-zero seats,
      which loses one seat. */
  method AssignStudentToGroup(places: seq<Seat>) returns (g: Option<int>, after: seq<Seat>)
    ensures g.None? <==> Sum(places) == 0
    ensures g.None? ==> after == places
    ensures g.Some? ==>
              exists i :: FirstOpen(places, i) && g.value == places[i].groupId
                          && after == places[i := places[i].(free := places[i].free - 1)]
    ensures g.Some? ==> Sum(after) == Sum(places) - 1
    ensures NonNegative(places) ==> NonNegative(after)
    ensures NonNegative(places) && g.Some? ==>
              exists i :: 0 <= i < |places| && places[i].groupId == g.value && places[i].free >= 1
  {
    if Sum(places) == 0 {
      return None, places;
    }
    ghost var open := OpenSeat(places);
    var i := 0;
    while places[i].free == 0
      invariant 0 <= i <= open
      invariant forall j :: 0 <= j < i ==> places[j].free == 0
      decreases open - i
    {
      i := i + 1;
    }
    after := places[i := places[i].(free := places[i].free - 1)];
    SumUpdate(places, i, places[i].free - 1);
    g := Some(places[i].groupId);
  }

  // ---------------------------------------------------------------------
  // Group names and instances
  // ---------------------------------------------------------------------

  const Uppercase: string := "ABCDEFGHIJKLMNOPQRSTUVWXYZ"
  const GroupNameSeparator: string := "-"
  const GroupNumberLow: int := 10
  const GroupNumberHigh: int := 100

  /** The draws behind one group name: two positions in `letters`, as
      `choices(letters, k=2)` picks them, and `randint(10, 100)`. */
  datatype NameDraw = NameDraw(first: nat, second: nat, number: int)

  predicate NameDrawInRange(letters: string, d: NameDraw)
  {
    d.first < |letters| && d.second < |letters| && GroupNumberLow <= d.number <= GroupNumberHigh
  }

  /** `_generate_group_name`: two drawn letters, the separator and the
      decimal digits of the drawn number. The name has the group-name shape,
      its digits read back to the drawn number, and the number takes three
      digits exactly when it is 100. */
  function GenerateGroupName(letters: string, separator: string, d: NameDraw): (name: string)
    requires NameDrawInRange(letters, d)
    ensures |name| >= 2 && name[0] == letters[d.first] && name[1] == letters[d.second]
    ensures IsGroupName(name, letters, separator)
    ensures 2 + |separator| <= |name| && FromDecimal(name[2 + |separator|..]) == d.number
    ensures |name| == 2 + |separator| + (if d.number == 100 then 3 else 2)
  {
    var name := [letters[d.first], letters[d.second]] + separator + ToDecimal(d.number);
    assert name[2 + |separator|..] == ToDecimal(d.number);
    assert name[2..2 + |separator|] == separator;
    FromToDecimal(d.number);
    DecimalLength(d.number);
    name
  }

  /** The shape of a generated group name: two characters of `letters`,
      the separator, then two or three decimal digits denoting a number
      from 10 to 100. */
  predicate IsGroupName(name: string, letters: string, separator: string)
  {
    && |name| >= 2 + |separator|
    && name[0] in letters
    && name[1] in letters
    && name[2..2 + |separator|] == separator
    && var digits := name[2 + |separator|..];
       && 2 <= |digits| <= 3
       && (forall i :: 0 <= i < |digits| ==> IsDigit(digits[i]))
       && GroupNumberLow <= FromDecimal(digits) <= GroupNumberHigh
  }

  /** The documented "AA-11" shape has five characters, but the number 100
      gives a six-character name. */
  lemma HundredGivesThreeDigits()
    ensures GenerateGroupName(Uppercase, GroupNameSeparator, NameDraw(0, 0, 100)) == "AA-100"
  {
    assert ToDecimal(100) == "100";
  }

  /** `generate_group_instances`: groups numbered from 1 in order, each
      with a generated name. */
  function GenerateGroupInstances(numberOfGroups: int, draws: seq<NameDraw>): (r: seq<Group>)
    requires |draws| == RangeLength(numberOfGroups)
    requires forall i :: 0 <= i < |draws| ==> NameDrawInRange(Uppercase, draws[i])
    ensures |r| == RangeLength(numberOfGroups)
    ensures forall i :: 0 <= i < |r| ==> r[i].groupId == i + 1
    ensures forall i :: 0 <= i < |r| ==> IsGroupName(r[i].name, Uppercase, GroupNameSeparator)
  {
    seq(|draws|, i requires 0 <= i < |draws| => Group(i + 1, GenerateGroupName(Uppercase, GroupNameSeparator, draws[i])))
  }

  // ---------------------------------------------------------------------
  // Course instances
  // ---------------------------------------------------------------------

  /** `generate_course_instances`: one course per entry of the name-to-
      description table, in table order, numbered from 1, with name and
      description passed through `str.title()`. */
  function GenerateCourseInstances(table: seq<(string, string)>, title: string -> string): (r: seq<Course>)
    ensures |r| == |table|
    ensures forall i :: 0 <= i < |r| ==> r[i].courseId == i + 1
    ensures forall i :: 0 <= i < |r| ==> r[i].name == title(table[i].0) && r[i].description == title(table[i].1)
  {
    seq(|table|, i requires 0 <= i < |table| => Course(i + 1, title(table[i].0), title(table[i].1)))
  }

  // ---------------------------------------------------------------------
  // Student instances
  // ---------------------------------------------------------------------

  /** The draws behind one student: positions in the first and last name
      lists (`choice`), and the positions `sample(courses, randint(1, 3))`
      picks. */
  datatype StudentDraw = StudentDraw(firstName: nat, lastName: nat, courses: seq<nat>)

  predicate StudentDrawInRange(d: StudentDraw, firstNames: seq<string>, lastNames: seq<string>, courses: seq<Course>)
  {
    && d.firstName < |firstNames|
    && d.lastName < |lastNames|
    && 1 <= |d.courses| <= 3
    && Distinct(d.courses)
    && forall k :: 0 <= k < |d.courses| ==> d.courses[k] < |courses|
  }

  /** `sample(range(1, n + 1), n)`: the numbers 1 to `n` in some order. */
  predicate IsIdPermutation(order: seq<int>, n: nat)
  {
    && |order| == n
    && Distinct(order)
    && forall i :: 0 <= i < n ==> 1 <= order[i] <= n
  }

  /** The courses at the sampled positions. */
  function Pick(courses: seq<Course>, positions: seq<nat>): (r: seq<Course>)
    requires forall k :: 0 <= k < |positions| ==> positions[k] < |courses|
    ensures |r| == |positions|
    ensures forall k :: 0 <= k < |r| ==> r[k] == courses[positions[k]]
  {
    seq(|positions|, k requires 0 <= k < |positions| => courses[positions[k]])
  }

  /** Distinct positions of distinct courses give distinct courses. */
  lemma PickDistinct(courses: seq<Course>, positions: seq<nat>)
    requires forall k :: 0 <= k < |positions| ==> positions[k] < |courses|
    requires Distinct(positions)
    ensures Distinct(courses) ==> Distinct(Pick(courses, positions))
  {
    if !Distinct(courses) {
      return;
    }
    var r := Pick(courses, positions);
    forall i, j | 0 <= i < j < |r|
      ensures r[i] != r[j]
    {
      assert positions[i] != positions[j];
      if positions[i] < positions[j] {
        assert courses[positions[i]] != courses[positions[j]];
      } else {
        assert courses[positions[j]] != courses[positions[i]];
      }
    }
  }

  /** How many students have a group. */
  function Assigned(students: seq<Student>): nat
    decreases |students|
  {
    if |students| == 0 then 0
    else Assigned(students[..|students| - 1]) + (if students[|students| - 1].groupId.Some? then 1 else 0)
  }

  /** How many students are in group `g`. */
  function InGroup(students: seq<Student>, g: int): nat
    decreases |students|
  {
    if |students| == 0 then 0
    else InGroup(students[..|students| - 1], g) + (if students[|students| - 1].groupId == Some(g) then 1 else 0)
  }

  lemma {:induction false} AssignedAtMostAll(students: seq<Student>)
    ensures Assigned(students) <= |students|
    decreases |students|
  {
    if |students| > 0 {
      AssignedAtMostAll(students[..|students| - 1]);
    }
  }

  lemma CountsAppend(students: seq<Student>, s: Student)
    ensures Assigned(students + [s]) == Assigned(students) + (if s.groupId.Some? then 1 else 0)
    ensures forall g :: InGroup(students + [s], g) == InGroup(students, g) + (if s.groupId == Some(g) then 1 else 0)
  {
    assert (students + [s])[..|students|] == students;
  }

  function Min(a: int, b: int): int
  {
    if a <= b then a else b
  }

  /** Every group keeps its place in the dictionary and has lost one seat
      per student in it. */
  predicate SeatsTaken(places: seq<Seat>, students: seq<Student>, remaining: seq<Seat>)
  {
    && |remaining| == |places|
    && (forall k :: 0 <= k < |places| ==> remaining[k].groupId == places[k].groupId)
    && (forall k :: 0 <= k < |places| ==> InGroup(students, places[k].groupId) == places[k].free - remaining[k].free)
  }

  /** A student has no group exactly when the earlier students took every
      seat, and otherwise has a group of the dictionary. */
  predicate GroupsAsAvailable(places: seq<Seat>, students: seq<Student>)
  {
    && (forall j :: 0 <= j < |students| && students[j].groupId.Some? ==> students[j].groupId.value in GroupIds(places))
    && (forall j :: 0 <= j < |students| ==> (students[j].groupId.None? <==> Assigned(students[..j]) == Sum(places)))
  }

  /** The seat bookkeeping after some students took seats; with
      non-negative seats no count goes negative and every student got a
      group while seats lasted. */
  predicate SeatsAccounted(places: seq<Seat>, students: seq<Student>, remaining: seq<Seat>)
  {
    && SeatsTaken(places, students, remaining)
    && GroupsAsAvailable(places, students)
    && Sum(remaining) == Sum(places) - Assigned(students)
    && (NonNegative(places) ==> NonNegative(remaining) && Assigned(students) == Min(|students|, Sum(places)))
  }

  /** `after` is what `_assign_student_to_group` leaves of `remaining` when
      it returns `g`, as `AssignStudentToGroup` ensures. */
  ghost predicate AssignOutcome(remaining: seq<Seat>, g: Option<int>, after: seq<Seat>)
  {
    && (g.None? <==> Sum(remaining) == 0)
    && (g.None? ==> after == remaining)
    && (g.Some? ==>
          exists i :: FirstOpen(remaining, i) && g.value == remaining[i].groupId
                      && after == remaining[i := remaining[i].(free := remaining[i].free - 1)])
    && (g.Some? ==> Sum(after) == Sum(remaining) - 1)
    && (NonNegative(remaining) ==> NonNegative(after))
  }

  lemma SeatsTakenStep(places: seq<Seat>, students: seq<Student>, remaining: seq<Seat>, g: Option<int>, after: seq<Seat>, s: Student)
    requires DistinctGroups(places)
    requires SeatsTaken(places, students, remaining)
    requires AssignOutcome(remaining, g, after)
    requires s.groupId == g
    ensures SeatsTaken(places, students + [s], after)
    ensures g.Some? ==> g.value in GroupIds(places)
  {
    CountsAppend(students, s);
    if g.Some? {
      var j :| FirstOpen(remaining, j) && g.value == remaining[j].groupId
               && after == remaining[j := remaining[j].(free := remaining[j].free - 1)];
      assert places[j] in places;
      forall k | 0 <= k < |places|
        ensures InGroup(students + [s], places[k].groupId) == places[k].free - after[k].free
      {
        if k != j {
          assert places[k].groupId != places[j].groupId;
        }
      }
    }
  }

  lemma GroupsAsAvailableStep(places: seq<Seat>, students: seq<Student>, remaining: seq<Seat>, s: Student)
    requires GroupsAsAvailable(places, students)
    requires Sum(remaining) == Sum(places) - Assigned(students)
    requires s.groupId.None? <==> Sum(remaining) == 0
    requires s.groupId.Some? ==> s.groupId.value in GroupIds(places)
    ensures GroupsAsAvailable(places, students + [s])
  {
    var next := students + [s];
    forall j | 0 <= j < |students|
      ensures next[..j] == students[..j]
    {
    }
    assert next[..|students|] == students;
  }

  lemma FillStep(places: seq<Seat>, students: seq<Student>, remaining: seq<Seat>, g: Option<int>, after: seq<Seat>, s: Student)
    requires Sum(remaining) == Sum(places) - Assigned(students)
    requires NonNegative(places) ==> NonNegative(remaining) && Assigned(students) == Min(|students|, Sum(places))
    requires AssignOutcome(remaining, g, after)
    requires s.groupId == g
    ensures Sum(after) == Sum(places) - Assigned(students + [s])
    ensures NonNegative(places) ==> NonNegative(after) && Assigned(students + [s]) == Min(|students| + 1, Sum(places))
  {
    CountsAppend(students, s);
    AssignedAtMostAll(students);
    if NonNegative(places) {
      SumNonNegative(remaining);
    }
  }

  /** One more student taking a seat through `_assign_student_to_group`
      keeps the bookkeeping. */
  lemma AssignKeepsAccount(places: seq<Seat>, students: seq<Student>, remaining: seq<Seat>, g: Option<int>, after: seq<Seat>, s: Student)
    requires DistinctGroups(places)
    requires SeatsAccounted(places, students, remaining)
    requires AssignOutcome(remaining, g, after)
    requires s.groupId == g
    ensures SeatsAccounted(places, students + [s], after)
  {
    SeatsTakenStep(places, students, remaining, g, after, s);
    GroupsAsAvailableStep(places, students, remaining, s);
    FillStep(places, students, remaining, g, after, s);
  }

  /** The seats dictionary after the students `prior` took theirs: every
      group in its place, less one seat per student in it. */
  function SeatsLeft(places: seq<Seat>, prior: seq<Student>): (r: seq<Seat>)
    ensures |r| == |places|
    ensures forall k :: 0 <= k < |places| ==>
              r[k].groupId == places[k].groupId && r[k].free == places[k].free - InGroup(prior, places[k].groupId)
  {
    seq(|places|, k requires 0 <= k < |places| => places[k].(free := places[k].free - InGroup(prior, places[k].groupId)))
  }

  /** Every student with a group got the first group, in dictionary order,
      that still had seats when the student's turn came. */
  ghost predicate FirstFit(places: seq<Seat>, students: seq<Student>)
  {
    forall j :: 0 <= j < |students| && students[j].groupId.Some? ==>
      exists k :: FirstOpen(SeatsLeft(places, students[..j]), k) && students[j].groupId.value == places[k].groupId
  }

  /** The seats that remain are the seats the students have not taken. */
  lemma RemainingIsSeatsLeft(places: seq<Seat>, students: seq<Student>, remaining: seq<Seat>)
    requires SeatsTaken(places, students, remaining)
    ensures remaining == SeatsLeft(places, students)
  {
    var left := SeatsLeft(places, students);
    forall k | 0 <= k < |places|
      ensures remaining[k] == left[k]
    {
      assert remaining[k].free == places[k].free - InGroup(students, places[k].groupId);
    }
  }

  /** One more student placed by `_assign_student_to_group` keeps every
      placement first-fit. */
  lemma FirstFitStep(places: seq<Seat>, students: seq<Student>, remaining: seq<Seat>, g: Option<int>, after: seq<Seat>, s: Student)
    requires SeatsTaken(places, students, remaining)
    requires FirstFit(places, students)
    requires AssignOutcome(remaining, g, after)
    requires s.groupId == g
    ensures FirstFit(places, students + [s])
  {
    var next := students + [s];
    forall j | 0 <= j < |next| && next[j].groupId.Some?
      ensures exists k :: FirstOpen(SeatsLeft(places, next[..j]), k) && next[j].groupId.value == places[k].groupId
    {
      if j < |students| {
        assert next[..j] == students[..j];
        assert next[j] == students[j];
      } else {
        assert next[..j] == students;
        RemainingIsSeatsLeft(places, students, remaining);
        var i :| FirstOpen(remaining, i) && g.value == remaining[i].groupId
                 && after == remaining[i := remaining[i].(free := remaining[i].free - 1)];
        assert FirstOpen(SeatsLeft(places, next[..j]), i) && next[j].groupId.value == places[i].groupId;
      }
    }
  }

  /** With one seat in each of groups 1 and 2, a first-fit student who gets
      a group gets group 1. */
  lemma FirstFitTakesFirstGroup(s: Student)
    requires FirstFit([Seat(1, 1), Seat(2, 1)], [s]) && s.groupId.Some?
    ensures s.groupId == Some(1)
  {
    var places := [Seat(1, 1), Seat(2, 1)];
    assert [s][..0] == [];
    var k :| FirstOpen(SeatsLeft(places, []), k) && s.groupId.value == places[k].groupId;
    assert SeatsLeft(places, [])[0].free == 1;
  }

  /** With non-negative seats the bookkeeping rules out an over-filled group. */
  lemma AccountedFill(places: seq<Seat>, students: seq<Student>, remaining: seq<Seat>)
    requires SeatsAccounted(places, students, remaining)
    ensures NonNegative(places) ==> forall k :: 0 <= k < |places| ==> InGroup(students, places[k].groupId) <= places[k].free
  {
  }

  /** The student built from the `i`-th draw. */
  predicate FromDraw(s: Student, id: int, d: StudentDraw, firstNames: seq<string>, lastNames: seq<string>,
                     courses: seq<Course>, title: string -> string)
  {
    && s.studentId == id
    && d.firstName < |firstNames| && s.firstName == title(firstNames[d.firstName])
    && d.lastName < |lastNames| && s.lastName == title(lastNames[d.lastName])
    && 1 <= |s.courses| <= 3
    && (forall c :: c in s.courses ==> c in courses)
    && (Distinct(courses) ==> Distinct(s.courses))
  }

  /** The `StudentModel(...)` of one draw: the drawn id, the title-cased
      drawn names, the group the seats gave, and the sampled courses. */
  function NewStudent(id: int, d: StudentDraw, group: Option<int>, firstNames: seq<string>, lastNames: seq<string>,
                      courses: seq<Course>, title: string -> string): (s: Student)
    requires StudentDrawInRange(d, firstNames, lastNames, courses)
    ensures FromDraw(s, id, d, firstNames, lastNames, courses, title)
    ensures s.groupId == group
  {
    PickDistinct(courses, d.courses);
    Student(id, title(firstNames[d.firstName]), title(lastNames[d.lastName]), group, Pick(courses, d.courses))
  }

  /** `generate_student_instances`: one student per drawn id, in draw order,
      each with the drawn names and one to three sampled courses, and each
      taking a seat through `_assign_student_to_group` while seats last:
      the first group in dictionary order that still has seats. Every group keeps its place in the seats dictionary and loses one seat
      per student in it; a student has no group exactly when the earlier
      students took every seat; with non-negative seats no group is
      over-filled and min(students, seats) students get a group. */
  method GenerateStudentInstances(numberOfStudents: nat, firstNames: seq<string>, lastNames: seq<string>, places: seq<Seat>,
                                  courses: seq<Course>, order: seq<int>, draws: seq<StudentDraw>, title: string -> string)
    returns (students: seq<Student>, remaining: seq<Seat>)
    requires IsIdPermutation(order, numberOfStudents)
    requires |draws| == numberOfStudents
    requires forall i :: 0 <= i < |draws| ==> StudentDrawInRange(draws[i], firstNames, lastNames, courses)
    requires DistinctGroups(places)
    ensures |students| == numberOfStudents
    ensures forall i :: 0 <= i < |students| && i < |draws| && i < |order| ==>
              students[i] == NewStudent(order[i], draws[i], students[i].groupId, firstNames, lastNames, courses, title)
    ensures SeatsAccounted(places, students, remaining)
    ensures FirstFit(places, students)
    ensures NonNegative(places) ==> forall k :: 0 <= k < |places| ==> InGroup(students, places[k].groupId) <= places[k].free
  {
    students := [];
    remaining := places;
    if NonNegative(places) {
      SumNonNegative(places);
    }
    var i := 0;
    while i < numberOfStudents
      invariant 0 <= i <= numberOfStudents
      invariant |students| == i
      invariant forall j :: 0 <= j < i ==> students[j] == NewStudent(order[j], draws[j], students[j].groupId, firstNames, lastNames, courses, title)
      invariant SeatsAccounted(places, students, remaining)
      invariant FirstFit(places, students)
    {
      var d := draws[i];
      var g, after := AssignStudentToGroup(remaining);
      var s := NewStudent(order[i], d, g, firstNames, lastNames, courses, title);
      assert AssignOutcome(remaining, g, after);
      AssignKeepsAccount(places, students, remaining, g, after, s);
      FirstFitStep(places, students, remaining, g, after, s);
      students := students + [s];
      remaining := after;
      i := i + 1;
    }
    AccountedFill(places, students, remaining);
  }
}
