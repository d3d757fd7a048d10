/**
 The data-access layer: lookups, listing and mutation over one id-keyed
 table. The database table becomes a finite map from primary key to row;
 the same operations serve the students table and, by analogy, the courses
 table, which differ only in the message keys of their errors.
 */
module Models {
  import opened Common
  import opened Entities

  /** Which table a lookup runs against; it selects the message keys. */
  datatype Kind = StudentKind | CourseKind

  function NotFoundKey(kind: Kind): string
  {
    match kind
    case StudentKind => "student_not_found"
    case CourseKind => "course_not_found"
  }

  function ExistsKey(kind: Kind): string
  {
    match kind
    case StudentKind => "student_exists"
    case CourseKind => "course_exists"
  }

  /** The 404 abort of an "or 404" lookup, formatted with the missing id. */
  function NotFoundFailure(kind: Kind, id: Option<int>): Failure
  {
    Failure(NotFound, Formatted(NotFoundKey(kind), id))
  }

  /** The 400 abort of a "not find or 400" check, formatted with the taken id. */
  function ExistsFailure(kind: Kind, id: Option<int>): Failure
  {
    Failure(BadRequest, Formatted(ExistsKey(kind), id))
  }

  /** `find_by_id`: the row with that key, or None. */
  function FindById<T>(t: map<int, T>, id: int): (r: Option<T>)
    ensures r.Some? <==> id in t
    ensures r.Some? ==> r.value == t[id]
  {
    if id in t then Some(t[id]) else None
  }

  /** `find_by_id_or_404`: the row, or a 404 abort naming the id. An absent
      id (the payload had no id at all) is never found. */
  function FindByIdOr404<T>(t: map<int, T>, id: Option<int>, kind: Kind): (r: Result<T>)
    ensures r.Ok? <==> id.Some? && FindById(t, id.value).Some?
    ensures r.Ok? ==> Some(r.value) == FindById(t, id.value)
    ensures r.Err? ==> r.failure == NotFoundFailure(kind, id)
  {
    if id.None? then Err(NotFoundFailure(kind, id))
    else
      match FindById(t, id.value)
      case Some(row) => Ok(row)
      case None => Err(NotFoundFailure(kind, id))
  }

  /** `not_find_by_id_or_400`: aborts with 400 exactly when the id is taken,
      and does nothing otherwise. */
  function NotFindByIdOr400<T>(t: map<int, T>, id: Option<int>, kind: Kind): (r: Result<()>)
    ensures r.Err? <==> id.Some? && FindById(t, id.value).Some?
    ensures r.Err? ==> r.failure == ExistsFailure(kind, id)
  {
    if id.Some? && FindById(t, id.value).Some? then Err(ExistsFailure(kind, id)) else Ok(())
  }

  /** `ids[i]` is the first id of `ids` that the table lacks. */
  predicate FirstMissing<T>(t: map<int, T>, ids: seq<int>, i: int)
  {
    && 0 <= i < |ids|
    && ids[i] !in t
    && forall j :: 0 <= j < i ==> ids[j] in t
  }

  /** The list comprehension of `get_students_by_ids_or_404`: every id
      resolved in order, the first unknown one aborting with 404. */
  function ResolveAll<T>(t: map<int, T>, ids: seq<int>, kind: Kind): (r: Result<seq<T>>)
    ensures r.Ok? <==> forall i :: 0 <= i < |ids| ==> ids[i] in t
    ensures r.Ok? ==> |r.value| == |ids| && forall i :: 0 <= i < |ids| ==> r.value[i] == t[ids[i]]
    ensures r.Err? ==> exists i :: FirstMissing(t, ids, i) && r.failure == NotFoundFailure(kind, Some(ids[i]))
    decreases |ids|
  {
    if |ids| == 0 then Ok([])
    else
      var head :- FindByIdOr404(t, Some(ids[0]), kind);
      var tail :- ResolveAll(t, ids[1..], kind);
      Ok([head] + tail)
  }

  /** `get_students_by_ids_or_404`: no list gives no list; otherwise the
      rows of the ids, in the same order, or a 404 abort. */
  function GetByIdsOr404<T>(t: map<int, T>, ids: Option<seq<int>>, kind: Kind): (r: Result<Option<seq<T>>>)
    ensures ids.None? ==> r == Ok(None)
    ensures ids.Some? ==> (r.Ok? <==> forall i :: 0 <= i < |ids.value| ==> ids.value[i] in t)
    ensures ids.Some? && r.Ok? ==>
              && r.value.Some?
              && |r.value.value| == |ids.value|
              && forall i :: 0 <= i < |ids.value| ==> r.value.value[i] == t[ids.value[i]]
    ensures r.Err? ==> r.failure.status == NotFound
  {
    match ids
    case None => Ok(None)
    case Some(list) =>
      var rows :- ResolveAll(t, list, kind);
      Ok(Some(rows))
  }

  /** `get_max_student_id`: the largest key, or 0 for an empty table. */
  method GetMaxId<T>(t: map<int, T>) returns (r: int)
    ensures t.Keys == {} ==> r == 0
    ensures t.Keys != {} ==> r in t && forall k :: k in t ==> k <= r
  {
    if t.Keys == {} {
      return 0;
    }
    var rest := t.Keys;
    ghost var w := MemberOf(rest);
    r :| r in rest;
    rest := rest - {r};
    while rest != {}
      invariant rest <= t.Keys
      invariant r in t
      invariant forall k :: k in t && k !in rest ==> k <= r
      decreases |rest|
    {
      ghost var w := MemberOf(rest);
      var k :| k in rest;
      if k > r {
        r := k;
      }
      rest := rest - {k};
    }
  }

  /** The least element of a non-empty set of keys. */
  method Least(s: set<int>) returns (m: int)
    requires s != {}
    ensures m in s && forall k :: k in s ==> m <= k
  {
    var rest := s;
    ghost var w := MemberOf(rest);
    m :| m in rest;
    rest := rest - {m};
    while rest != {}
      invariant rest <= s
      invariant m in s
      invariant forall k :: k in s && k !in rest ==> m <= k
      decreases |rest|
    {
      ghost var w := MemberOf(rest);
      var k :| k in rest;
      if k < m {
        m := k;
      }
      rest := rest - {k};
    }
  }

  /** The keys of a table in ascending order, as `ORDER BY id ASC` gives them. */
  method SortedIds(keys: set<int>) returns (ids: seq<int>)
    ensures StrictlyIncreasing(ids)
    ensures forall k :: k in keys <==> k in ids
    ensures forall i :: 0 <= i < |ids| ==> ids[i] in keys
    ensures |ids| == |keys|
  {
    ids := [];
    var rest := keys;
    while rest != {}
      invariant rest <= keys
      invariant StrictlyIncreasing(ids)
      invariant forall k :: k in keys <==> k in ids || k in rest
      invariant forall i, k :: 0 <= i < |ids| && k in rest ==> ids[i] < k
      invariant |ids| + |rest| == |keys|
      decreases |rest|
    {
      var m := Least(rest);
      ids := ids + [m];
      rest := rest - {m};
    }
  }

  /** Every row of the table, in ascending key order, with the keys. */
  method GetAll<T>(t: map<int, T>) returns (ids: seq<int>, rows: seq<T>)
    ensures StrictlyIncreasing(ids)
    ensures forall k :: k in t <==> k in ids
    ensures forall i :: 0 <= i < |ids| ==> ids[i] in t
    ensures |ids| == |t|
    ensures |rows| == |ids| && forall i :: 0 <= i < |ids| ==> rows[i] == t[ids[i]]
  {
    ids := SortedIds(t.Keys);
    rows := seq(|ids|, i requires 0 <= i < |ids| => t[ids[i]]);
  }

  /** `get_all_students`: every student, sorted by ascending `student_id`. */
  method GetAllStudents(students: map<int, Student>) returns (r: seq<Student>)
    requires StudentsKeyed(students)
    ensures |r| == |students|
    ensures forall i, j :: 0 <= i < j < |r| ==> r[i].studentId < r[j].studentId
    ensures forall i :: 0 <= i < |r| ==> r[i].studentId in students && students[r[i].studentId] == r[i]
    ensures forall id :: id in students ==> exists i :: 0 <= i < |r| && r[i].studentId == id
  {
    var ids;
    ids, r := GetAll(students);
    forall id | id in students
      ensures exists i :: 0 <= i < |r| && r[i].studentId == id
    {
      var i :| 0 <= i < |ids| && ids[i] == id;
      assert r[i].studentId == id;
    }
  }

  /** `save_to_db`: afterwards the row is found under its key, and every
      other key finds what it found before. */
  function Save<T>(t: map<int, T>, id: int, row: T): (r: map<int, T>)
    ensures FindById(r, id) == Some(row)
    ensures forall k :: k != id ==> FindById(r, k) == FindById(t, k)
  {
    t[id := row]
  }

  /** `delete_from_db`: afterwards the key finds nothing, and every other
      key finds what it found before. */
  function Delete<T>(t: map<int, T>, id: int): (r: map<int, T>)
    ensures FindById(r, id) == None
    ensures forall k :: k != id ==> FindById(r, k) == FindById(t, k)
  {
    t - {id}
  }

  /** Saving a fresh row and deleting it again restores the table. */
  lemma SaveThenDeleteRestores<T>(t: map<int, T>, id: int, row: T)
    requires id !in t
    ensures Delete(Save(t, id, row), id) == t
  {
  }

  /** Saving a student under its own id keeps the table keyed by id, and a
      row the columns accept keeps every row acceptable. */
  lemma SaveStudentKeepsTable(students: map<int, Student>, groups: map<int, Group>, s: Student)
    requires StudentsKeyed(students)
    requires forall id :: id in students ==> StudentRowFits(students[id], groups)
    requires StudentRowFits(s, groups)
    ensures StudentsKeyed(Save(students, s.studentId, s))
    ensures forall id :: id in Save(students, s.studentId, s) ==> StudentRowFits(Save(students, s.studentId, s)[id], groups)
  {
  }
}
