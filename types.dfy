/**
 * The records of the dashboard (src/types/index.ts) and the few shapes
 * shared by every component: an optional value, the outcome of an awaited
 * call, and the course lookup that cards and exports both perform.
 */
module Types {

  /** An absent or present value (a missing storage key, `find` with no hit, `null`). */
  datatype Option<T> = None | Some(value: T)
  {
    function GetOr(default: T): T {
      match this
      case Some(v) => v
      case None => default
    }
  }

  /** How an awaited promise settled: it resolved with a value or it was rejected. */
  datatype Reply<T> = Resolved(value: T) | Rejected(reason: string)

  /** What a caller gets back from an async function that catches nothing: done, or the re-thrown rejection. */
  datatype Completion = Done | Threw(reason: string)

  /** A student record as stored and displayed. */
  datatype Student = Student(id: string, name: string, email: string, courseId: int, profileImage: string)

  /** A student before the gateway has given it an id (`Omit<Student, 'id'>`). */
  datatype NewStudent = NewStudent(name: string, email: string, courseId: int, profileImage: string)

  /** A course of the read-only course catalogue. */
  datatype Course = Course(id: int, name: string)

  /** The record `{ ...student, id }`: the draft's fields with the given id. */
  function WithId(draft: NewStudent, id: string): Student {
    Student(id, draft.name, draft.email, draft.courseId, draft.profileImage)
  }

  /** No student of `students` carries the id `id`. */
  predicate IdAbsent(students: seq<Student>, id: string) {
    forall k :: 0 <= k < |students| ==> students[k].id != id
  }

  /** `k` is the position of the first course with id `id`. */
  predicate IsFirstMatch(courses: seq<Course>, id: int, k: int) {
    0 <= k < |courses| && courses[k].id == id && forall j :: 0 <= j < k ==> courses[j].id != id
  }

  /** `courses.find(c => c.id === id)`: the first course with that id, if any. */
  function FindCourse(courses: seq<Course>, id: int): (r: Option<Course>)
    ensures r.None? <==> forall k :: 0 <= k < |courses| ==> courses[k].id != id
    ensures r.Some? ==> exists k :: IsFirstMatch(courses, id, k) && courses[k] == r.value
  {
    if courses == [] then None
    else if courses[0].id == id then
      assert IsFirstMatch(courses, id, 0);
      Some(courses[0])
    else
      var rest := FindCourse(courses[1..], id);
      if rest.Some? then
        var k :| IsFirstMatch(courses[1..], id, k) && courses[1..][k] == rest.value;
        assert IsFirstMatch(courses, id, k + 1);
        rest
      else rest
  }


  /** The name of the course `id` refers to, or `unknown` when no course matches. */
  function CourseLabel(courses: seq<Course>, id: int, unknown: string): (shown: string)
    ensures (forall k :: 0 <= k < |courses| ==> courses[k].id != id) ==> shown == unknown
    ensures forall k :: IsFirstMatch(courses, id, k) ==> shown == courses[k].name
  {
    match FindCourse(courses, id)
    case Some(c) =>
      var i :| IsFirstMatch(courses, id, i) && courses[i] == c;
      assert forall k :: IsFirstMatch(courses, id, k) ==> k == i;
      c.name
    case None => unknown
  }
}
