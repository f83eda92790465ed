/**
 * The mock persistence gateway (src/services/api.ts): every operation reads
 * the `students` storage entry, falling back to a copy of a two-record seed
 * when the entry is absent, and the mutations write the whole list back.
 * Latency is not modelled: each call is one atomic step.
 */
module Api {
  import opened Types

  /** `MOCK_STUDENTS`. */
  function SeedStudents(): seq<Student> {
    [ Student("1", "John Doe", "john@example.com", 2, "https://randomuser.me/api/portraits/men/1.jpg"),
      Student("2", "Jane Smith", "jane@example.com", 1, "https://randomuser.me/api/portraits/women/1.jpg") ]
  }

  /** `MOCK_COURSES`. */
  function SeedCourses(): seq<Course> {
    [Course(1, "HTML Basics"), Course(2, "CSS Mastery"), Course(3, "JavaScript Pro"), Course(4, "React In Depth")]
  }

  /** The list an operation starts from: the stored one, or the seed when the key is absent. */
  function Loaded(stored: Option<seq<Student>>): seq<Student> {
    stored.GetOr(SeedStudents())
  }

  /** `students.map(s => s.id === student.id ? student : s)`. */
  function Replaced(students: seq<Student>, student: Student): (r: seq<Student>)
    ensures |r| == |students|
    ensures forall k :: 0 <= k < |r| ==> r[k] == if students[k].id == student.id then student else students[k]
  {
    if students == [] then []
    else [if students[0].id == student.id then student else students[0]] + Replaced(students[1..], student)
  }

  /** `students.filter(s => s.id !== id)`. */
  function Removed(students: seq<Student>, id: string): (r: seq<Student>)
    ensures |r| <= |students|
    ensures IdAbsent(r, id)
    ensures forall s :: s in r <==> s in students && s.id != id
  {
    if students == [] then []
    else (if students[0].id != id then [students[0]] else []) + Removed(students[1..], id)
  }

  /** Removal keeps the order of what it keeps: it distributes over concatenation. */
  lemma {:induction false} RemovedAppend(a: seq<Student>, b: seq<Student>, id: string)
    ensures Removed(a + b, id) == Removed(a, id) + Removed(b, id)
  {
    if a == [] {
      assert a + b == b;
    } else {
      assert (a + b)[1..] == a[1..] + b;
      RemovedAppend(a[1..], b, id);
    }
  }

  /** Removing an id nobody carries changes nothing. */
  lemma {:induction false} RemovedAbsent(students: seq<Student>, id: string)
    requires IdAbsent(students, id)
    ensures Removed(students, id) == students
  {
    if students != [] {
      RemovedAbsent(students[1..], id);
    }
  }

  /** Deleting the same id twice is deleting it once. */
  lemma RemovedIdempotent(students: seq<Student>, id: string)
    ensures Removed(Removed(students, id), id) == Removed(students, id)
  {
    RemovedAbsent(Removed(students, id), id);
  }

  /** Replacing by a record whose id nobody carries changes nothing. */
  lemma ReplacedAbsent(students: seq<Student>, student: Student)
    requires IdAbsent(students, student.id)
    ensures Replaced(students, student) == students
  {
  }

  /**
   * Appending a record and then deleting its id gives back the list exactly
   * when that id was not already taken; with a taken id the delete removes
   * more than the new record.
   */
  lemma AddThenDeleteRestores(students: seq<Student>, student: Student)
    ensures Removed(students + [student], student.id) == students <==> IdAbsent(students, student.id)
  {
    RemovedAppend(students, [student], student.id);
    assert Removed([student], student.id) == [];
    if IdAbsent(students, student.id) {
      RemovedAbsent(students, student.id);
    } else {
      var k :| 0 <= k < |students| && students[k].id == student.id;
      assert students[k] !in Removed(students, student.id);
    }
  }

  /** Add, then update the new record, then delete it: the list is as before the add. */
  lemma AddUpdateDeleteRoundTrip(students: seq<Student>, added: Student, edited: Student)
    requires IdAbsent(students, added.id) && edited.id == added.id
    ensures Removed(Replaced(students + [added], edited), added.id) == students
  {
    ReplacedAbsent(students, edited);
    assert Replaced(students + [added], edited) == students + [edited];
    AddThenDeleteRestores(students, edited);
  }

  /** `addStudent` never compares the new id with the stored ones: a taken id yields two records with that id. */
  lemma AddWithTakenIdDuplicates(students: seq<Student>, student: Student)
    requires !IdAbsent(students, student.id)
    ensures exists i, j :: 0 <= i < j < |students + [student]| &&
                           (students + [student])[i].id == (students + [student])[j].id
  {
    var k :| 0 <= k < |students| && students[k].id == student.id;
    assert (students + [student])[k].id == (students + [student])[|students|].id;
  }

  /** The gateway object: its state is the `students` storage entry. */
  class MockApi {
    var stored: Option<seq<Student>>

    constructor (initial: Option<seq<Student>>)
      ensures stored == initial
    {
      stored := initial;
    }

    /** `getStudents`: the stored list, or a copy of the seed; nothing is written. */
    method GetStudents() returns (students: seq<Student>)
      ensures stored.Some? ==> students == stored.value
      ensures stored.None? ==> students == SeedStudents()
    {
      if stored.Some? {
        students := stored.value;
      } else {
        students := SeedStudents();
      }
    }

    /** `getCourses`: always the four fixed courses, ids 1 to 4 in order. */
    method GetCourses() returns (courses: seq<Course>)
      ensures |courses| == 4
      ensures forall k :: 0 <= k < 4 ==> courses[k].id == k + 1
      ensures courses == SeedCourses()
    {
      courses := SeedCourses();
    }

    /** `addStudent`: the draft with the supplied id is pushed onto the loaded list, which is written back. */
    method AddStudent(draft: NewStudent, newId: string) returns (created: Student)
      modifies this
      ensures created == WithId(draft, newId)
      ensures stored == Some(Loaded(old(stored)) + [created])
    {
      var students := Loaded(stored);
      created := WithId(draft, newId);
      students := students + [created];
      stored := Some(students);
    }

    /** `updateStudent`: every record with the argument's id is replaced; the argument is returned. */
    method UpdateStudent(student: Student) returns (updated: Student)
      modifies this
      ensures updated == student
      ensures stored == Some(Replaced(Loaded(old(stored)), student))
    {
      var students := Loaded(stored);
      stored := Some(Replaced(students, student));
      updated := student;
    }

    /** `deleteStudent`: every record with that id is dropped; the rest is written back in order. */
    method DeleteStudent(id: string)
      modifies this
      ensures stored == Some(Removed(Loaded(old(stored)), id))
    {
      var students := Loaded(stored);
      stored := Some(Removed(students, id));
    }
  }

  /** On a fresh browser, adding a third student with a new id leaves three students with distinct ids. */
  method SeedScenario(draft: NewStudent, newId: string) returns (api: MockApi)
    requires newId != "1" && newId != "2" && newId != ""
    ensures fresh(api)
    ensures api.stored.Some? && |api.stored.value| == 3
    ensures api.stored.value[2] == WithId(draft, newId)
    ensures forall i, j :: 0 <= i < j < 3 ==> api.stored.value[i].id != api.stored.value[j].id
  {
    api := new MockApi(None);
    var created := api.AddStudent(draft, newId);
  }
}
