/**
 * The data provider (src/context/StudentManagementContext.tsx): the four
 * state cells `students`, `courses`, `loading` and `error`, the initial
 * load and the add/update/delete operations that patch `students` once the
 * gateway call has succeeded. Each awaited gateway call is a parameter: how
 * the promise settled.
 */
module StudentManagement {
  import opened Types
  import opened Api

  const LoadFailed: string := "Failed to load data. Please try again later."
  const AddFailed: string := "Failed to add student. Please try again."
  const UpdateFailed: string := "Failed to update student. Please try again."
  const DeleteFailed: string := "Failed to delete student. Please try again."

  class Provider {
    var students: seq<Student>
    var courses: seq<Course>
    var loading: bool
    var error: Option<string>

    /** The state before the initial load has settled. */
    constructor ()
      ensures students == [] && courses == [] && loading && error == None
    {
      students, courses, loading, error := [], [], true, None;
    }

    /**
     * `fetchData`: both lists are stored and the error cleared when both
     * calls resolve; otherwise the load message is set and the lists stay.
     */
    method FetchData(fetched: Reply<(seq<Student>, seq<Course>)>)
      modifies this
      ensures !loading
      ensures fetched.Resolved? ==>
                students == fetched.value.0 && courses == fetched.value.1 && error == None
      ensures fetched.Rejected? ==>
                students == old(students) && courses == old(courses) && error == Some(LoadFailed)
    {
      loading := true;
      match fetched {
        case Resolved((fetchedStudents, fetchedCourses)) =>
          students := fetchedStudents;
          courses := fetchedCourses;
          error := None;
        case Rejected(_) =>
          error := Some(LoadFailed);
      }
      loading := false;
    }

    /**
     * `addStudent`: on success the returned record is appended and `error`
     * is left as it was; on failure the list is kept, the add message set and
     * the rejection re-thrown.
     */
    method AddStudent(reply: Reply<Student>) returns (completion: Completion)
      modifies this
      ensures !loading && courses == old(courses)
      ensures reply.Resolved? ==>
                students == old(students) + [reply.value] && error == old(error) && completion == Done
      ensures reply.Rejected? ==>
                students == old(students) && error == Some(AddFailed) && completion == Threw(reply.reason)
    {
      loading := true;
      match reply {
        case Resolved(newStudent) =>
          students := students + [newStudent];
          completion := Done;
        case Rejected(reason) =>
          error := Some(AddFailed);
          completion := Threw(reason);
      }
      loading := false;
    }

    /** `updateStudent`: on success every entry with the argument's id becomes the argument. */
    method UpdateStudent(student: Student, reply: Reply<Student>) returns (completion: Completion)
      modifies this
      ensures !loading && courses == old(courses)
      ensures reply.Resolved? ==>
                students == Replaced(old(students), student) && error == old(error) && completion == Done
      ensures reply.Rejected? ==>
                students == old(students) && error == Some(UpdateFailed) && completion == Threw(reply.reason)
    {
      loading := true;
      match reply {
        case Resolved(_) =>
          students := Replaced(students, student);
          completion := Done;
        case Rejected(reason) =>
          error := Some(UpdateFailed);
          completion := Threw(reason);
      }
      loading := false;
    }

    /** `deleteStudent`: on success exactly the entries with that id are dropped, order kept. */
    method DeleteStudent(id: string, reply: Reply<()>) returns (completion: Completion)
      modifies this
      ensures !loading && courses == old(courses)
      ensures reply.Resolved? ==>
                students == Removed(old(students), id) && error == old(error) && completion == Done
      ensures reply.Rejected? ==>
                students == old(students) && error == Some(DeleteFailed) && completion == Threw(reply.reason)
    {
      loading := true;
      match reply {
        case Resolved(_) =>
          students := Removed(students, id);
          completion := Done;
        case Rejected(reason) =>
          error := Some(DeleteFailed);
          completion := Threw(reason);
      }
      loading := false;
    }
  }

  // The provider wired to the mock gateway: the list it shows is the list the gateway holds.

  /** The initial load against the mock gateway, which never rejects. */
  method LoadFromGateway(provider: Provider, api: MockApi)
    modifies provider
    ensures provider.students == Loaded(api.stored) && provider.courses == SeedCourses()
    ensures !provider.loading && provider.error == None
  {
    var fetchedStudents := api.GetStudents();
    var fetchedCourses := api.GetCourses();
    provider.FetchData(Resolved((fetchedStudents, fetchedCourses)));
  }

  /** An add through the gateway keeps the provider's list equal to the stored list. */
  method AddThroughGateway(provider: Provider, api: MockApi, draft: NewStudent, newId: string)
    returns (completion: Completion)
    requires provider.students == Loaded(api.stored)
    modifies provider, api
    ensures provider.students == Loaded(api.stored) == old(provider.students) + [WithId(draft, newId)]
    ensures api.stored.Some?
    ensures !provider.loading && provider.courses == old(provider.courses)
    ensures completion == Done && provider.error == old(provider.error)
  {
    var created := api.AddStudent(draft, newId);
    completion := provider.AddStudent(Resolved(created));
  }

  /** An update through the gateway keeps the provider's list equal to the stored list. */
  method UpdateThroughGateway(provider: Provider, api: MockApi, student: Student)
    returns (completion: Completion)
    requires provider.students == Loaded(api.stored)
    modifies provider, api
    ensures provider.students == Loaded(api.stored) == Replaced(old(provider.students), student)
    ensures api.stored.Some?
    ensures !provider.loading && provider.courses == old(provider.courses)
    ensures completion == Done && provider.error == old(provider.error)
  {
    var updated := api.UpdateStudent(student);
    completion := provider.UpdateStudent(student, Resolved(updated));
  }

  /** A delete through the gateway keeps the provider's list equal to the stored list. */
  method DeleteThroughGateway(provider: Provider, api: MockApi, id: string)
    returns (completion: Completion)
    requires provider.students == Loaded(api.stored)
    modifies provider, api
    ensures provider.students == Loaded(api.stored) == Removed(old(provider.students), id)
    ensures api.stored.Some?
    ensures !provider.loading && provider.courses == old(provider.courses)
    ensures completion == Done && provider.error == old(provider.error)
  {
    api.DeleteStudent(id);
    completion := provider.DeleteStudent(id, Resolved(()));
  }

  /** A failed add leaves the error in place: a later successful update does not clear it. */
  method ErrorOutlivesSuccess(provider: Provider, reason: string, student: Student, reply: Student)
    modifies provider
    ensures provider.error == Some(AddFailed)
    ensures provider.students == Replaced(old(provider.students), student)
    ensures !provider.loading && provider.courses == old(provider.courses)
  {
    var first := provider.AddStudent(Rejected(reason));
    var second := provider.UpdateStudent(student, Resolved(reply));
  }
}
