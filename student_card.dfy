/**
 * A student card (src/components/StudentCard.tsx): the course name shown on
 * the card and the guarded delete button.
 */
module StudentCard {
  import opened Types
  import opened Api
  import opened StudentManagement

  const UnknownCourse: string := "Unknown Course"

  /** `courseName`: the name of the first course with the student's course id, else 'Unknown Course'. */
  function CourseName(courses: seq<Course>, student: Student): (name: string)
    ensures (forall k :: 0 <= k < |courses| ==> courses[k].id != student.courseId) ==> name == UnknownCourse
    ensures forall k :: IsFirstMatch(courses, student.courseId, k) ==> name == courses[k].name
  {
    CourseLabel(courses, student.courseId, UnknownCourse)
  }

  /**
   * `handleDelete`: without confirmation nothing happens; with it the
   * provider deletes this card's student, and a rejection is caught here.
   */
  method HandleDelete(provider: Provider, student: Student, confirmed: bool, reply: Reply<()>)
    modifies provider
    ensures !confirmed ==> provider.students == old(provider.students) && provider.error == old(provider.error) &&
                           provider.loading == old(provider.loading) && provider.courses == old(provider.courses)
    ensures confirmed ==> !provider.loading && provider.courses == old(provider.courses)
    ensures confirmed && reply.Resolved? ==>
              provider.students == Removed(old(provider.students), student.id) && provider.error == old(provider.error)
    ensures confirmed && reply.Rejected? ==>
              provider.students == old(provider.students) && provider.error == Some(DeleteFailed)
  {
    if confirmed {
      var completion := provider.DeleteStudent(student.id, reply);
    }
  }
}
