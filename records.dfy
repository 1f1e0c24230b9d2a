/** The two persisted record shapes of the registration service and the
    lookups the handlers perform on them. The document store is seen as
    two in-memory sequences: the Course collection and the Student
    collection, in storage order. */
module Records {

  datatype Option<+T> = None | Some(value: T)

  /** A store identifier (a MongoDB ObjectId), compared through its string form. */
  type Id = string

  /** A course: its store identifier and its (unique) name. */
  datatype Course = Course(id: Id, name: string)

  /** A student record. `studentId` is the registrant's own external
      identifier; `id` is the identifier the store generated; `course`
      references a course by its identifier. The creation timestamp is
      clock-dependent and not modelled. */
  datatype Student = Student(id: Id, name: string, studentId: string, rollNumber: string, course: Id)

  /** `Course.findById(id)`: the first stored course carrying `id`, if any. */
  function FindCourse(courses: seq<Course>, id: Id): (r: Option<Course>)
    ensures r.None? <==> forall i :: 0 <= i < |courses| ==> courses[i].id != id
    ensures r.Some? ==> r.value.id == id && exists i :: 0 <= i < |courses| && courses[i] == r.value && FirstWith(courses, id, i)
  {
    if courses == [] then None
    else if courses[0].id == id then
      assert FirstWith(courses, id, 0);
      Some(courses[0])
    else
      var r := FindCourse(courses[1..], id);
      assert r.Some? ==> exists i :: 0 <= i < |courses| && courses[i] == r.value && FirstWith(courses, id, i) by {
        if r.Some? {
          var i :| 0 <= i < |courses[1..]| && courses[1..][i] == r.value && FirstWith(courses[1..], id, i);
          assert FirstWith(courses, id, i + 1);
        }
      }
      r
  }

  /** No course before position `k` carries `id`. */
  ghost predicate FirstWith(courses: seq<Course>, id: Id, k: nat)
    requires k <= |courses|
  {
    forall j :: 0 <= j < k ==> courses[j].id != id
  }

  /** The number of stored students whose course reference is `id`. */
  function CountRef(students: seq<Student>, id: Id): (n: nat)
    ensures n <= |students|
    ensures n > 0 <==> exists i :: 0 <= i < |students| && students[i].course == id
  {
    if students == [] then 0
    else
      var front := students[..|students| - 1];
      var n := CountRef(front, id) + (if students[|students| - 1].course == id then 1 else 0);
      assert forall i :: 0 <= i < |front| ==> front[i] == students[i];
      n
  }
}
