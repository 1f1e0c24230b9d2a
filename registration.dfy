/** The decision taken by the registration handler before anything is
    written: field presence, then course existence. */
module Registration {
  import opened Records

  /** The request body. A field is `None` when the body does not carry it;
      non-string JSON values are not modelled. */
  datatype Request = Request(name: Option<string>, studentId: Option<string>,
                             rollNumber: Option<string>, courseId: Option<string>)

  /** JavaScript falsiness of an optional string: absent or empty. No
      trimming happens on the server. */
  predicate Falsy(f: Option<string>) {
    f.None? || f.value == ""
  }

  predicate AnyFalsy(req: Request) {
    Falsy(req.name) || Falsy(req.studentId) || Falsy(req.rollNumber) || Falsy(req.courseId)
  }

  /** The outcome of validation: a 400 reply, or the course the new student
      will reference. */
  datatype Verdict = MissingFields | InvalidCourse | Accepted(course: Course)

  /** `if (!name || !studentId || !rollNumber || !courseId)` then
      `Course.findById(courseId)`. */
  function Validate(courses: seq<Course>, req: Request): (v: Verdict)
    ensures v == MissingFields <==> AnyFalsy(req)
    ensures v == InvalidCourse <==>
      !AnyFalsy(req) && forall i :: 0 <= i < |courses| ==> courses[i].id != req.courseId.value
    ensures v.Accepted? ==> !AnyFalsy(req) && v.course in courses && v.course.id == req.courseId.value
  {
    if AnyFalsy(req) then MissingFields
    else
      match FindCourse(courses, req.courseId.value)
      case None => InvalidCourse
      case Some(c) => Accepted(c)
  }

  /** The record `new Student({ name, studentId, rollNumber, course: courseId })`
      saved under the store-generated identifier `id`. */
  function NewStudent(req: Request, id: Id): Student
    requires !AnyFalsy(req)
  {
    Student(id, req.name.value, req.studentId.value, req.rollNumber.value, req.courseId.value)
  }
}
