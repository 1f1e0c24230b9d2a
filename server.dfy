/** The registration and lookup endpoints over the store. The store holds
    the Course and Student collections; registration is the only write. */
module Server {
  import opened Records
  import opened Registration
  import opened Aggregation

  /** An HTTP reply of the registration endpoint: `200 { studentId }`,
      `400 { message }` or `500 { message }`. */
  datatype Reply = Ok(studentId: Id) | BadRequest(message: string) | ServerError(message: string)

  /** The HTTP status code the handler sends with a reply. */
  function Status(r: Reply): nat {
    match r
    case Ok(_) => 200
    case BadRequest(_) => 400
    case ServerError(_) => 500
  }

  /** The store's unique index on `_id`. */
  ghost predicate DistinctStudentIds(students: seq<Student>) {
    forall i, j :: 0 <= i < j < |students| ==> students[i].id != students[j].id
  }

  predicate IdTaken(students: seq<Student>, id: Id) {
    exists i :: 0 <= i < |students| && students[i].id == id
  }

  /** What `POST /api/register` answers. `newId` is the identifier the
      store generates for the new record; saving under an identifier that is
      already taken fails with a duplicate-key error, which the handler's
      catch turns into a 500. */
  function RegisterReply(courses: seq<Course>, students: seq<Student>, req: Request, newId: Id): (r: Reply)
    ensures r == BadRequest("Missing fields") <==> AnyFalsy(req)
    ensures r == BadRequest("Invalid course") <==>
      !AnyFalsy(req) && forall i :: 0 <= i < |courses| ==> courses[i].id != req.courseId.value
    ensures r.Ok? <==>
      !AnyFalsy(req) && (exists i :: 0 <= i < |courses| && courses[i].id == req.courseId.value) && !IdTaken(students, newId)
    ensures r.Ok? ==> r.studentId == newId
    ensures (!AnyFalsy(req) && (exists i :: 0 <= i < |courses| && courses[i].id == req.courseId.value)
             && IdTaken(students, newId)) ==> r == ServerError("Server error")
    ensures Status(r) == 400 <==>
      AnyFalsy(req) || forall i :: 0 <= i < |courses| ==> courses[i].id != req.courseId.value
    ensures Status(r) == 500 <==> r == ServerError("Server error")
  {
    match Validate(courses, req)
    case MissingFields => BadRequest("Missing fields")
    case InvalidCourse => BadRequest("Invalid course")
    case Accepted(_) => if IdTaken(students, newId) then ServerError("Server error") else Ok(newId)
  }

  /** The detail reply of `GET /api/student/:id`: the student with its
      course populated (`None` when the reference resolves to nothing). */
  datatype Detail = NotFound | Found(student: Student, course: Option<Course>)

  /** `Student.findById(id).populate('course')`. */
  function Lookup(courses: seq<Course>, students: seq<Student>, id: Id): (d: Detail)
    ensures d.NotFound? <==> !IdTaken(students, id)
    ensures d.Found? ==> d.student in students && d.student.id == id
    ensures d.Found? ==> d.course == FindCourse(courses, d.student.course)
  {
    if students == [] then NotFound
    else if students[0].id == id then Found(students[0], FindCourse(courses, students[0].course))
    else
      var d := Lookup(courses, students[1..], id);
      assert IdTaken(students, id) ==> IdTaken(students[1..], id) by {
        if IdTaken(students, id) {
          var i :| 0 <= i < |students| && students[i].id == id;
          assert students[1..][i - 1].id == id;
        }
      }
      assert IdTaken(students[1..], id) ==> IdTaken(students, id) by {
        if IdTaken(students[1..], id) {
          var i :| 0 <= i < |students[1..]| && students[1..][i].id == id;
          assert students[i + 1].id == id;
        }
      }
      d
  }

  /** Under the unique index on `_id`, the student a lookup finds is the
      only stored student carrying that id. */
  lemma LookupUnique(courses: seq<Course>, students: seq<Student>, id: Id)
    requires DistinctStudentIds(students)
    ensures Lookup(courses, students, id).Found? ==>
      forall i :: 0 <= i < |students| && students[i].id == id ==> students[i] == Lookup(courses, students, id).student
  {
    var d := Lookup(courses, students, id);
    if d.Found? {
      var j :| 0 <= j < |students| && students[j] == d.student;
      forall i | 0 <= i < |students| && students[i].id == id ensures students[i] == d.student {
        assert i == j;
      }
    }
  }

  /** A successful registration followed by a lookup of the returned id
      yields the record just written, with its course embedded. */
  lemma RegisterThenLookup(courses: seq<Course>, students: seq<Student>, req: Request, newId: Id)
    requires RegisterReply(courses, students, req, newId).Ok?
    ensures Validate(courses, req).Accepted?
    ensures Lookup(courses, students + [NewStudent(req, newId)], newId)
         == Found(NewStudent(req, newId), Some(Validate(courses, req).course))
  {
    LookupFresh(courses, students, NewStudent(req, newId));
  }

  /** Looking up an identifier that only the appended record carries finds that record. */
  lemma {:induction false} LookupFresh(courses: seq<Course>, students: seq<Student>, s: Student)
    requires !IdTaken(students, s.id)
    ensures Lookup(courses, students + [s], s.id) == Found(s, FindCourse(courses, s.course))
  {
    if students != [] {
      assert (students + [s])[1..] == students[1..] + [s];
      assert !IdTaken(students[1..], s.id) by {
        forall i | 0 <= i < |students[1..]| ensures students[1..][i].id != s.id {
          assert students[1..][i] == students[i + 1];
        }
      }
      assert students[0].id != s.id;
      LookupFresh(courses, students[1..], s);
    }
  }

  /** Registering a student raises the total by one and the count of that
      student's course by one, and leaves every other count as it was. */
  lemma StatsAfterRegister(courses: seq<Course>, students: seq<Student>, s: Student)
    ensures StatsOf(courses, students + [s]).totalStudents == StatsOf(courses, students).totalStudents + 1
    ensures forall e :: e in StatsOf(courses, students + [s]).perCourse ==>
      e.count == CountRef(students, e.courseId) + (if e.courseId == s.course then 1 else 0)
  {
    StatsTotal(courses, students);
    StatsTotal(courses, students + [s]);
    StatsEntries(courses, students + [s]);
    assert (students + [s])[..|students|] == students;
  }

  /** The document store: the Course and Student collections. Courses are
      seeded elsewhere and read-only here; registration appends students. */
  class Store {
    var courses: seq<Course>
    var students: seq<Student>

    ghost predicate Valid()
      reads this
    {
      DistinctStudentIds(students)
    }

    constructor (courses: seq<Course>, students: seq<Student>)
      requires DistinctStudentIds(students)
      ensures Valid() && this.courses == courses && this.students == students
    {
      this.courses := courses;
      this.students := students;
    }

    /** `POST /api/register`: validate, then append one student. */
    method Register(req: Request, newId: Id) returns (reply: Reply)
      requires Valid()
      modifies this`students
      ensures Valid()
      ensures reply == RegisterReply(courses, old(students), req, newId)
      ensures courses == old(courses)
      ensures reply.Ok? ==> students == old(students) + [NewStudent(req, newId)]
      ensures reply.Ok? ==> var s := students[|students| - 1];
        s.id == newId && s.name == req.name.value && s.studentId == req.studentId.value
        && s.rollNumber == req.rollNumber.value && s.course == req.courseId.value
      ensures !reply.Ok? ==> students == old(students)
    {
      var v := Validate(courses, req);
      match v
      case MissingFields =>
        reply := BadRequest("Missing fields");
      case InvalidCourse =>
        reply := BadRequest("Invalid course");
      case Accepted(_) =>
        if IdTaken(students, newId) {
          reply := ServerError("Server error");
        } else {
          var s := NewStudent(req, newId);
          students := students + [s];
          reply := Ok(newId);
        }
    }

    /** `GET /api/student/:id`. */
    method GetStudent(id: Id) returns (d: Detail)
      requires Valid()
      ensures d == Lookup(courses, students, id)
      ensures d.Found? ==> forall i :: 0 <= i < |students| && students[i].id == id ==> students[i] == d.student
    {
      d := Lookup(courses, students, id);
      LookupUnique(courses, students, id);
    }

    /** `GET /api/stats`: reads the store and changes nothing. */
    method GetStats() returns (s: Stats)
      ensures s == StatsOf(courses, students)
      ensures s.totalStudents == |students| == SumEntries(s.perCourse)
    {
      s := ComputeStats(courses, students);
      StatsTotal(courses, students);
    }

    /** Two statistics requests with no write in between answer the same. */
    method GetStatsTwice() returns (first: Stats, second: Stats)
      ensures first == second
    {
      first := GetStats();
      second := GetStats();
    }
  }
}
