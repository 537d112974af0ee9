/**
 * The request handlers of the service. The relational store is a `Store`
 * object holding the three tables; the handlers that write (create a
 * student, create a course, enroll) are its methods, and the handlers that
 * only read (get by id, list a page) are functions of the tables' contents.
 * An `HTTPException` a handler raises is an `Err` result carrying its status
 * code and detail message.
 */
module Handlers {
  import opened Wrappers
  import opened Models
  import opened Schemas

  /** An HTTP error response: status code and detail message. */
  datatype HttpError = HttpError(status: int, detail: string)

  const EmailAlreadyRegistered := HttpError(400, "Email already registered")
  const StudentNotFound := HttpError(404, "Student not found")
  const CourseNotFound := HttpError(404, "Course not found")
  const AlreadyEnrolled := HttpError(400, "Student already enrolled in this course")

  /** Default `skip` and `limit` query parameters of the list endpoints. */
  const DefaultSkip := 0
  const DefaultLimit := 100

  // ----- Pagination: `OFFSET skip LIMIT limit` -----

  /**
   * Where a page starts: a negative offset counts as zero (the embedded
   * database's rule), and an offset past the end starts at the end.
   */
  function PageStart(skip: int, count: nat): (k: nat)
    ensures k <= count
    ensures 0 <= skip <= count ==> k == skip
    ensures skip < 0 ==> k == 0
    ensures skip > count ==> k == count
  {
    if skip < 0 then 0 else if skip > count then count else skip
  }

  /**
   * The rows a query with `OFFSET skip LIMIT limit` returns: the run of rows
   * that starts at the offset, as long as the limit allows (a negative limit
   * means no limit) or up to the last row.
   */
  function Page<T>(rows: seq<T>, skip: int, limit: int): (r: seq<T>)
    ensures PageStart(skip, |rows|) + |r| <= |rows|
    ensures r == rows[PageStart(skip, |rows|)..PageStart(skip, |rows|) + |r|]
    ensures 0 <= limit ==> |r| <= limit
    ensures limit < 0 || |r| < limit ==> PageStart(skip, |rows|) + |r| == |rows|
    ensures skip >= |rows| ==> r == []
  {
    var start := PageStart(skip, |rows|);
    var stop := if limit < 0 || start + limit > |rows| then |rows| else start + limit;
    rows[start..stop]
  }

  /** Two consecutive pages make up the page that spans both. */
  lemma PagesConcatenate<T>(rows: seq<T>, skip: nat, n: nat, m: nat)
    ensures Page(rows, skip, n) + Page(rows, skip + n, m) == Page(rows, skip, n + m)
  {
    var a, b, ab := Page(rows, skip, n), Page(rows, skip + n, m), Page(rows, skip, n + m);
    var k := PageStart(skip, |rows|);
    if |a| < n {
      assert k + |a| == |rows|;
      assert b == [];
    } else {
      assert PageStart(skip + n, |rows|) == k + n;
    }
    assert a + b == rows[k..k + |a| + |b|];
  }

  /** With the default parameters, a table of at most 100 rows is listed whole. */
  lemma DefaultPageIsWholeTable<T>(rows: seq<T>)
    requires |rows| <= DefaultLimit
    ensures Page(rows, DefaultSkip, DefaultLimit) == rows
  {
  }

  // ----- Read-only handlers -----

  /** `GET /students/?skip=&limit=`: item i of the page is student row skip + i. */
  function ListStudents(db: Db, skip: int, limit: int): (r: seq<Schemas.Student>)
    ensures 0 <= limit ==> |r| <= limit
    ensures skip >= |db.students| ==> r == []
    ensures PageStart(skip, |db.students|) + |r| <= |db.students|
    ensures limit < 0 || |r| < limit ==> PageStart(skip, |db.students|) + |r| == |db.students|
    ensures forall i | 0 <= i < |r| :: r[i].Row() == db.students[PageStart(skip, |db.students|) + i]
  {
    StudentsOut(Page(db.students, skip, limit))
  }

  /** `GET /courses/?skip=&limit=`: item i of the page is course row skip + i. */
  function ListCourses(db: Db, skip: int, limit: int): (r: seq<Schemas.Course>)
    ensures 0 <= limit ==> |r| <= limit
    ensures skip >= |db.courses| ==> r == []
    ensures PageStart(skip, |db.courses|) + |r| <= |db.courses|
    ensures limit < 0 || |r| < limit ==> PageStart(skip, |db.courses|) + |r| == |db.courses|
    ensures forall i | 0 <= i < |r| :: r[i].Row() == db.courses[PageStart(skip, |db.courses|) + i]
  {
    CoursesOut(Page(db.courses, skip, limit))
  }

  /** `GET /enrollments/?skip=&limit=`: item i of the page is enrollment row skip + i. */
  function ListEnrollments(db: Db, skip: int, limit: int): (r: seq<Schemas.Enrollment>)
    ensures 0 <= limit ==> |r| <= limit
    ensures skip >= |db.enrollments| ==> r == []
    ensures PageStart(skip, |db.enrollments|) + |r| <= |db.enrollments|
    ensures limit < 0 || |r| < limit ==> PageStart(skip, |db.enrollments|) + |r| == |db.enrollments|
    ensures forall i | 0 <= i < |r| :: r[i].Row() == db.enrollments[PageStart(skip, |db.enrollments|) + i]
  {
    EnrollmentsOut(Page(db.enrollments, skip, limit))
  }

  /**
   * `GET /students/{id}`: 404 exactly when no student has the id; otherwise
   * that student with every course the student is enrolled in.
   */
  function GetStudent(db: Db, id: int): (r: Result<StudentWithCourses, HttpError>)
    ensures r.Err? <==> !HasStudent(db.students, id)
    ensures r.Err? ==> r.error == StudentNotFound
    ensures r.Ok? ==> r.value.id == id && StudentRow(id, r.value.name, r.value.email) in db.students
    ensures r.Ok? ==> forall c :: c in r.value.courses <==> c.Row() in db.courses && Enrolled(db.enrollments, id, c.id)
    ensures r.Ok? && WellFormed(db) ==>
      forall i, j | 0 <= i < j < |r.value.courses| :: r.value.courses[i].id < r.value.courses[j].id
  {
    match FindStudent(db.students, id)
    case None => Err(StudentNotFound)
    case Some(s) =>
      CoursesOfKeys(db.courses, db.enrollments, s.id);
      Ok(StudentWithCourses(s.id, s.name, s.email, CoursesOut(CoursesOf(db.courses, db.enrollments, s.id))))
  }

  /**
   * `GET /courses/{id}`: 404 exactly when no course has the id; otherwise
   * that course with every student enrolled in it.
   */
  function GetCourse(db: Db, id: int): (r: Result<CourseWithStudents, HttpError>)
    ensures r.Err? <==> !HasCourse(db.courses, id)
    ensures r.Err? ==> r.error == CourseNotFound
    ensures r.Ok? ==> r.value.id == id && CourseRow(id, r.value.title, r.value.description) in db.courses
    ensures r.Ok? ==> forall s :: s in r.value.students <==> s.Row() in db.students && Enrolled(db.enrollments, s.id, id)
    ensures r.Ok? && WellFormed(db) ==>
      forall i, j | 0 <= i < j < |r.value.students| :: r.value.students[i].id < r.value.students[j].id
  {
    match FindCourse(db.courses, id)
    case None => Err(CourseNotFound)
    case Some(c) =>
      StudentsOfKeys(db.students, db.enrollments, c.id);
      Ok(CourseWithStudents(c.id, c.title, c.description, StudentsOut(StudentsOf(db.students, db.enrollments, c.id))))
  }

  // ----- Reading back what the writing handlers stored -----

  /** A student just created reads back with its own fields and no courses. */
  lemma CreatedStudentReadsBack(db: Db, row: StudentRow)
    requires WellFormed(db)
    requires row.id == NextStudentId(db.students) && !EmailTaken(db.students, row.email)
    ensures GetStudent(db.(students := db.students + [row]), row.id) == Ok(StudentWithCourses(row.id, row.name, row.email, []))
  {
    var db' := db.(students := db.students + [row]);
    AddStudentKeepsConstraints(db, row);
    FindStudentAt(db'.students, |db.students|);
    UnknownStudentHasNoCourses(db, row.id);
  }

  /** A course just created reads back with its own fields and no students. */
  lemma CreatedCourseReadsBack(db: Db, row: CourseRow)
    requires WellFormed(db)
    requires row.id == NextCourseId(db.courses)
    ensures GetCourse(db.(courses := db.courses + [row]), row.id) == Ok(CourseWithStudents(row.id, row.title, row.description, []))
  {
    var db' := db.(courses := db.courses + [row]);
    AddCourseKeepsConstraints(db, row);
    FindCourseAt(db'.courses, |db.courses|);
    UnknownCourseHasNoStudents(db, row.id);
  }

  /**
   * After a student is enrolled in a course, the student's detail lists the
   * course and the course's detail lists the student.
   */
  lemma EnrollmentShowsOnBothSides(db: Db, s: StudentRow, c: CourseRow, today: Date)
    requires s in db.students && c in db.courses
    ensures var db' := db.(enrollments := db.enrollments + [EnrollmentRow(s.id, c.id, today)]);
      && GetStudent(db', s.id).Ok? && CourseOut(c) in GetStudent(db', s.id).value.courses
      && GetCourse(db', c.id).Ok? && StudentOut(s) in GetCourse(db', c.id).value.students
  {
    EnrollmentLinksBoth(db, s, c, today);
    var db' := db.(enrollments := db.enrollments + [EnrollmentRow(s.id, c.id, today)]);
    assert HasStudent(db'.students, s.id) by {
      var i :| 0 <= i < |db.students| && db.students[i] == s;
    }
    assert HasCourse(db'.courses, c.id) by {
      var i :| 0 <= i < |db.courses| && db.courses[i] == c;
    }
    assert CourseOut(c).Row() == c && StudentOut(s).Row() == s;
  }

  // ----- The store and the writing handlers -----

  /** The database, as the handlers see it through their sessions. */
  class Store {
    var students: seq<StudentRow>
    var courses: seq<CourseRow>
    var enrollments: seq<EnrollmentRow>

    /** The contents of the three tables. */
    function Tables(): Db
      reads this
    {
      Db(students, courses, enrollments)
    }

    /** The table constraints hold. */
    ghost predicate Valid()
      reads this
    {
      WellFormed(Tables())
    }

    /** Freshly created, empty tables. */
    constructor ()
      ensures Valid() && Tables() == Db([], [], [])
    {
      students, courses, enrollments := [], [], [];
    }

    /**
     * `POST /students/`: store the student under a new id, or answer 400
     * when the email is already registered, rolling the insert back.
     */
    method CreateStudent(student: StudentCreate) returns (r: Result<Schemas.Student, HttpError>)
      requires Valid()
      modifies this
      ensures Valid()
      ensures courses == old(courses) && enrollments == old(enrollments)
      ensures EmailTaken(old(students), student.email) ==>
        r == Err(EmailAlreadyRegistered) && students == old(students)
      ensures !EmailTaken(old(students), student.email) ==>
        var row := StudentRow(NextStudentId(old(students)), student.name, student.email);
        students == old(students) + [row] && r == Ok(StudentOut(row))
      ensures r.Ok? ==> 0 < r.value.id && !HasStudent(old(students), r.value.id)
    {
      var row := StudentRow(NextStudentId(students), student.name, student.email);
      UniqueEmailsAppend(students, row);
      var saved := students;
      students := students + [row];
      if !UniqueEmails(students) {
        // the commit fails on the unique index and the session rolls back
        students := saved;
        return Err(EmailAlreadyRegistered);
      }
      AddStudentKeepsConstraints(old(Tables()), row);
      return Ok(StudentOut(row));
    }

    /** `POST /courses/`: store the course under a new id; it always succeeds. */
    method CreateCourse(course: CourseCreate) returns (r: Schemas.Course)
      requires Valid()
      modifies this
      ensures Valid()
      ensures students == old(students) && enrollments == old(enrollments)
      ensures var row := CourseRow(NextCourseId(old(courses)), course.title, course.description);
        courses == old(courses) + [row] && r == CourseOut(row)
      ensures 0 < r.id && !HasCourse(old(courses), r.id)
    {
      var row := CourseRow(NextCourseId(courses), course.title, course.description);
      AddCourseKeepsConstraints(Tables(), row);
      courses := courses + [row];
      r := CourseOut(row);
    }

    /**
     * `POST /enroll/`: check that the student exists, then that the course
     * exists, then that the pair is not enrolled yet, and only then store
     * the enrollment dated `today`. A failing check changes nothing.
     */
    method EnrollStudent(enrollment: EnrollmentCreate, today: Date) returns (r: Result<Schemas.Enrollment, HttpError>)
      requires Valid()
      modifies this
      ensures Valid()
      ensures students == old(students) && courses == old(courses)
      ensures !HasStudent(students, enrollment.studentId) ==>
        r == Err(StudentNotFound) && enrollments == old(enrollments)
      ensures HasStudent(students, enrollment.studentId) && !HasCourse(courses, enrollment.courseId) ==>
        r == Err(CourseNotFound) && enrollments == old(enrollments)
      ensures HasStudent(students, enrollment.studentId) && HasCourse(courses, enrollment.courseId)
              && Enrolled(old(enrollments), enrollment.studentId, enrollment.courseId) ==>
        r == Err(AlreadyEnrolled) && enrollments == old(enrollments)
      ensures HasStudent(students, enrollment.studentId) && HasCourse(courses, enrollment.courseId)
              && !Enrolled(old(enrollments), enrollment.studentId, enrollment.courseId) ==>
        var row := EnrollmentRow(enrollment.studentId, enrollment.courseId, today);
        enrollments == old(enrollments) + [row] && r == Ok(EnrollmentOut(row))
    {
      var student := FindStudent(students, enrollment.studentId);
      if student.None? {
        return Err(StudentNotFound);
      }
      var course := FindCourse(courses, enrollment.courseId);
      if course.None? {
        return Err(CourseNotFound);
      }
      var existing := FindEnrollment(enrollments, enrollment.studentId, enrollment.courseId);
      if existing.Some? {
        return Err(AlreadyEnrolled);
      }
      var row := EnrollmentRow(enrollment.studentId, enrollment.courseId, today);
      AddEnrollmentKeepsConstraints(Tables(), row);
      enrollments := enrollments + [row];
      return Ok(EnrollmentOut(row));
    }
  }
}
