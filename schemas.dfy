/**
 * The request and response records of the HTTP API and their projections
 * from stored rows. A creation request carries only the client-supplied
 * fields; the response adds what the store assigns (an id, or the
 * enrollment date). The nested shapes go one level deep: the courses listed
 * in a `StudentWithCourses` are plain `Course` records with no student list,
 * and the students in a `CourseWithStudents` are plain `Student` records
 * with no course list.
 */
module Schemas {
  import opened Wrappers
  import Models

  /** Body of a student-creation request. */
  datatype StudentCreate = StudentCreate(name: string, email: string)

  /** A student as the API returns it. */
  datatype Student = Student(id: int, name: string, email: string) {
    /** The stored row this record was read from. */
    function Row(): Models.StudentRow { Models.StudentRow(id, name, email) }
  }

  /** Body of a course-creation request; an omitted description is `None`. */
  datatype CourseCreate = CourseCreate(title: string, description: Option<string>)

  /** A course as the API returns it. */
  datatype Course = Course(id: int, title: string, description: Option<string>) {
    /** The stored row this record was read from. */
    function Row(): Models.CourseRow { Models.CourseRow(id, title, description) }
  }

  /** Body of an enrollment request: the date is never client-supplied. */
  datatype EnrollmentCreate = EnrollmentCreate(studentId: int, courseId: int)

  /** An enrollment as the API returns it. */
  datatype Enrollment = Enrollment(studentId: int, courseId: int, enrolledOn: Models.Date) {
    /** The stored row this record was read from. */
    function Row(): Models.EnrollmentRow { Models.EnrollmentRow(studentId, courseId, enrolledOn) }
  }

  /** A course nested inside a student: it has no student list of its own. */
  type CourseWithoutStudents = Course

  /** A student nested inside a course: it has no course list of its own. */
  type StudentWithoutCourses = Student

  /** A student with the courses the student is enrolled in. */
  datatype StudentWithCourses = StudentWithCourses(id: int, name: string, email: string, courses: seq<CourseWithoutStudents>)

  /** A course with the students enrolled in it. */
  datatype CourseWithStudents = CourseWithStudents(id: int, title: string, description: Option<string>, students: seq<StudentWithoutCourses>)

  function StudentOut(row: Models.StudentRow): Student {
    Student(row.id, row.name, row.email)
  }

  function CourseOut(row: Models.CourseRow): Course {
    Course(row.id, row.title, row.description)
  }

  function EnrollmentOut(row: Models.EnrollmentRow): Enrollment {
    Enrollment(row.studentId, row.courseId, row.enrolledOn)
  }

  /** The response records of a list of student rows: the same rows, in the same order. */
  function StudentsOut(rows: seq<Models.StudentRow>): (r: seq<Student>)
    ensures |r| == |rows|
    ensures forall i | 0 <= i < |r| :: r[i].Row() == rows[i]
    ensures forall s :: s in r <==> s.Row() in rows
  {
    var r := seq(|rows|, i requires 0 <= i < |rows| => StudentOut(rows[i]));
    assert forall s: Student | s.Row() in rows :: s in r by {
      forall s: Student | s.Row() in rows ensures s in r {
        var i :| 0 <= i < |rows| && rows[i] == s.Row();
        assert r[i] == s;
      }
    }
    r
  }

  /** The response records of a list of course rows: the same rows, in the same order. */
  function CoursesOut(rows: seq<Models.CourseRow>): (r: seq<Course>)
    ensures |r| == |rows|
    ensures forall i | 0 <= i < |r| :: r[i].Row() == rows[i]
    ensures forall c :: c in r <==> c.Row() in rows
  {
    var r := seq(|rows|, i requires 0 <= i < |rows| => CourseOut(rows[i]));
    assert forall c: Course | c.Row() in rows :: c in r by {
      forall c: Course | c.Row() in rows ensures c in r {
        var i :| 0 <= i < |rows| && rows[i] == c.Row();
        assert r[i] == c;
      }
    }
    r
  }

  /** The response records of a list of enrollment rows, in the same order. */
  function EnrollmentsOut(rows: seq<Models.EnrollmentRow>): (r: seq<Enrollment>)
    ensures |r| == |rows|
    ensures forall i | 0 <= i < |r| :: r[i].Row() == rows[i]
  {
    seq(|rows|, i requires 0 <= i < |rows| => EnrollmentOut(rows[i]))
  }
}
