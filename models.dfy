/**
 * The three tables of the service (students, courses and the enrollments
 * join table), the constraints the table definitions put on them, and the
 * relationship queries that give a student's courses and a course's
 * students.
 *
 * Generated ids follow SQLite's rule for an integer primary key: the new id
 * is one more than the largest id stored, and 1 in an empty table. Since no
 * row is ever deleted, ids ascend in insertion order.
 */
module Models {
  import opened Wrappers

  /** The value of a `Date` column; which dates are valid is the date library's concern. */
  datatype Date = Date(year: int, month: int, day: int)

  /** A row of `students`: every column is NOT NULL. */
  datatype StudentRow = StudentRow(id: int, name: string, email: string)

  /** A row of `courses`: the description column is nullable. */
  datatype CourseRow = CourseRow(id: int, title: string, description: Option<string>)

  /** A row of `enrollments`: the key is the pair of foreign keys. */
  datatype EnrollmentRow = EnrollmentRow(studentId: int, courseId: int, enrolledOn: Date)

  /** The contents of the three tables, each in insertion order. */
  datatype Db = Db(students: seq<StudentRow>, courses: seq<CourseRow>, enrollments: seq<EnrollmentRow>)

  // ----- Constraints -----

  /** Primary key of `students`: generated ids are positive and ascend. */
  predicate StudentKeys(rows: seq<StudentRow>) {
    && (forall i | 0 <= i < |rows| :: 0 < rows[i].id)
    && (forall i, j | 0 <= i < j < |rows| :: rows[i].id < rows[j].id)
  }

  /** The unique index on `students.email`. */
  predicate UniqueEmails(rows: seq<StudentRow>) {
    forall i, j | 0 <= i < j < |rows| :: rows[i].email != rows[j].email
  }

  /** Primary key of `courses`: generated ids are positive and ascend. */
  predicate CourseKeys(rows: seq<CourseRow>) {
    && (forall i | 0 <= i < |rows| :: 0 < rows[i].id)
    && (forall i, j | 0 <= i < j < |rows| :: rows[i].id < rows[j].id)
  }

  /** The composite primary key (student_id, course_id) of `enrollments`. */
  predicate UniquePairs(rows: seq<EnrollmentRow>) {
    forall i, j | 0 <= i < j < |rows| ::
      rows[i].studentId != rows[j].studentId || rows[i].courseId != rows[j].courseId
  }

  predicate HasStudent(rows: seq<StudentRow>, id: int) {
    exists i | 0 <= i < |rows| :: rows[i].id == id
  }

  predicate HasCourse(rows: seq<CourseRow>, id: int) {
    exists i | 0 <= i < |rows| :: rows[i].id == id
  }

  predicate EmailTaken(rows: seq<StudentRow>, email: string) {
    exists i | 0 <= i < |rows| :: rows[i].email == email
  }

  /** Some enrollment row pairs the student with the course. */
  predicate Enrolled(rows: seq<EnrollmentRow>, studentId: int, courseId: int) {
    exists i | 0 <= i < |rows| :: rows[i].studentId == studentId && rows[i].courseId == courseId
  }

  /** The two foreign keys of `enrollments`. */
  predicate ForeignKeys(db: Db) {
    forall i | 0 <= i < |db.enrollments| ::
      && HasStudent(db.students, db.enrollments[i].studentId)
      && HasCourse(db.courses, db.enrollments[i].courseId)
  }

  /** Every constraint the table definitions declare. */
  predicate WellFormed(db: Db) {
    && StudentKeys(db.students)
    && UniqueEmails(db.students)
    && CourseKeys(db.courses)
    && UniquePairs(db.enrollments)
    && ForeignKeys(db)
  }

  /** Distinct rows of `students` have distinct ids. */
  lemma StudentIdsUnique(rows: seq<StudentRow>, i: int, j: int)
    requires StudentKeys(rows)
    requires 0 <= i < |rows| && 0 <= j < |rows| && i != j
    ensures rows[i].id != rows[j].id
  {
    if i > j { StudentIdsUnique(rows, j, i); }
  }

  /** Distinct rows of `courses` have distinct ids. */
  lemma CourseIdsUnique(rows: seq<CourseRow>, i: int, j: int)
    requires CourseKeys(rows)
    requires 0 <= i < |rows| && 0 <= j < |rows| && i != j
    ensures rows[i].id != rows[j].id
  {
    if i > j { CourseIdsUnique(rows, j, i); }
  }

  // ----- Id generation -----

  /** The id the store gives the next student: larger than every stored id. */
  function NextStudentId(rows: seq<StudentRow>): (r: int)
    ensures StudentKeys(rows) ==> 0 < r && forall i | 0 <= i < |rows| :: rows[i].id < r
  {
    if |rows| == 0 then 1 else rows[|rows| - 1].id + 1
  }

  /** The id the store gives the next course: larger than every stored id. */
  function NextCourseId(rows: seq<CourseRow>): (r: int)
    ensures CourseKeys(rows) ==> 0 < r && forall i | 0 <= i < |rows| :: rows[i].id < r
  {
    if |rows| == 0 then 1 else rows[|rows| - 1].id + 1
  }

  // ----- Lookups: `query(...).filter(...).first()` -----

  /** The first student row with the id, if any. */
  function FindStudent(rows: seq<StudentRow>, id: int): (r: Option<StudentRow>)
    ensures r.None? <==> !HasStudent(rows, id)
    ensures r.Some? ==> r.value in rows && r.value.id == id
    decreases |rows|
  {
    if |rows| == 0 then None
    else if rows[0].id == id then Some(rows[0])
    else
      var r := FindStudent(rows[1..], id);
      assert HasStudent(rows, id) ==> HasStudent(rows[1..], id) by {
        if HasStudent(rows, id) {
          var i :| 0 <= i < |rows| && rows[i].id == id;
          assert rows[1..][i - 1].id == id;
        }
      }
      r
  }

  /** The first course row with the id, if any. */
  function FindCourse(rows: seq<CourseRow>, id: int): (r: Option<CourseRow>)
    ensures r.None? <==> !HasCourse(rows, id)
    ensures r.Some? ==> r.value in rows && r.value.id == id
    decreases |rows|
  {
    if |rows| == 0 then None
    else if rows[0].id == id then Some(rows[0])
    else
      var r := FindCourse(rows[1..], id);
      assert HasCourse(rows, id) ==> HasCourse(rows[1..], id) by {
        if HasCourse(rows, id) {
          var i :| 0 <= i < |rows| && rows[i].id == id;
          assert rows[1..][i - 1].id == id;
        }
      }
      r
  }

  /** The first enrollment row for the pair, if any. */
  function FindEnrollment(rows: seq<EnrollmentRow>, studentId: int, courseId: int): (r: Option<EnrollmentRow>)
    ensures r.None? <==> !Enrolled(rows, studentId, courseId)
    ensures r.Some? ==> r.value in rows && r.value.studentId == studentId && r.value.courseId == courseId
    decreases |rows|
  {
    if |rows| == 0 then None
    else if rows[0].studentId == studentId && rows[0].courseId == courseId then Some(rows[0])
    else
      var r := FindEnrollment(rows[1..], studentId, courseId);
      assert Enrolled(rows, studentId, courseId) ==> Enrolled(rows[1..], studentId, courseId) by {
        if Enrolled(rows, studentId, courseId) {
          var i :| 0 <= i < |rows| && rows[i].studentId == studentId && rows[i].courseId == courseId;
          assert rows[1..][i - 1] == rows[i];
        }
      }
      r
  }

  /** With unique ids, the lookup finds exactly the row that carries the id. */
  lemma FindStudentAt(rows: seq<StudentRow>, k: int)
    requires StudentKeys(rows) && 0 <= k < |rows|
    ensures FindStudent(rows, rows[k].id) == Some(rows[k])
  {
    var r := FindStudent(rows, rows[k].id);
    var i :| 0 <= i < |rows| && rows[i] == r.value;
    if i != k { StudentIdsUnique(rows, i, k); }
  }

  /** With unique ids, the lookup finds exactly the row that carries the id. */
  lemma FindCourseAt(rows: seq<CourseRow>, k: int)
    requires CourseKeys(rows) && 0 <= k < |rows|
    ensures FindCourse(rows, rows[k].id) == Some(rows[k])
  {
    var r := FindCourse(rows, rows[k].id);
    var i :| 0 <= i < |rows| && rows[i] == r.value;
    if i != k { CourseIdsUnique(rows, i, k); }
  }

  // ----- Relationships through `enrollments` -----

  /** `Student.courses`: the courses the student is enrolled in, in table order. */
  function CoursesOf(courses: seq<CourseRow>, enrollments: seq<EnrollmentRow>, studentId: int): (r: seq<CourseRow>)
    ensures forall c :: c in r <==> c in courses && Enrolled(enrollments, studentId, c.id)
    ensures |r| <= |courses|
    decreases |courses|
  {
    if |courses| == 0 then []
    else
      var rest := CoursesOf(courses[1..], enrollments, studentId);
      if Enrolled(enrollments, studentId, courses[0].id) then [courses[0]] + rest else rest
  }

  /** Related rows keep the keys of their table: each is listed once, in ascending id order. */
  lemma {:induction false} CoursesOfKeys(courses: seq<CourseRow>, enrollments: seq<EnrollmentRow>, studentId: int)
    ensures CourseKeys(courses) ==> CourseKeys(CoursesOf(courses, enrollments, studentId))
    decreases |courses|
  {
    if |courses| > 0 && CourseKeys(courses) {
      var rest := CoursesOf(courses[1..], enrollments, studentId);
      CourseKeysTail(courses);
      CoursesOfKeys(courses[1..], enrollments, studentId);
      if Enrolled(enrollments, studentId, courses[0].id) {
        forall j | 0 <= j < |rest| ensures courses[0].id < rest[j].id {
          assert rest[j] in courses[1..];
        }
        CourseKeysCons(courses[0], rest);
      }
    }
  }

  /** Dropping the first row keeps the keys, and every later row has a larger id. */
  lemma CourseKeysTail(rows: seq<CourseRow>)
    requires CourseKeys(rows) && |rows| > 0
    ensures CourseKeys(rows[1..])
    ensures forall x | x in rows[1..] :: rows[0].id < x.id
  {
    forall x | x in rows[1..] ensures rows[0].id < x.id {
      var k :| 0 <= k < |rows[1..]| && rows[1..][k] == x;
      assert rows[k + 1] == x;
    }
  }

  /** A row with a positive id below every id of ascending keys keeps them ascending in front. */
  lemma CourseKeysCons(c: CourseRow, rest: seq<CourseRow>)
    requires CourseKeys(rest) && 0 < c.id
    requires forall j | 0 <= j < |rest| :: c.id < rest[j].id
    ensures CourseKeys([c] + rest)
  {
    var r := [c] + rest;
    forall i, j | 0 <= i < j < |r| ensures r[i].id < r[j].id {
      assert r[j] == rest[j - 1];
      if i > 0 { assert r[i] == rest[i - 1]; }
    }
  }

  /** `Course.students`: the students enrolled in the course, in table order. */
  function StudentsOf(students: seq<StudentRow>, enrollments: seq<EnrollmentRow>, courseId: int): (r: seq<StudentRow>)
    ensures forall s :: s in r <==> s in students && Enrolled(enrollments, s.id, courseId)
    ensures |r| <= |students|
    decreases |students|
  {
    if |students| == 0 then []
    else
      var rest := StudentsOf(students[1..], enrollments, courseId);
      if Enrolled(enrollments, students[0].id, courseId) then [students[0]] + rest else rest
  }

  /** Related rows keep the keys of their table: each is listed once, in ascending id order. */
  lemma {:induction false} StudentsOfKeys(students: seq<StudentRow>, enrollments: seq<EnrollmentRow>, courseId: int)
    ensures StudentKeys(students) ==> StudentKeys(StudentsOf(students, enrollments, courseId))
    decreases |students|
  {
    if |students| > 0 && StudentKeys(students) {
      var rest := StudentsOf(students[1..], enrollments, courseId);
      StudentKeysTail(students);
      StudentsOfKeys(students[1..], enrollments, courseId);
      if Enrolled(enrollments, students[0].id, courseId) {
        forall j | 0 <= j < |rest| ensures students[0].id < rest[j].id {
          assert rest[j] in students[1..];
        }
        StudentKeysCons(students[0], rest);
      }
    }
  }

  /** Dropping the first row keeps the keys, and every later row has a larger id. */
  lemma StudentKeysTail(rows: seq<StudentRow>)
    requires StudentKeys(rows) && |rows| > 0
    ensures StudentKeys(rows[1..])
    ensures forall x | x in rows[1..] :: rows[0].id < x.id
  {
    forall x | x in rows[1..] ensures rows[0].id < x.id {
      var k :| 0 <= k < |rows[1..]| && rows[1..][k] == x;
      assert rows[k + 1] == x;
    }
  }

  /** A row with a positive id below every id of ascending keys keeps them ascending in front. */
  lemma StudentKeysCons(s: StudentRow, rest: seq<StudentRow>)
    requires StudentKeys(rest) && 0 < s.id
    requires forall j | 0 <= j < |rest| :: s.id < rest[j].id
    ensures StudentKeys([s] + rest)
  {
    var r := [s] + rest;
    forall i, j | 0 <= i < j < |r| ensures r[i].id < r[j].id {
      assert r[j] == rest[j - 1];
      if i > 0 { assert r[i] == rest[i - 1]; }
    }
  }

  /** `Course.students` is the inverse of `Student.courses`. */
  lemma RelationshipSymmetric(db: Db, s: StudentRow, c: CourseRow)
    requires s in db.students && c in db.courses
    ensures c in CoursesOf(db.courses, db.enrollments, s.id) <==> s in StudentsOf(db.students, db.enrollments, c.id)
  {
  }

  /** Appending one enrollment row adds exactly its pair to the relation. */
  lemma EnrolledAppend(rows: seq<EnrollmentRow>, e: EnrollmentRow, studentId: int, courseId: int)
    ensures Enrolled(rows + [e], studentId, courseId)
        <==> Enrolled(rows, studentId, courseId) || (e.studentId == studentId && e.courseId == courseId)
  {
    var rows' := rows + [e];
    if Enrolled(rows', studentId, courseId) {
      var i :| 0 <= i < |rows'| && rows'[i].studentId == studentId && rows'[i].courseId == courseId;
      if i < |rows| { assert rows[i] == rows'[i]; }
    }
    if Enrolled(rows, studentId, courseId) {
      var i :| 0 <= i < |rows| && rows[i].studentId == studentId && rows[i].courseId == courseId;
      assert rows'[i] == rows[i];
    }
    assert rows'[|rows|] == e;
  }

  /**
   * After an enrollment row for (student, course) is stored, the student's
   * courses list the course and the course's students list the student;
   * the courses of every other student are unchanged.
   */
  lemma EnrollmentLinksBoth(db: Db, s: StudentRow, c: CourseRow, today: Date)
    requires s in db.students && c in db.courses
    ensures var rows := db.enrollments + [EnrollmentRow(s.id, c.id, today)];
      && c in CoursesOf(db.courses, rows, s.id)
      && s in StudentsOf(db.students, rows, c.id)
  {
    EnrolledAppend(db.enrollments, EnrollmentRow(s.id, c.id, today), s.id, c.id);
  }

  /** Another student's courses do not change when an enrollment is added. */
  lemma {:induction false} EnrollmentKeepsOtherStudents(courses: seq<CourseRow>, rows: seq<EnrollmentRow>, e: EnrollmentRow, studentId: int)
    requires studentId != e.studentId
    ensures CoursesOf(courses, rows + [e], studentId) == CoursesOf(courses, rows, studentId)
    decreases |courses|
  {
    if |courses| > 0 {
      EnrolledAppend(rows, e, studentId, courses[0].id);
      EnrollmentKeepsOtherStudents(courses[1..], rows, e, studentId);
    }
  }

  /** A student that no enrollment row mentions has no courses. */
  lemma {:induction false} NoEnrollmentNoCourses(courses: seq<CourseRow>, enrollments: seq<EnrollmentRow>, studentId: int)
    requires forall i | 0 <= i < |enrollments| :: enrollments[i].studentId != studentId
    ensures CoursesOf(courses, enrollments, studentId) == []
    decreases |courses|
  {
    if |courses| > 0 { NoEnrollmentNoCourses(courses[1..], enrollments, studentId); }
  }

  /** A course that no enrollment row mentions has no students. */
  lemma {:induction false} NoEnrollmentNoStudents(students: seq<StudentRow>, enrollments: seq<EnrollmentRow>, courseId: int)
    requires forall i | 0 <= i < |enrollments| :: enrollments[i].courseId != courseId
    ensures StudentsOf(students, enrollments, courseId) == []
    decreases |students|
  {
    if |students| > 0 { NoEnrollmentNoStudents(students[1..], enrollments, courseId); }
  }

  /** A student id that no row carries has no courses: every enrollment refers to a stored student. */
  lemma UnknownStudentHasNoCourses(db: Db, studentId: int)
    requires WellFormed(db) && !HasStudent(db.students, studentId)
    ensures CoursesOf(db.courses, db.enrollments, studentId) == []
  {
    forall i | 0 <= i < |db.enrollments| ensures db.enrollments[i].studentId != studentId {
      assert HasStudent(db.students, db.enrollments[i].studentId);
    }
    NoEnrollmentNoCourses(db.courses, db.enrollments, studentId);
  }

  /** A course id that no row carries has no students: every enrollment refers to a stored course. */
  lemma UnknownCourseHasNoStudents(db: Db, courseId: int)
    requires WellFormed(db) && !HasCourse(db.courses, courseId)
    ensures StudentsOf(db.students, db.enrollments, courseId) == []
  {
    forall i | 0 <= i < |db.enrollments| ensures db.enrollments[i].courseId != courseId {
      assert HasCourse(db.courses, db.enrollments[i].courseId);
    }
    NoEnrollmentNoStudents(db.students, db.enrollments, courseId);
  }

  // ----- The constraints survive each kind of insert -----

  /** The unique email index accepts an appended row exactly when its email is new. */
  lemma UniqueEmailsAppend(rows: seq<StudentRow>, row: StudentRow)
    requires UniqueEmails(rows)
    ensures UniqueEmails(rows + [row]) <==> !EmailTaken(rows, row.email)
  {
    var rows' := rows + [row];
    if EmailTaken(rows, row.email) {
      var i :| 0 <= i < |rows| && rows[i].email == row.email;
      assert rows'[i].email == rows'[|rows|].email;
    } else {
      forall i, j | 0 <= i < j < |rows'| ensures rows'[i].email != rows'[j].email {
        if j < |rows| { assert rows'[i] == rows[i] && rows'[j] == rows[j]; }
        else { assert rows'[i] == rows[i]; }
      }
    }
  }

  lemma HasStudentAppend(rows: seq<StudentRow>, row: StudentRow, id: int)
    ensures HasStudent(rows + [row], id) <==> HasStudent(rows, id) || row.id == id
  {
    var rows' := rows + [row];
    if HasStudent(rows', id) {
      var i :| 0 <= i < |rows'| && rows'[i].id == id;
      if i < |rows| { assert rows[i] == rows'[i]; }
    }
    if HasStudent(rows, id) {
      var i :| 0 <= i < |rows| && rows[i].id == id;
      assert rows'[i] == rows[i];
    }
    assert rows'[|rows|] == row;
  }

  lemma HasCourseAppend(rows: seq<CourseRow>, row: CourseRow, id: int)
    ensures HasCourse(rows + [row], id) <==> HasCourse(rows, id) || row.id == id
  {
    var rows' := rows + [row];
    if HasCourse(rows', id) {
      var i :| 0 <= i < |rows'| && rows'[i].id == id;
      if i < |rows| { assert rows[i] == rows'[i]; }
    }
    if HasCourse(rows, id) {
      var i :| 0 <= i < |rows| && rows[i].id == id;
      assert rows'[i] == rows[i];
    }
    assert rows'[|rows|] == row;
  }

  /** Storing a student under the next id with a new email keeps every constraint. */
  lemma AddStudentKeepsConstraints(db: Db, row: StudentRow)
    requires WellFormed(db)
    requires row.id == NextStudentId(db.students) && !EmailTaken(db.students, row.email)
    ensures WellFormed(db.(students := db.students + [row]))
  {
    UniqueEmailsAppend(db.students, row);
    var db' := db.(students := db.students + [row]);
    forall i | 0 <= i < |db.enrollments|
      ensures HasStudent(db'.students, db.enrollments[i].studentId)
    {
      HasStudentAppend(db.students, row, db.enrollments[i].studentId);
    }
  }

  /** Storing a course under the next id keeps every constraint. */
  lemma AddCourseKeepsConstraints(db: Db, row: CourseRow)
    requires WellFormed(db)
    requires row.id == NextCourseId(db.courses)
    ensures WellFormed(db.(courses := db.courses + [row]))
  {
    var db' := db.(courses := db.courses + [row]);
    forall i | 0 <= i < |db.enrollments|
      ensures HasCourse(db'.courses, db.enrollments[i].courseId)
    {
      HasCourseAppend(db.courses, row, db.enrollments[i].courseId);
    }
  }

  /** Storing an enrollment of a stored student in a stored course, for a new pair, keeps every constraint. */
  lemma AddEnrollmentKeepsConstraints(db: Db, e: EnrollmentRow)
    requires WellFormed(db)
    requires HasStudent(db.students, e.studentId) && HasCourse(db.courses, e.courseId)
    requires !Enrolled(db.enrollments, e.studentId, e.courseId)
    ensures WellFormed(db.(enrollments := db.enrollments + [e]))
  {
    var rows := db.enrollments;
    var rows' := rows + [e];
    forall i, j | 0 <= i < j < |rows'|
      ensures rows'[i].studentId != rows'[j].studentId || rows'[i].courseId != rows'[j].courseId
    {
      if j == |rows| {
        assert rows'[i] == rows[i] && rows'[j] == e;
      } else {
        assert rows'[i] == rows[i] && rows'[j] == rows[j];
      }
    }
  }
}
