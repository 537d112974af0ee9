/**
 * Request sequences against a fresh store, with what the handlers'
 * contracts say they answer. They replay the cases of the service's test
 * suite (app/tests/test_api.py) and the conflict and not-found cases of the
 * enroll endpoint.
 */
module Scenarios {
  import opened Wrappers
  import opened Models
  import opened Schemas
  import opened Handlers

  /** A first student gets id 1 and comes back with the name and email sent. */
  method CreateStudentScenario() returns (r: Result<Schemas.Student, HttpError>)
    ensures r == Ok(Schemas.Student(1, "John Doe", "john@example.com"))
  {
    var store := new Store();
    r := store.CreateStudent(StudentCreate("John Doe", "john@example.com"));
  }

  /** A second student with a registered email is refused, whatever the name. */
  method DuplicateEmailScenario(otherName: string) returns (first: Result<Schemas.Student, HttpError>, second: Result<Schemas.Student, HttpError>, listed: seq<Schemas.Student>)
    ensures first == Ok(Schemas.Student(1, "John Doe", "john@example.com"))
    ensures second == Err(EmailAlreadyRegistered)
    ensures listed == [Schemas.Student(1, "John Doe", "john@example.com")]
  {
    var store := new Store();
    first := store.CreateStudent(StudentCreate("John Doe", "john@example.com"));
    assert EmailTaken(store.students, "john@example.com") by {
      assert store.students[0].email == "john@example.com";
    }
    second := store.CreateStudent(StudentCreate(otherName, "john@example.com"));
    listed := ListStudents(store.Tables(), DefaultSkip, DefaultLimit);
  }

  /** A course comes back with the title and description sent, under id 1. */
  method CreateCourseScenario() returns (r: Schemas.Course)
    ensures r == Schemas.Course(1, "Python Programming", Some("Learn Python basics"))
  {
    var store := new Store();
    r := store.CreateCourse(CourseCreate("Python Programming", Some("Learn Python basics")));
  }

  /** Enrolling a student lists the course in the student's detail. */
  method EnrollScenario(today: Date) returns (enrolled: Result<Schemas.Enrollment, HttpError>, detail: Result<StudentWithCourses, HttpError>)
    ensures enrolled == Ok(Schemas.Enrollment(1, 1, today))
    ensures detail.Ok? && |detail.value.courses| == 1 && detail.value.courses[0].title == "Web Development"
  {
    var store := new Store();
    var s := store.CreateStudent(StudentCreate("Jane Smith", "jane@example.com"));
    var c := store.CreateCourse(CourseCreate("Web Development", Some("Learn web development")));
    assert HasStudent(store.students, 1) && HasCourse(store.courses, 1) by {
      assert store.students[0].id == 1 && store.courses[0].id == 1;
    }
    enrolled := store.EnrollStudent(EnrollmentCreate(s.value.id, c.id), today);
    var db := store.Tables();
    assert Enrolled(db.enrollments, 1, 1) by { assert db.enrollments[0] == EnrollmentRow(1, 1, today); }
    assert CoursesOf(db.courses, db.enrollments, 1) == [CourseRow(1, "Web Development", Some("Learn web development"))];
    detail := GetStudent(db, s.value.id);
  }

  /** The detail of a course with two enrolled students lists both. */
  lemma TwoStudentsListed(alice: StudentRow, bob: StudentRow, course: CourseRow, today: Date)
    requires alice.id == 1 && bob.id == 2 && course.id == 1
    ensures var db := Db([alice, bob], [course], [EnrollmentRow(1, 1, today), EnrollmentRow(2, 1, today)]);
      GetCourse(db, 1) == Ok(CourseWithStudents(1, course.title, course.description, [StudentOut(alice), StudentOut(bob)]))
  {
    var enrollments := [EnrollmentRow(1, 1, today), EnrollmentRow(2, 1, today)];
    assert Enrolled(enrollments, 1, 1) && Enrolled(enrollments, 2, 1) by {
      assert enrollments[0].studentId == 1 && enrollments[1].studentId == 2;
    }
    assert StudentsOf([alice, bob], enrollments, 1) == [alice, bob] by {
      assert [alice, bob][1..] == [bob];
      assert StudentsOf([bob], enrollments, 1) == [bob];
    }
    assert FindCourse([course], 1) == Some(course);
    assert StudentsOut([alice, bob]) == [StudentOut(alice), StudentOut(bob)];
  }

  /** The store after Alice and Bob are created. */
  method SeedAliceAndBob() returns (store: Store)
    ensures fresh(store) && store.Valid()
    ensures store.Tables() == Db([StudentRow(1, "Alice", "alice@example.com"), StudentRow(2, "Bob", "bob@example.com")], [], [])
  {
    var alice := StudentRow(1, "Alice", "alice@example.com");
    store := new Store();
    var r1 := store.CreateStudent(StudentCreate("Alice", "alice@example.com"));
    assert store.Tables() == Db([alice], [], []);
    assert !EmailTaken([alice], "bob@example.com");
    var r2 := store.CreateStudent(StudentCreate("Bob", "bob@example.com"));
  }

  /** The store after Alice, Bob and the course "Data Science" are created. */
  method SeedDataScience() returns (store: Store)
    ensures fresh(store) && store.Valid()
    ensures store.Tables() == Db([StudentRow(1, "Alice", "alice@example.com"), StudentRow(2, "Bob", "bob@example.com")],
                                 [CourseRow(1, "Data Science", Some("Learn data science"))], [])
  {
    store := SeedAliceAndBob();
    var r := store.CreateCourse(CourseCreate("Data Science", Some("Learn data science")));
  }

  /** The "Data Science" store after Alice is enrolled in the course. */
  method SeedAliceEnrolled(today: Date) returns (store: Store)
    ensures fresh(store) && store.Valid()
    ensures store.Tables() == Db([StudentRow(1, "Alice", "alice@example.com"), StudentRow(2, "Bob", "bob@example.com")],
                                 [CourseRow(1, "Data Science", Some("Learn data science"))], [EnrollmentRow(1, 1, today)])
  {
    store := SeedDataScience();
    ghost var tables := store.Tables();
    assert HasStudent(tables.students, 1) && HasCourse(tables.courses, 1) by {
      assert tables.students[0].id == 1 && tables.courses[0].id == 1;
    }
    var e := store.EnrollStudent(EnrollmentCreate(1, 1), today);
  }

  /** Two students enrolled in one course are both listed in the course's detail. */
  method CourseWithStudentsScenario(today: Date) returns (detail: Result<CourseWithStudents, HttpError>)
    ensures detail.Ok? && detail.value.title == "Data Science" && |detail.value.students| == 2
    ensures Schemas.Student(1, "Alice", "alice@example.com") in detail.value.students
    ensures Schemas.Student(2, "Bob", "bob@example.com") in detail.value.students
  {
    var store := SeedAliceEnrolled(today);
    ghost var tables := store.Tables();
    var alice, bob, science := tables.students[0], tables.students[1], tables.courses[0];
    assert HasStudent(tables.students, 2) && HasCourse(tables.courses, 1) by {
      assert bob.id == 2 && science.id == 1;
    }
    assert !Enrolled(tables.enrollments, 2, 1);
    var e := store.EnrollStudent(EnrollmentCreate(2, 1), today);
    assert store.Tables() == Db([alice, bob], [science], [EnrollmentRow(1, 1, today), EnrollmentRow(2, 1, today)]);
    TwoStudentsListed(alice, bob, science, today);
    detail := GetCourse(store.Tables(), 1);
  }

  /** The store after the student "Jane Smith" and the course "Web Development" are created. */
  method SeedWebDevelopment() returns (store: Store)
    ensures fresh(store) && store.Valid()
    ensures store.Tables() == Db([StudentRow(1, "Jane Smith", "jane@example.com")], [CourseRow(1, "Web Development", None)], [])
  {
    store := new Store();
    var s := store.CreateStudent(StudentCreate("Jane Smith", "jane@example.com"));
    var c := store.CreateCourse(CourseCreate("Web Development", None));
  }

  /**
   * The enroll checks run student first, then course: an unknown student is
   * reported even when the course is unknown too, and nothing is stored.
   */
  method EnrollUnknownScenario(today: Date) returns (unknownBoth: Result<Schemas.Enrollment, HttpError>, unknownCourse: Result<Schemas.Enrollment, HttpError>, listed: seq<Schemas.Enrollment>)
    ensures unknownBoth == Err(StudentNotFound)
    ensures unknownCourse == Err(CourseNotFound)
    ensures listed == []
  {
    var store := SeedWebDevelopment();
    assert !HasStudent(store.students, 7) && HasStudent(store.students, 1) && !HasCourse(store.courses, 7) by {
      assert store.students[0].id == 1 && store.courses[0].id == 1;
    }
    unknownBoth := store.EnrollStudent(EnrollmentCreate(7, 7), today);
    unknownCourse := store.EnrollStudent(EnrollmentCreate(1, 7), today);
    listed := ListEnrollments(store.Tables(), DefaultSkip, DefaultLimit);
  }

  /** Enrolling the same pair twice is refused the second time, and only one row is stored. */
  method EnrollTwiceScenario(today: Date) returns (first: Result<Schemas.Enrollment, HttpError>, repeated: Result<Schemas.Enrollment, HttpError>, listed: seq<Schemas.Enrollment>)
    ensures first == Ok(Schemas.Enrollment(1, 1, today))
    ensures repeated == Err(AlreadyEnrolled)
    ensures listed == [Schemas.Enrollment(1, 1, today)]
  {
    var store := SeedWebDevelopment();
    ghost var tables := store.Tables();
    assert HasStudent(tables.students, 1) && HasCourse(tables.courses, 1) by {
      assert tables.students[0].id == 1 && tables.courses[0].id == 1;
    }
    first := store.EnrollStudent(EnrollmentCreate(1, 1), today);
    assert store.Tables() == tables.(enrollments := [EnrollmentRow(1, 1, today)]);
    assert Enrolled(store.enrollments, 1, 1) by {
      assert store.enrollments[0] == EnrollmentRow(1, 1, today);
    }
    repeated := store.EnrollStudent(EnrollmentCreate(1, 1), today);
    listed := ListEnrollments(store.Tables(), DefaultSkip, DefaultLimit);
  }
}
