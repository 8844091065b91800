/** The layered version's `service` package. Each service wraps its repository, takes fresh
    ids from the shared `IdGenerator`, and turns a missing id into `NotFound(kind, id)`
    (Java's `EntityNotFoundException`). None of them checks duplicates, capacity or the
    active flags.

    Each service's `Valid()` says that the ids in its store are distinct and none exceeds
    the generator's counter. The source never checks this; it holds as long as entities
    are only added through the service and the counters are not reset, and every
    operation keeps it. Under it, an id finds exactly the entity added with it. */
module Service {
  import opened Common
  import opened Entity
  import opened Repository
  import Util
  import Seqs

  // ---------------------------------------------------------------------------------------
  // StudentService

  class StudentService {
    const studentRepository: StudentRepository
    const ids: Util.IdGenerator

    constructor (studentRepository: StudentRepository, ids: Util.IdGenerator)
      ensures this.studentRepository == studentRepository && this.ids == ids
    {
      this.studentRepository, this.ids := studentRepository, ids;
    }

    ghost predicate Valid()
      reads this, studentRepository, ids
    {
      var s := studentRepository.students;
      Seqs.KeysDistinct(s, StudentKey) && forall i | 0 <= i < |s| :: s[i].id <= ids.studentIdCounter
    }

    /** `addStudent(firstName, lastName, email, batch)`: a new active student with the next
        student id, appended to the store. Names are not checked for duplicates. */
    method AddStudent(firstName: string, lastName: string, email: string, batch: string)
      returns (student: StudentRecord)
      requires ids.Valid() && ids.studentIdCounter < IntMax
      modifies studentRepository, ids`studentIdCounter, ids`issuedStudentIds
      ensures ids.Valid() && ids.studentIdCounter == student.id
      ensures student == StudentRecord(old(ids.studentIdCounter) + 1, firstName, lastName, Some(email), batch, true)
      ensures student.id !in old(ids.issuedStudentIds)
      ensures studentRepository.students == old(studentRepository.students) + [student]
      ensures old(Valid()) ==> Valid() && Seqs.Find(studentRepository.students, StudentKey, student.id) == Some(student)
    {
      ghost var wasValid := Valid();
      var id := ids.GetNextStudentId();
      var entity := new Student(id, firstName, lastName, Some(email), batch, true);
      student := entity.Record();
      studentRepository.AddStudent(student);
      if wasValid {
        Seqs.AppendFreshKey(old(studentRepository.students), StudentKey, student);
      }
    }

    /** `addStudent(firstName, lastName, batch)`: as the four-argument form, with a null email. */
    method AddStudentWithoutEmail(firstName: string, lastName: string, batch: string)
      returns (student: StudentRecord)
      requires ids.Valid() && ids.studentIdCounter < IntMax
      modifies studentRepository, ids`studentIdCounter, ids`issuedStudentIds
      ensures ids.Valid() && ids.studentIdCounter == student.id
      ensures student == StudentRecord(old(ids.studentIdCounter) + 1, firstName, lastName, None, batch, true)
      ensures student.id !in old(ids.issuedStudentIds)
      ensures studentRepository.students == old(studentRepository.students) + [student]
      ensures old(Valid()) ==> Valid() && Seqs.Find(studentRepository.students, StudentKey, student.id) == Some(student)
    {
      ghost var wasValid := Valid();
      var id := ids.GetNextStudentId();
      var entity := new Student.WithoutEmail(id, firstName, lastName, batch, true);
      student := entity.Record();
      studentRepository.AddStudent(student);
      if wasValid {
        Seqs.AppendFreshKey(old(studentRepository.students), StudentKey, student);
      }
    }

    /** `getAllStudents`: every stored student, in order. */
    method GetAllStudents() returns (r: seq<StudentRecord>)
      ensures r == studentRepository.students
    {
      r := studentRepository.GetAllStudents();
    }

    /** `getActiveStudents`: the active students, in order. */
    method GetActiveStudents() returns (r: seq<StudentRecord>)
      ensures r == Seqs.Select(studentRepository.students, StudentIsActive)
    {
      r := studentRepository.GetActiveStudents();
    }

    /** `findStudentById`: the first stored student with that id, or `NotFound("Student", id)`. */
    method FindStudentById(id: int) returns (r: Result<StudentRecord>)
      ensures r.Ok? <==> exists s | s in studentRepository.students :: s.id == id
      ensures r.Ok? ==> Seqs.Find(studentRepository.students, StudentKey, id) == Some(r.value)
      ensures r.Err? ==> r.error == NotFound("Student", id)
    {
      var student := studentRepository.FindById(id);
      if student.None? {
        return Err(NotFound("Student", id));
      }
      return Ok(student.value);
    }

    /** `deactivateStudent`: `NotFound("Student", id)` with nothing changed when no student
        has that id; otherwise the first such student becomes inactive, and (when the stored ids
        are distinct) no active student has that id any more. */
    method DeactivateStudent(id: int) returns (r: Outcome)
      modifies studentRepository
      ensures r == if Seqs.FirstIndex(old(studentRepository.students), StudentKey, id).Some?
        then Done else Fail(NotFound("Student", id))
      ensures studentRepository.students
        == Seqs.UpdateFirst(old(studentRepository.students), StudentKey, id, SetStudentActive(false))
      ensures old(Valid()) ==> Valid()
      ensures Seqs.KeysDistinct(old(studentRepository.students), StudentKey) ==>
        forall s | s in Seqs.Select(studentRepository.students, StudentIsActive) :: s.id != id
    {
      var student := studentRepository.FindById(id);
      if student.None? {
        forall s | s in Seqs.Select(studentRepository.students, StudentIsActive) ensures s.id != id {
          Seqs.SelectMember(studentRepository.students, StudentIsActive, s);
        }
        return Fail(NotFound("Student", id));
      }
      ghost var before := studentRepository.students;
      var _ := studentRepository.DeactivateStudent(id);
      StudentSettersKeepKeys();
      Seqs.UpdateFirstKeys(before, StudentKey, id, SetStudentActive(false));
      if Seqs.KeysDistinct(before, StudentKey) {
        Seqs.UpdateFirstExcludes(before, StudentKey, id, SetStudentActive(false), StudentIsActive);
      }
      return Done;
    }
  }

  /** Setting the active flag keeps the id, is idempotent, and leaves the flag as set. */
  lemma StudentSettersKeepKeys()
    ensures forall b: bool, x :: StudentKey(SetStudentActive(b)(x)) == StudentKey(x)
    ensures forall b: bool, x :: SetStudentActive(b)(SetStudentActive(b)(x)) == SetStudentActive(b)(x)
    ensures forall x :: !StudentIsActive(SetStudentActive(false)(x))
  {
  }

  /** Two successive `addStudent` calls with the same names store two students, with ids one
      apart: there is no duplicate-name check. */
  method AddSameStudentTwice(svc: StudentService, firstName: string, lastName: string, batch: string)
    returns (a: StudentRecord, b: StudentRecord)
    requires svc.ids.Valid() && svc.ids.studentIdCounter < IntMax - 1
    modifies svc.studentRepository, svc.ids
    ensures b.id == a.id + 1 && a.id != b.id
    ensures a.(id := b.id) == b
    ensures svc.studentRepository.students == old(svc.studentRepository.students) + [a, b]
  {
    a := svc.AddStudentWithoutEmail(firstName, lastName, batch);
    b := svc.AddStudentWithoutEmail(firstName, lastName, batch);
  }

  /** Deactivating the same student twice gives the same outcome both times, and the second
      call leaves the store as the first left it. */
  method DeactivateStudentTwice(svc: StudentService, id: int) returns (first: Outcome, second: Outcome)
    modifies svc.studentRepository
    ensures first == second
    ensures first.Done? <==> exists s | s in old(svc.studentRepository.students) :: s.id == id
    ensures svc.studentRepository.students
      == Seqs.UpdateFirst(old(svc.studentRepository.students), StudentKey, id, SetStudentActive(false))
  {
    first := svc.DeactivateStudent(id);
    ghost var afterFirst := svc.studentRepository.students;
    second := svc.DeactivateStudent(id);
    StudentSettersKeepKeys();
    Seqs.UpdateFirstIdempotent(old(svc.studentRepository.students), StudentKey, id, SetStudentActive(false));
    assert svc.studentRepository.students == afterFirst;
  }

  // ---------------------------------------------------------------------------------------
  // CourseService

  class CourseService {
    const courseRepository: CourseRepository
    const ids: Util.IdGenerator

    constructor (courseRepository: CourseRepository, ids: Util.IdGenerator)
      ensures this.courseRepository == courseRepository && this.ids == ids
    {
      this.courseRepository, this.ids := courseRepository, ids;
    }

    ghost predicate Valid()
      reads this, courseRepository, ids
    {
      var c := courseRepository.courses;
      Seqs.KeysDistinct(c, CourseKey) && forall i | 0 <= i < |c| :: c[i].id <= ids.courseIdCounter
    }

    /** `addCourse`: a new active course with the next course id, appended to the store. The
        duration is stored as given; only the console caller insists that it is positive. */
    method AddCourse(courseName: string, description: string, durationInWeeks: int)
      returns (course: CourseRecord)
      requires ids.Valid() && ids.courseIdCounter < IntMax
      modifies courseRepository, ids`courseIdCounter, ids`issuedCourseIds
      ensures ids.Valid() && ids.courseIdCounter == course.id
      ensures course == CourseRecord(old(ids.courseIdCounter) + 1, courseName, description, durationInWeeks, true)
      ensures course.id !in old(ids.issuedCourseIds)
      ensures courseRepository.courses == old(courseRepository.courses) + [course]
      ensures old(Valid()) ==> Valid() && Seqs.Find(courseRepository.courses, CourseKey, course.id) == Some(course)
    {
      ghost var wasValid := Valid();
      var id := ids.GetNextCourseId();
      course := CourseRecord(id, courseName, description, durationInWeeks, true);
      courseRepository.AddCourse(course);
      if wasValid {
        Seqs.AppendFreshKey(old(courseRepository.courses), CourseKey, course);
      }
    }

    /** `getAllCourses`: every stored course, in order. */
    method GetAllCourses() returns (r: seq<CourseRecord>)
      ensures r == courseRepository.courses
    {
      r := courseRepository.GetAllCourses();
    }

    /** `getActiveCourses`: the active courses, in order. */
    method GetActiveCourses() returns (r: seq<CourseRecord>)
      ensures r == Seqs.Select(courseRepository.courses, CourseIsActive)
    {
      r := courseRepository.GetActiveCourses();
    }

    /** `findCourseById`: the first stored course with that id, or `NotFound("Course", id)`. */
    method FindCourseById(id: int) returns (r: Result<CourseRecord>)
      ensures r.Ok? <==> exists c | c in courseRepository.courses :: c.id == id
      ensures r.Ok? ==> Seqs.Find(courseRepository.courses, CourseKey, id) == Some(r.value)
      ensures r.Err? ==> r.error == NotFound("Course", id)
    {
      var course := courseRepository.FindById(id);
      if course.None? {
        return Err(NotFound("Course", id));
      }
      return Ok(course.value);
    }

    /** `activateCourse`: `NotFound("Course", id)` with nothing changed when no course has
        that id; otherwise the first such course becomes active. */
    method ActivateCourse(id: int) returns (r: Outcome)
      modifies courseRepository
      ensures r == if Seqs.FirstIndex(old(courseRepository.courses), CourseKey, id).Some?
        then Done else Fail(NotFound("Course", id))
      ensures courseRepository.courses
        == Seqs.UpdateFirst(old(courseRepository.courses), CourseKey, id, SetCourseActive(true))
      ensures old(Valid()) ==> Valid()
    {
      var course := courseRepository.FindById(id);
      if course.None? {
        return Fail(NotFound("Course", id));
      }
      ghost var before := courseRepository.courses;
      var _ := courseRepository.ActivateCourse(id);
      CourseSettersKeepKeys();
      Seqs.UpdateFirstKeys(before, CourseKey, id, SetCourseActive(true));
      return Done;
    }

    /** `deactivateCourse`: `NotFound("Course", id)` with nothing changed when no course has
        that id; otherwise the first such course becomes inactive, and (when the stored ids are
        distinct) no active course has that id any more. */
    method DeactivateCourse(id: int) returns (r: Outcome)
      modifies courseRepository
      ensures r == if Seqs.FirstIndex(old(courseRepository.courses), CourseKey, id).Some?
        then Done else Fail(NotFound("Course", id))
      ensures courseRepository.courses
        == Seqs.UpdateFirst(old(courseRepository.courses), CourseKey, id, SetCourseActive(false))
      ensures old(Valid()) ==> Valid()
      ensures Seqs.KeysDistinct(old(courseRepository.courses), CourseKey) ==>
        forall c | c in Seqs.Select(courseRepository.courses, CourseIsActive) :: c.id != id
    {
      var course := courseRepository.FindById(id);
      if course.None? {
        forall c | c in Seqs.Select(courseRepository.courses, CourseIsActive) ensures c.id != id {
          Seqs.SelectMember(courseRepository.courses, CourseIsActive, c);
        }
        return Fail(NotFound("Course", id));
      }
      ghost var before := courseRepository.courses;
      var _ := courseRepository.DeactivateCourse(id);
      CourseSettersKeepKeys();
      Seqs.UpdateFirstKeys(before, CourseKey, id, SetCourseActive(false));
      if Seqs.KeysDistinct(before, CourseKey) {
        Seqs.UpdateFirstExcludes(before, CourseKey, id, SetCourseActive(false), CourseIsActive);
      }
      return Done;
    }
  }

  /** Setting a course's active flag keeps its id, is idempotent, and leaves the flag as set. */
  lemma CourseSettersKeepKeys()
    ensures forall b: bool, x :: CourseKey(SetCourseActive(b)(x)) == CourseKey(x)
    ensures forall b: bool, x :: SetCourseActive(b)(SetCourseActive(b)(x)) == SetCourseActive(b)(x)
    ensures forall x :: !CourseIsActive(SetCourseActive(false)(x))
  {
  }

  /** Round trip: the course `addCourse` returns is what `findCourseById` then finds, with the
      name, description and duration given, and active. */
  method AddThenFindCourse(svc: CourseService, courseName: string, description: string, durationInWeeks: int)
    returns (found: Result<CourseRecord>)
    requires svc.Valid() && svc.ids.Valid() && svc.ids.courseIdCounter < IntMax
    modifies svc.courseRepository, svc.ids
    ensures found.Ok? && found.value.courseName == courseName && found.value.description == description
    ensures found.value.durationInWeeks == durationInWeeks && found.value.active
  {
    var course := svc.AddCourse(courseName, description, durationInWeeks);
    found := svc.FindCourseById(course.id);
  }

  /** Activating or deactivating the same course twice gives the same outcome both times,
      and the second call leaves the store as the first left it. */
  method SetCourseActiveTwice(svc: CourseService, id: int, active: bool) returns (first: Outcome, second: Outcome)
    modifies svc.courseRepository
    ensures first == second
    ensures first.Done? <==> exists c | c in old(svc.courseRepository.courses) :: c.id == id
    ensures svc.courseRepository.courses
      == Seqs.UpdateFirst(old(svc.courseRepository.courses), CourseKey, id, SetCourseActive(active))
  {
    if active {
      first := svc.ActivateCourse(id);
      second := svc.ActivateCourse(id);
    } else {
      first := svc.DeactivateCourse(id);
      second := svc.DeactivateCourse(id);
    }
    CourseSettersKeepKeys();
    Seqs.UpdateFirstIdempotent(old(svc.courseRepository.courses), CourseKey, id, SetCourseActive(active));
  }

  // ---------------------------------------------------------------------------------------
  // EnrollmentService

  class EnrollmentService {
    const enrollmentRepository: EnrollmentRepository
    const studentService: StudentService
    const courseService: CourseService
    const ids: Util.IdGenerator

    constructor (enrollmentRepository: EnrollmentRepository, studentService: StudentService,
                 courseService: CourseService, ids: Util.IdGenerator)
      ensures this.enrollmentRepository == enrollmentRepository && this.ids == ids
      ensures this.studentService == studentService && this.courseService == courseService
    {
      this.enrollmentRepository, this.studentService := enrollmentRepository, studentService;
      this.courseService, this.ids := courseService, ids;
    }

    ghost predicate Valid()
      reads this, enrollmentRepository, ids
    {
      var e := enrollmentRepository.enrollments;
      Seqs.KeysDistinct(e, EnrollmentKey) && forall i | 0 <= i < |e| :: e[i].id <= ids.enrollmentIdCounter
    }

    /** Some student the student service knows has that id. */
    ghost predicate HasStudent(studentId: int)
      reads this, studentService, studentService.studentRepository
    {
      exists s | s in studentService.studentRepository.students :: s.id == studentId
    }

    /** Some course the course service knows has that id. */
    ghost predicate HasCourse(courseId: int)
      reads this, courseService, courseService.courseRepository
    {
      exists c | c in courseService.courseRepository.courses :: c.id == courseId
    }

    /** `enrollStudent`: checks that the student exists, then that the course exists; on
        either failure nothing changes and no enrollment id is used. Otherwise a new ACTIVE
        enrollment dated `today`, with the next enrollment id, is appended. No duplicate,
        capacity or active-flag check is made. */
    method EnrollStudent(studentId: int, courseId: int, today: LocalDate) returns (r: Result<EnrollmentRecord>)
      requires ids.Valid() && ids.enrollmentIdCounter < IntMax
      modifies enrollmentRepository, ids`enrollmentIdCounter, ids`issuedEnrollmentIds
      ensures ids.Valid()
      ensures r == if !HasStudent(studentId) then Err(NotFound("Student", studentId))
        else if !HasCourse(courseId) then Err(NotFound("Course", courseId))
        else Ok(EnrollmentRecord(old(ids.enrollmentIdCounter) + 1, studentId, courseId, today, Active))
      ensures r.Ok? ==> r.value.id !in old(ids.issuedEnrollmentIds)
      ensures enrollmentRepository.enrollments
        == old(enrollmentRepository.enrollments) + (if r.Ok? then [r.value] else [])
      ensures ids.enrollmentIdCounter == old(ids.enrollmentIdCounter) + (if r.Ok? then 1 else 0)
      ensures ids.issuedEnrollmentIds == old(ids.issuedEnrollmentIds) + (if r.Ok? then {r.value.id} else {})
      ensures old(Valid()) ==> Valid()
    {
      var checked := FindStudentAndCourse(studentId, courseId);
      if checked.Fail? {
        return Err(checked.error);
      }
      var record := AppendEnrollment(studentId, courseId, today);
      r := Ok(record);
    }

    /** The two lookups `enrollStudent` makes first: the student, and only then the course;
        the first one that finds nothing decides the error. */
    method FindStudentAndCourse(studentId: int, courseId: int) returns (r: Outcome)
      ensures r == if !HasStudent(studentId) then Fail(NotFound("Student", studentId))
        else if !HasCourse(courseId) then Fail(NotFound("Course", courseId))
        else Done
    {
      var student := studentService.FindStudentById(studentId);
      if student.Err? {
        return Fail(student.error);
      }
      var course := courseService.FindCourseById(courseId);
      if course.Err? {
        return Fail(course.error);
      }
      return Done;
    }

    /** What `enrollStudent` does once both checks pass: a new ACTIVE enrollment with the
        next enrollment id is built and appended; its id is above every stored one. */
    method AppendEnrollment(studentId: int, courseId: int, today: LocalDate) returns (record: EnrollmentRecord)
      requires ids.Valid() && ids.enrollmentIdCounter < IntMax
      modifies enrollmentRepository, ids`enrollmentIdCounter, ids`issuedEnrollmentIds
      ensures ids.Valid()
      ensures record == EnrollmentRecord(old(ids.enrollmentIdCounter) + 1, studentId, courseId, today, Active)
      ensures record.id !in old(ids.issuedEnrollmentIds)
      ensures enrollmentRepository.enrollments == old(enrollmentRepository.enrollments) + [record]
      ensures ids.enrollmentIdCounter == record.id
      ensures ids.issuedEnrollmentIds == old(ids.issuedEnrollmentIds) + {record.id}
      ensures old(Valid()) ==> Valid()
    {
      ghost var wasValid := Valid();
      var id := ids.GetNextEnrollmentId();
      var enrollment := new Enrollment(id, studentId, courseId, today, Active);
      record := enrollment.Record();
      enrollmentRepository.AddEnrollment(record);
      if wasValid {
        Seqs.AppendFreshKey(old(enrollmentRepository.enrollments), EnrollmentKey, record);
      }
    }

    /** `getEnrollmentsByStudent`: `NotFound("Student", id)` for an unknown student; otherwise
        every enrollment of that student, whatever its status, in order. */
    method GetEnrollmentsByStudent(studentId: int) returns (r: Result<seq<EnrollmentRecord>>)
      ensures r.Err? <==> !HasStudent(studentId)
      ensures r.Err? ==> r.error == NotFound("Student", studentId)
      ensures r.Ok? ==> r.value == Seqs.Select(enrollmentRepository.enrollments, OfStudent(studentId))
    {
      var student := studentService.FindStudentById(studentId);
      if student.Err? {
        return Err(student.error);
      }
      var found := enrollmentRepository.FindByStudentId(studentId);
      return Ok(found);
    }

    /** `markEnrollmentCompleted`: `NotFound("Enrollment", id)` with nothing changed when no
        enrollment has that id; otherwise the first such enrollment becomes COMPLETED, whatever
        its status was, and nothing else changes. */
    method MarkEnrollmentCompleted(enrollmentId: int) returns (r: Outcome)
      modifies enrollmentRepository
      ensures r == if Seqs.FirstIndex(old(enrollmentRepository.enrollments), EnrollmentKey, enrollmentId).Some?
        then Done else Fail(NotFound("Enrollment", enrollmentId))
      ensures enrollmentRepository.enrollments
        == Seqs.UpdateFirst(old(enrollmentRepository.enrollments), EnrollmentKey, enrollmentId, SetStatus(Completed))
      ensures old(Valid()) ==> Valid()
    {
      r := MarkEnrollment(enrollmentId, Completed);
    }

    /** `markEnrollmentCancelled`: as `markEnrollmentCompleted`, with CANCELLED (which also
        overwrites COMPLETED). */
    method MarkEnrollmentCancelled(enrollmentId: int) returns (r: Outcome)
      modifies enrollmentRepository
      ensures r == if Seqs.FirstIndex(old(enrollmentRepository.enrollments), EnrollmentKey, enrollmentId).Some?
        then Done else Fail(NotFound("Enrollment", enrollmentId))
      ensures enrollmentRepository.enrollments
        == Seqs.UpdateFirst(old(enrollmentRepository.enrollments), EnrollmentKey, enrollmentId, SetStatus(Cancelled))
      ensures old(Valid()) ==> Valid()
    {
      r := MarkEnrollment(enrollmentId, Cancelled);
    }

    /** The body both mark operations share: find, `setStatus` on the entity found, then
        `updateEnrollment` with it. */
    method MarkEnrollment(enrollmentId: int, status: EnrollmentStatus) returns (r: Outcome)
      modifies enrollmentRepository
      ensures r == if Seqs.FirstIndex(old(enrollmentRepository.enrollments), EnrollmentKey, enrollmentId).Some?
        then Done else Fail(NotFound("Enrollment", enrollmentId))
      ensures enrollmentRepository.enrollments
        == Seqs.UpdateFirst(old(enrollmentRepository.enrollments), EnrollmentKey, enrollmentId, SetStatus(status))
      ensures old(Valid()) ==> Valid()
    {
      var enrollment := enrollmentRepository.FindById(enrollmentId);
      if enrollment.None? {
        return Fail(NotFound("Enrollment", enrollmentId));
      }
      ghost var before := enrollmentRepository.enrollments;
      var changed := enrollment.value.(status := status);
      var _ := enrollmentRepository.UpdateEnrollment(changed);
      assert enrollmentRepository.enrollments == Seqs.UpdateFirst(before, EnrollmentKey, enrollmentId, SetStatus(status));
      assert forall x :: EnrollmentKey(SetStatus(status)(x)) == EnrollmentKey(x);
      Seqs.UpdateFirstKeys(before, EnrollmentKey, enrollmentId, SetStatus(status));
      return Done;
    }

    /** `getAllEnrollments`: every stored enrollment, in order. */
    method GetAllEnrollments() returns (r: seq<EnrollmentRecord>)
      ensures r == enrollmentRepository.enrollments
    {
      r := enrollmentRepository.GetAllEnrollments();
    }
  }

  /** Setting an enrollment's status keeps its id, student, course and date. */
  lemma SetStatusKeepsTheRest(st: EnrollmentStatus, e: EnrollmentRecord)
    ensures var e' := SetStatus(st)(e);
      e'.id == e.id && e'.studentId == e.studentId && e'.courseId == e.courseId
      && e'.enrollmentDate == e.enrollmentDate && e'.status == st
  {
  }

  /** Enrolling the same student in the same course twice stores two ACTIVE enrollments for
      that pair, with ids one apart. */
  method EnrollSamePairTwice(svc: EnrollmentService, studentId: int, courseId: int, today: LocalDate)
    returns (a: Result<EnrollmentRecord>, b: Result<EnrollmentRecord>)
    requires svc.ids.Valid() && svc.ids.enrollmentIdCounter < IntMax - 1
    requires svc.HasStudent(studentId) && svc.HasCourse(courseId)
    modifies svc.enrollmentRepository, svc.ids
    ensures a.Ok? && b.Ok? && b.value.id == a.value.id + 1
    ensures a.value.status == b.value.status == Active
    ensures a.value.(id := b.value.id) == b.value
    ensures svc.enrollmentRepository.enrollments == old(svc.enrollmentRepository.enrollments) + [a.value, b.value]
  {
    a := svc.EnrollStudent(studentId, courseId, today);
    b := svc.EnrollStudent(studentId, courseId, today);
  }
}
