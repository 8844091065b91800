/** The layered version's `entity` and `enums` packages. `Person`, `Student` and `Enrollment`
    are mutable objects with setters; the repositories keep value snapshots of them
    (`StudentRecord`, `CourseRecord`, `EnrollmentRecord`), found and replaced by id. The
    layered `Course` entity is known only through its uses, so it exists here only as
    `CourseRecord`. */
module Entity {
  import opened Common

  /** `EnrollmentStatus`. */
  datatype EnrollmentStatus = Active | Completed | Cancelled

  /** `java.time.LocalDate`: a calendar date the caller supplies (the clock is not modelled). */
  datatype LocalDate = LocalDate(year: int, month: int, day: int)

  /** A student as the student repository stores it; a null email is `None`. */
  datatype StudentRecord = StudentRecord(
    id: int, firstName: string, lastName: string, email: Option<string>, batch: string, active: bool)

  /** A course as the course repository stores it. */
  datatype CourseRecord = CourseRecord(
    id: int, courseName: string, description: string, durationInWeeks: int, active: bool)

  /** An enrollment as the enrollment repository stores it. */
  datatype EnrollmentRecord = EnrollmentRecord(
    id: int, studentId: int, courseId: int, enrollmentDate: LocalDate, status: EnrollmentStatus)

  // Keys, tests and setters on records, named so that specifications can pass them around.

  function StudentKey(s: StudentRecord): int { s.id }
  function CourseKey(c: CourseRecord): int { c.id }
  function EnrollmentKey(e: EnrollmentRecord): int { e.id }

  /** `isActive()` of a stored student or course. */
  function StudentIsActive(s: StudentRecord): bool { s.active }
  function CourseIsActive(c: CourseRecord): bool { c.active }

  /** The test `findByStudentId` / `findByCourseId` apply to each enrollment. */
  function OfStudent(studentId: int): EnrollmentRecord -> bool { (e: EnrollmentRecord) => e.studentId == studentId }
  function OfCourse(courseId: int): EnrollmentRecord -> bool { (e: EnrollmentRecord) => e.courseId == courseId }

  /** `setActive(b)` / `setStatus(st)` applied to a stored entity. */
  function SetStudentActive(b: bool): StudentRecord -> StudentRecord { (s: StudentRecord) => s.(active := b) }
  function SetCourseActive(b: bool): CourseRecord -> CourseRecord { (c: CourseRecord) => c.(active := b) }
  function SetStatus(st: EnrollmentStatus): EnrollmentRecord -> EnrollmentRecord { (e: EnrollmentRecord) => e.(status := st) }

  // ---------------------------------------------------------------------------------------
  // Display names

  /** `Person.getDisplayName`: the first name, one space, the last name. */
  function DisplayName(firstName: string, lastName: string): (r: string)
    ensures |r| == |firstName| + 1 + |lastName|
    ensures r[..|firstName|] == firstName && r[|firstName|] == ' '
    ensures r[|firstName| + 1..] == lastName
  {
    firstName + " " + lastName
  }

  /** `Student.getDisplayName`: the person's display name followed by the batch in
      parentheses, as in "Ada Lovelace (Batch: B1)". */
  function StudentDisplayName(firstName: string, lastName: string, batch: string): (r: string)
    ensures var n := |DisplayName(firstName, lastName)|;
      |r| == n + 9 + |batch| + 1 && r[..n] == DisplayName(firstName, lastName) &&
      r[n..n + 9] == " (Batch: "
    ensures r[|r| - 1 - |batch|..|r| - 1] == batch && r[|r| - 1] == ')'
  {
    DisplayName(firstName, lastName) + " (Batch: " + batch + ")"
  }

  // ---------------------------------------------------------------------------------------
  // Person

  /** `Person`: an id, names and an optional email, each with its setter. */
  class Person {
    var id: int
    var firstName: string
    var lastName: string
    var email: Option<string>

    /** The four-argument constructor stores every field as given. */
    constructor (id: int, firstName: string, lastName: string, email: Option<string>)
      ensures this.id == id && this.firstName == firstName && this.lastName == lastName
      ensures this.email == email
    {
      this.id, this.firstName, this.lastName, this.email := id, firstName, lastName, email;
    }

    /** The three-argument constructor leaves the email null. */
    constructor WithoutEmail(id: int, firstName: string, lastName: string)
      ensures this.id == id && this.firstName == firstName && this.lastName == lastName
      ensures email == None
    {
      this.id, this.firstName, this.lastName, email := id, firstName, lastName, None;
    }

    method SetId(id: int)
      modifies this`id
      ensures this.id == id
    {
      this.id := id;
    }

    method SetFirstName(firstName: string)
      modifies this`firstName
      ensures this.firstName == firstName
    {
      this.firstName := firstName;
    }

    method SetLastName(lastName: string)
      modifies this`lastName
      ensures this.lastName == lastName
    {
      this.lastName := lastName;
    }

    method SetEmail(email: Option<string>)
      modifies this`email
      ensures this.email == email
    {
      this.email := email;
    }

    /** `Person.getDisplayName`: the first name, one space, the last name. */
    function GetDisplayName(): (r: string)
      reads this
      ensures |r| == |firstName| + 1 + |lastName|
      ensures r[..|firstName|] == firstName && r[|firstName|] == ' '
      ensures r[|firstName| + 1..] == lastName
    {
      DisplayName(firstName, lastName)
    }
  }

  // ---------------------------------------------------------------------------------------
  // Student

  /** `Student extends Person`: the person's fields plus a batch and an active flag. */
  class Student {
    var id: int
    var firstName: string
    var lastName: string
    var email: Option<string>
    var batch: string
    var active: bool

    /** The six-argument constructor stores every field as given. */
    constructor (id: int, firstName: string, lastName: string, email: Option<string>, batch: string, active: bool)
      ensures Record() == StudentRecord(id, firstName, lastName, email, batch, active)
    {
      this.id, this.firstName, this.lastName, this.email := id, firstName, lastName, email;
      this.batch, this.active := batch, active;
    }

    /** The five-argument constructor leaves the email null and stores `active` as given. */
    constructor WithoutEmail(id: int, firstName: string, lastName: string, batch: string, active: bool)
      ensures Record() == StudentRecord(id, firstName, lastName, None, batch, active)
    {
      this.id, this.firstName, this.lastName, email := id, firstName, lastName, None;
      this.batch, this.active := batch, active;
    }

    /** The four-argument constructor leaves the email null and makes the student active. */
    constructor Minimal(id: int, firstName: string, lastName: string, batch: string)
      ensures Record() == StudentRecord(id, firstName, lastName, None, batch, true)
    {
      this.id, this.firstName, this.lastName, email := id, firstName, lastName, None;
      this.batch, active := batch, true;
    }

    method SetBatch(batch: string)
      modifies this`batch
      ensures this.batch == batch
    {
      this.batch := batch;
    }

    method SetActive(active: bool)
      modifies this`active
      ensures Record() == old(Record()).(active := active)
    {
      this.active := active;
    }

    /** `Student.getDisplayName` overrides the person's: that text, then the batch in
        parentheses. */
    function GetDisplayName(): (r: string)
      reads this
      ensures var n := |firstName| + 1 + |lastName|;
        |r| == n + 9 + |batch| + 1 && r[..n] == DisplayName(firstName, lastName) && r[n..n + 9] == " (Batch: "
      ensures r[|r| - 1 - |batch|..|r| - 1] == batch && r[|r| - 1] == ')'
    {
      StudentDisplayName(firstName, lastName, batch)
    }

    /** The value the student repository keeps for this student. */
    function Record(): StudentRecord
      reads this
    {
      StudentRecord(id, firstName, lastName, email, batch, active)
    }
  }

  // ---------------------------------------------------------------------------------------
  // Enrollment

  /** `Enrollment`: a student's enrollment in a course, with a date and a status. */
  class Enrollment {
    var id: int
    var studentId: int
    var courseId: int
    var enrollmentDate: LocalDate
    var status: EnrollmentStatus

    /** The five-argument constructor stores every field as given. */
    constructor (id: int, studentId: int, courseId: int, enrollmentDate: LocalDate, status: EnrollmentStatus)
      ensures Record() == EnrollmentRecord(id, studentId, courseId, enrollmentDate, status)
    {
      this.id, this.studentId, this.courseId := id, studentId, courseId;
      this.enrollmentDate, this.status := enrollmentDate, status;
    }

    /** The four-argument constructor starts the enrollment ACTIVE. */
    constructor WithActiveStatus(id: int, studentId: int, courseId: int, enrollmentDate: LocalDate)
      ensures Record() == EnrollmentRecord(id, studentId, courseId, enrollmentDate, Active)
    {
      this.id, this.studentId, this.courseId := id, studentId, courseId;
      this.enrollmentDate, status := enrollmentDate, Active;
    }

    method SetId(id: int)
      modifies this`id
      ensures Record() == old(Record()).(id := id)
    {
      this.id := id;
    }

    method SetStudentId(studentId: int)
      modifies this`studentId
      ensures Record() == old(Record()).(studentId := studentId)
    {
      this.studentId := studentId;
    }

    method SetCourseId(courseId: int)
      modifies this`courseId
      ensures Record() == old(Record()).(courseId := courseId)
    {
      this.courseId := courseId;
    }

    method SetEnrollmentDate(enrollmentDate: LocalDate)
      modifies this`enrollmentDate
      ensures Record() == old(Record()).(enrollmentDate := enrollmentDate)
    {
      this.enrollmentDate := enrollmentDate;
    }

    method SetStatus(status: EnrollmentStatus)
      modifies this`status
      ensures Record() == old(Record()).(status := status)
    {
      this.status := status;
    }

    /** The value the enrollment repository keeps for this enrollment. */
    function Record(): EnrollmentRecord
      reads this
    {
      EnrollmentRecord(id, studentId, courseId, enrollmentDate, status)
    }
  }
}
