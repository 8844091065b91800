/** The layered version's `repository` package: three list-backed stores. Each method is
    proved against the sequence functions of `Seqs`; what those functions promise (order kept,
    first match, idempotence) is proved there. */
module Repository {
  import opened Common
  import opened Entity
  import Seqs

  // ---------------------------------------------------------------------------------------
  // StudentRepository

  class StudentRepository {
    var students: seq<StudentRecord>

    constructor ()
      ensures students == []
    {
      students := [];
    }

    /** `addStudent`: appends at the end; no check of any kind. */
    method AddStudent(student: StudentRecord)
      modifies this
      ensures students == old(students) + [student]
    {
      students := students + [student];
    }

    /** `getAllStudents`: a copy, the same students in the same order. A `seq` is a value, so
        nothing the caller does to it reaches the store. */
    method GetAllStudents() returns (r: seq<StudentRecord>)
      ensures r == students
    {
      r := students;
    }

    /** `getActiveStudents`: the active students, in storage order. */
    method GetActiveStudents() returns (r: seq<StudentRecord>)
      ensures r == Seqs.Select(students, StudentIsActive)
    {
      r := [];
      for i := 0 to |students|
        invariant r == Seqs.Select(students[..i], StudentIsActive)
      {
        assert students[..i + 1][..i] == students[..i];
        if students[i].active {
          r := r + [students[i]];
        }
      }
      assert students[..|students|] == students;
    }

    /** `findById`: the first student with that id, or null. */
    method FindById(id: int) returns (r: Option<StudentRecord>)
      ensures r == Seqs.Find(students, StudentKey, id)
    {
      for i := 0 to |students|
        invariant forall j | 0 <= j < i :: students[j].id != id
      {
        if students[i].id == id {
          return Some(students[i]);
        }
      }
      return None;
    }

    /** `updateStudent`: replaces the first student with the same id and reports true, or
        reports false and changes nothing. */
    method UpdateStudent(updatedStudent: StudentRecord) returns (ok: bool)
      modifies this
      ensures ok == Seqs.FirstIndex(old(students), StudentKey, updatedStudent.id).Some?
      ensures students == Seqs.ReplaceFirst(old(students), StudentKey, updatedStudent)
    {
      var existingStudent := FindById(updatedStudent.id);
      if existingStudent.Some? {
        var index := Seqs.IndexOf(students, existingStudent.value);
        Seqs.FirstOccurrenceOfFound(students, StudentKey, updatedStudent.id, index);
        students := students[index := updatedStudent];
        return true;
      }
      return false;
    }

    /** `deactivateStudent`: clears `active` on the first student with that id and reports
        true, or reports false and changes nothing. */
    method DeactivateStudent(id: int) returns (ok: bool)
      modifies this
      ensures ok == Seqs.FirstIndex(old(students), StudentKey, id).Some?
      ensures students == Seqs.UpdateFirst(old(students), StudentKey, id, SetStudentActive(false))
    {
      var student := FindById(id);
      if student.Some? {
        // the setter acts on the stored entity: write the changed value back where it is kept
        var index := Seqs.IndexOf(students, student.value);
        Seqs.FirstOccurrenceOfFound(students, StudentKey, id, index);
        students := students[index := student.value.(active := false)];
        return true;
      }
      return false;
    }
  }

  // ---------------------------------------------------------------------------------------
  // CourseRepository

  class CourseRepository {
    var courses: seq<CourseRecord>

    constructor ()
      ensures courses == []
    {
      courses := [];
    }

    /** `addCourse`: appends at the end; no check of any kind. */
    method AddCourse(course: CourseRecord)
      modifies this
      ensures courses == old(courses) + [course]
    {
      courses := courses + [course];
    }

    /** `getAllCourses`: a copy, the same courses in the same order. */
    method GetAllCourses() returns (r: seq<CourseRecord>)
      ensures r == courses
    {
      r := courses;
    }

    /** `getActiveCourses`: the active courses, in storage order. */
    method GetActiveCourses() returns (r: seq<CourseRecord>)
      ensures r == Seqs.Select(courses, CourseIsActive)
    {
      r := [];
      for i := 0 to |courses|
        invariant r == Seqs.Select(courses[..i], CourseIsActive)
      {
        assert courses[..i + 1][..i] == courses[..i];
        if courses[i].active {
          r := r + [courses[i]];
        }
      }
      assert courses[..|courses|] == courses;
    }

    /** `findById`: the first course with that id, or null. */
    method FindById(id: int) returns (r: Option<CourseRecord>)
      ensures r == Seqs.Find(courses, CourseKey, id)
    {
      for i := 0 to |courses|
        invariant forall j | 0 <= j < i :: courses[j].id != id
      {
        if courses[i].id == id {
          return Some(courses[i]);
        }
      }
      return None;
    }

    /** `updateCourse`: replaces the first course with the same id and reports true, or
        reports false and changes nothing. */
    method UpdateCourse(updatedCourse: CourseRecord) returns (ok: bool)
      modifies this
      ensures ok == Seqs.FirstIndex(old(courses), CourseKey, updatedCourse.id).Some?
      ensures courses == Seqs.ReplaceFirst(old(courses), CourseKey, updatedCourse)
    {
      var existingCourse := FindById(updatedCourse.id);
      if existingCourse.Some? {
        var index := Seqs.IndexOf(courses, existingCourse.value);
        Seqs.FirstOccurrenceOfFound(courses, CourseKey, updatedCourse.id, index);
        courses := courses[index := updatedCourse];
        return true;
      }
      return false;
    }

    /** `activateCourse`: sets `active` on the first course with that id and reports true,
        or reports false and changes nothing. */
    method ActivateCourse(id: int) returns (ok: bool)
      modifies this
      ensures ok == Seqs.FirstIndex(old(courses), CourseKey, id).Some?
      ensures courses == Seqs.UpdateFirst(old(courses), CourseKey, id, SetCourseActive(true))
    {
      var course := FindById(id);
      if course.Some? {
        var index := Seqs.IndexOf(courses, course.value);
        Seqs.FirstOccurrenceOfFound(courses, CourseKey, id, index);
        courses := courses[index := course.value.(active := true)];
        return true;
      }
      return false;
    }

    /** `deactivateCourse`: clears `active` on the first course with that id and reports
        true, or reports false and changes nothing. */
    method DeactivateCourse(id: int) returns (ok: bool)
      modifies this
      ensures ok == Seqs.FirstIndex(old(courses), CourseKey, id).Some?
      ensures courses == Seqs.UpdateFirst(old(courses), CourseKey, id, SetCourseActive(false))
    {
      var course := FindById(id);
      if course.Some? {
        var index := Seqs.IndexOf(courses, course.value);
        Seqs.FirstOccurrenceOfFound(courses, CourseKey, id, index);
        courses := courses[index := course.value.(active := false)];
        return true;
      }
      return false;
    }
  }

  // ---------------------------------------------------------------------------------------
  // EnrollmentRepository

  class EnrollmentRepository {
    var enrollments: seq<EnrollmentRecord>

    constructor ()
      ensures enrollments == []
    {
      enrollments := [];
    }

    /** `addEnrollment`: appends at the end; no check of any kind. */
    method AddEnrollment(enrollment: EnrollmentRecord)
      modifies this
      ensures enrollments == old(enrollments) + [enrollment]
    {
      enrollments := enrollments + [enrollment];
    }

    /** `getAllEnrollments`: a copy, the same enrollments in the same order. */
    method GetAllEnrollments() returns (r: seq<EnrollmentRecord>)
      ensures r == enrollments
    {
      r := enrollments;
    }

    /** `findByStudentId`: the enrollments of that student, whatever their status, in
        storage order. */
    method FindByStudentId(studentId: int) returns (r: seq<EnrollmentRecord>)
      ensures r == Seqs.Select(enrollments, OfStudent(studentId))
    {
      r := [];
      for i := 0 to |enrollments|
        invariant r == Seqs.Select(enrollments[..i], OfStudent(studentId))
      {
        assert enrollments[..i + 1][..i] == enrollments[..i];
        if enrollments[i].studentId == studentId {
          r := r + [enrollments[i]];
        }
      }
      assert enrollments[..|enrollments|] == enrollments;
    }

    /** `findByCourseId`: the enrollments in that course, in storage order. */
    method FindByCourseId(courseId: int) returns (r: seq<EnrollmentRecord>)
      ensures r == Seqs.Select(enrollments, OfCourse(courseId))
    {
      r := [];
      for i := 0 to |enrollments|
        invariant r == Seqs.Select(enrollments[..i], OfCourse(courseId))
      {
        assert enrollments[..i + 1][..i] == enrollments[..i];
        if enrollments[i].courseId == courseId {
          r := r + [enrollments[i]];
        }
      }
      assert enrollments[..|enrollments|] == enrollments;
    }

    /** `findById`: the first enrollment with that id, or null. */
    method FindById(id: int) returns (r: Option<EnrollmentRecord>)
      ensures r == Seqs.Find(enrollments, EnrollmentKey, id)
    {
      for i := 0 to |enrollments|
        invariant forall j | 0 <= j < i :: enrollments[j].id != id
      {
        if enrollments[i].id == id {
          return Some(enrollments[i]);
        }
      }
      return None;
    }

    /** `updateEnrollment`: replaces the first enrollment with the same id and reports true,
        or reports false and changes nothing. */
    method UpdateEnrollment(updatedEnrollment: EnrollmentRecord) returns (ok: bool)
      modifies this
      ensures ok == Seqs.FirstIndex(old(enrollments), EnrollmentKey, updatedEnrollment.id).Some?
      ensures enrollments == Seqs.ReplaceFirst(old(enrollments), EnrollmentKey, updatedEnrollment)
    {
      var existingEnrollment := FindById(updatedEnrollment.id);
      if existingEnrollment.Some? {
        var index := Seqs.IndexOf(enrollments, existingEnrollment.value);
        Seqs.FirstOccurrenceOfFound(enrollments, EnrollmentKey, updatedEnrollment.id, index);
        enrollments := enrollments[index := updatedEnrollment];
        return true;
      }
      return false;
    }
  }
}
