/** The monolithic version: `Course` and `Student` objects that each keep a list of the other
    side's ids, and `LearnTrackSystem`, which keeps them in two maps by id plus a log of
    enrollments and applies the rule chains of adding, enrolling and dropping.

    The system's invariant `Valid()` ties every list to the log: a student's course list and a
    course's student list are exactly the partners the log pairs the id with, in log order
    (`Partners`). Lemmas on the log say how an added or dropped record changes every list;
    `enrollStudent` and `dropEnrollment` are proved one object at a time, each step keeping the
    side it touches in agreement with the log (`StudentsAgree`, `CoursesAgree`). */
module LearnTrack {
  import opened Common
  import Util
  import Seqs

  /** The most students a course can hold: its maximum capacity, or none when that is not
      positive (a course only takes a student while its count is below the maximum). */
  function Ceiling(maxCapacity: int): nat
  {
    if maxCapacity < 0 then 0 else maxCapacity
  }

  // ---------------------------------------------------------------------------------------
  // Course

  /** `Course`: an id, a name, an instructor, a maximum capacity and the ids of the students
      enrolled in it. */
  class Course {
    const courseId: string
    var courseName: string
    var instructor: string
    const maxCapacity: int
    var enrolledStudents: seq<string>

    /** The list stays within the capacity and holds each student at most once. */
    ghost predicate Valid()
      reads this
    {
      |enrolledStudents| <= Ceiling(maxCapacity) && Seqs.NoDuplicates(enrolledStudents)
    }

    /** A new course stores what it is given and has nobody enrolled. */
    constructor (courseId: string, courseName: string, instructor: string, maxCapacity: int)
      ensures this.courseId == courseId && this.courseName == courseName
      ensures this.instructor == instructor && this.maxCapacity == maxCapacity
      ensures enrolledStudents == [] && Valid()
    {
      this.courseId, this.courseName, this.instructor := courseId, courseName, instructor;
      this.maxCapacity, enrolledStudents := maxCapacity, [];
    }

    /** `getEnrolledCount`: the number of students enrolled, never above the capacity. */
    function EnrolledCount(): (n: nat)
      reads this
      ensures n == |enrolledStudents|
      ensures Valid() ==> n <= Ceiling(maxCapacity)
    {
      |enrolledStudents|
    }

    method SetCourseName(courseName: string)
      modifies this`courseName
      ensures this.courseName == courseName
    {
      this.courseName := courseName;
    }

    method SetInstructor(instructor: string)
      modifies this`instructor
      ensures this.instructor == instructor
    {
      this.instructor := instructor;
    }

    /** `addStudent`: refuses when the course is at capacity (checked first) or the student
        is already enrolled; otherwise appends the student and accepts. */
    method AddStudent(studentId: string) returns (added: bool)
      modifies this`enrolledStudents
      ensures added <==> |old(enrolledStudents)| < maxCapacity && studentId !in old(enrolledStudents)
      ensures enrolledStudents == if added then old(enrolledStudents) + [studentId] else old(enrolledStudents)
      ensures old(Valid()) ==> Valid()
    {
      if |enrolledStudents| >= maxCapacity {
        return false;
      }
      if studentId !in enrolledStudents {
        if Seqs.NoDuplicates(enrolledStudents) {
          Seqs.AppendNoDuplicates(enrolledStudents, studentId);
        }
        enrolledStudents := enrolledStudents + [studentId];
        return true;
      }
      return false;
    }

    /** `removeStudent`: removes the first occurrence of the student, if any; the others keep
        their order. In a valid course the student is then no longer enrolled. */
    method RemoveStudent(studentId: string)
      modifies this`enrolledStudents
      ensures enrolledStudents == Seqs.RemoveFirst(old(enrolledStudents), studentId)
      ensures old(Valid()) ==> Valid() && studentId !in enrolledStudents
    {
      if Seqs.NoDuplicates(enrolledStudents) {
        Seqs.RemoveFirstMembers(enrolledStudents, studentId);
      }
      enrolledStudents := Seqs.RemoveFirst(enrolledStudents, studentId);
    }
  }

  /** A course with maximum capacity `n` accepts its first `n` distinct students and then
      refuses the next one. */
  method FillCourse(course: Course, a: string, b: string, c: string) returns (x: bool, y: bool, z: bool)
    requires course.maxCapacity == 2 && course.enrolledStudents == []
    requires a != b && b != c && a != c
    modifies course`enrolledStudents
    ensures x && y && !z
    ensures course.enrolledStudents == [a, b]
  {
    x := course.AddStudent(a);
    y := course.AddStudent(b);
    z := course.AddStudent(c);
  }

  // ---------------------------------------------------------------------------------------
  // Student

  /** `Student`: the id, name and email it gets from `Person`, and the ids of the courses it
      is enrolled in. */
  class Student {
    const id: string
    var name: string
    var email: string
    var enrolledCourses: seq<string>

    /** Each course is listed at most once. */
    ghost predicate Valid()
      reads this
    {
      Seqs.NoDuplicates(enrolledCourses)
    }

    /** A new student stores what it is given and is enrolled in nothing. */
    constructor (id: string, name: string, email: string)
      ensures this.id == id && this.name == name && this.email == email
      ensures enrolledCourses == [] && Valid()
    {
      this.id, this.name, this.email, enrolledCourses := id, name, email, [];
    }

    /** `getEnrolledCourses`: a copy, the same ids in the same order. */
    method GetEnrolledCourses() returns (r: seq<string>)
      ensures r == enrolledCourses
    {
      r := enrolledCourses;
    }

    /** `enrollInCourse`: appends the course unless it is already listed. */
    method EnrollInCourse(courseId: string)
      modifies this`enrolledCourses
      ensures enrolledCourses == if courseId in old(enrolledCourses) then old(enrolledCourses)
        else old(enrolledCourses) + [courseId]
      ensures courseId in enrolledCourses
      ensures old(Valid()) ==> Valid()
    {
      if courseId !in enrolledCourses {
        if Seqs.NoDuplicates(enrolledCourses) {
          Seqs.AppendNoDuplicates(enrolledCourses, courseId);
        }
        enrolledCourses := enrolledCourses + [courseId];
      }
    }

    /** `dropCourse`: removes the first occurrence of the course, if any; the others keep their
        order. In a valid student the course is then no longer listed. */
    method DropCourse(courseId: string)
      modifies this`enrolledCourses
      ensures enrolledCourses == Seqs.RemoveFirst(old(enrolledCourses), courseId)
      ensures old(Valid()) ==> Valid() && courseId !in enrolledCourses
    {
      if Seqs.NoDuplicates(enrolledCourses) {
        Seqs.RemoveFirstMembers(enrolledCourses, courseId);
      }
      enrolledCourses := Seqs.RemoveFirst(enrolledCourses, courseId);
    }
  }

  /** Enrolling in a course not yet listed and then dropping it gives back the list as it was. */
  method EnrollThenDropCourse(student: Student, courseId: string)
    requires courseId !in student.enrolledCourses
    modifies student`enrolledCourses
    ensures student.enrolledCourses == old(student.enrolledCourses)
  {
    student.EnrollInCourse(courseId);
    Seqs.RemoveFirstAppended(old(student.enrolledCourses), courseId);
    student.DropCourse(courseId);
  }

  /** Enrolling twice in the same course lists it once: the second call changes nothing. */
  method EnrollInCourseTwice(student: Student, courseId: string)
    modifies student`enrolledCourses
    ensures student.enrolledCourses == if courseId in old(student.enrolledCourses)
      then old(student.enrolledCourses) else old(student.enrolledCourses) + [courseId]
  {
    student.EnrollInCourse(courseId);
    ghost var once := student.enrolledCourses;
    student.EnrollInCourse(courseId);
    assert student.enrolledCourses == once;
  }

  // ---------------------------------------------------------------------------------------
  // The enrollment log, on values

  /** An enrollment record as the log keeps it: the pair it joins. The record's own id and
      date come from the clock and are not modelled. */
  datatype EnrollmentEntry = EnrollmentEntry(studentId: string, courseId: string)

  /** The test `dropEnrollment` uses to keep a log record: it is not for that pair. */
  function NotPair(studentId: string, courseId: string): EnrollmentEntry -> bool
  {
    (e: EnrollmentEntry) => !(e.studentId == studentId && e.courseId == courseId)
  }

  /** Which side of an enrollment an id is looked up on: a student's courses or a course's
      students. */
  datatype Side = StudentSide | CourseSide

  /** The id a record holds on `side`, and the id it pairs it with. */
  function Own(e: EnrollmentEntry, side: Side): string
  {
    if side == StudentSide then e.studentId else e.courseId
  }

  function Other(e: EnrollmentEntry, side: Side): string
  {
    if side == StudentSide then e.courseId else e.studentId
  }

  /** The record that pairs `id`, on `side`, with `partner`. */
  function Pair(side: Side, id: string, partner: string): (e: EnrollmentEntry)
    ensures Own(e, side) == id && Other(e, side) == partner
  {
    if side == StudentSide then EnrollmentEntry(id, partner) else EnrollmentEntry(partner, id)
  }

  /** The ids the log pairs with `id` on `side`, in log order: what a student's course list
      or a course's student list must hold. */
  function Partners(log: seq<EnrollmentEntry>, side: Side, id: string): seq<string>
    decreases |log|
  {
    if log == [] then []
    else
      var e := log[|log| - 1];
      Partners(log[..|log| - 1], side, id) + (if Own(e, side) == id then [Other(e, side)] else [])
  }

  /** A record added to the log adds its partner to the lists of its own two ids and to no
      other list. */
  lemma PartnersAppend(log: seq<EnrollmentEntry>, e: EnrollmentEntry)
    ensures forall side, id | id != Own(e, side) :: Partners(log + [e], side, id) == Partners(log, side, id)
    ensures forall side :: Partners(log + [e], side, Own(e, side)) == Partners(log, side, Own(e, side)) + [Other(e, side)]
  {
    assert (log + [e])[..|log|] == log;
  }

  /** An id is among another's partners exactly when the log holds the record of the pair. */
  lemma {:induction false} PartnersMember(log: seq<EnrollmentEntry>, side: Side, id: string, x: string)
    ensures x in Partners(log, side, id) <==> Pair(side, id, x) in log
    decreases |log|
  {
    if log != [] {
      var pre, e := log[..|log| - 1], log[|log| - 1];
      assert log == pre + [e];
      PartnersMember(pre, side, id, x);
      assert e == Pair(side, Own(e, side), Other(e, side));
    }
  }

  /** A student's courses hold a course exactly when the course's students hold the student,
      and exactly when the log holds the pair. */
  lemma PartnersMirror(log: seq<EnrollmentEntry>, s: string, c: string)
    ensures c in Partners(log, StudentSide, s) <==> s in Partners(log, CourseSide, c)
    ensures c in Partners(log, StudentSide, s) <==> EnrollmentEntry(s, c) in log
  {
    PartnersMember(log, StudentSide, s, c);
    PartnersMember(log, CourseSide, c, s);
  }

  /** An id the log never holds on `side` has no partners. */
  lemma PartnersAbsent(log: seq<EnrollmentEntry>, side: Side, id: string)
    requires forall e | e in log :: Own(e, side) != id
    ensures Partners(log, side, id) == []
  {
    forall x ensures x !in Partners(log, side, id) {
      PartnersMember(log, side, id, x);
    }
  }

  /** A log without repeated records gives lists without repeated ids. */
  lemma {:induction false} PartnersNoDuplicates(log: seq<EnrollmentEntry>, side: Side, id: string)
    requires Seqs.NoDuplicates(log)
    ensures Seqs.NoDuplicates(Partners(log, side, id))
    decreases |log|
  {
    if log != [] {
      var pre, e := log[..|log| - 1], log[|log| - 1];
      assert log == pre + [e];
      Seqs.LastNotInFront(log);
      PartnersNoDuplicates(pre, side, id);
      if Own(e, side) == id {
        PartnersMember(pre, side, id, Other(e, side));
        assert Pair(side, id, Other(e, side)) == e;
        Seqs.AppendNoDuplicates(Partners(pre, side, id), Other(e, side));
      }
    }
  }

  /** Removing every record of a pair from a log without repeated records removes the first
      occurrence of each id of the pair from the other's list, and changes no other list. */
  lemma {:induction false} PartnersDrop(log: seq<EnrollmentEntry>, s: string, c: string, side: Side, id: string)
    requires Seqs.NoDuplicates(log)
    ensures var p := EnrollmentEntry(s, c);
      Partners(Seqs.Select(log, NotPair(s, c)), side, id) ==
        if Own(p, side) == id then Seqs.RemoveFirst(Partners(log, side, id), Other(p, side))
        else Partners(log, side, id)
    decreases |log|
  {
    if log != [] {
      var p := EnrollmentEntry(s, c);
      var pre, e := log[..|log| - 1], log[|log| - 1];
      assert log == pre + [e];
      Seqs.LastNotInFront(log);
      PartnersDrop(pre, s, c, side, id);
      var kept := Seqs.Select(pre, NotPair(s, c));
      if e == p {
        assert Seqs.Select(log, NotPair(s, c)) == kept;
        PartnersMember(pre, side, id, Other(p, side));
        if Own(p, side) == id {
          assert Pair(side, id, Other(p, side)) == p;
          Seqs.RemoveFirstAppended(Partners(pre, side, id), Other(p, side));
        } else {
          assert Partners(log, side, id) == Partners(pre, side, id);
        }
      } else {
        assert Seqs.Select(log, NotPair(s, c)) == kept + [e];
        PartnersAppend(kept, e);
        if Own(e, side) == id {
          assert Partners(log, side, id) == Partners(pre, side, id) + [Other(e, side)];
          if Own(p, side) == id {
            assert Pair(side, id, Other(e, side)) == e && Pair(side, id, Other(p, side)) == p;
            Seqs.RemoveFirstAppendedOther(Partners(pre, side, id), Other(p, side), Other(e, side));
          }
        } else {
          assert Partners(log, side, id) == Partners(pre, side, id);
        }
      }
    }
  }

  /** Dropping a pair the log does not hold changes nothing. */
  lemma DropAbsentIsNoOp(log: seq<EnrollmentEntry>, s: string, c: string)
    requires EnrollmentEntry(s, c) !in log
    ensures Seqs.Select(log, NotPair(s, c)) == log
  {
    forall i | 0 <= i < |log| ensures NotPair(s, c)(log[i]) {
      assert log[i] in log;
    }
    Seqs.SelectAll(log, NotPair(s, c));
  }

  /** Dropping a pair just added gives back the log as it was. */
  lemma EnrollThenDropRestores(log: seq<EnrollmentEntry>, s: string, c: string)
    requires EnrollmentEntry(s, c) !in log
    ensures Seqs.Select(log + [EnrollmentEntry(s, c)], NotPair(s, c)) == log
  {
    DropAbsentIsNoOp(log, s, c);
    Seqs.SelectConcat(log, [EnrollmentEntry(s, c)], NotPair(s, c));
    assert Seqs.Select([EnrollmentEntry(s, c)], NotPair(s, c)) == [];
  }

  // ---------------------------------------------------------------------------------------
  // LearnTrackSystem

  /** Why an operation of the system refused; the console shows a message for each. */
  datatype Rejection =
    | StudentIdExists          // addStudent: the id is taken
    | NameOrEmailEmpty         // addStudent: name or email empty after trimming
    | CourseIdExists           // addCourse: the id is taken
    | InvalidNumberFormat      // addCourse: the capacity does not parse as an integer
    | CapacityNotPositive      // addCourse: the capacity is zero or negative
    | StudentNotFound          // enrollStudent
    | CourseNotFound           // enrollStudent
    | AlreadyEnrolled          // enrollStudent: the course is on the student's list
    | CourseFull               // enrollStudent: the course refused the student
    | StudentOrCourseNotFound  // dropEnrollment

  datatype Reply = Succeeded | Failed(reason: Rejection)

  /** `LearnTrackSystem`: the students and courses by id, and the enrollment log. Each
      operation takes the lines the console read, untrimmed; the scanner and the messages
      printed are not modelled. */
  class LearnTrackSystem {
    var students: map<string, Student>
    var courses: map<string, Course>
    var enrollments: seq<EnrollmentEntry>

    /** Every student is filed under its own id (which also makes the students of different
        ids distinct) and lists, in log order, the courses `log` pairs it with. */
    ghost predicate StudentsAgree(log: seq<EnrollmentEntry>)
      reads this`students, students.Values
    {
      forall id | id in students ::
        students[id].id == id && students[id].enrolledCourses == Partners(log, StudentSide, id)
    }

    /** Every course is filed under its own id, lists, in log order, the students `log` pairs
        it with, and holds no more of them than its capacity. */
    ghost predicate CoursesAgree(log: seq<EnrollmentEntry>)
      reads this`courses, courses.Values
    {
      forall id | id in courses ::
        courses[id].courseId == id && courses[id].enrolledStudents == Partners(log, CourseSide, id) &&
        |courses[id].enrolledStudents| <= Ceiling(courses[id].maxCapacity)
    }

    /** Every record of `log` names a known student and a known course. */
    ghost predicate LogKnown(log: seq<EnrollmentEntry>)
      reads this`students, this`courses
    {
      forall e | e in log :: e.studentId in students && e.courseId in courses
    }

    /** Both sides agree with the log, every record names a known student and a known course,
        and no record is repeated. */
    ghost predicate Valid()
      reads this, students.Values, courses.Values
    {
      StudentsAgree(enrollments) && CoursesAgree(enrollments) && LogKnown(enrollments) &&
      Seqs.NoDuplicates(enrollments)
    }

    /** The system starts with no students, no courses and no enrollments. */
    constructor ()
      ensures students == map[] && courses == map[] && enrollments == []
      ensures Valid()
    {
      students, courses, enrollments := map[], map[], [];
    }

    /** `addStudent`: refuses an id already present (checked first), then an empty name or
        email; otherwise files a new student, enrolled in nothing, under the id. */
    method AddStudent(idLine: string, nameLine: string, emailLine: string) returns (reply: Reply)
      requires Valid()
      modifies this`students
      ensures Valid()
      ensures var id := Util.Trim(idLine);
        reply == if id in old(students) then Failed(StudentIdExists)
          else if Util.Trim(nameLine) == "" || Util.Trim(emailLine) == "" then Failed(NameOrEmailEmpty)
          else Succeeded
      ensures reply.Failed? ==> students == old(students)
      ensures reply.Succeeded? ==> var id := Util.Trim(idLine);
        id in students && fresh(students[id]) && students == old(students)[id := students[id]] &&
        students[id].name == Util.Trim(nameLine) && students[id].email == Util.Trim(emailLine) &&
        students[id].enrolledCourses == []
    {
      var id := Util.Trim(idLine);
      if id in students {
        return Failed(StudentIdExists);
      }
      var name := Util.Trim(nameLine);
      var email := Util.Trim(emailLine);
      if name == "" || email == "" {
        return Failed(NameOrEmailEmpty);
      }
      var student := new Student(id, name, email);
      PartnersAbsent(enrollments, StudentSide, id);
      students := students[id := student];
      return Succeeded;
    }

    /** `addCourse`: refuses an id already present (checked first), then a capacity that does
        not parse, then one that is not positive; otherwise files a new course, with nobody
        enrolled, under the id. `parseInt` stands for `Integer.parseInt`. */
    method AddCourse(idLine: string, nameLine: string, instructorLine: string, capacityLine: string,
                     parseInt: string -> Option<int>) returns (reply: Reply)
      requires Valid()
      modifies this`courses
      ensures Valid()
      ensures var id, capacity := Util.Trim(idLine), parseInt(Util.Trim(capacityLine));
        reply == if id in old(courses) then Failed(CourseIdExists)
          else if capacity.None? then Failed(InvalidNumberFormat)
          else if capacity.value <= 0 then Failed(CapacityNotPositive)
          else Succeeded
      ensures reply.Failed? ==> courses == old(courses)
      ensures reply.Succeeded? ==> var id := Util.Trim(idLine);
        id in courses && fresh(courses[id]) && courses == old(courses)[id := courses[id]] &&
        courses[id].courseName == Util.Trim(nameLine) && courses[id].instructor == Util.Trim(instructorLine) &&
        courses[id].maxCapacity == parseInt(Util.Trim(capacityLine)).value &&
        courses[id].enrolledStudents == []
    {
      var id := Util.Trim(idLine);
      if id in courses {
        return Failed(CourseIdExists);
      }
      var name := Util.Trim(nameLine);
      var instructor := Util.Trim(instructorLine);
      var capacity := parseInt(Util.Trim(capacityLine));
      if capacity.None? {
        return Failed(InvalidNumberFormat);
      }
      if capacity.value <= 0 {
        return Failed(CapacityNotPositive);
      }
      var course := new Course(id, name, instructor, capacity.value);
      PartnersAbsent(enrollments, CourseSide, id);
      courses := courses[id := course];
      return Succeeded;
    }

    /** `enrollStudent`: refuses an unknown student, then an unknown course, then a course
        already on the student's list, then a course at capacity, changing nothing; otherwise
        each side gains the other's id and the log gains one record for the pair. Every list
        is determined by the log (`Valid`), so the log's change is the whole change. */
    method EnrollStudent(studentLine: string, courseLine: string) returns (reply: Reply)
      requires Valid()
      modifies this`enrollments, students.Values`enrolledCourses, courses.Values`enrolledStudents
      ensures Valid()
      ensures var sid, cid := Util.Trim(studentLine), Util.Trim(courseLine);
        reply == if sid !in students then Failed(StudentNotFound)
          else if cid !in courses then Failed(CourseNotFound)
          else if cid in old(students[sid].enrolledCourses) then Failed(AlreadyEnrolled)
          else if |old(courses[cid].enrolledStudents)| >= courses[cid].maxCapacity then Failed(CourseFull)
          else Succeeded
      ensures var sid, cid := Util.Trim(studentLine), Util.Trim(courseLine);
        enrollments == old(enrollments) + if reply.Succeeded? then [EnrollmentEntry(sid, cid)] else []
      ensures reply.Succeeded? ==> var sid, cid := Util.Trim(studentLine), Util.Trim(courseLine);
        students[sid].enrolledCourses == old(students[sid].enrolledCourses) + [cid] &&
        courses[cid].enrolledStudents == old(courses[cid].enrolledStudents) + [sid]
      ensures reply.Failed? ==>
        (forall id | id in students :: students[id].enrolledCourses == old(students[id].enrolledCourses)) &&
        (forall id | id in courses :: courses[id].enrolledStudents == old(courses[id].enrolledStudents))
    {
      var studentId := Util.Trim(studentLine);
      var courseId := Util.Trim(courseLine);
      if studentId !in students {
        return Failed(StudentNotFound);
      }
      if courseId !in courses {
        return Failed(CourseNotFound);
      }
      var student, course := students[studentId], courses[courseId];
      var enrolled := student.GetEnrolledCourses();
      if courseId in enrolled {
        return Failed(AlreadyEnrolled);
      }
      var added := EnrollPair(student, course);
      if !added {
        return Failed(CourseFull);
      }
      return Succeeded;
    }

    /** What `enrollStudent` does once both are known and the course is not on the student's
        list: the course takes the student if it has room, and only then does the student take
        the course and the log gain the pair. */
    method EnrollPair(student: Student, course: Course) returns (added: bool)
      requires Valid()
      requires student.id in students && students[student.id] == student
      requires course.courseId in courses && courses[course.courseId] == course
      requires course.courseId !in student.enrolledCourses
      modifies this`enrollments, student`enrolledCourses, course`enrolledStudents
      ensures Valid()
      ensures added <==> |old(course.enrolledStudents)| < course.maxCapacity
      ensures enrollments == old(enrollments) + if added then [EnrollmentEntry(student.id, course.courseId)] else []
      ensures student.enrolledCourses == old(student.enrolledCourses) + if added then [course.courseId] else []
      ensures course.enrolledStudents == old(course.enrolledStudents) + if added then [student.id] else []
      ensures !added ==>
        (forall id | id in students :: students[id].enrolledCourses == old(students[id].enrolledCourses)) &&
        (forall id | id in courses :: courses[id].enrolledStudents == old(courses[id].enrolledStudents))
    {
      var studentId, courseId := student.id, course.courseId;
      var e := EnrollmentEntry(studentId, courseId);
      PartnersMirror(enrollments, studentId, courseId);
      added := CourseAddStudent(course, e);
      if !added {
        return;
      }
      StudentEnrollInCourse(student, e);
      Seqs.AppendNoDuplicates(enrollments, e);
      enrollments := enrollments + [e];
    }

    /** `course.addStudent` within `enrollStudent`: the course side then agrees with the log
        extended by the pair exactly when the course took the student. */
    method CourseAddStudent(course: Course, e: EnrollmentEntry) returns (added: bool)
      requires CoursesAgree(enrollments) && e !in enrollments
      requires e.courseId in courses && courses[e.courseId] == course
      modifies course`enrolledStudents
      ensures added <==> |old(course.enrolledStudents)| < course.maxCapacity
      ensures course.enrolledStudents == old(course.enrolledStudents) + if added then [e.studentId] else []
      ensures !added ==> CoursesAgree(enrollments)
      ensures added ==> CoursesAgree(enrollments + [e])
    {
      PartnersMember(enrollments, CourseSide, e.courseId, e.studentId);
      PartnersAppend(enrollments, e);
      added := course.AddStudent(e.studentId);
    }

    /** `student.enrollInCourse` within `enrollStudent`: the student side then agrees with the
        log extended by the pair. */
    method StudentEnrollInCourse(student: Student, e: EnrollmentEntry)
      requires StudentsAgree(enrollments) && e !in enrollments
      requires e.studentId in students && students[e.studentId] == student
      modifies student`enrolledCourses
      ensures student.enrolledCourses == old(student.enrolledCourses) + [e.courseId]
      ensures StudentsAgree(enrollments + [e])
    {
      PartnersMember(enrollments, StudentSide, e.studentId, e.courseId);
      PartnersAppend(enrollments, e);
      student.EnrollInCourse(e.courseId);
    }

    /** `dropEnrollment`: refuses, changing nothing, when the student or the course is
        unknown; otherwise removes the course from the student's list, the student from the
        course's list and every record of the pair from the log, keeping the other records in
        order. The pair is then no longer enrolled; a pair that was not is left as it was. */
    method DropEnrollment(studentLine: string, courseLine: string) returns (reply: Reply)
      requires Valid()
      modifies this`enrollments, students.Values`enrolledCourses, courses.Values`enrolledStudents
      ensures Valid()
      ensures var sid, cid := Util.Trim(studentLine), Util.Trim(courseLine);
        reply == if sid in students && cid in courses then Succeeded else Failed(StudentOrCourseNotFound)
      ensures var sid, cid := Util.Trim(studentLine), Util.Trim(courseLine);
        enrollments == if reply.Succeeded? then Seqs.Select(old(enrollments), NotPair(sid, cid)) else old(enrollments)
      ensures reply.Succeeded? ==> var sid, cid := Util.Trim(studentLine), Util.Trim(courseLine);
        students[sid].enrolledCourses == Seqs.RemoveFirst(old(students[sid].enrolledCourses), cid) &&
        courses[cid].enrolledStudents == Seqs.RemoveFirst(old(courses[cid].enrolledStudents), sid) &&
        EnrollmentEntry(sid, cid) !in enrollments
      ensures reply.Failed? ==>
        (forall id | id in students :: students[id].enrolledCourses == old(students[id].enrolledCourses)) &&
        (forall id | id in courses :: courses[id].enrolledStudents == old(courses[id].enrolledStudents))
    {
      var studentId := Util.Trim(studentLine);
      var courseId := Util.Trim(courseLine);
      if studentId !in students || courseId !in courses {
        return Failed(StudentOrCourseNotFound);
      }
      DropPair(students[studentId], courses[courseId]);
      return Succeeded;
    }

    /** What `dropEnrollment` does once both are known. */
    method DropPair(student: Student, course: Course)
      requires Valid()
      requires student.id in students && students[student.id] == student
      requires course.courseId in courses && courses[course.courseId] == course
      modifies this`enrollments, student`enrolledCourses, course`enrolledStudents
      ensures Valid()
      ensures enrollments == Seqs.Select(old(enrollments), NotPair(student.id, course.courseId))
      ensures student.enrolledCourses == Seqs.RemoveFirst(old(student.enrolledCourses), course.courseId)
      ensures course.enrolledStudents == Seqs.RemoveFirst(old(course.enrolledStudents), student.id)
      ensures EnrollmentEntry(student.id, course.courseId) !in enrollments
    {
      var studentId, courseId := student.id, course.courseId;
      var kept := Seqs.Select(enrollments, NotPair(studentId, courseId));
      StudentDropCourse(student, courseId);
      CourseRemoveStudent(course, studentId);
      forall e | e in kept ensures e in enrollments {
        Seqs.SelectMember(enrollments, NotPair(studentId, courseId), e);
      }
      Seqs.SelectMember(enrollments, NotPair(studentId, courseId), EnrollmentEntry(studentId, courseId));
      Seqs.SelectNoDuplicates(enrollments, NotPair(studentId, courseId));
      enrollments := kept;
    }

    /** `student.dropCourse` within `dropEnrollment`: the student side then agrees with the log
        without the pair's records. */
    method StudentDropCourse(student: Student, courseId: string)
      requires StudentsAgree(enrollments) && Seqs.NoDuplicates(enrollments)
      requires student.id in students && students[student.id] == student
      modifies student`enrolledCourses
      ensures student.enrolledCourses == Seqs.RemoveFirst(old(student.enrolledCourses), courseId)
      ensures StudentsAgree(Seqs.Select(enrollments, NotPair(student.id, courseId)))
    {
      forall id ensures Partners(Seqs.Select(enrollments, NotPair(student.id, courseId)), StudentSide, id) ==
        if student.id == id then Seqs.RemoveFirst(Partners(enrollments, StudentSide, id), courseId)
        else Partners(enrollments, StudentSide, id)
      {
        PartnersDrop(enrollments, student.id, courseId, StudentSide, id);
      }
      student.DropCourse(courseId);
    }

    /** `course.removeStudent` within `dropEnrollment`: the course side then agrees with the
        log without the pair's records. */
    method CourseRemoveStudent(course: Course, studentId: string)
      requires CoursesAgree(enrollments) && Seqs.NoDuplicates(enrollments)
      requires course.courseId in courses && courses[course.courseId] == course
      modifies course`enrolledStudents
      ensures course.enrolledStudents == Seqs.RemoveFirst(old(course.enrolledStudents), studentId)
      ensures CoursesAgree(Seqs.Select(enrollments, NotPair(studentId, course.courseId)))
    {
      forall id ensures Partners(Seqs.Select(enrollments, NotPair(studentId, course.courseId)), CourseSide, id) ==
        if course.courseId == id then Seqs.RemoveFirst(Partners(enrollments, CourseSide, id), studentId)
        else Partners(enrollments, CourseSide, id)
      {
        PartnersDrop(enrollments, studentId, course.courseId, CourseSide, id);
      }
      course.RemoveStudent(studentId);
    }
  }

  /** The two sides always agree: a course is on a student's list exactly when the student is
      on the course's list, and exactly when the log holds the pair; and no list repeats an id. */
  lemma ListsAgree(sys: LearnTrackSystem, s: string, c: string)
    requires sys.Valid() && s in sys.students && c in sys.courses
    ensures c in sys.students[s].enrolledCourses <==> s in sys.courses[c].enrolledStudents
    ensures c in sys.students[s].enrolledCourses <==> EnrollmentEntry(s, c) in sys.enrollments
    ensures sys.students[s].Valid() && sys.courses[c].Valid()
  {
    PartnersMirror(sys.enrollments, s, c);
    PartnersNoDuplicates(sys.enrollments, StudentSide, s);
    PartnersNoDuplicates(sys.enrollments, CourseSide, c);
  }

  /** Enrolling a pair and then dropping it leaves the log, and with it every list, as it was. */
  method EnrollThenDrop(sys: LearnTrackSystem, studentLine: string, courseLine: string)
    returns (enrolled: Reply, dropped: Reply)
    requires sys.Valid()
    modifies sys`enrollments, sys.students.Values`enrolledCourses, sys.courses.Values`enrolledStudents
    ensures sys.Valid()
    ensures enrolled.Succeeded? ==> dropped.Succeeded? && sys.enrollments == old(sys.enrollments)
  {
    ghost var log := sys.enrollments;
    enrolled := sys.EnrollStudent(studentLine, courseLine);
    if enrolled.Succeeded? {
      var s, c := Util.Trim(studentLine), Util.Trim(courseLine);
      PartnersMirror(log, s, c);
      EnrollThenDropRestores(log, s, c);
    }
    dropped := sys.DropEnrollment(studentLine, courseLine);
  }

  /** Dropping a known pair that is not enrolled succeeds and changes nothing. */
  method DropNotEnrolled(sys: LearnTrackSystem, studentLine: string, courseLine: string)
    returns (reply: Reply)
    requires sys.Valid()
    requires Util.Trim(studentLine) in sys.students && Util.Trim(courseLine) in sys.courses
    requires Util.Trim(courseLine) !in sys.students[Util.Trim(studentLine)].enrolledCourses
    modifies sys`enrollments, sys.students.Values`enrolledCourses, sys.courses.Values`enrolledStudents
    ensures reply.Succeeded? && sys.Valid()
    ensures sys.enrollments == old(sys.enrollments)
  {
    var s, c := Util.Trim(studentLine), Util.Trim(courseLine);
    PartnersMirror(sys.enrollments, s, c);
    DropAbsentIsNoOp(sys.enrollments, s, c);
    reply := sys.DropEnrollment(studentLine, courseLine);
  }
}
