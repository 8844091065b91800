# LearnTrack in Dafny

LearnTrack is a small student/course/enrollment tracker. It exists in two versions, and this
project models both, each as it is written:

- **The layered version** (`src/com/airtribe/learntrack/...`):
  - three list-backed repositories (students, courses, enrollments);
  - the three services on top of them, which turn a missing id into `NotFound(kind, id)`
    (Java's `EntityNotFoundException`) and take fresh ids from `IdGenerator`;
  - the `InputValidator` string predicates;
  - the `Person`, `Student` and `Enrollment` entities.
- **The monolithic version** (root `Course.java`, `Student.java`, `LearnTrackSystem.java`):
  - a `Course` with a capacity-gated, duplicate-free list of student ids;
  - a `Student` with a duplicate-free list of course ids;
  - `LearnTrackSystem`, which files them in two maps by id, keeps a log of enrollments, and
    applies the rule chains of `addStudent`, `addCourse`, `enrollStudent` and
    `dropEnrollment`.

Files:

- `common.dfy`: Java's null (`Option`), `NotFound`, the service results and the `int` range.
- `seqs.dfy`: the sequence functions that the stores are specified by:
  - filtering (`Select`);
  - the first match by id (`FirstIndex`, `Find`);
  - replacing or updating that match (`ReplaceFirst`, `UpdateFirst`);
  - Java's `List.remove(Object)` (`RemoveFirst`);
  - the lemmas about each of them.
- `util.dfy`: `InputValidator`, with Java's `String.trim` written out, and `IdGenerator`.
- `entity.dfy`: the entities as classes with their setters. The repositories store value
  snapshots of them (`StudentRecord`, `CourseRecord`, `EnrollmentRecord`).
- `repository.dfy`: the three repositories. Each one is a class holding a `seq`; the loops carry
  invariants, and every method is proved against the `Seqs` functions.
- `service.dfy`: the three services.
- `learntrack.dfy`: the monolithic version.

How the monolith's invariant works:

- `Partners(log, side, id)` gives the ids that the log pairs with `id`, in log order.
- The system's `Valid()` says that every student's course list and every course's student list
  equals `Partners` of the log.
- From this it follows that a course is on a student's list exactly when the student is on the
  course's list (`ListsAgree`).
- `enrollStudent` and `dropEnrollment` are shown to keep `Valid()` one object at a time:
  - `StudentsAgree` ties the students to the log;
  - `CoursesAgree` ties the courses to the log, plus each course's capacity.

Behaviour a reader might expect otherwise, modelled as the code has it:

- The layered `enrollStudent` checks neither a repeated (student, course) pair nor capacity
  nor the active flags. `EnrollSamePairTwice` shows two ACTIVE records for one pair.
- `markEnrollmentCompleted` and `markEnrollmentCancelled` overwrite any status, including
  COMPLETED and CANCELLED. Those two statuses are not terminal here.
- The monolithic `dropEnrollment` deletes every log record of the pair; it does not cancel it.
  A drop of a known pair that is not enrolled succeeds and changes nothing.
- The monolithic `addStudent` accepts an empty id. It rejects only an id already present, then
  an empty name or email.

## Model

| member | source | states |
|---|---|---|
| Seqs.Select | src/com/airtribe/learntrack/repository/StudentRepository.java:38-46 | a filtered list is never longer than the list it filters |
| Seqs.SelectMember | src/com/airtribe/learntrack/repository/StudentRepository.java:38-46 | an element is selected exactly when it is stored and passes the test |
| Seqs.SelectConcat | src/com/airtribe/learntrack/repository/EnrollmentRepository.java:39-47 | filtering keeps the relative order of the stored elements: filtering two parts one after the other is filtering their concatenation |
| Seqs.SelectAll | src/com/airtribe/learntrack/repository/StudentRepository.java:38-46 | when every element passes, the filter keeps the whole list |
| Seqs.SelectNoDuplicates | LearnTrackSystem.java:188-191 | removing records with `removeIf` cannot create a repeated record |
| Seqs.AppendNoDuplicates | Course.java:41-43 | appending an element not yet present keeps the list duplicate-free |
| Seqs.FirstIndex | src/com/airtribe/learntrack/repository/StudentRepository.java:53-60 | the position found holds the key, no earlier position does, and nothing is found exactly when no element holds the key |
| Seqs.Find | src/com/airtribe/learntrack/repository/CourseRepository.java:53-60 | the element found is stored and holds the key; null exactly when no stored element holds it |
| Seqs.UpdateFirst | src/com/airtribe/learntrack/repository/StudentRepository.java:82-89 | changing a found entity in place never changes the number of stored entities |
| Seqs.ReplaceFirst | src/com/airtribe/learntrack/repository/StudentRepository.java:67-75 | replacing by id never changes the number of stored entities |
| Seqs.IndexOf | src/com/airtribe/learntrack/repository/StudentRepository.java:70 | `indexOf` is -1 exactly when the element is absent; otherwise it gives a position holding it with no earlier occurrence |
| Seqs.FirstOccurrenceOfFound | src/com/airtribe/learntrack/repository/StudentRepository.java:68-71 | `indexOf` of the entity `findById` returned lands on the first position keyed by that id |
| Seqs.FirstIndexSameKeys | src/com/airtribe/learntrack/repository/CourseRepository.java:82-89 | two lists with the same keys at each position find the same first match |
| Seqs.UpdateFirstKeys | src/com/airtribe/learntrack/repository/CourseRepository.java:82-103 | a setter that keeps ids changes no stored id |
| Seqs.UpdateFirstIdempotent | src/com/airtribe/learntrack/repository/CourseRepository.java:82-103 | with an idempotent, id-keeping setter, updating twice is updating once, and the second call finds the same entity |
| Seqs.FindDistinct | src/com/airtribe/learntrack/repository/StudentRepository.java:53-60 | when ids are distinct, the id of the entity at any position finds exactly that entity |
| Seqs.AppendFreshKey | src/com/airtribe/learntrack/service/StudentService.java:28-33 | appending an entity whose id is above every stored id keeps the ids distinct, and that id then finds the new entity |
| Seqs.UpdateFirstExcludes | src/com/airtribe/learntrack/service/StudentService.java:84-90 | when ids are distinct, once the entity with the id is set inactive, no active entity has that id |
| Seqs.RemoveFirst | Course.java:48-50 | `List.remove(Object)` shortens the list by one when the element occurs, and changes nothing when it does not |
| Seqs.RemoveFirstSplit | Course.java:48-50 | removal cuts out exactly the first occurrence; the other elements keep their order |
| Seqs.RemoveFirstMembers | Student.java:31-33 | in a duplicate-free list, removal leaves every other element, no copy of the removed one, and no duplicates |
| Seqs.RemoveFirstAppended | Student.java:25-33 | appending an absent element and then removing it gives back the list |
| Seqs.RemoveFirstAppendedOther | LearnTrackSystem.java:185-186 | removing an element commutes with appending a different one |
| Util.TrimLeadingSuffix | src/com/airtribe/learntrack/util/InputValidator.java:19 | trimming the front keeps a suffix that does not start with a character up to U+0020, and drops only such characters |
| Util.TrimTrailingPrefix | src/com/airtribe/learntrack/util/InputValidator.java:19 | trimming the back keeps a prefix that does not end with a character up to U+0020, and drops only such characters |
| Util.TrimEmptyIffBlank | src/com/airtribe/learntrack/util/InputValidator.java:19 | a string trims to empty exactly when every character in it is at most U+0020 |
| Util.IsValidString | src/com/airtribe/learntrack/util/InputValidator.java:18-20 | valid exactly when non-null and some character lies above U+0020 |
| Util.IsValidInteger | src/com/airtribe/learntrack/util/InputValidator.java:27-34 | valid exactly when non-null and `parseInt` accepts it; it never throws |
| Util.ParseInteger | src/com/airtribe/learntrack/util/InputValidator.java:41-47 | -1 whenever `isValidInteger` is false, the parsed value otherwise |
| Util.IsValidEmail | src/com/airtribe/learntrack/util/InputValidator.java:54-59 | valid exactly when it is a valid string containing both '@' and '.'; so every valid email is a valid string |
| Util.IdGenerator.constructor | src/com/airtribe/learntrack/util/IdGenerator.java:9-11 | the counters start at 1000, 2000 and 3000, with nothing issued |
| Util.IdGenerator.GetNextStudentId | src/com/airtribe/learntrack/util/IdGenerator.java:21-23 | returns the counter plus one, never an id issued since the last reset; only the student counter moves |
| Util.IdGenerator.GetNextCourseId | src/com/airtribe/learntrack/util/IdGenerator.java:29-31 | as for students, with the course counter |
| Util.IdGenerator.GetNextEnrollmentId | src/com/airtribe/learntrack/util/IdGenerator.java:37-39 | as for students, with the enrollment counter |
| Util.IdGenerator.ResetCounters | src/com/airtribe/learntrack/util/IdGenerator.java:44-48 | the counters go back to 1000, 2000 and 3000 |
| Util.FirstIdsAfterReset | src/com/airtribe/learntrack/util/IdGenerator.java:21-48 | after a reset the first ids are 1001, 2001 and 3001, in any order of asking |
| Util.SuccessiveStudentIds | src/com/airtribe/learntrack/util/IdGenerator.java:21-31 | two successive student ids differ by exactly one and are both new; a course id in between does not disturb them |
| Entity.DisplayName | src/com/airtribe/learntrack/entity/Person.java:66-68 | the first name, one space, then the last name |
| Entity.StudentDisplayName | src/com/airtribe/learntrack/entity/Student.java:56-58 | the person's display name, then the batch, closed by ')' |
| Entity.Person.GetDisplayName | src/com/airtribe/learntrack/entity/Person.java:66-68 | a person's display name is its first name, one space, then its last name |
| Entity.Student.GetDisplayName | src/com/airtribe/learntrack/entity/Student.java:56-58 | a student's display name overrides the person's: that text, then " (Batch: ", the batch and ')' |
| Entity.Person.constructor | src/com/airtribe/learntrack/entity/Person.java:18-23 | stores the id, both names and the email as given |
| Entity.Person.WithoutEmail | src/com/airtribe/learntrack/entity/Person.java:26-30 | stores the id and names and leaves the email null |
| Entity.Person.SetId | src/com/airtribe/learntrack/entity/Person.java:37-39 | changes the id and no other field |
| Entity.Person.SetFirstName | src/com/airtribe/learntrack/entity/Person.java:45-47 | changes the first name and no other field |
| Entity.Person.SetLastName | src/com/airtribe/learntrack/entity/Person.java:53-55 | changes the last name and no other field |
| Entity.Person.SetEmail | src/com/airtribe/learntrack/entity/Person.java:61-63 | changes the email and no other field |
| Entity.Student.constructor | src/com/airtribe/learntrack/entity/Student.java:17-21 | stores every field, including `active`, as given |
| Entity.Student.WithoutEmail | src/com/airtribe/learntrack/entity/Student.java:24-28 | leaves the email null and stores `active` as given |
| Entity.Student.Minimal | src/com/airtribe/learntrack/entity/Student.java:31-35 | leaves the email null and makes the student active |
| Entity.Student.SetBatch | src/com/airtribe/learntrack/entity/Student.java:42-44 | changes the batch and no other field |
| Entity.Student.SetActive | src/com/airtribe/learntrack/entity/Student.java:50-52 | changes the active flag and nothing else |
| Entity.Enrollment.constructor | src/com/airtribe/learntrack/entity/Enrollment.java:21-27 | stores the id, student, course, date and status as given |
| Entity.Enrollment.WithActiveStatus | src/com/airtribe/learntrack/entity/Enrollment.java:30-36 | the four-argument form starts the enrollment ACTIVE |
| Entity.Enrollment.SetId | src/com/airtribe/learntrack/entity/Enrollment.java:43-45 | changes the id and nothing else |
| Entity.Enrollment.SetStudentId | src/com/airtribe/learntrack/entity/Enrollment.java:51-53 | changes the student id and nothing else |
| Entity.Enrollment.SetCourseId | src/com/airtribe/learntrack/entity/Enrollment.java:59-61 | changes the course id and nothing else |
| Entity.Enrollment.SetEnrollmentDate | src/com/airtribe/learntrack/entity/Enrollment.java:67-69 | changes the date and nothing else |
| Entity.Enrollment.SetStatus | src/com/airtribe/learntrack/entity/Enrollment.java:75-77 | changes the status and nothing else |
| Repository.StudentRepository.constructor | src/com/airtribe/learntrack/repository/StudentRepository.java:14-16 | a new store is empty |
| Repository.StudentRepository.AddStudent | src/com/airtribe/learntrack/repository/StudentRepository.java:22-24 | appends at the end; every earlier entry stays as it was |
| Repository.StudentRepository.GetAllStudents | src/com/airtribe/learntrack/repository/StudentRepository.java:30-32 | a copy with the same students in the same order |
| Repository.StudentRepository.GetActiveStudents | src/com/airtribe/learntrack/repository/StudentRepository.java:38-46 | exactly the active students, in storage order |
| Repository.StudentRepository.FindById | src/com/airtribe/learntrack/repository/StudentRepository.java:53-60 | the first student with the id, or null when none has it |
| Repository.StudentRepository.UpdateStudent | src/com/airtribe/learntrack/repository/StudentRepository.java:67-75 | replaces the first entry with the same id and reports true; otherwise reports false and changes nothing |
| Repository.StudentRepository.DeactivateStudent | src/com/airtribe/learntrack/repository/StudentRepository.java:82-89 | clears `active` on the first match only and reports true; reports false with no change when the id is absent |
| Repository.CourseRepository.constructor | src/com/airtribe/learntrack/repository/CourseRepository.java:14-16 | a new store is empty |
| Repository.CourseRepository.AddCourse | src/com/airtribe/learntrack/repository/CourseRepository.java:22-24 | appends at the end; every earlier entry stays as it was |
| Repository.CourseRepository.GetAllCourses | src/com/airtribe/learntrack/repository/CourseRepository.java:30-32 | a copy with the same courses in the same order |
| Repository.CourseRepository.GetActiveCourses | src/com/airtribe/learntrack/repository/CourseRepository.java:38-46 | exactly the active courses, in storage order |
| Repository.CourseRepository.FindById | src/com/airtribe/learntrack/repository/CourseRepository.java:53-60 | the first course with the id, or null |
| Repository.CourseRepository.UpdateCourse | src/com/airtribe/learntrack/repository/CourseRepository.java:67-75 | replaces the first entry with the same id and reports true; otherwise reports false and changes nothing |
| Repository.CourseRepository.ActivateCourse | src/com/airtribe/learntrack/repository/CourseRepository.java:82-89 | sets `active` on the first match only and reports true; reports false with no change when the id is absent |
| Repository.CourseRepository.DeactivateCourse | src/com/airtribe/learntrack/repository/CourseRepository.java:96-103 | clears `active` on the first match only and reports true; reports false with no change when the id is absent |
| Repository.EnrollmentRepository.constructor | src/com/airtribe/learntrack/repository/EnrollmentRepository.java:14-16 | a new store is empty |
| Repository.EnrollmentRepository.AddEnrollment | src/com/airtribe/learntrack/repository/EnrollmentRepository.java:22-24 | appends at the end; every earlier entry stays as it was |
| Repository.EnrollmentRepository.GetAllEnrollments | src/com/airtribe/learntrack/repository/EnrollmentRepository.java:30-32 | a copy with the same enrollments in the same order |
| Repository.EnrollmentRepository.FindByStudentId | src/com/airtribe/learntrack/repository/EnrollmentRepository.java:39-47 | exactly the enrollments of that student, of any status, in storage order |
| Repository.EnrollmentRepository.FindByCourseId | src/com/airtribe/learntrack/repository/EnrollmentRepository.java:54-62 | exactly the enrollments in that course, in storage order |
| Repository.EnrollmentRepository.FindById | src/com/airtribe/learntrack/repository/EnrollmentRepository.java:69-76 | the first enrollment with the id, or null |
| Repository.EnrollmentRepository.UpdateEnrollment | src/com/airtribe/learntrack/repository/EnrollmentRepository.java:83-91 | replaces the first entry with the same id and reports true; otherwise reports false and changes nothing |
| Service.StudentService.constructor | src/com/airtribe/learntrack/service/StudentService.java:16-18 | wraps the repository it is given |
| Service.StudentService.AddStudent | src/com/airtribe/learntrack/service/StudentService.java:28-33 | an active student with the next, never-issued id and the names, email and batch given, appended to the store and, when the stored ids are distinct and none exceeds the counter (`Valid()`), then found by its id |
| Service.StudentService.AddStudentWithoutEmail | src/com/airtribe/learntrack/service/StudentService.java:42-47 | as the four-argument form, with a null email |
| Service.StudentService.GetAllStudents | src/com/airtribe/learntrack/service/StudentService.java:53-55 | every stored student, in order |
| Service.StudentService.GetActiveStudents | src/com/airtribe/learntrack/service/StudentService.java:61-63 | the active students, in order |
| Service.StudentService.FindStudentById | src/com/airtribe/learntrack/service/StudentService.java:71-77 | the repository's first match; `NotFound("Student", id)` exactly when no stored student has the id |
| Service.StudentService.DeactivateStudent | src/com/airtribe/learntrack/service/StudentService.java:84-90 | `NotFound` with no change when absent; otherwise the student becomes inactive, and, when the stored ids are distinct, no active student then has the id |
| Service.StudentSettersKeepKeys | src/com/airtribe/learntrack/entity/Student.java:50-52 | `setActive` keeps the id, is idempotent, and `setActive(false)` leaves the student inactive |
| Service.AddSameStudentTwice | src/com/airtribe/learntrack/service/StudentService.java:42-47 | the same names twice store two students whose ids differ by one: there is no duplicate-name check |
| Service.DeactivateStudentTwice | src/com/airtribe/learntrack/service/StudentService.java:84-90 | a second deactivation has the same outcome as the first, succeeds exactly when the student exists, and leaves the store as one deactivation left it |
| Service.CourseService.constructor | src/com/airtribe/learntrack/service/CourseService.java:16-18 | wraps the repository it is given |
| Service.CourseService.AddCourse | src/com/airtribe/learntrack/service/CourseService.java:27-32 | an active course with the next, never-issued id and the name, description and (unchecked) duration given, appended and, when the stored ids are distinct and none exceeds the counter (`Valid()`), then found by its id |
| Service.CourseService.GetAllCourses | src/com/airtribe/learntrack/service/CourseService.java:38-40 | every stored course, in order |
| Service.CourseService.GetActiveCourses | src/com/airtribe/learntrack/service/CourseService.java:46-48 | the active courses, in order |
| Service.CourseService.FindCourseById | src/com/airtribe/learntrack/service/CourseService.java:56-62 | the repository's first match; `NotFound("Course", id)` exactly when no course has the id |
| Service.CourseService.ActivateCourse | src/com/airtribe/learntrack/service/CourseService.java:69-75 | `NotFound` with no change when absent; otherwise the first such course becomes active |
| Service.CourseService.DeactivateCourse | src/com/airtribe/learntrack/service/CourseService.java:82-88 | `NotFound` with no change when absent; otherwise the course becomes inactive, and, when the stored ids are distinct, the active courses then exclude it |
| Service.CourseSettersKeepKeys | src/com/airtribe/learntrack/repository/CourseRepository.java:82-103 | setting a course's flag keeps its id, is idempotent, and clearing it makes the course inactive |
| Service.AddThenFindCourse | src/com/airtribe/learntrack/service/CourseService.java:27-62 | round trip, when the stored ids are distinct and none exceeds the counter (`Valid()`): the course `addCourse` returns is found by its id, with its name, description and duration, and active |
| Service.SetCourseActiveTwice | src/com/airtribe/learntrack/service/CourseService.java:69-88 | activating (or deactivating) a course twice gives the same outcome both times, succeeds exactly when the course exists, and leaves the store as one call left it |
| Service.EnrollmentService.constructor | src/com/airtribe/learntrack/service/EnrollmentService.java:20-26 | wraps the repository and the two services it is given |
| Service.EnrollmentService.EnrollStudent | src/com/airtribe/learntrack/service/EnrollmentService.java:35-46 | unknown student first, then unknown course, each with no change and no id used; otherwise one new ACTIVE record with a fresh id is appended |
| Service.EnrollmentService.FindStudentAndCourse | src/com/airtribe/learntrack/service/EnrollmentService.java:37-40 | the student is looked up before the course, and the first one missing decides the error |
| Service.EnrollmentService.AppendEnrollment | src/com/airtribe/learntrack/service/EnrollmentService.java:42-45 | the record has the next, never-issued enrollment id and status ACTIVE, and is appended; its id stays distinct from every stored one |
| Service.EnrollmentService.GetEnrollmentsByStudent | src/com/airtribe/learntrack/service/EnrollmentService.java:54-58 | `NotFound` exactly for an unknown student; otherwise every enrollment of that student, in order |
| Service.EnrollmentService.MarkEnrollmentCompleted | src/com/airtribe/learntrack/service/EnrollmentService.java:65-72 | `NotFound` with no change when absent; otherwise the first match becomes COMPLETED, whatever it was |
| Service.EnrollmentService.MarkEnrollmentCancelled | src/com/airtribe/learntrack/service/EnrollmentService.java:79-86 | as above with CANCELLED, which also overwrites COMPLETED |
| Service.EnrollmentService.MarkEnrollment | src/com/airtribe/learntrack/service/EnrollmentService.java:65-86 | the shared body: find, set the status, write back; only the first match changes, the number of enrollments stays, and distinct ids stay distinct |
| Service.EnrollmentService.GetAllEnrollments | src/com/airtribe/learntrack/service/EnrollmentService.java:92-94 | every stored enrollment, in order |
| Service.SetStatusKeepsTheRest | src/com/airtribe/learntrack/entity/Enrollment.java:75-77 | setting the status keeps the id, student, course and date |
| Service.EnrollSamePairTwice | src/com/airtribe/learntrack/service/EnrollmentService.java:35-46 | enrolling one pair twice stores two ACTIVE records for it, with ids one apart |
| LearnTrack.Course.constructor | Course.java:15-22 | a new course stores what it is given and has nobody enrolled |
| LearnTrack.Course.EnrolledCount | Course.java:28 | the list's length, never above the capacity (or 0 when that is not positive) |
| LearnTrack.Course.SetCourseName | Course.java:30 | changes the name only |
| LearnTrack.Course.SetInstructor | Course.java:31 | changes the instructor only |
| LearnTrack.Course.AddStudent | Course.java:37-46 | accepts exactly when below capacity and not yet enrolled, and then appends; otherwise no change; keeps the list within capacity and duplicate-free |
| LearnTrack.Course.RemoveStudent | Course.java:48-50 | removes the first occurrence, keeping the others in order; the student is then no longer enrolled |
| LearnTrack.FillCourse | Course.java:37-46 | a course of capacity 2 takes two distinct students and refuses the third |
| LearnTrack.Student.constructor | Student.java:11-15 | a new student is enrolled in nothing |
| LearnTrack.Student.GetEnrolledCourses | Student.java:21-23 | a copy with the same courses in the same order |
| LearnTrack.Student.EnrollInCourse | Student.java:25-29 | appends the course unless listed; the course is then listed, and the list stays duplicate-free |
| LearnTrack.Student.DropCourse | Student.java:31-33 | removes the first occurrence; the course is then no longer listed |
| LearnTrack.EnrollThenDropCourse | Student.java:25-33 | enrolling in an unlisted course and then dropping it restores the list |
| LearnTrack.EnrollInCourseTwice | Student.java:25-29 | a second enrollment in the same course changes nothing |
| LearnTrack.PartnersAppend | LearnTrackSystem.java:154-160 | a log record added for a pair appends each id to the other's list and changes no other list |
| LearnTrack.PartnersMember | LearnTrackSystem.java:150-160 | an id is on another's list exactly when the log holds the record of the pair |
| LearnTrack.PartnersMirror | LearnTrackSystem.java:150-160 | a course is on a student's list exactly when the student is on the course's list, and exactly when the log holds the pair |
| LearnTrack.PartnersAbsent | LearnTrackSystem.java:39-40 | an id the log never names has an empty list, as a newly added student or course has |
| LearnTrack.PartnersNoDuplicates | LearnTrackSystem.java:150-160 | a log without repeated records gives lists without repeated ids |
| LearnTrack.PartnersDrop | LearnTrackSystem.java:185-191 | deleting a pair's records from a log without repeated records removes each id from the other's list and changes no other list |
| LearnTrack.DropAbsentIsNoOp | LearnTrackSystem.java:188-191 | deleting the records of a pair the log does not hold changes nothing |
| LearnTrack.EnrollThenDropRestores | LearnTrackSystem.java:154-191 | deleting the records of a pair just appended gives back the log |
| LearnTrack.LearnTrackSystem.constructor | LearnTrackSystem.java:12-17 | no students, no courses, no enrollments, and the invariant holds |
| LearnTrack.LearnTrackSystem.AddStudent | LearnTrackSystem.java:20-46 | refuses an existing id, then an empty trimmed name or email, with no change; otherwise files a new student, enrolled in nothing, under the id; keeps the invariant |
| LearnTrack.LearnTrackSystem.AddCourse | LearnTrackSystem.java:84-115 | refuses an existing id, then a capacity that does not parse, then one not positive, with no change; otherwise files a new empty course; keeps the invariant |
| LearnTrack.LearnTrackSystem.EnrollStudent | LearnTrackSystem.java:131-168 | unknown student, unknown course, already enrolled, course full, in that order, each leaving every student's and course's list and the log unchanged; otherwise both lists gain the other's id and the log gains one record; keeps the invariant |
| LearnTrack.LearnTrackSystem.EnrollPair | LearnTrackSystem.java:154-160 | the course takes the student exactly when it has room, and only then do the student's list and the log change |
| LearnTrack.LearnTrackSystem.CourseAddStudent | LearnTrackSystem.java:154-156 | the course side agrees with the log extended by the pair exactly when the course took the student |
| LearnTrack.LearnTrackSystem.StudentEnrollInCourse | LearnTrackSystem.java:158 | the student side agrees with the log extended by the pair |
| LearnTrack.LearnTrackSystem.DropEnrollment | LearnTrackSystem.java:170-198 | refuses, leaving every list and the log unchanged, exactly when the student or course is unknown; otherwise removes each id from the other's list and every record of the pair from the log, the rest in order; keeps the invariant |
| LearnTrack.LearnTrackSystem.DropPair | LearnTrackSystem.java:185-191 | both removals and the log deletion together keep the invariant, and the pair is then no longer enrolled |
| LearnTrack.LearnTrackSystem.StudentDropCourse | LearnTrackSystem.java:185 | the student side agrees with the log without the pair's records |
| LearnTrack.LearnTrackSystem.CourseRemoveStudent | LearnTrackSystem.java:186 | the course side agrees with the log without the pair's records |
| LearnTrack.ListsAgree | LearnTrackSystem.java:150-186 | in a valid system a course is on a student's list exactly when the student is on the course's list, exactly when the log holds the pair; no list repeats an id and no course is over capacity |
| LearnTrack.EnrollThenDrop | LearnTrackSystem.java:131-198 | a successful enrollment followed by a drop of the same pair succeeds and restores the log, and with it every list |
| LearnTrack.DropNotEnrolled | LearnTrackSystem.java:181-191 | dropping a known pair that is not enrolled succeeds and changes nothing |

## Left out

- Console I/O is not modelled. This covers:
  - `Main.java`;
  - the display methods and menu loop of `LearnTrackSystem.java` (`viewAllStudents`,
    `searchStudent`, `viewAllCourses`, `viewAllEnrollments`, `displayMenu`, `run`);
  - every `Scanner` read and `println`.
  The lines read become parameters. The printed messages become a `Rejection` value.
- The services take none of the preconditions `Main.java` checks before calling them (non-empty
  names, positive duration). The model is therefore more general than the menu's use of them.
- The clock is a parameter. `LocalDate.now()` becomes the `today` argument.
- The root `Enrollment.java` is not part of this model beyond its (student, course) pair. Its
  time-based id and `Date` are not modelled.
- `Integer.parseInt` is a function parameter (`string -> Option<int>`); its grammar is not
  modelled.
- `toString`, `displayInfo` and the exception message texts are formatting only. The error is
  kept as `NotFound(kind, id)`.
- The static display counters `Student.studentCount` and `Course.totalCourses` are only printed.
- The getters are not separate members: each is a read of the field it returns.
- The no-argument constructors of `Person`, `Student` and `Enrollment` are not modelled. They
  leave fields null, and nothing in the modelled code calls them.
- The layered `Course` entity file is not part of this model. The course is the value
  `CourseRecord` (id, name, description, duration, active), inferred from its uses.
- The root `Person.java` is not part of this model. The monolithic `Student` holds the id, name
  and email it inherits.
- `CourseStatus`, `InvalidInputException`, `MenuOptions` and `AppConstants` are unused or
  display-only.
- Java object identity is not modelled. The layered stores keep value snapshots. Changing an
  entity that `findById` returned is modelled as writing the changed value back at the first id
  match. This matches the source, because `indexOf` finds that same object.
- Util.IdGenerator.GetNextStudentId: requires the counter below 2^31 - 1. It does not model
  Java's `int` wrap-around, which the source never reaches in practice. The same holds for
  `GetNextCourseId`, `GetNextEnrollmentId` and the service methods that call them.
- Util.IdGenerator.constructor: the counters are static fields in Java. Here they are one
  generator object that all services share.
- LearnTrack.LearnTrackSystem.EnrollStudent: after the checks, the steps run in the source's
  order, split into `EnrollPair`, `CourseAddStudent` and `StudentEnrollInCourse` so that each
  proof step touches one object. The combined effect is stated on `EnrollStudent` itself.
- LearnTrack.LearnTrackSystem.DropEnrollment: split into `DropPair`, `StudentDropCourse` and
  `CourseRemoveStudent` in the same way.
