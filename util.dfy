/** The layered version's `util` package: `InputValidator`'s string predicates and the
    `IdGenerator` counters. */
module Util {
  import opened Common

  // ---------------------------------------------------------------------------------------
  // InputValidator

  /** The characters Java's `String.trim` strips: every code point up to U+0020. */
  predicate IsTrimmed(c: char)
  {
    c <= ' '
  }

  /** `s` without its leading trimmed characters. */
  function TrimLeading(s: string): string
    decreases |s|
  {
    if s != [] && IsTrimmed(s[0]) then TrimLeading(s[1..]) else s
  }

  /** `TrimLeading` keeps a suffix of `s` that does not start with a trimmed character, and
      everything it drops is trimmed. */
  lemma {:induction false} TrimLeadingSuffix(s: string)
    ensures var r := TrimLeading(s);
      |r| <= |s| && r == s[|s| - |r|..] && (r != [] ==> !IsTrimmed(r[0])) &&
      forall i | 0 <= i < |s| - |r| :: IsTrimmed(s[i])
    decreases |s|
  {
    if s != [] && IsTrimmed(s[0]) {
      TrimLeadingSuffix(s[1..]);
      var r := TrimLeading(s[1..]);
      assert s[1..][|s| - 1 - |r|..] == s[|s| - |r|..];
      forall i | 0 < i < |s| - |r| ensures IsTrimmed(s[i]) {
        assert s[i] == s[1..][i - 1];
      }
    }
  }

  /** `s` without its trailing trimmed characters. */
  function TrimTrailing(s: string): string
    decreases |s|
  {
    if s != [] && IsTrimmed(s[|s| - 1]) then TrimTrailing(s[..|s| - 1]) else s
  }

  /** `TrimTrailing` keeps a prefix of `s` that does not end with a trimmed character, and
      everything it drops is trimmed. */
  lemma {:induction false} TrimTrailingPrefix(s: string)
    ensures var r := TrimTrailing(s);
      |r| <= |s| && r == s[..|r|] && (r != [] ==> !IsTrimmed(r[|r| - 1])) &&
      forall i | |r| <= i < |s| :: IsTrimmed(s[i])
    decreases |s|
  {
    if s != [] && IsTrimmed(s[|s| - 1]) {
      TrimTrailingPrefix(s[..|s| - 1]);
      var r := TrimTrailing(s[..|s| - 1]);
      assert s[..|s| - 1][..|r|] == s[..|r|];
      forall i | |r| <= i < |s| - 1 ensures IsTrimmed(s[i]) {
        assert s[i] == s[..|s| - 1][i];
      }
    }
  }

  /** Java's `String.trim`: `s` without leading and trailing characters up to U+0020. */
  function Trim(s: string): string
  {
    TrimTrailing(TrimLeading(s))
  }

  /** A string trims to empty exactly when every character in it is one that trim strips. */
  lemma TrimEmptyIffBlank(s: string)
    ensures Trim(s) == "" <==> forall i | 0 <= i < |s| :: IsTrimmed(s[i])
  {
    TrimLeadingSuffix(s);
    var l := TrimLeading(s);
    TrimTrailingPrefix(l);
  }

  /** `isValidString`: not null and not empty once trimmed; that is, some character of the
      input lies above U+0020. */
  function IsValidString(input: Option<string>): (b: bool)
    ensures b <==> input.Some? && exists i | 0 <= i < |input.value| :: !IsTrimmed(input.value[i])
  {
    if input.None? then false
    else
      TrimEmptyIffBlank(input.value);
      Trim(input.value) != ""
  }

  /** `isValidInteger`: `Integer.parseInt` accepts the input. `parseInt` stands for that
      library routine (its grammar is not part of this model): `None` where it throws
      `NumberFormatException`, which it also does for a null input. */
  function IsValidInteger(input: Option<string>, parseInt: string -> Option<int>): (b: bool)
    ensures b <==> input.Some? && parseInt(input.value).Some?
  {
    match input
    case None => false
    case Some(s) => parseInt(s).Some?
  }

  /** `parseInteger`: the parsed value, or -1 where `isValidInteger` is false. It never throws. */
  function ParseInteger(input: Option<string>, parseInt: string -> Option<int>): (r: int)
    ensures !IsValidInteger(input, parseInt) ==> r == -1
    ensures IsValidInteger(input, parseInt) ==> r == parseInt(input.value).value
  {
    if input.None? then -1
    else match parseInt(input.value)
      case None => -1
      case Some(v) => v
  }

  /** `isValidEmail`: a valid string that contains both '@' and '.'. */
  function IsValidEmail(email: Option<string>): (b: bool)
    ensures b <==> IsValidString(email) && '@' in email.value && '.' in email.value
  {
    if email.None? || Trim(email.value) == "" then false
    else '@' in email.value && '.' in email.value
  }

  // ---------------------------------------------------------------------------------------
  // IdGenerator

  /** The value each counter holds at start and after `resetCounters`. */
  const StudentIdBase: int := 1000
  const CourseIdBase: int := 2000
  const EnrollmentIdBase: int := 3000

  /** The three id counters. Java keeps them in static fields; here one generator object is
      shared by the services. The ghost sets hold the ids issued since the last reset. */
  class IdGenerator {
    var studentIdCounter: int
    var courseIdCounter: int
    var enrollmentIdCounter: int
    ghost var issuedStudentIds: set<int>
    ghost var issuedCourseIds: set<int>
    ghost var issuedEnrollmentIds: set<int>

    /** No counter is below its base, and every id issued since the last reset lies above the
        base and at most the counter. */
    ghost predicate Valid()
      reads this
    {
      StudentIdBase <= studentIdCounter && CourseIdBase <= courseIdCounter &&
      EnrollmentIdBase <= enrollmentIdCounter &&
      (forall x | x in issuedStudentIds :: StudentIdBase < x <= studentIdCounter) &&
      (forall x | x in issuedCourseIds :: CourseIdBase < x <= courseIdCounter) &&
      (forall x | x in issuedEnrollmentIds :: EnrollmentIdBase < x <= enrollmentIdCounter)
    }

    /** The static initialisers: 1000, 2000 and 3000, nothing issued yet. */
    constructor ()
      ensures Valid()
      ensures studentIdCounter == StudentIdBase && courseIdCounter == CourseIdBase
      ensures enrollmentIdCounter == EnrollmentIdBase
      ensures issuedStudentIds == issuedCourseIds == issuedEnrollmentIds == {}
    {
      studentIdCounter, courseIdCounter, enrollmentIdCounter := StudentIdBase, CourseIdBase, EnrollmentIdBase;
      issuedStudentIds, issuedCourseIds, issuedEnrollmentIds := {}, {}, {};
    }

    /** `getNextStudentId`: the counter plus one, never an id issued since the last reset;
        the other two counters do not move. */
    method GetNextStudentId() returns (id: int)
      requires Valid() && studentIdCounter < IntMax
      modifies this`studentIdCounter, this`issuedStudentIds
      ensures Valid()
      ensures id == old(studentIdCounter) + 1 && studentIdCounter == id
      ensures id !in old(issuedStudentIds) && issuedStudentIds == old(issuedStudentIds) + {id}
    {
      studentIdCounter := studentIdCounter + 1;
      id := studentIdCounter;
      issuedStudentIds := issuedStudentIds + {id};
    }

    /** `getNextCourseId`: as `getNextStudentId`, for courses. */
    method GetNextCourseId() returns (id: int)
      requires Valid() && courseIdCounter < IntMax
      modifies this`courseIdCounter, this`issuedCourseIds
      ensures Valid()
      ensures id == old(courseIdCounter) + 1 && courseIdCounter == id
      ensures id !in old(issuedCourseIds) && issuedCourseIds == old(issuedCourseIds) + {id}
    {
      courseIdCounter := courseIdCounter + 1;
      id := courseIdCounter;
      issuedCourseIds := issuedCourseIds + {id};
    }

    /** `getNextEnrollmentId`: as `getNextStudentId`, for enrollments. */
    method GetNextEnrollmentId() returns (id: int)
      requires Valid() && enrollmentIdCounter < IntMax
      modifies this`enrollmentIdCounter, this`issuedEnrollmentIds
      ensures Valid()
      ensures id == old(enrollmentIdCounter) + 1 && enrollmentIdCounter == id
      ensures id !in old(issuedEnrollmentIds) && issuedEnrollmentIds == old(issuedEnrollmentIds) + {id}
    {
      enrollmentIdCounter := enrollmentIdCounter + 1;
      id := enrollmentIdCounter;
      issuedEnrollmentIds := issuedEnrollmentIds + {id};
    }

    /** `resetCounters`: back to 1000, 2000 and 3000; ids may be issued again afterwards. */
    method ResetCounters()
      modifies this
      ensures Valid()
      ensures studentIdCounter == StudentIdBase && courseIdCounter == CourseIdBase
      ensures enrollmentIdCounter == EnrollmentIdBase
      ensures issuedStudentIds == issuedCourseIds == issuedEnrollmentIds == {}
    {
      studentIdCounter, courseIdCounter, enrollmentIdCounter := StudentIdBase, CourseIdBase, EnrollmentIdBase;
      issuedStudentIds, issuedCourseIds, issuedEnrollmentIds := {}, {}, {};
    }
  }

  /** After start or reset the first ids issued are 1001, 2001 and 3001, whatever order
      the three kinds are asked for in. */
  method FirstIdsAfterReset(g: IdGenerator) returns (s: int, c: int, e: int)
    modifies g
    ensures s == 1001 && c == 2001 && e == 3001
    ensures g.Valid()
  {
    g.ResetCounters();
    e := g.GetNextEnrollmentId();
    s := g.GetNextStudentId();
    c := g.GetNextCourseId();
  }

  /** Between resets a counter is strictly increasing: two successive student ids differ,
      the second one greater by exactly one, and asking for a course id in between does
      not disturb it. */
  method SuccessiveStudentIds(g: IdGenerator) returns (a: int, b: int)
    requires g.Valid() && g.studentIdCounter < IntMax - 1 && g.courseIdCounter < IntMax
    modifies g
    ensures b == a + 1 && a == old(g.studentIdCounter) + 1
    ensures a !in old(g.issuedStudentIds) && b !in old(g.issuedStudentIds)
  {
    a := g.GetNextStudentId();
    var _ := g.GetNextCourseId();
    b := g.GetNextStudentId();
  }
}
