/** `EnrollmentService`: a student's enrollment in a course and the per-lesson
    progress rows created with it. The enrollment and lesson-progress tables
    are shared with the lesson-progress service. */
module Enrollments {
  import opened Common

  /** EnrollmentStatus. */
  datatype EnrollmentStatus = Ongoing | Completed

  /** An `Enrollment` row (the enrollment and last-access dates are not
      modelled). */
  datatype Enrollment = Enrollment(id: Id, studentId: Id, courseId: Id, status: EnrollmentStatus, progress: int)

  /** LessonProgress.LessonStatus: PENDING or COMPLETED. */
  datatype LessonStatus = Pending | Done

  /** A `LessonProgress` row. */
  datatype LessonProgress = LessonProgress(id: Id, enrollmentId: Id, lessonId: Id, status: LessonStatus, completedAt: Option<Time>)

  /** `findByStudentAndCourse`: the position of the first enrollment of that
      student in that course. */
  function FindEnrollment(es: seq<Enrollment>, studentId: Id, courseId: Id): (r: Option<nat>)
    ensures r.Some? ==> r.value < |es| && es[r.value].studentId == studentId && es[r.value].courseId == courseId
    ensures r.None? <==> forall k :: 0 <= k < |es| ==> !(es[k].studentId == studentId && es[k].courseId == courseId)
  {
    if es == [] then None
    else if es[0].studentId == studentId && es[0].courseId == courseId then Some(0)
    else match FindEnrollment(es[1..], studentId, courseId)
      case None => None
      case Some(k) => Some(k + 1)
  }

  /** `enrollmentRepository.findById`. */
  function FindEnrollmentById(es: seq<Enrollment>, id: Id): (r: Option<nat>)
    ensures r.Some? ==> r.value < |es| && es[r.value].id == id
    ensures r.None? <==> forall k :: 0 <= k < |es| ==> es[k].id != id
  {
    FindByIdFirst(es, (x: Enrollment) => x.id, id);
    FindById(es, (x: Enrollment) => x.id, id)
  }

  /** At most one enrollment per (student, course). */
  ghost predicate UniqueEnrollments(es: seq<Enrollment>) {
    forall i, j :: 0 <= i < j < |es| ==> !(es[i].studentId == es[j].studentId && es[i].courseId == es[j].courseId)
  }

  ghost predicate DistinctEnrollmentIds(es: seq<Enrollment>) {
    forall i, j :: 0 <= i < j < |es| ==> es[i].id != es[j].id
  }

  /** `findByStudent(student)`: the student's enrollments, in table order. */
  function EnrollmentsOf(es: seq<Enrollment>, studentId: Id): (r: seq<Enrollment>)
    ensures forall e :: e in r <==> e in es && e.studentId == studentId
  {
    if es == [] then []
    else (if es[0].studentId == studentId then [es[0]] else []) + EnrollmentsOf(es[1..], studentId)
  }

  /** The rows the enrollment loop writes: one PENDING row per lesson of the
      course, in lesson order, with consecutive identities. */
  function PendingRows(firstId: Id, enrollmentId: Id, lessons: seq<Id>): (r: seq<LessonProgress>)
    decreases |lessons|
    ensures |r| == |lessons|
    ensures forall k :: 0 <= k < |r| ==>
              r[k] == LessonProgress(firstId + k, enrollmentId, lessons[k], Pending, None)
  {
    if lessons == [] then []
    else [LessonProgress(firstId, enrollmentId, lessons[0], Pending, None)] + PendingRows(firstId + 1, enrollmentId, lessons[1..])
  }

  /** The number of rows of an enrollment for one lesson. */
  function LessonCount(rows: seq<LessonProgress>, enrollmentId: Id, lessonId: Id): nat {
    if rows == [] then 0
    else (if rows[0].enrollmentId == enrollmentId && rows[0].lessonId == lessonId then 1 else 0) +
         LessonCount(rows[1..], enrollmentId, lessonId)
  }

  lemma {:induction false} LessonCountAppend(a: seq<LessonProgress>, b: seq<LessonProgress>, eid: Id, lid: Id)
    ensures LessonCount(a + b, eid, lid) == LessonCount(a, eid, lid) + LessonCount(b, eid, lid)
  {
    if a == [] {
      assert a + b == b;
    } else {
      assert (a + b)[1..] == a[1..] + b;
      LessonCountAppend(a[1..], b, eid, lid);
    }
  }

  lemma {:induction false} LessonCountNone(rows: seq<LessonProgress>, eid: Id, lid: Id)
    requires forall k :: 0 <= k < |rows| ==> rows[k].enrollmentId != eid
    ensures LessonCount(rows, eid, lid) == 0
  {
    if rows != [] {
      LessonCountNone(rows[1..], eid, lid);
    }
  }

  predicate DistinctLessons(lessons: seq<Id>) {
    forall i, j :: 0 <= i < j < |lessons| ==> lessons[i] != lessons[j]
  }

  /** The rows written on enrollment hold exactly one row for each lesson of
      the course and none for any other lesson. */
  lemma {:induction false} PendingRowsOnePerLesson(firstId: Id, eid: Id, lessons: seq<Id>, lid: Id)
    requires DistinctLessons(lessons)
    ensures LessonCount(PendingRows(firstId, eid, lessons), eid, lid) == if lid in lessons then 1 else 0
    decreases |lessons|
  {
    if lessons != [] {
      var tail := lessons[1..];
      assert DistinctLessons(tail) by {
        forall i, j | 0 <= i < j < |tail|
          ensures tail[i] != tail[j]
        {
          assert tail[i] == lessons[i + 1] && tail[j] == lessons[j + 1];
        }
      }
      assert lessons[0] !in tail by {
        forall k | 0 <= k < |tail|
          ensures tail[k] != lessons[0]
        {
          assert tail[k] == lessons[k + 1];
        }
      }
      PendingRowsOnePerLesson(firstId + 1, eid, tail, lid);
      assert PendingRows(firstId, eid, lessons)[1..] == PendingRows(firstId + 1, eid, tail);
      assert lid in lessons <==> lid == lessons[0] || lid in tail by {
        assert lessons == [lessons[0]] + tail;
      }
    }
  }

  /** The rows left when an enrollment is deleted together with its progress
      rows (the `lessonProgresses` association cascades). */
  function WithoutEnrollment(rows: seq<LessonProgress>, eid: Id): (r: seq<LessonProgress>)
    ensures forall p :: p in r <==> p in rows && p.enrollmentId != eid
  {
    if rows == [] then []
    else (if rows[0].enrollmentId == eid then [] else [rows[0]]) + WithoutEnrollment(rows[1..], eid)
  }

  /** The shared progress rule: the percentage is stored, and 100 marks the
      enrollment COMPLETED; any other value keeps the status it had. */
  function Advance(e: Enrollment, pct: int): (r: Enrollment)
    ensures r.id == e.id && r.studentId == e.studentId && r.courseId == e.courseId
    ensures r.progress == pct
    ensures pct == 100 ==> r.status == Completed
    ensures pct != 100 ==> r.status == e.status
  {
    var e' := e.(progress := pct);
    if pct == 100 then e'.(status := Completed) else e'
  }

  /** A COMPLETED enrollment never goes back to ONGOING, whatever progress is
      reported later. */
  lemma {:induction false} CompletedIsFinal(e: Enrollment, pcts: seq<int>)
    requires e.status == Completed
    ensures AdvanceAll(e, pcts).status == Completed
    decreases |pcts|
  {
    if pcts != [] {
      CompletedIsFinal(Advance(e, pcts[0]), pcts[1..]);
    }
  }

  /** A sequence of progress reports applied in order. */
  function AdvanceAll(e: Enrollment, pcts: seq<int>): Enrollment
    decreases |pcts|
  {
    if pcts == [] then e else AdvanceAll(Advance(e, pcts[0]), pcts[1..])
  }

  class EnrollmentService {
    /** The ids of the user accounts. */
    var users: set<Id>
    /** The courses, each with its lessons in order. */
    var courses: map<Id, seq<Id>>
    /** The `enrollments` table. */
    var enrollments: seq<Enrollment>
    /** The `lesson_progress` table. */
    var progress: seq<LessonProgress>
    var nextEnrollmentId: Id
    var nextProgressId: Id

    ghost predicate Valid()
      reads this
    {
      UniqueEnrollments(enrollments) && DistinctEnrollmentIds(enrollments) &&
      (forall k :: 0 <= k < |enrollments| ==> enrollments[k].id < nextEnrollmentId) &&
      (forall k :: 0 <= k < |progress| ==> progress[k].enrollmentId < nextEnrollmentId) &&
      (forall k :: 0 <= k < |progress| ==> progress[k].id < nextProgressId) &&
      (forall c :: c in courses ==> DistinctLessons(courses[c]))
    }

    constructor (users: set<Id>, courses: map<Id, seq<Id>>)
      requires forall c :: c in courses ==> DistinctLessons(courses[c])
      ensures Valid()
      ensures this.users == users && this.courses == courses && enrollments == [] && progress == []
    {
      this.users := users;
      this.courses := courses;
      enrollments := [];
      progress := [];
      nextEnrollmentId := 1;
      nextProgressId := 1;
    }

    /** `enrollStudentInCourse(userId, courseId)`: the user is looked up by
        `userId.intValue()`. */
    method EnrollStudentInCourse(userId: Id, courseId: Id) returns (r: Result<Enrollment>)
      requires Valid()
      modifies this
      ensures Valid() && users == old(users) && courses == old(courses)
      ensures Wrap32(userId) !in users || courseId !in courses ==> r == Err(ResourceNotFound)
      ensures Wrap32(userId) in users && courseId in courses && FindEnrollment(old(enrollments), Wrap32(userId), courseId).Some?
              ==> r == Err(IllegalState)
      ensures r.Ok? <==> Wrap32(userId) in users && courseId in courses &&
                         FindEnrollment(old(enrollments), Wrap32(userId), courseId).None?
      ensures r.Err? ==> enrollments == old(enrollments) && progress == old(progress) &&
                         nextEnrollmentId == old(nextEnrollmentId) && nextProgressId == old(nextProgressId)
      ensures r.Ok? ==> r.value == Enrollment(old(nextEnrollmentId), Wrap32(userId), courseId, Ongoing, 0)
      ensures r.Ok? ==> enrollments == old(enrollments) + [r.value]
      ensures r.Ok? ==> progress == old(progress) + PendingRows(old(nextProgressId), r.value.id, courses[courseId])
      ensures r.Ok? ==> forall lid :: LessonCount(progress, r.value.id, lid) == if lid in courses[courseId] then 1 else 0
    {
      var studentId := Wrap32(userId);
      if studentId !in users || courseId !in courses {
        return Err(ResourceNotFound);
      }
      if FindEnrollment(enrollments, studentId, courseId).Some? {
        return Err(IllegalState);
      }
      var e := Enrollment(nextEnrollmentId, studentId, courseId, Ongoing, 0);
      var lessons := courses[courseId];
      var first := nextProgressId;
      var rows := BuildPendingRows(first, e.id, lessons);
      forall lid
        ensures LessonCount(progress + rows, e.id, lid) == if lid in lessons then 1 else 0
      {
        EnrolledRowsOnePerLesson(progress, first, e.id, lessons, lid);
      }
      enrollments := enrollments + [e];
      progress := progress + rows;
      nextEnrollmentId := nextEnrollmentId + 1;
      nextProgressId := nextProgressId + |lessons|;
      r := Ok(e);
    }

    /** `unenrollStudentFromCourse(userId, courseId)`. */
    method UnenrollStudentFromCourse(userId: Id, courseId: Id) returns (r: Result<()>)
      requires Valid()
      modifies this
      ensures Valid() && users == old(users) && courses == old(courses)
      ensures nextEnrollmentId == old(nextEnrollmentId) && nextProgressId == old(nextProgressId)
      ensures r.Err? <==> Wrap32(userId) !in users || courseId !in courses ||
                          FindEnrollment(old(enrollments), Wrap32(userId), courseId).None?
      ensures r.Err? ==> r.error == ResourceNotFound && enrollments == old(enrollments) && progress == old(progress)
      ensures r.Ok? ==> var k := FindEnrollment(old(enrollments), Wrap32(userId), courseId).value;
                        enrollments == old(enrollments)[..k] + old(enrollments)[k + 1..] &&
                        progress == WithoutEnrollment(old(progress), old(enrollments)[k].id)
      ensures r.Ok? ==> FindEnrollment(enrollments, Wrap32(userId), courseId).None?
    {
      var studentId := Wrap32(userId);
      if studentId !in users || courseId !in courses {
        return Err(ResourceNotFound);
      }
      var found := FindEnrollment(enrollments, studentId, courseId);
      if found.None? {
        return Err(ResourceNotFound);
      }
      var k := found.value;
      RemoveEnrollmentKeepsValid(enrollments, k);
      var rest := WithoutEnrollment(progress, enrollments[k].id);
      forall j | 0 <= j < |rest|
        ensures rest[j].enrollmentId < nextEnrollmentId && rest[j].id < nextProgressId
      {
        assert rest[j] in progress;
      }
      enrollments := enrollments[..k] + enrollments[k + 1..];
      progress := rest;
      r := Ok(());
    }

    /** `getEnrolledCourses(userId)`: the student's enrollments (the DTO's
        course title and description are not part of this model). */
    function GetEnrolledCourses(userId: Id): (r: Result<seq<Enrollment>>)
      reads this
      ensures r.Err? <==> Wrap32(userId) !in users
      ensures r.Err? ==> r.error == ResourceNotFound
      ensures r.Ok? ==> forall e :: e in r.value <==> e in enrollments && e.studentId == Wrap32(userId)
    {
      if Wrap32(userId) !in users then Err(ResourceNotFound)
      else Ok(EnrollmentsOf(enrollments, Wrap32(userId)))
    }

    /** `updateEnrollmentProgress(enrollmentId, progressPercentage, userId)`:
        the owner check compares the student's id with `userId.intValue()`. */
    method UpdateEnrollmentProgress(enrollmentId: Id, pct: int, userId: Id) returns (r: Result<()>)
      requires Valid()
      modifies this
      ensures Valid() && users == old(users) && courses == old(courses) && progress == old(progress)
      ensures nextEnrollmentId == old(nextEnrollmentId) && nextProgressId == old(nextProgressId)
      ensures FindEnrollmentById(old(enrollments), enrollmentId).None? ==> r == Err(ResourceNotFound)
      ensures r.Ok? <==> FindEnrollmentById(old(enrollments), enrollmentId).Some? &&
                         old(enrollments)[FindEnrollmentById(old(enrollments), enrollmentId).value].studentId == Wrap32(userId)
      ensures FindEnrollmentById(old(enrollments), enrollmentId).Some? && r.Err? ==> r.error == IllegalState
      ensures r.Err? ==> enrollments == old(enrollments)
      ensures r.Ok? ==> var k := FindEnrollmentById(old(enrollments), enrollmentId).value;
                        enrollments == old(enrollments)[k := Advance(old(enrollments)[k], pct)]
    {
      var found := FindEnrollmentById(enrollments, enrollmentId);
      if found.None? {
        return Err(ResourceNotFound);
      }
      var k := found.value;
      if enrollments[k].studentId != Wrap32(userId) {
        return Err(IllegalState);
      }
      ReplaceEnrollmentKeepsValid(enrollments, k, Advance(enrollments[k], pct));
      enrollments := enrollments[k := Advance(enrollments[k], pct)];
      r := Ok(());
    }
  }

  /** The per-lesson loop of the enrollment. */
  method BuildPendingRows(first: Id, eid: Id, lessons: seq<Id>) returns (rows: seq<LessonProgress>)
    ensures rows == PendingRows(first, eid, lessons)
  {
    rows := [];
    for i := 0 to |lessons|
      invariant |rows| == i
      invariant forall k :: 0 <= k < i ==> rows[k] == LessonProgress(first + k, eid, lessons[k], Pending, None)
    {
      rows := rows + [LessonProgress(first + i, eid, lessons[i], Pending, None)];
    }
  }

  /** After the rows of a new enrollment are appended to a table that had none
      for it, each lesson of the course has exactly one row. */
  lemma EnrolledRowsOnePerLesson(progress: seq<LessonProgress>, first: Id, eid: Id, lessons: seq<Id>, lid: Id)
    requires forall k :: 0 <= k < |progress| ==> progress[k].enrollmentId < eid
    requires DistinctLessons(lessons)
    ensures LessonCount(progress + PendingRows(first, eid, lessons), eid, lid) == if lid in lessons then 1 else 0
  {
    LessonCountNone(progress, eid, lid);
    LessonCountAppend(progress, PendingRows(first, eid, lessons), eid, lid);
    PendingRowsOnePerLesson(first, eid, lessons, lid);
  }

  lemma RemoveEnrollmentKeepsValid(es: seq<Enrollment>, k: nat)
    requires k < |es| && UniqueEnrollments(es) && DistinctEnrollmentIds(es)
    ensures UniqueEnrollments(es[..k] + es[k + 1..]) && DistinctEnrollmentIds(es[..k] + es[k + 1..])
    ensures forall e :: e in es[..k] + es[k + 1..] ==> e in es
    ensures FindEnrollment(es[..k] + es[k + 1..], es[k].studentId, es[k].courseId).None?
  {
    var r := es[..k] + es[k + 1..];
    forall i | 0 <= i < |r|
      ensures r[i] == es[if i < k then i else i + 1]
    {
    }
  }

  /** Overwriting an enrollment with one of the same id, student and course
      keeps both uniqueness rules. */
  lemma ReplaceEnrollmentKeepsValid(es: seq<Enrollment>, k: nat, e: Enrollment)
    requires k < |es| && UniqueEnrollments(es) && DistinctEnrollmentIds(es)
    requires e.id == es[k].id && e.studentId == es[k].studentId && e.courseId == es[k].courseId
    ensures UniqueEnrollments(es[k := e]) && DistinctEnrollmentIds(es[k := e])
  {
  }
}
