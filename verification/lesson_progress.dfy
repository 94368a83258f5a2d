/** `LessonProgressService`: marking a lesson of an enrollment as completed and
    recomputing the enrollment's progress from the completed rows. */
module LessonProgressTracking {
  import opened Common
  import opened Enrollments

  /** `findByEnrollmentAndLesson`: the position of the row for that pair. */
  function FindRow(rows: seq<LessonProgress>, eid: Id, lid: Id): (r: Option<nat>)
    ensures r.Some? ==> r.value < |rows| && rows[r.value].enrollmentId == eid && rows[r.value].lessonId == lid
    ensures r.None? <==> forall k :: 0 <= k < |rows| ==> !(rows[k].enrollmentId == eid && rows[k].lessonId == lid)
  {
    if rows == [] then None
    else if rows[0].enrollmentId == eid && rows[0].lessonId == lid then Some(0)
    else match FindRow(rows[1..], eid, lid)
      case None => None
      case Some(k) => Some(k + 1)
  }

  /** At most one row per (enrollment, lesson). */
  ghost predicate UniqueRows(rows: seq<LessonProgress>) {
    forall i, j :: 0 <= i < j < |rows| ==>
      !(rows[i].enrollmentId == rows[j].enrollmentId && rows[i].lessonId == rows[j].lessonId)
  }

  /** The count `updateCourseProgress` takes: rows of the enrollment whose
      status is COMPLETED. */
  function CompletedCount(rows: seq<LessonProgress>, eid: Id): nat {
    if rows == [] then 0
    else (if rows[0].enrollmentId == eid && rows[0].status == Done then 1 else 0) + CompletedCount(rows[1..], eid)
  }

  /** The lessons that those rows are for. */
  function CompletedLessons(rows: seq<LessonProgress>, eid: Id): (r: set<Id>)
    ensures forall l :: l in r <==> exists k :: 0 <= k < |rows| && rows[k].enrollmentId == eid &&
                                                rows[k].status == Done && rows[k].lessonId == l
  {
    if rows == [] then {}
    else
      var rest := CompletedLessons(rows[1..], eid);
      assert forall k :: 0 < k < |rows| ==> rows[k] == rows[1..][k - 1];
      if rows[0].enrollmentId == eid && rows[0].status == Done then {rows[0].lessonId} + rest else rest
  }

  /** `course.getLessons()`, from the lesson table (lesson id to course id). */
  function LessonsOfCourse(lessons: map<Id, Id>, courseId: Id): set<Id> {
    set l | l in lessons && lessons[l] == courseId
  }

  /** The upsert of `markLessonAsCompleted`: the existing row of the pair is
      reused, otherwise a new row is added; either way it ends COMPLETED at
      `now`. */
  function MarkRows(rows: seq<LessonProgress>, nextId: Id, eid: Id, lid: Id, now: Time): seq<LessonProgress> {
    match FindRow(rows, eid, lid)
    case Some(j) => rows[j := rows[j].(status := Done, completedAt := Some(now))]
    case None => rows + [LessonProgress(nextId, eid, lid, Done, Some(now))]
  }

  /** The marked row: reused, with its identity, when one exists. */
  function MarkedRow(rows: seq<LessonProgress>, nextId: Id, eid: Id, lid: Id, now: Time): (r: LessonProgress)
    ensures r.enrollmentId == eid && r.lessonId == lid && r.status == Done && r.completedAt == Some(now)
    ensures FindRow(rows, eid, lid).Some? ==> r.id == rows[FindRow(rows, eid, lid).value].id
    ensures FindRow(rows, eid, lid).None? ==> r.id == nextId
  {
    match FindRow(rows, eid, lid)
    case Some(j) => rows[j].(status := Done, completedAt := Some(now))
    case None => LessonProgress(nextId, eid, lid, Done, Some(now))
  }

  /** Marking reuses the existing row: no second row for the pair appears,
      the table grows only when the pair had no row, and every other row is
      left as it was. */
  lemma MarkRowsUpserts(rows: seq<LessonProgress>, nextId: Id, eid: Id, lid: Id, now: Time)
    requires UniqueRows(rows)
    ensures var r := MarkRows(rows, nextId, eid, lid, now);
            UniqueRows(r) &&
            FindRow(r, eid, lid).Some? && r[FindRow(r, eid, lid).value] == MarkedRow(rows, nextId, eid, lid, now) &&
            |r| == |rows| + (if FindRow(rows, eid, lid).Some? then 0 else 1) &&
            forall k :: 0 <= k < |rows| && !(rows[k].enrollmentId == eid && rows[k].lessonId == lid) ==> r[k] == rows[k]
  {
    var r := MarkRows(rows, nextId, eid, lid, now);
    match FindRow(rows, eid, lid)
    case Some(j) =>
      assert r == rows[j := MarkedRow(rows, nextId, eid, lid, now)];
      assert r[j].enrollmentId == eid && r[j].lessonId == lid;
      assert FindRow(r, eid, lid).Some?;
      var f := FindRow(r, eid, lid).value;
      assert forall i :: 0 <= i < |r| && i != j ==> r[i] == rows[i];
      assert f == j;
    case None =>
      assert r[|rows|] == MarkedRow(rows, nextId, eid, lid, now);
      assert FindRow(r, eid, lid).Some?;
  }

  /** Marking the same lesson twice at the same instant is marking it once. */
  lemma MarkTwiceIsMarkOnce(rows: seq<LessonProgress>, nextId: Id, nextId': Id, eid: Id, lid: Id, now: Time)
    requires UniqueRows(rows)
    ensures MarkRows(MarkRows(rows, nextId, eid, lid, now), nextId', eid, lid, now) == MarkRows(rows, nextId, eid, lid, now)
  {
    MarkRowsUpserts(rows, nextId, eid, lid, now);
    var r := MarkRows(rows, nextId, eid, lid, now);
    var f := FindRow(r, eid, lid).value;
    assert r[f := r[f].(status := Done, completedAt := Some(now))] == r;
  }

  /** On rows without duplicate pairs the completed count is the number of
      distinct completed lessons. */
  lemma {:induction false} CountIsLessons(rows: seq<LessonProgress>, eid: Id)
    requires UniqueRows(rows)
    ensures CompletedCount(rows, eid) == |CompletedLessons(rows, eid)|
  {
    if rows != [] {
      var tail := rows[1..];
      assert UniqueRows(tail) by {
        forall i, j | 0 <= i < j < |tail|
          ensures !(tail[i].enrollmentId == tail[j].enrollmentId && tail[i].lessonId == tail[j].lessonId)
        {
          assert tail[i] == rows[i + 1] && tail[j] == rows[j + 1];
        }
      }
      CountIsLessons(tail, eid);
      if rows[0].enrollmentId == eid && rows[0].status == Done {
        forall k | 0 <= k < |tail|
          ensures !(tail[k].enrollmentId == eid && tail[k].lessonId == rows[0].lessonId)
        {
          assert tail[k] == rows[k + 1];
        }
        assert rows[0].lessonId !in CompletedLessons(tail, eid);
      }
    }
  }

  lemma SubsetSize(a: set<Id>, b: set<Id>)
    requires a <= b
    ensures |a| <= |b|
  {
    assert b == a + (b - a);
    assert a * (b - a) == {};
  }

  /** Every row of the table is for an existing enrollment, and for a lesson of
      that enrollment's course. */
  ghost predicate RowsFit(enrollments: seq<Enrollment>, lessons: map<Id, Id>, rows: seq<LessonProgress>) {
    forall k :: 0 <= k < |rows| ==> RowFits(enrollments, lessons, rows[k])
  }

  /** One row is for an existing enrollment and a lesson of its course. */
  ghost predicate RowFits(enrollments: seq<Enrollment>, lessons: map<Id, Id>, row: LessonProgress) {
    row.lessonId in lessons &&
    exists j :: 0 <= j < |enrollments| && enrollments[j].id == row.enrollmentId &&
                enrollments[j].courseId == lessons[row.lessonId]
  }

  /** The completed count never exceeds the course's lesson count, so the
      percentage is computed from a fraction of at most one. */
  lemma CompletedWithinLessons(enrollments: seq<Enrollment>, lessons: map<Id, Id>, rows: seq<LessonProgress>, k: nat)
    requires k < |enrollments| && DistinctEnrollmentIds(enrollments)
    requires UniqueRows(rows) && RowsFit(enrollments, lessons, rows)
    ensures CompletedCount(rows, enrollments[k].id) <= |LessonsOfCourse(lessons, enrollments[k].courseId)|
  {
    var eid := enrollments[k].id;
    CountIsLessons(rows, eid);
    forall l | l in CompletedLessons(rows, eid)
      ensures l in LessonsOfCourse(lessons, enrollments[k].courseId)
    {
      var i :| 0 <= i < |rows| && rows[i].enrollmentId == eid && rows[i].status == Done && rows[i].lessonId == l;
      assert RowFits(enrollments, lessons, rows[i]);
      var j :| 0 <= j < |enrollments| && enrollments[j].id == rows[i].enrollmentId &&
               enrollments[j].courseId == lessons[rows[i].lessonId];
      assert j == k;
    }
    SubsetSize(CompletedLessons(rows, eid), LessonsOfCourse(lessons, enrollments[k].courseId));
  }

  /** A marked lesson is counted: after marking, at least one completed row
      exists for the enrollment. */
  lemma MarkedIsCounted(rows: seq<LessonProgress>, nextId: Id, eid: Id, lid: Id, now: Time)
    requires UniqueRows(rows)
    ensures CompletedCount(MarkRows(rows, nextId, eid, lid, now), eid) >= 1
  {
    MarkRowsUpserts(rows, nextId, eid, lid, now);
    var r := MarkRows(rows, nextId, eid, lid, now);
    CountIsLessons(r, eid);
    assert lid in CompletedLessons(r, eid);
  }

  class LessonProgressService {
    /** The `enrollments` table. */
    var enrollments: seq<Enrollment>
    /** The lessons: lesson id to the id of its course. */
    var lessons: map<Id, Id>
    /** The `lesson_progress` table. */
    var progress: seq<LessonProgress>
    var nextProgressId: Id

    ghost predicate Valid()
      reads this
    {
      DistinctEnrollmentIds(enrollments) && UniqueRows(progress) &&
      RowsFit(enrollments, lessons, progress)
    }

    constructor (enrollments: seq<Enrollment>, lessons: map<Id, Id>)
      requires DistinctEnrollmentIds(enrollments)
      ensures Valid()
      ensures this.enrollments == enrollments && this.lessons == lessons && progress == []
    {
      this.enrollments := enrollments;
      this.lessons := lessons;
      progress := [];
      nextProgressId := 1;
    }

    /** `isUserEnrolledInCourse(userId, enrollmentId)`. */
    function IsUserEnrolledInCourse(userId: Id, enrollmentId: Id): (r: bool)
      requires Valid()
      reads this
      ensures r <==> exists k :: 0 <= k < |enrollments| && enrollments[k].id == enrollmentId &&
                                 enrollments[k].studentId == userId
    {
      match FindEnrollmentById(enrollments, enrollmentId)
      case None => false
      case Some(k) => enrollments[k].studentId == userId
    }

    /** `getCourseProgress(enrollmentId)`. */
    function GetCourseProgress(enrollmentId: Id): (r: Result<int>)
      reads this
      ensures r.Err? <==> FindEnrollmentById(enrollments, enrollmentId).None?
      ensures r.Err? ==> r.error == ResourceNotFound
      ensures r.Ok? ==> exists k :: 0 <= k < |enrollments| && enrollments[k].id == enrollmentId &&
                                    enrollments[k].progress == r.value
    {
      match FindEnrollmentById(enrollments, enrollmentId)
      case None => Err(ResourceNotFound)
      case Some(k) => Ok(enrollments[k].progress)
    }

    /** `markLessonAsCompleted(enrollmentId, lessonId)` followed by
        `updateCourseProgress`; `percent(completed, total)` stands for the
        floating-point percentage. */
    method MarkLessonAsCompleted(enrollmentId: Id, lessonId: Id, now: Time, percent: (int, int) -> int)
      returns (r: Result<LessonProgress>)
      requires Valid()
      modifies this
      ensures Valid() && lessons == old(lessons)
      ensures FindEnrollmentById(old(enrollments), enrollmentId).None? || lessonId !in lessons
              ==> r == Err(ResourceNotFound)
      ensures FindEnrollmentById(old(enrollments), enrollmentId).Some? && lessonId in lessons &&
              old(enrollments)[FindEnrollmentById(old(enrollments), enrollmentId).value].courseId != lessons[lessonId]
              ==> r == Err(IllegalArgument)
      ensures r.Err? ==> enrollments == old(enrollments) && progress == old(progress) &&
                         nextProgressId == old(nextProgressId)
      ensures r.Ok? ==>
        var k := FindEnrollmentById(old(enrollments), enrollmentId).value;
        var e := old(enrollments)[k];
        e.courseId == lessons[lessonId] &&
        r.value == MarkedRow(old(progress), old(nextProgressId), e.id, lessonId, now) &&
        progress == MarkRows(old(progress), old(nextProgressId), e.id, lessonId, now) &&
        enrollments == old(enrollments)[k := Advance(e, percent(CompletedCount(progress, e.id),
                                                                 |LessonsOfCourse(lessons, e.courseId)|))] &&
        1 <= CompletedCount(progress, e.id) <= |LessonsOfCourse(lessons, e.courseId)|
    {
      var found := FindEnrollmentById(enrollments, enrollmentId);
      if found.None? || lessonId !in lessons {
        return Err(ResourceNotFound);
      }
      var k := found.value;
      var e := enrollments[k];
      if e.courseId != lessons[lessonId] {
        return Err(IllegalArgument);
      }
      var row := MarkedRow(progress, nextProgressId, e.id, lessonId, now);
      var rows := MarkRows(progress, nextProgressId, e.id, lessonId, now);
      MarkRowsUpserts(progress, nextProgressId, e.id, lessonId, now);
      MarkedIsCounted(progress, nextProgressId, e.id, lessonId, now);
      MarkKeepsFit(enrollments, lessons, progress, nextProgressId, k, lessonId, now);
      CompletedWithinLessons(enrollments, lessons, rows, k);
      var completed := CompletedCount(rows, e.id);
      var total := |LessonsOfCourse(lessons, e.courseId)|;
      var e' := Advance(e, percent(completed, total));
      AdvanceKeepsFit(enrollments, lessons, rows, k, e');
      if FindRow(progress, e.id, lessonId).None? {
        nextProgressId := nextProgressId + 1;
      }
      progress := rows;
      enrollments := enrollments[k := e'];
      r := Ok(row);
    }
  }

  /** The marked row is for a lesson of the enrollment's course, so the rows
      still fit. */
  lemma MarkKeepsFit(enrollments: seq<Enrollment>, lessons: map<Id, Id>, rows: seq<LessonProgress>, nextId: Id,
                     k: nat, lid: Id, now: Time)
    requires k < |enrollments| && lid in lessons && enrollments[k].courseId == lessons[lid]
    requires UniqueRows(rows) && RowsFit(enrollments, lessons, rows)
    ensures RowsFit(enrollments, lessons, MarkRows(rows, nextId, enrollments[k].id, lid, now))
  {
    var r := MarkRows(rows, nextId, enrollments[k].id, lid, now);
    MarkRowsUpserts(rows, nextId, enrollments[k].id, lid, now);
    forall i | 0 <= i < |r|
      ensures RowFits(enrollments, lessons, r[i])
    {
      if i < |rows| && r[i] == rows[i] {
        assert RowFits(enrollments, lessons, rows[i]);
      } else {
        assert r[i].enrollmentId == enrollments[k].id && r[i].lessonId == lid;
        assert enrollments[k].id == r[i].enrollmentId;
      }
    }
  }

  /** Overwriting an enrollment's progress and status keeps the rows fitting
      and the ids distinct. */
  lemma AdvanceKeepsFit(enrollments: seq<Enrollment>, lessons: map<Id, Id>, rows: seq<LessonProgress>, k: nat, e: Enrollment)
    requires k < |enrollments| && DistinctEnrollmentIds(enrollments) && RowsFit(enrollments, lessons, rows)
    requires e.id == enrollments[k].id && e.courseId == enrollments[k].courseId
    ensures DistinctEnrollmentIds(enrollments[k := e]) && RowsFit(enrollments[k := e], lessons, rows)
  {
    var es := enrollments[k := e];
    forall i | 0 <= i < |rows|
      ensures RowFits(es, lessons, rows[i])
    {
      assert RowFits(enrollments, lessons, rows[i]);
      var j :| 0 <= j < |enrollments| && enrollments[j].id == rows[i].enrollmentId &&
               enrollments[j].courseId == lessons[rows[i].lessonId];
      assert es[j].id == enrollments[j].id && es[j].courseId == enrollments[j].courseId;
    }
    forall a, b | 0 <= a < b < |es|
      ensures es[a].id != es[b].id
    {
      assert es[a].id == enrollments[a].id && es[b].id == enrollments[b].id;
    }
  }
}
