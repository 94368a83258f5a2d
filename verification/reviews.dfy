/** `ReviewService`: reviews of completed courses, the course's rating and
    review count kept in step with them, and the notice to the course's
    instructor. Each operation is one transaction: a failure anywhere leaves
    every table as it was. */
module Reviews {
  import opened Common
  import opened Follow
  import opened Enrollments
  import opened Courses

  /** A `Review` row (the creation time is not modelled). */
  datatype Review = Review(id: Id, courseId: Id, userId: Id, rating: real, comment: string)

  /** Which of the three review notices was sent. */
  datatype ReviewEvent = NewReview | ReviewUpdated | ReviewDeleted

  /** One `createNotification(instructorUserId, title, message, REVIEW)` call. */
  datatype ReviewNotice = ReviewNotice(recipient: Id, event: ReviewEvent, courseId: Id)

  /** `reviewRepository.findByCourse`: the reviews of a course, in table order. */
  function ReviewsOf(rs: seq<Review>, courseId: Id): (r: seq<Review>)
    ensures |r| <= |rs|
  {
    if rs == [] then []
    else (if rs[0].courseId == courseId then [rs[0]] else []) + ReviewsOf(rs[1..], courseId)
  }

  /** The reviews of a course are exactly the table's reviews for it. */
  lemma {:induction false} ReviewsOfMembers(rs: seq<Review>, courseId: Id)
    ensures forall v :: v in ReviewsOf(rs, courseId) <==> v in rs && v.courseId == courseId
  {
    if rs != [] {
      ReviewsOfMembers(rs[1..], courseId);
      assert rs == [rs[0]] + rs[1..];
    }
  }

  function Ratings(rs: seq<Review>): (r: seq<real>)
    ensures |r| == |rs|
    ensures forall k :: 0 <= k < |rs| ==> r[k] == rs[k].rating
  {
    if rs == [] then [] else [rs[0].rating] + Ratings(rs[1..])
  }

  /** `updateCourseRating`: the count of the course's reviews and their
      rounded average, or zero and zero without reviews. `average` stands for
      the floating-point mean rounded half-up to one decimal. */
  function Rerated(course: Course, rs: seq<Review>, average: seq<real> -> real): (r: Course)
    ensures r.totalReviews == |ReviewsOf(rs, course.id)|
    ensures ReviewsOf(rs, course.id) == [] ==> r.rating == 0.0
    ensures ReviewsOf(rs, course.id) != [] ==> r.rating == average(Ratings(ReviewsOf(rs, course.id)))
    ensures r == course.(rating := r.rating, totalReviews := r.totalReviews)
  {
    var mine := ReviewsOf(rs, course.id);
    if mine != [] then course.(rating := average(Ratings(mine)), totalReviews := |mine|)
    else course.(rating := 0.0, totalReviews := 0)
  }

  /** Who gets the review notice: an error when the course has no instructor
      or the instructor no user; nobody when the actor is that user; that user
      otherwise. */
  function InstructorRecipient(course: Course, actor: Id): (r: Result<Option<Id>>)
    ensures r.Err? <==> course.instructor.None? || course.instructor.value.userId.None?
    ensures r.Err? ==> r.error == IllegalState
    ensures r.Ok? ==> (r.value.Some? <==> course.instructor.value.userId != Some(actor))
    ensures r.Ok? && r.value.Some? ==> Some(r.value.value) == course.instructor.value.userId
  {
    if course.instructor.None? then Err(IllegalState)
    else match course.instructor.value.userId
      case None => Err(IllegalState)
      case Some(u) => if u == actor then Ok(None) else Ok(Some(u))
  }

  /** The notice sent for a recipient decision. */
  function NoticesFor(recipient: Option<Id>, event: ReviewEvent, courseId: Id): seq<ReviewNotice> {
    if recipient.Some? then [ReviewNotice(recipient.value, event, courseId)] else []
  }

  /** `reviewRepository.findById`. */
  function FindReview(rs: seq<Review>, id: Id): (r: Option<nat>)
    ensures r.Some? ==> r.value < |rs| && rs[r.value].id == id
  {
    FindById(rs, (x: Review) => x.id, id)
  }

  /** The lookup finds nothing exactly when no review has that id. */
  lemma FindReviewMisses(rs: seq<Review>, id: Id)
    ensures FindReview(rs, id).None? <==> forall k :: 0 <= k < |rs| ==> rs[k].id != id
  {
    FindByIdFirst(rs, (x: Review) => x.id, id);
  }

  /** `reviewRepository.delete` of the row at `k`. */
  function RemoveAt(rs: seq<Review>, k: nat): seq<Review>
    requires k < |rs|
  {
    rs[..k] + rs[k + 1..]
  }

  /** Every stored course carries its own id and the number of its reviews. */
  ghost predicate CountsMatch(courses: map<Id, Course>, rs: seq<Review>) {
    forall c :: c in courses ==> courses[c].id == c && courses[c].totalReviews == |ReviewsOf(rs, c)|
  }

  lemma {:induction false} ReviewsOfAppend(a: seq<Review>, b: seq<Review>, c: Id)
    ensures ReviewsOf(a + b, c) == ReviewsOf(a, c) + ReviewsOf(b, c)
  {
    if a == [] {
      assert a + b == b;
    } else {
      var head := if a[0].courseId == c then [a[0]] else [];
      assert (a + b)[0] == a[0];
      assert (a + b)[1..] == a[1..] + b;
      ReviewsOfAppend(a[1..], b, c);
      assert ReviewsOf(a + b, c) == head + (ReviewsOf(a[1..], c) + ReviewsOf(b, c));
      assert ReviewsOf(a, c) == head + ReviewsOf(a[1..], c);
    }
  }

  /** Replacing a review by one for the same course keeps every course's count. */
  lemma {:induction false} ReplaceKeepsCount(rs: seq<Review>, k: nat, v: Review, c: Id)
    requires k < |rs| && v.courseId == rs[k].courseId
    ensures |ReviewsOf(rs[k := v], c)| == |ReviewsOf(rs, c)|
  {
    if k == 0 {
      assert rs[k := v][1..] == rs[1..];
    } else {
      assert rs[k := v][1..] == rs[1..][k - 1 := v];
      ReplaceKeepsCount(rs[1..], k - 1, v, c);
    }
  }

  /** Appending a review changes only its own course's count, by one. */
  lemma AppendCount(rs: seq<Review>, v: Review, c: Id)
    ensures |ReviewsOf(rs + [v], c)| == |ReviewsOf(rs, c)| + (if v.courseId == c then 1 else 0)
  {
    ReviewsOfAppend(rs, [v], c);
    assert [v][1..] == [];
  }

  /** Deleting the review at `k` changes only its course's count, by one. */
  lemma RemoveCount(rs: seq<Review>, k: nat, c: Id)
    requires k < |rs|
    ensures |ReviewsOf(rs[..k] + rs[k + 1..], c)| == |ReviewsOf(rs, c)| - (if rs[k].courseId == c then 1 else 0)
  {
    assert rs == rs[..k] + [rs[k]] + rs[k + 1..];
    ReviewsOfAppend(rs[..k] + [rs[k]], rs[k + 1..], c);
    ReviewsOfAppend(rs[..k], [rs[k]], c);
    ReviewsOfAppend(rs[..k], rs[k + 1..], c);
    assert [rs[k]][1..] == [];
  }

  /** After a change that keeps every other course's count, storing the
      recomputed course restores the invariant. */
  lemma RecountKeepsCounts(courses: map<Id, Course>, rs: seq<Review>, rs': seq<Review>, c: Id, course: Course)
    requires CountsMatch(courses, rs)
    requires forall d :: d in courses && d != c ==> |ReviewsOf(rs', d)| == |ReviewsOf(rs, d)|
    requires course.id == c && course.totalReviews == |ReviewsOf(rs', c)|
    ensures CountsMatch(courses[c := course], rs')
  {
  }

  /** Editing a review in place and recomputing its course keeps the counts. */
  lemma EditKeepsCounts(courses: map<Id, Course>, rs: seq<Review>, k: nat, v: Review, average: seq<real> -> real)
    requires k < |rs| && CountsMatch(courses, rs) && rs[k].courseId in courses && v.courseId == rs[k].courseId
    ensures CountsMatch(courses[v.courseId := Rerated(courses[v.courseId], rs[k := v], average)], rs[k := v])
  {
    forall d | d in courses
      ensures |ReviewsOf(rs[k := v], d)| == |ReviewsOf(rs, d)|
    {
      ReplaceKeepsCount(rs, k, v, d);
    }
    RecountKeepsCounts(courses, rs, rs[k := v], v.courseId, Rerated(courses[v.courseId], rs[k := v], average));
  }

  /** Deleting a review and recomputing its course keeps the counts. */
  lemma DeleteKeepsCounts(courses: map<Id, Course>, rs: seq<Review>, k: nat, average: seq<real> -> real)
    requires k < |rs| && CountsMatch(courses, rs) && rs[k].courseId in courses
    ensures CountsMatch(courses[rs[k].courseId := Rerated(courses[rs[k].courseId], RemoveAt(rs, k), average)],
                        RemoveAt(rs, k))
  {
    var rs' := RemoveAt(rs, k);
    var c := rs[k].courseId;
    forall d | d in courses && d != c
      ensures |ReviewsOf(rs', d)| == |ReviewsOf(rs, d)|
    {
      RemoveCount(rs, k, d);
    }
    RecountKeepsCounts(courses, rs, rs', c, Rerated(courses[c], rs', average));
  }

  /** The reviews left after a deletion still point at stored courses. */
  lemma DeleteKeepsRefs(courses: map<Id, Course>, rs: seq<Review>, k: nat, nextId: Id)
    requires k < |rs|
    requires forall j :: 0 <= j < |rs| ==> rs[j].courseId in courses && rs[j].id < nextId
    ensures forall j :: 0 <= j < |RemoveAt(rs, k)| ==> RemoveAt(rs, k)[j].courseId in courses && RemoveAt(rs, k)[j].id < nextId
  {
    var rs' := RemoveAt(rs, k);
    forall j | 0 <= j < |rs'|
      ensures rs'[j].courseId in courses && rs'[j].id < nextId
    {
      assert rs'[j] == rs[if j < k then j else j + 1];
    }
  }

  /** Every review belongs to a stored course and has an id already handed out. */
  ghost predicate RefsIn(courses: map<Id, Course>, rs: seq<Review>, nextId: Id) {
    forall k :: 0 <= k < |rs| ==> rs[k].courseId in courses && rs[k].id < nextId
  }

  /** The invariant of the review tables. */
  ghost predicate Consistent(courses: map<Id, Course>, rs: seq<Review>, nextId: Id) {
    CountsMatch(courses, rs) && RefsIn(courses, rs, nextId)
  }

  /** Editing a review in place and storing its recomputed course keeps the
      invariant. */
  lemma EditKeepsConsistent(courses: map<Id, Course>, rs: seq<Review>, nextId: Id, k: nat, v: Review,
                            average: seq<real> -> real)
    requires Consistent(courses, rs, nextId) && k < |rs| && v.courseId == rs[k].courseId && v.id == rs[k].id
    ensures Consistent(courses[v.courseId := Rerated(courses[v.courseId], rs[k := v], average)], rs[k := v], nextId)
  {
    EditKeepsCounts(courses, rs, k, v, average);
    var rs' := rs[k := v];
    forall j | 0 <= j < |rs'|
      ensures rs'[j].courseId in courses && rs'[j].id < nextId
    {
      assert rs'[j] == if j == k then v else rs[j];
    }
  }

  /** Appending a review with the next id and storing its recomputed course
      keeps the invariant, with the id counter moved past it. */
  lemma AppendKeepsConsistent(courses: map<Id, Course>, rs: seq<Review>, nextId: Id, v: Review,
                              average: seq<real> -> real)
    requires Consistent(courses, rs, nextId) && v.courseId in courses && v.id == nextId
    ensures Consistent(courses[v.courseId := Rerated(courses[v.courseId], rs + [v], average)], rs + [v], nextId + 1)
  {
    forall d | d in courses
      ensures |ReviewsOf(rs + [v], d)| == |ReviewsOf(rs, d)| + (if d == v.courseId then 1 else 0)
    {
      AppendCount(rs, v, d);
    }
    RecountKeepsCounts(courses, rs, rs + [v], v.courseId, Rerated(courses[v.courseId], rs + [v], average));
    var rs' := rs + [v];
    forall j | 0 <= j < |rs'|
      ensures rs'[j].courseId in courses && rs'[j].id < nextId + 1
    {
      assert rs'[j] == if j < |rs| then rs[j] else v;
    }
  }

  /** Deleting a review and storing its recomputed course keeps the invariant. */
  lemma DeleteKeepsConsistent(courses: map<Id, Course>, rs: seq<Review>, nextId: Id, k: nat,
                              average: seq<real> -> real)
    requires Consistent(courses, rs, nextId) && k < |rs|
    ensures Consistent(courses[rs[k].courseId := Rerated(courses[rs[k].courseId], RemoveAt(rs, k), average)],
                       RemoveAt(rs, k), nextId)
  {
    DeleteKeepsCounts(courses, rs, k, average);
    DeleteKeepsRefs(courses, rs, k, nextId);
  }

  class ReviewService {
    /** The ids of the user accounts. */
    const users: set<Id>
    /** The `enrollments` table. */
    const enrollments: seq<Enrollment>
    /** The `courses` table. */
    var courses: map<Id, Course>
    /** The `reviews` table. */
    var reviews: seq<Review>
    var nextId: Id
    /** The instructor notices sent, in order. */
    var notices: seq<ReviewNotice>

    ghost predicate Valid()
      reads this
    {
      Consistent(courses, reviews, nextId)
    }

    constructor (users: set<Id>, enrollments: seq<Enrollment>, courses: map<Id, Course>)
      requires forall c :: c in courses ==> courses[c].id == c && courses[c].totalReviews == 0
      ensures Valid() && reviews == [] && notices == []
      ensures this.users == users && this.enrollments == enrollments && this.courses == courses
    {
      this.users := users;
      this.enrollments := enrollments;
      this.courses := courses;
      reviews := [];
      nextId := 1;
      notices := [];
    }

    /** `createReview(courseId, userId, reviewDTO)`. */
    method CreateReview(courseId: Id, userId: Id, rating: real, comment: string, average: seq<real> -> real)
      returns (r: Result<Review>)
      requires Valid()
      modifies this
      ensures Valid()
      ensures courseId !in old(courses) || userId !in users ==> r == Err(ResourceNotFound)
      ensures courseId in old(courses) && userId in users && FindEnrollment(enrollments, userId, courseId).None?
              ==> r == Err(IllegalState)
      ensures courseId in old(courses) && userId in users && FindEnrollment(enrollments, userId, courseId).Some? &&
              enrollments[FindEnrollment(enrollments, userId, courseId).value].status != Completed
              ==> r == Err(IllegalState)
      ensures r.Ok? <==> courseId in old(courses) && userId in users &&
                         FindEnrollment(enrollments, userId, courseId).Some? &&
                         enrollments[FindEnrollment(enrollments, userId, courseId).value].status == Completed &&
                         InstructorRecipient(old(courses)[courseId], userId).Ok?
      ensures r.Err? ==> courses == old(courses) && reviews == old(reviews) && nextId == old(nextId) && notices == old(notices)
      ensures r.Ok? ==> r.value == Review(old(nextId), courseId, userId, rating, comment) &&
                        reviews == old(reviews) + [r.value] &&
                        courses == old(courses)[courseId := Rerated(old(courses)[courseId], reviews, average)] &&
                        notices == old(notices) + NoticesFor(InstructorRecipient(old(courses)[courseId], userId).value,
                                                             NewReview, courseId)
    {
      if courseId !in courses || userId !in users {
        return Err(ResourceNotFound);
      }
      var found := FindEnrollment(enrollments, userId, courseId);
      if found.None? || enrollments[found.value].status != Completed {
        return Err(IllegalState);
      }
      var v := Review(nextId, courseId, userId, rating, comment);
      var rs := reviews + [v];
      var course := Rerated(courses[courseId], rs, average);
      var recipient := InstructorRecipient(courses[courseId], userId);
      if recipient.Err? {
        return Err(IllegalState);
      }
      AppendKeepsConsistent(courses, reviews, nextId, v, average);
      reviews := rs;
      courses := courses[courseId := course];
      nextId := nextId + 1;
      notices := notices + NoticesFor(recipient.value, NewReview, courseId);
      r := Ok(v);
    }

    /** `updateReview(reviewId, userId, reviewDTO)`. */
    method UpdateReview(reviewId: Id, userId: Id, rating: real, comment: string, average: seq<real> -> real)
      returns (r: Result<Review>)
      requires Valid()
      modifies this
      ensures Valid() && nextId == old(nextId)
      ensures FindReview(old(reviews), reviewId).None? ==> r == Err(ResourceNotFound)
      ensures FindReview(old(reviews), reviewId).Some? && old(reviews)[FindReview(old(reviews), reviewId).value].userId != userId
              ==> r == Err(IllegalState)
      ensures r.Err? ==> courses == old(courses) && reviews == old(reviews) && notices == old(notices)
      ensures r.Ok? ==>
        var k := FindReview(old(reviews), reviewId).value;
        var v := old(reviews)[k];
        v.userId == userId && InstructorRecipient(old(courses)[v.courseId], userId).Ok? &&
        r.value == v.(rating := rating, comment := comment) &&
        reviews == old(reviews)[k := r.value] &&
        courses == old(courses)[v.courseId := Rerated(old(courses)[v.courseId], reviews, average)] &&
        notices == old(notices) + NoticesFor(InstructorRecipient(old(courses)[v.courseId], userId).value,
                                             ReviewUpdated, v.courseId)
    {
      var found := FindReview(reviews, reviewId);
      if found.None? {
        return Err(ResourceNotFound);
      }
      var k := found.value;
      if reviews[k].userId != userId {
        return Err(IllegalState);
      }
      var v := reviews[k].(rating := rating, comment := comment);
      var c := v.courseId;
      var rs := reviews[k := v];
      var course := Rerated(courses[c], rs, average);
      var recipient := InstructorRecipient(courses[c], userId);
      if recipient.Err? {
        return Err(IllegalState);
      }
      EditKeepsConsistent(courses, reviews, nextId, k, v, average);
      reviews := rs;
      courses := courses[c := course];
      notices := notices + NoticesFor(recipient.value, ReviewUpdated, c);
      r := Ok(v);
    }

    /** `deleteReview(reviewId, userId)`. */
    method DeleteReview(reviewId: Id, userId: Id, average: seq<real> -> real) returns (r: Result<()>)
      requires Valid()
      modifies this
      ensures Valid() && nextId == old(nextId)
      ensures FindReview(old(reviews), reviewId).None? ==> r == Err(ResourceNotFound)
      ensures FindReview(old(reviews), reviewId).Some? && old(reviews)[FindReview(old(reviews), reviewId).value].userId != userId
              ==> r == Err(IllegalState)
      ensures r.Err? ==> courses == old(courses) && reviews == old(reviews) && notices == old(notices)
      ensures r.Ok? ==>
        var k := FindReview(old(reviews), reviewId).value;
        var v := old(reviews)[k];
        v.userId == userId && InstructorRecipient(old(courses)[v.courseId], userId).Ok? &&
        reviews == RemoveAt(old(reviews), k) &&
        courses == old(courses)[v.courseId := Rerated(old(courses)[v.courseId], reviews, average)] &&
        notices == old(notices) + NoticesFor(InstructorRecipient(old(courses)[v.courseId], userId).value,
                                             ReviewDeleted, v.courseId)
    {
      var found := FindReview(reviews, reviewId);
      if found.None? {
        return Err(ResourceNotFound);
      }
      var k := found.value;
      if reviews[k].userId != userId {
        return Err(IllegalState);
      }
      var c := reviews[k].courseId;
      var rs := RemoveAt(reviews, k);
      var course := Rerated(courses[c], rs, average);
      var recipient := InstructorRecipient(courses[c], userId);
      if recipient.Err? {
        return Err(IllegalState);
      }
      DeleteKeepsConsistent(courses, reviews, nextId, k, average);
      reviews := rs;
      courses := courses[c := course];
      notices := notices + NoticesFor(recipient.value, ReviewDeleted, c);
      r := Ok(());
    }
  }

  /** Once the last review of a course is gone, its rating and count are both
      zero. */
  lemma NoReviewsMeansZero(course: Course, rs: seq<Review>, average: seq<real> -> real)
    requires forall k :: 0 <= k < |rs| ==> rs[k].courseId != course.id
    ensures Rerated(course, rs, average).rating == 0.0 && Rerated(course, rs, average).totalReviews == 0
  {
    if ReviewsOf(rs, course.id) != [] {
      var v := ReviewsOf(rs, course.id)[0];
      assert v in ReviewsOf(rs, course.id);
      ReviewsOfMembers(rs, course.id);
    }
  }
}
