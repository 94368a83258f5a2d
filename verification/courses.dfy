/** `CourseService`: creating and editing courses, the pricing normalisation
    both go through, and the "new course" notice to the instructor's
    followers. */
module Courses {
  import opened Common
  import opened Follow

  /** PricingType. */
  datatype PricingType = Free | Paid

  /** The fields a CourseDTO brings in (price and pricing type may be null). */
  datatype CourseForm = CourseForm(title: string, description: string, price: Option<real>, pricingType: Option<PricingType>)

  /** A `Course` row (level, language, image and last-update date are not
      modelled). */
  datatype Course = Course(
    id: Id, title: string, description: string,
    price: real, pricingType: PricingType,
    rating: real, totalReviews: int, totalStudents: int,
    instructor: Option<Instructor>, categoryId: Option<Id>)

  /** `handlePricingAndPrice`: a missing pricing type means PAID; a FREE course
      costs nothing; a missing or negative price becomes zero. */
  function HandlePricingAndPrice(pricingType: Option<PricingType>, price: Option<real>): (r: (PricingType, real))
    ensures pricingType.None? ==> r.0 == Paid
    ensures pricingType.Some? ==> r.0 == pricingType.value
    ensures r.0 == Free ==> r.1 == 0.0
    ensures r.0 == Paid && price.Some? && price.value >= 0.0 ==> r.1 == price.value
    ensures r.0 == Paid && (price.None? || price.value < 0.0) ==> r.1 == 0.0
  {
    var pt := if pricingType.None? then Paid else pricingType.value;
    if pt == Free then (pt, 0.0)
    else if price.None? || price.value < 0.0 then (pt, 0.0)
    else (pt, price.value)
  }

  /** What the normalisation guarantees of every saved course. */
  predicate PricingConsistent(c: Course) {
    c.price >= 0.0 && (c.pricingType == Free ==> c.price == 0.0)
  }

  /** Normalising an already normalised pair changes nothing, and the result is
      always consistent. */
  lemma PricingIdempotent(pricingType: Option<PricingType>, price: Option<real>)
    ensures var (pt, p) := HandlePricingAndPrice(pricingType, price);
            HandlePricingAndPrice(Some(pt), Some(p)) == (pt, p) && p >= 0.0 && (pt == Free ==> p == 0.0)
  {
  }

  /** `instructorRepository.findByUser`: the first instructor profile of that
      user. */
  function FindInstructorByUser(profiles: seq<Instructor>, userId: Id): (r: Option<nat>)
    ensures r.Some? ==> r.value < |profiles| && profiles[r.value].userId == Some(userId)
    ensures r.None? <==> forall k :: 0 <= k < |profiles| ==> profiles[k].userId != Some(userId)
  {
    if profiles == [] then None
    else if profiles[0].userId == Some(userId) then Some(0)
    else match FindInstructorByUser(profiles[1..], userId)
      case None => None
      case Some(k) => Some(k + 1)
  }

  /** One `createNotificationsWithPagination(followerIds, ..., COURSE)` call. */
  datatype CourseNotice = CourseNotice(recipients: seq<Id>, courseId: Id)

  class CourseService {
    /** The user accounts: username to user id. */
    const usernames: map<string, Id>
    /** The instructor profiles. */
    const instructors: seq<Instructor>
    /** The ids of the course categories. */
    const categories: set<Id>
    /** What `FollowService.getFollowers` returns for each instructor id. */
    const followers: map<Id, seq<Id>>
    /** The `courses` table. */
    var courses: map<Id, Course>
    var nextId: Id
    /** The fan-out calls made, in order. */
    var notices: seq<CourseNotice>

    ghost predicate Valid()
      reads this
    {
      (forall c :: c in courses ==> courses[c].id == c && c < nextId && PricingConsistent(courses[c]))
    }

    constructor (usernames: map<string, Id>, instructors: seq<Instructor>, categories: set<Id>, followers: map<Id, seq<Id>>)
      ensures Valid() && courses == map[] && notices == []
      ensures this.usernames == usernames && this.instructors == instructors
      ensures this.categories == categories && this.followers == followers
    {
      this.usernames := usernames;
      this.instructors := instructors;
      this.categories := categories;
      this.followers := followers;
      courses := map[];
      nextId := 1;
      notices := [];
    }

    /** `createCourse(courseDTO, categoryId, username, image)` without the
        image, followed by `notifyFollowersOfNewCourse`. The course is saved
        before the followers are fetched, and nothing rolls the save back. */
    method CreateCourse(form: CourseForm, categoryId: Id, username: string) returns (r: Result<Course>)
      requires Valid()
      modifies this
      ensures Valid()
      ensures (username !in usernames || FindInstructorByUser(instructors, usernames[username]).None? ||
               categoryId !in categories) ==> r == Err(ResourceNotFound)
      ensures username in usernames && FindInstructorByUser(instructors, usernames[username]).Some? &&
              categoryId in categories ==>
        var instructor := instructors[FindInstructorByUser(instructors, usernames[username]).value];
        var (pt, price) := HandlePricingAndPrice(form.pricingType, form.price);
        var c := Course(old(nextId), form.title, form.description, price, pt, 0.0, 0, 0, Some(instructor), Some(categoryId));
        courses == old(courses)[old(nextId) := c] && nextId == old(nextId) + 1 &&
        (instructor.id !in followers ==> r == Err(ResourceNotFound) && notices == old(notices)) &&
        (instructor.id in followers ==>
           (r == Ok(c) &&
            notices == old(notices) + (if followers[instructor.id] == [] then [] else [CourseNotice(followers[instructor.id], c.id)])))
      ensures r.Err? && (username !in usernames || FindInstructorByUser(instructors, usernames[username]).None? ||
                         categoryId !in categories) ==>
              courses == old(courses) && nextId == old(nextId) && notices == old(notices)
    {
      if username !in usernames {
        return Err(ResourceNotFound);
      }
      var found := FindInstructorByUser(instructors, usernames[username]);
      if found.None? || categoryId !in categories {
        return Err(ResourceNotFound);
      }
      var instructor := instructors[found.value];
      var (pt, price) := HandlePricingAndPrice(form.pricingType, form.price);
      var c := Course(nextId, form.title, form.description, price, pt, 0.0, 0, 0, Some(instructor), Some(categoryId));
      courses := courses[nextId := c];
      nextId := nextId + 1;
      if instructor.id !in followers {
        return Err(ResourceNotFound);
      }
      var fs := followers[instructor.id];
      if fs != [] {
        notices := notices + [CourseNotice(fs, c.id)];
      }
      r := Ok(c);
    }

    /** `updateCourse(id, courseDTO, categoryId, image)` without the image: the
        form's pricing goes through the same normalisation, and the category
        changes only when one is given. */
    method UpdateCourse(id: Id, form: CourseForm, categoryId: Option<Id>) returns (r: Result<Course>)
      requires Valid()
      modifies this
      ensures Valid() && nextId == old(nextId) && notices == old(notices)
      ensures r.Err? <==> id !in old(courses) || (categoryId.Some? && categoryId.value !in categories)
      ensures r.Err? ==> r.error == ResourceNotFound && courses == old(courses)
      ensures r.Ok? ==>
        var prev := old(courses)[id];
        var (pt, price) := HandlePricingAndPrice(form.pricingType, form.price);
        r.value == prev.(title := form.title, description := form.description, price := price, pricingType := pt,
                          categoryId := if categoryId.Some? then categoryId else prev.categoryId) &&
        courses == old(courses)[id := r.value]
    {
      if id !in courses {
        return Err(ResourceNotFound);
      }
      var c := courses[id];
      var (pt, price) := HandlePricingAndPrice(form.pricingType, form.price);
      c := c.(title := form.title, description := form.description, price := price, pricingType := pt);
      if categoryId.Some? {
        if categoryId.value !in categories {
          return Err(ResourceNotFound);
        }
        c := c.(categoryId := categoryId);
      }
      courses := courses[id := c];
      r := Ok(c);
    }
  }

  /** A fresh course starts with no rating, no reviews and no students, and
      its price is consistent. */
  lemma NewCourseDefaults(id: Id, form: CourseForm, instructor: Instructor, categoryId: Id)
    ensures var (pt, price) := HandlePricingAndPrice(form.pricingType, form.price);
            var c := Course(id, form.title, form.description, price, pt, 0.0, 0, 0, Some(instructor), Some(categoryId));
            c.rating == 0.0 && c.totalReviews == 0 && c.totalStudents == 0 && PricingConsistent(c)
  {
  }
}
