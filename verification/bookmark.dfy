/** `BookmarkService`: a student's saved courses, one row per (user, course)
    pair behind existence guards on both ends. */
module Bookmarks {
  import opened Common

  /** A `Bookmark` row: its id, the user who saved it and the course saved. */
  datatype Bookmark = Bookmark(id: Id, userId: Id, courseId: Id)

  /** `findByUserAndCourse`: the position of the first row for that pair. */
  function FindBookmark(bs: seq<Bookmark>, userId: Id, courseId: Id): (r: Option<nat>)
    ensures r.Some? ==> r.value < |bs| && bs[r.value].userId == userId && bs[r.value].courseId == courseId
    ensures r.Some? ==> forall k :: 0 <= k < r.value ==> !(bs[k].userId == userId && bs[k].courseId == courseId)
    ensures r.None? <==> forall k :: 0 <= k < |bs| ==> !(bs[k].userId == userId && bs[k].courseId == courseId)
  {
    if bs == [] then None
    else if bs[0].userId == userId && bs[0].courseId == courseId then Some(0)
    else match FindBookmark(bs[1..], userId, courseId)
      case None => None
      case Some(k) => Some(k + 1)
  }

  /** No two rows for the same (user, course) pair. */
  ghost predicate UniquePairs(bs: seq<Bookmark>) {
    forall i, j :: 0 <= i < j < |bs| ==> !(bs[i].userId == bs[j].userId && bs[i].courseId == bs[j].courseId)
  }

  /** `findByUser(user)` mapped to the bookmarked courses, in table order. */
  function CoursesOf(bs: seq<Bookmark>, userId: Id): (r: seq<Id>)
    ensures |r| <= |bs|
    ensures forall c :: c in r <==> FindBookmark(bs, userId, c).Some?
  {
    if bs == [] then []
    else (if bs[0].userId == userId then [bs[0].courseId] else []) + CoursesOf(bs[1..], userId)
  }

  /** The number of rows for a pair. */
  function PairCount(bs: seq<Bookmark>, userId: Id, courseId: Id): nat {
    if bs == [] then 0
    else (if bs[0].userId == userId && bs[0].courseId == courseId then 1 else 0) + PairCount(bs[1..], userId, courseId)
  }

  lemma {:induction false} PairCountZero(bs: seq<Bookmark>, userId: Id, courseId: Id)
    requires FindBookmark(bs, userId, courseId).None?
    ensures PairCount(bs, userId, courseId) == 0
  {
    if bs != [] {
      PairCountZero(bs[1..], userId, courseId);
    }
  }

  lemma {:induction false} PairCountAppend(a: seq<Bookmark>, b: seq<Bookmark>, userId: Id, courseId: Id)
    ensures PairCount(a + b, userId, courseId) == PairCount(a, userId, courseId) + PairCount(b, userId, courseId)
  {
    if a == [] {
      assert a + b == b;
    } else {
      assert (a + b)[1..] == a[1..] + b;
      PairCountAppend(a[1..], b, userId, courseId);
    }
  }

  /** Adding a pair that has no row yet leaves exactly one row for it. */
  lemma AddedPairIsUnique(bs: seq<Bookmark>, b: Bookmark)
    requires FindBookmark(bs, b.userId, b.courseId).None?
    ensures PairCount(bs + [b], b.userId, b.courseId) == 1
  {
    PairCountZero(bs, b.userId, b.courseId);
    PairCountAppend(bs, [b], b.userId, b.courseId);
    assert [b][1..] == [];
  }

  /** On a table without duplicate pairs the user's course list repeats no
      course. */
  lemma {:induction false} CoursesOfDistinct(bs: seq<Bookmark>, userId: Id)
    requires UniquePairs(bs)
    ensures forall i, j :: 0 <= i < j < |CoursesOf(bs, userId)| ==>
              CoursesOf(bs, userId)[i] != CoursesOf(bs, userId)[j]
  {
    if bs != [] {
      var tail := bs[1..];
      assert UniquePairs(tail) by {
        forall i, j | 0 <= i < j < |tail|
          ensures !(tail[i].userId == tail[j].userId && tail[i].courseId == tail[j].courseId)
        {
          assert tail[i] == bs[i + 1] && tail[j] == bs[j + 1];
        }
      }
      CoursesOfDistinct(tail, userId);
      if bs[0].userId == userId {
        var rest := CoursesOf(tail, userId);
        forall k | 0 <= k < |tail|
          ensures !(tail[k].userId == userId && tail[k].courseId == bs[0].courseId)
        {
          assert tail[k] == bs[k + 1];
        }
        assert bs[0].courseId !in rest;
        var all := CoursesOf(bs, userId);
        assert all == [bs[0].courseId] + rest;
        forall i, j | 0 <= i < j < |all|
          ensures all[i] != all[j]
        {
          assert all[j] == rest[j - 1];
          if i > 0 {
            assert all[i] == rest[i - 1];
          }
        }
      }
    }
  }

  /** Removing the row at `k` keeps the pairs unique. */
  lemma RemoveAtKeepsUnique(bs: seq<Bookmark>, k: nat)
    requires k < |bs| && UniquePairs(bs)
    ensures UniquePairs(bs[..k] + bs[k + 1..])
  {
    var r := bs[..k] + bs[k + 1..];
    forall i, j | 0 <= i < j < |r|
      ensures !(r[i].userId == r[j].userId && r[i].courseId == r[j].courseId)
    {
      var i' := if i < k then i else i + 1;
      var j' := if j < k then j else j + 1;
      assert r[i] == bs[i'] && r[j] == bs[j'];
    }
  }

  class BookmarkService {
    /** The ids of the user accounts. */
    var users: set<Id>
    /** The ids of the courses. */
    var courses: set<Id>
    /** The `bookmarks` table, in insertion order. */
    var bookmarks: seq<Bookmark>
    /** The next identity value the table hands out. */
    var nextId: Id

    ghost predicate Valid()
      reads this
    {
      UniquePairs(bookmarks) &&
      forall k :: 0 <= k < |bookmarks| ==> bookmarks[k].id < nextId
    }

    constructor (users: set<Id>, courses: set<Id>)
      ensures Valid()
      ensures this.users == users && this.courses == courses && bookmarks == []
    {
      this.users := users;
      this.courses := courses;
      bookmarks := [];
      nextId := 1;
    }

    /** `addBookmark(userId, courseId)`. */
    method AddBookmark(userId: Id, courseId: Id) returns (r: Result<()>)
      requires Valid()
      modifies this
      ensures Valid() && users == old(users) && courses == old(courses)
      ensures userId !in users || courseId !in courses ==> r == Err(ResourceNotFound)
      ensures userId in users && courseId in courses && FindBookmark(old(bookmarks), userId, courseId).Some?
              ==> r == Err(IllegalState)
      ensures r.Ok? <==> userId in users && courseId in courses && FindBookmark(old(bookmarks), userId, courseId).None?
      ensures r.Err? ==> bookmarks == old(bookmarks) && nextId == old(nextId)
      ensures r.Ok? ==> bookmarks == old(bookmarks) + [Bookmark(old(nextId), userId, courseId)]
      ensures r.Ok? ==> PairCount(bookmarks, userId, courseId) == 1
    {
      if userId !in users || courseId !in courses {
        return Err(ResourceNotFound);
      }
      if FindBookmark(bookmarks, userId, courseId).Some? {
        return Err(IllegalState);
      }
      var b := Bookmark(nextId, userId, courseId);
      AddedPairIsUnique(bookmarks, b);
      bookmarks := bookmarks + [b];
      nextId := nextId + 1;
      r := Ok(());
    }

    /** `removeBookmark(userId, courseId)`. */
    method RemoveBookmark(userId: Id, courseId: Id) returns (r: Result<()>)
      requires Valid()
      modifies this
      ensures Valid() && users == old(users) && courses == old(courses) && nextId == old(nextId)
      ensures r.Err? <==> userId !in users || courseId !in courses || FindBookmark(old(bookmarks), userId, courseId).None?
      ensures r.Err? ==> r.error == ResourceNotFound && bookmarks == old(bookmarks)
      ensures r.Ok? ==> var k := FindBookmark(old(bookmarks), userId, courseId).value;
                        bookmarks == old(bookmarks)[..k] + old(bookmarks)[k + 1..]
      ensures r.Ok? ==> FindBookmark(bookmarks, userId, courseId).None?
      ensures r.Ok? ==> forall b :: b in bookmarks <==>
                          b in old(bookmarks) && !(b.userId == userId && b.courseId == courseId)
    {
      if userId !in users || courseId !in courses {
        return Err(ResourceNotFound);
      }
      var found := FindBookmark(bookmarks, userId, courseId);
      if found.None? {
        return Err(ResourceNotFound);
      }
      var k := found.value;
      RemoveAtKeepsUnique(bookmarks, k);
      RemoveAtDropsPair(bookmarks, k);
      bookmarks := bookmarks[..k] + bookmarks[k + 1..];
      r := Ok(());
    }

    /** `getBookmarkedCourses(userId)`: the bookmarked courses (as ids; the
        CourseDTO mapping is not part of this model). */
    function GetBookmarkedCourses(userId: Id): (r: Result<seq<Id>>)
      requires Valid()
      reads this
      ensures r.Err? <==> userId !in users
      ensures r.Err? ==> r.error == ResourceNotFound
      ensures r.Ok? ==> forall c :: c in r.value <==> FindBookmark(bookmarks, userId, c).Some?
      ensures r.Ok? ==> forall i, j :: 0 <= i < j < |r.value| ==> r.value[i] != r.value[j]
    {
      if userId !in users then Err(ResourceNotFound)
      else
        CoursesOfDistinct(bookmarks, userId);
        Ok(CoursesOf(bookmarks, userId))
    }
  }

  /** With unique pairs, deleting the row found for a pair takes out that pair
      and no other row. */
  lemma RemoveAtDropsPair(bs: seq<Bookmark>, k: nat)
    requires k < |bs| && UniquePairs(bs)
    ensures var r := bs[..k] + bs[k + 1..];
            forall b :: b in r <==> b in bs && !(b.userId == bs[k].userId && b.courseId == bs[k].courseId)
  {
    var r := bs[..k] + bs[k + 1..];
    forall b
      ensures b in r <==> b in bs && !(b.userId == bs[k].userId && b.courseId == bs[k].courseId)
    {
      if b in r {
        var i :| 0 <= i < |r| && r[i] == b;
        var i' := if i < k then i else i + 1;
        assert r[i] == bs[i'] && i' != k;
      }
      if b in bs && !(b.userId == bs[k].userId && b.courseId == bs[k].courseId) {
        var i :| 0 <= i < |bs| && bs[i] == b;
        assert i != k;
        if i < k {
          assert r[i] == b;
        } else {
          assert r[i - 1] == b;
        }
      }
    }
  }

  /** An add followed by a remove of the same pair gives the table back. */
  lemma AddThenRemoveRestores(bs: seq<Bookmark>, b: Bookmark)
    requires FindBookmark(bs, b.userId, b.courseId).None?
    ensures FindBookmark(bs + [b], b.userId, b.courseId) == Some(|bs|)
    ensures (bs + [b])[..|bs|] + (bs + [b])[|bs| + 1..] == bs
  {
    var all := bs + [b];
    assert all[|bs|] == b;
    var f := FindBookmark(all, b.userId, b.courseId);
    assert f.Some?;
    assert all[..|bs|] == bs;
  }
}
