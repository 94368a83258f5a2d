/** `FollowService`: the many-to-many link between users and instructors, kept
    twice in memory, as the user's `followedInstructors` list and as the
    instructor's `followers` list. */
module Follow {
  import opened Common

  /** An instructor profile and the id of the user account behind it (the
      link may be missing). */
  datatype Instructor = Instructor(id: Id, userId: Option<Id>)

  predicate NoDuplicates(xs: seq<Id>) {
    forall i, j :: 0 <= i < j < |xs| ==> xs[i] != xs[j]
  }

  /** `List.remove(Object)`: the first occurrence goes, the rest keep their order. */
  function RemoveFirst(xs: seq<Id>, x: Id): (r: seq<Id>)
    ensures x !in xs ==> r == xs
    ensures x in xs ==> |r| == |xs| - 1
    ensures forall y :: y in r ==> y in xs
    ensures forall y :: y in xs && y != x ==> y in r
  {
    if xs == [] then []
    else if xs[0] == x then
      assert xs == [xs[0]] + xs[1..];
      xs[1..]
    else
      assert xs == [xs[0]] + xs[1..];
      [xs[0]] + RemoveFirst(xs[1..], x)
  }

  lemma NoDuplicatesTail(xs: seq<Id>)
    requires xs != [] && NoDuplicates(xs)
    ensures NoDuplicates(xs[1..]) && xs[0] !in xs[1..]
  {
    forall k | 0 <= k < |xs[1..]|
      ensures xs[1..][k] != xs[0]
    {
      assert xs[1..][k] == xs[k + 1];
    }
  }

  lemma NoDuplicatesCons(x: Id, xs: seq<Id>)
    requires NoDuplicates(xs) && x !in xs
    ensures NoDuplicates([x] + xs)
  {
    var all := [x] + xs;
    forall i, j | 0 <= i < j < |all|
      ensures all[i] != all[j]
    {
      assert all[j] == xs[j - 1];
      if i > 0 {
        assert all[i] == xs[i - 1];
      }
    }
  }

  /** On a list without duplicates, removal takes out exactly that element. */
  lemma {:induction false} RemoveFirstExact(xs: seq<Id>, x: Id)
    requires NoDuplicates(xs)
    ensures NoDuplicates(RemoveFirst(xs, x))
    ensures x !in RemoveFirst(xs, x)
  {
    if xs != [] {
      NoDuplicatesTail(xs);
      if xs[0] != x {
        RemoveFirstExact(xs[1..], x);
        NoDuplicatesCons(xs[0], RemoveFirst(xs[1..], x));
      }
    }
  }

  /** Unfollowing right after a follow gives the list back. */
  lemma {:induction false} RemoveAppended(xs: seq<Id>, x: Id)
    requires x !in xs
    ensures RemoveFirst(xs + [x], x) == xs
  {
    if xs != [] {
      assert (xs + [x])[1..] == xs[1..] + [x];
      RemoveAppended(xs[1..], x);
    }
  }

  /** The list of `key`, empty when there is none. */
  function ListOf(m: map<Id, seq<Id>>, key: Id): seq<Id> {
    if key in m then m[key] else []
  }

  /** Each side mirrors the other: `u` follows `i` exactly when `u` is among the
      followers of `i`; and no list holds an id twice. */
  ghost predicate Mirrored(following: map<Id, seq<Id>>, followers: map<Id, seq<Id>>) {
    (forall u, i :: i in ListOf(following, u) <==> u in ListOf(followers, i)) &&
    (forall u :: u in following ==> NoDuplicates(following[u])) &&
    (forall i :: i in followers ==> NoDuplicates(followers[i]))
  }

  class FollowService {
    /** The user accounts, each with its `followedInstructors`. */
    var following: map<Id, seq<Id>>
    /** The instructor profiles. */
    var instructors: map<Id, Instructor>
    /** Each instructor's `followers`. */
    var followers: map<Id, seq<Id>>

    ghost predicate Valid()
      reads this
    {
      Mirrored(following, followers) &&
      (forall i :: i in instructors ==> i in followers)
    }

    constructor (userIds: set<Id>, instructors: map<Id, Instructor>)
      ensures Valid()
      ensures this.instructors == instructors
      ensures following.Keys == userIds && forall u :: u in following ==> following[u] == []
      ensures followers.Keys == instructors.Keys && forall i :: i in followers ==> followers[i] == []
    {
      following := map u | u in userIds :: [];
      this.instructors := instructors;
      followers := map i | i in instructors :: [];
    }

    /** `followInstructor(userId, instructorId)`. */
    method FollowInstructor(userId: Id, instructorId: Id) returns (r: Result<()>)
      requires Valid()
      modifies this
      ensures Valid() && instructors == old(instructors)
      ensures userId !in old(following) || instructorId !in instructors ==> r == Err(ResourceNotFound)
      ensures userId in old(following) && instructorId in instructors && instructors[instructorId].userId.None?
              ==> r == Err(NullPointer)
      ensures userId in old(following) && instructorId in instructors && instructors[instructorId].userId == Some(userId)
              ==> r == Err(IllegalState)
      ensures userId in old(following) && instructorId in instructors && instructors[instructorId].userId.Some? &&
              instructorId in old(following)[userId]
              ==> r == Err(IllegalState)
      ensures r.Ok? <==> userId in old(following) && instructorId in instructors &&
                         instructors[instructorId].userId.Some? && instructors[instructorId].userId != Some(userId) &&
                         instructorId !in old(following)[userId]
      ensures r.Err? ==> following == old(following) && followers == old(followers)
      ensures r.Ok? ==> following == old(following)[userId := old(following)[userId] + [instructorId]]
      ensures r.Ok? ==> followers == old(followers)[instructorId := old(followers)[instructorId] + [userId]]
    {
      if userId !in following || instructorId !in instructors {
        return Err(ResourceNotFound);
      }
      var owner := instructors[instructorId].userId;
      if owner.None? {
        return Err(NullPointer);
      }
      if owner.value == userId {
        return Err(IllegalState);
      }
      if instructorId in following[userId] {
        return Err(IllegalState);
      }
      LinkKeepsMirrored(following, followers, userId, instructorId);
      following := following[userId := following[userId] + [instructorId]];
      followers := followers[instructorId := followers[instructorId] + [userId]];
      r := Ok(());
    }

    /** `unfollowInstructor(userId, instructorId)`. */
    method UnfollowInstructor(userId: Id, instructorId: Id) returns (r: Result<()>)
      requires Valid()
      modifies this
      ensures Valid() && instructors == old(instructors)
      ensures userId !in old(following) || instructorId !in instructors ==> r == Err(ResourceNotFound)
      ensures userId in old(following) && instructorId in instructors && instructorId !in old(following)[userId] ==> r == Err(IllegalState)
      ensures r.Ok? <==> userId in old(following) && instructorId in instructors && instructorId in old(following)[userId]
      ensures r.Err? ==> following == old(following) && followers == old(followers)
      ensures r.Ok? ==> following == old(following)[userId := RemoveFirst(old(following)[userId], instructorId)]
      ensures r.Ok? ==> followers == old(followers)[instructorId := RemoveFirst(old(followers)[instructorId], userId)]
    {
      if userId !in following || instructorId !in instructors {
        return Err(ResourceNotFound);
      }
      if instructorId !in following[userId] {
        return Err(IllegalState);
      }
      UnlinkKeepsMirrored(following, followers, userId, instructorId,
                          following[userId := RemoveFirst(following[userId], instructorId)],
                          followers[instructorId := RemoveFirst(followers[instructorId], userId)]);
      following := following[userId := RemoveFirst(following[userId], instructorId)];
      followers := followers[instructorId := RemoveFirst(followers[instructorId], userId)];
      r := Ok(());
    }

    /** `getFollowers(instructorId)`. */
    function GetFollowers(instructorId: Id): (r: Result<seq<Id>>)
      requires Valid()
      reads this
      ensures r.Err? <==> instructorId !in instructors
      ensures r.Err? ==> r.error == ResourceNotFound
      ensures r.Ok? ==> forall u :: u in r.value <==> instructorId in ListOf(following, u)
    {
      if instructorId !in instructors then Err(ResourceNotFound)
      else
        assert ListOf(followers, instructorId) == followers[instructorId];
        Ok(followers[instructorId])
    }

    /** `getFollowedInstructors(userId)`. */
    function GetFollowedInstructors(userId: Id): (r: Result<seq<Id>>)
      requires Valid()
      reads this
      ensures r.Err? <==> userId !in following
      ensures r.Err? ==> r.error == ResourceNotFound
      ensures r.Ok? ==> forall i :: i in r.value <==> userId in ListOf(followers, i)
    {
      if userId !in following then Err(ResourceNotFound)
      else
        assert ListOf(following, userId) == following[userId];
        Ok(following[userId])
    }
  }

  /** Adding the link on both sides keeps the two sides mirrored. */
  lemma LinkKeepsMirrored(following: map<Id, seq<Id>>, followers: map<Id, seq<Id>>, u: Id, i: Id)
    requires Mirrored(following, followers) && u in following && i in followers
    requires i !in following[u]
    ensures Mirrored(following[u := following[u] + [i]], followers[i := followers[i] + [u]])
  {
    var following' := following[u := following[u] + [i]];
    var followers' := followers[i := followers[i] + [u]];
    assert i in ListOf(following, u) <==> u in ListOf(followers, i);
    AppendKeepsNoDuplicates(following[u], i);
    AppendKeepsNoDuplicates(followers[i], u);
    forall u2, i2
      ensures i2 in ListOf(following', u2) <==> u2 in ListOf(followers', i2)
    {
      assert i2 in ListOf(following, u2) <==> u2 in ListOf(followers, i2);
    }
  }

  /** Removing the link on both sides keeps the two sides mirrored. */
  lemma UnlinkKeepsMirrored(following: map<Id, seq<Id>>, followers: map<Id, seq<Id>>, u: Id, i: Id,
                            following': map<Id, seq<Id>>, followers': map<Id, seq<Id>>)
    requires Mirrored(following, followers) && u in following && i in followers
    requires following' == following[u := RemoveFirst(following[u], i)]
    requires followers' == followers[i := RemoveFirst(followers[i], u)]
    ensures Mirrored(following', followers')
  {
    UnlinkKeepsLinks(following, followers, following', followers', u, i);
    RemoveKeepsNoDuplicates(following, following', u, i);
    RemoveKeepsNoDuplicates(followers, followers', i, u);
  }

  /** The first part of `Mirrored` after removing the link on both sides. */
  lemma UnlinkKeepsLinks(following: map<Id, seq<Id>>, followers: map<Id, seq<Id>>,
                         following': map<Id, seq<Id>>, followers': map<Id, seq<Id>>, u: Id, i: Id)
    requires Mirrored(following, followers) && u in following && i in followers
    requires following' == following[u := RemoveFirst(following[u], i)]
    requires followers' == followers[i := RemoveFirst(followers[i], u)]
    ensures forall u2, i2 :: i2 in ListOf(following', u2) <==> u2 in ListOf(followers', i2)
  {
    forall u2, i2
      ensures i2 in ListOf(following', u2) <==> u2 in ListOf(followers', i2)
    {
      UnlinkPair(following, followers, u, i, u2, i2);
    }
  }

  /** Removing one id from one list keeps every list free of duplicates. */
  lemma RemoveKeepsNoDuplicates(m: map<Id, seq<Id>>, m': map<Id, seq<Id>>, key: Id, x: Id)
    requires key in m && forall k :: k in m ==> NoDuplicates(m[k])
    requires m' == m[key := RemoveFirst(m[key], x)]
    ensures forall k :: k in m' ==> NoDuplicates(m'[k])
  {
    RemoveFirstExact(m[key], x);
  }

  lemma UnlinkPair(following: map<Id, seq<Id>>, followers: map<Id, seq<Id>>, u: Id, i: Id, u2: Id, i2: Id)
    requires Mirrored(following, followers) && u in following && i in followers
    ensures i2 in ListOf(following[u := RemoveFirst(following[u], i)], u2)
            <==> u2 in ListOf(followers[i := RemoveFirst(followers[i], u)], i2)
  {
    var following' := following[u := RemoveFirst(following[u], i)];
    var followers' := followers[i := RemoveFirst(followers[i], u)];
    assert i2 in ListOf(following, u2) <==> u2 in ListOf(followers, i2);
    if u2 == u && i2 == i {
      RemoveFirstExact(following[u], i);
      RemoveFirstExact(followers[i], u);
    } else if u2 == u {
      assert ListOf(followers', i2) == ListOf(followers, i2);
    } else if i2 == i {
      assert ListOf(following', u2) == ListOf(following, u2);
    } else {
      assert ListOf(following', u2) == ListOf(following, u2);
      assert ListOf(followers', i2) == ListOf(followers, i2);
    }
  }

  lemma AppendKeepsNoDuplicates(xs: seq<Id>, x: Id)
    requires NoDuplicates(xs) && x !in xs
    ensures NoDuplicates(xs + [x])
  {
  }

  /** Follow followed by unfollow restores both lists. */
  lemma FollowThenUnfollowRestores(following: map<Id, seq<Id>>, followers: map<Id, seq<Id>>, u: Id, i: Id)
    requires u in following && i in followers
    requires i !in following[u] && u !in followers[i]
    ensures var following' := following[u := following[u] + [i]];
            var followers' := followers[i := followers[i] + [u]];
            following'[u := RemoveFirst(following'[u], i)] == following &&
            followers'[i := RemoveFirst(followers'[i], u)] == followers
  {
    RemoveAppended(following[u], i);
    RemoveAppended(followers[i], u);
    var following' := following[u := following[u] + [i]];
    var followers' := followers[i := followers[i] + [u]];
    assert following'[u := RemoveFirst(following'[u], i)] == following[u := following[u]];
    assert followers'[i := RemoveFirst(followers'[i], u)] == followers[i := followers[i]];
  }
}
