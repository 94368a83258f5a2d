/** `SessionStatusUpdater.updateSessionStatuses`: the one-minute tick that
    recomputes the status of every session, saves the ones that changed and,
    for a change into LIVE, sends one "Session Live" notification per recipient:
    the instructor's followers for a follower-only session, otherwise every
    USER account, fetched page by page. The status rule is a parameter:
    `statusOf(start, end)` is the status at this tick of a session with that window. */
module SessionStatusUpdater {
  import opened Common
  import opened Follow
  import opened Sessions
  import opened Notifications

  /** One `createNotification(userId, "Session Live: ...", ..., SESSION)` call. */
  datatype SessionAlert = SessionAlert(userId: Id, sessionId: Id)

  function Refreshed(s: Session, statusOf: (Time, Time) -> SessionStatus): Session {
    s.(status := statusOf(s.start, s.end))
  }

  predicate Changed(s: Session, statusOf: (Time, Time) -> SessionStatus) {
    statusOf(s.start, s.end) != s.status
  }

  predicate GoesLive(s: Session, statusOf: (Time, Time) -> SessionStatus) {
    Changed(s, statusOf) && statusOf(s.start, s.end) == Live
  }

  function AlertsFor(ids: seq<Id>, sessionId: Id): (r: seq<SessionAlert>)
    ensures |r| == |ids|
    ensures forall k :: 0 <= k < |ids| ==> r[k] == SessionAlert(ids[k], sessionId)
  {
    seq(|ids|, k requires 0 <= k < |ids| => SessionAlert(ids[k], sessionId))
  }

  lemma AlertsForAppend(a: seq<Id>, b: seq<Id>, sessionId: Id)
    ensures AlertsFor(a + b, sessionId) == AlertsFor(a, sessionId) + AlertsFor(b, sessionId)
  {
    assert |AlertsFor(a + b, sessionId)| == |AlertsFor(a, sessionId) + AlertsFor(b, sessionId)|;
  }

  /** Who hears about a session going live. */
  function Audience(s: Session, followers: map<Id, seq<Id>>, users: seq<User>): seq<Id> {
    if s.followerOnly then ListOf(followers, s.instructorId) else Ids(WithRole(users, UserRole))
  }

  /** The ids saved by one tick over `ss`, in scan order. */
  function TickSaves(ss: seq<Session>, statusOf: (Time, Time) -> SessionStatus): seq<Id> {
    if ss == [] then []
    else
      var last := ss[|ss| - 1];
      TickSaves(ss[..|ss| - 1], statusOf) + (if Changed(last, statusOf) then [last.id] else [])
  }

  /** The notifications sent by one tick over `ss`, in order. */
  function TickAlerts(ss: seq<Session>, statusOf: (Time, Time) -> SessionStatus,
                      followers: map<Id, seq<Id>>, users: seq<User>): seq<SessionAlert> {
    if ss == [] then []
    else
      var last := ss[|ss| - 1];
      TickAlerts(ss[..|ss| - 1], statusOf, followers, users) +
      (if GoesLive(last, statusOf) then AlertsFor(Audience(last, followers, users), last.id) else [])
  }

  /** The alerts for a run of users: one per user, in order. */
  function UserAlerts(us: seq<User>, sessionId: Id): (r: seq<SessionAlert>)
    ensures |r| == |us|
    ensures forall k :: 0 <= k < |us| ==> r[k] == SessionAlert(us[k].id, sessionId)
  {
    AlertsFor(Ids(us), sessionId)
  }

  lemma UserAlertsAppend(a: seq<User>, b: seq<User>, sessionId: Id)
    ensures UserAlerts(a + b, sessionId) == UserAlerts(a, sessionId) + UserAlerts(b, sessionId)
  {
    var l := UserAlerts(a + b, sessionId);
    var r := UserAlerts(a, sessionId) + UserAlerts(b, sessionId);
    assert |l| == |r|;
    forall k | 0 <= k < |l|
      ensures l[k] == r[k]
    {
      if k >= |a| {
        assert (a + b)[k] == b[k - |a|];
      }
    }
  }

  /** The inner `for (UserEntity user : users)` of one page. */
  method NotifyBatch(batch: seq<User>, sessionId: Id) returns (out: seq<SessionAlert>)
    ensures out == UserAlerts(batch, sessionId)
  {
    out := [];
    for j := 0 to |batch|
      invariant |out| == j
      invariant forall k :: 0 <= k < j ==> out[k] == SessionAlert(batch[k].id, sessionId)
    {
      out := out + [SessionAlert(batch[j].id, sessionId)];
    }
  }

  /** The pages read so far, then the next page. */
  lemma PagePrefix(all: seq<User>, page: nat)
    ensures all[..Min((page + 1) * PAGE_SIZE, |all|)] == all[..Min(page * PAGE_SIZE, |all|)] + PageOf(all, page)
  {
  }

  /** The public-session branch: the do-while over pages of 100 USER accounts,
      which ends after the first empty page. */
  method NotifyUserPages(users: seq<User>, sessionId: Id) returns (out: seq<SessionAlert>)
    ensures out == AlertsFor(Ids(WithRole(users, UserRole)), sessionId)
  {
    var all := WithRole(users, UserRole);
    out := [];
    var page := 0;
    var more := true;
    while more
      invariant more ==> page * PAGE_SIZE < |all| + PAGE_SIZE
      invariant !more ==> |all| <= page * PAGE_SIZE
      invariant out == UserAlerts(all[..Min(page * PAGE_SIZE, |all|)], sessionId)
      decreases if more then |all| + PAGE_SIZE - page * PAGE_SIZE else 0
    {
      var batch := PageOf(all, page);
      var sent := NotifyBatch(batch, sessionId);
      PagePrefix(all, page);
      UserAlertsAppend(all[..Min(page * PAGE_SIZE, |all|)], batch, sessionId);
      out := out + sent;
      page := page + 1;
      more := batch != [];
    }
    assert all[..|all|] == all;
  }

  /** The loop over a follower-only session's followers: one alert each. */
  method NotifyFollowers(fs: seq<Id>, sessionId: Id) returns (out: seq<SessionAlert>)
    ensures out == AlertsFor(fs, sessionId)
  {
    out := [];
    for j := 0 to |fs|
      invariant out == AlertsFor(fs[..j], sessionId)
    {
      assert fs[..j + 1] == fs[..j] + [fs[j]];
      AlertsForAppend(fs[..j], [fs[j]], sessionId);
      out := out + [SessionAlert(fs[j], sessionId)];
    }
    assert fs[..|fs|] == fs;
  }

  /** One more session scanned: its save and its alerts come after those of
      the sessions before it. */
  lemma TickStep(ss: seq<Session>, i: nat, statusOf: (Time, Time) -> SessionStatus,
                 followers: map<Id, seq<Id>>, users: seq<User>)
    requires i < |ss|
    ensures TickSaves(ss[..i + 1], statusOf)
            == TickSaves(ss[..i], statusOf) + (if Changed(ss[i], statusOf) then [ss[i].id] else [])
    ensures TickAlerts(ss[..i + 1], statusOf, followers, users)
            == TickAlerts(ss[..i], statusOf, followers, users) +
               (if GoesLive(ss[i], statusOf) then AlertsFor(Audience(ss[i], followers, users), ss[i].id) else [])
  {
    assert ss[..i + 1][..i] == ss[..i];
  }

  /** The body of the loop for one session: save it when its status changed,
      and when it went live, alert its audience. */
  method TickSession(s: Session, statusOf: (Time, Time) -> SessionStatus,
                     followers: map<Id, seq<Id>>, users: seq<User>)
    returns (save: seq<Id>, sent: seq<SessionAlert>)
    ensures save == if Changed(s, statusOf) then [s.id] else []
    ensures sent == if GoesLive(s, statusOf) then AlertsFor(Audience(s, followers, users), s.id) else []
  {
    save, sent := [], [];
    var newStatus := statusOf(s.start, s.end);
    if newStatus != s.status {
      save := [s.id];
      if newStatus == Live {
        if s.followerOnly {
          sent := NotifyFollowers(ListOf(followers, s.instructorId), s.id);
        } else {
          sent := NotifyUserPages(users, s.id);
        }
      }
    }
  }

  /** The loop over `sessionRepository.findAll()`. */
  method Tick(ss: seq<Session>, statusOf: (Time, Time) -> SessionStatus,
              followers: map<Id, seq<Id>>, users: seq<User>)
    returns (ss': seq<Session>, saved: seq<Id>, alerts: seq<SessionAlert>)
    ensures |ss'| == |ss| && forall k :: 0 <= k < |ss| ==> ss'[k] == Refreshed(ss[k], statusOf)
    ensures saved == TickSaves(ss, statusOf)
    ensures alerts == TickAlerts(ss, statusOf, followers, users)
  {
    ss', saved, alerts := [], [], [];
    for i := 0 to |ss|
      invariant |ss'| == i && forall k :: 0 <= k < i ==> ss'[k] == Refreshed(ss[k], statusOf)
      invariant saved == TickSaves(ss[..i], statusOf)
      invariant alerts == TickAlerts(ss[..i], statusOf, followers, users)
    {
      TickStep(ss, i, statusOf, followers, users);
      var save, sent := TickSession(ss[i], statusOf, followers, users);
      saved := saved + save;
      alerts := alerts + sent;
      ss' := ss' + [Refreshed(ss[i], statusOf)];
    }
    assert ss[..|ss|] == ss;
  }

  class SessionStatusUpdaterJob {
    var sessions: seq<Session>
    /** The ids passed to `sessionRepository.save`, in order. */
    var saves: seq<Id>
    /** The notifications requested, in order. */
    var alerts: seq<SessionAlert>
    /** Each instructor's followers. */
    const followers: map<Id, seq<Id>>
    /** The user accounts, for `findByRole(USER, page)`. */
    const users: seq<User>

    constructor (sessions: seq<Session>, followers: map<Id, seq<Id>>, users: seq<User>)
      ensures this.sessions == sessions && this.followers == followers && this.users == users
      ensures saves == [] && alerts == []
    {
      this.sessions := sessions;
      this.followers := followers;
      this.users := users;
      saves := [];
      alerts := [];
    }

    /** `updateSessionStatuses()` at the tick whose status rule is `statusOf`. */
    method UpdateSessionStatuses(statusOf: (Time, Time) -> SessionStatus)
      modifies this
      ensures |sessions| == |old(sessions)|
      ensures forall k :: 0 <= k < |sessions| ==> sessions[k] == Refreshed(old(sessions)[k], statusOf)
      ensures saves == old(saves) + TickSaves(old(sessions), statusOf)
      ensures alerts == old(alerts) + TickAlerts(old(sessions), statusOf, followers, users)
    {
      var ss', saved, sent := Tick(sessions, statusOf, followers, users);
      sessions, saves, alerts := ss', saves + saved, alerts + sent;
    }
  }

  // ------------------------------------------------------------ properties

  /** A session is saved exactly when its status changed. */
  lemma {:induction false} SavedIffChanged(ss: seq<Session>, statusOf: (Time, Time) -> SessionStatus)
    ensures forall x :: x in TickSaves(ss, statusOf) <==>
              exists k :: 0 <= k < |ss| && ss[k].id == x && Changed(ss[k], statusOf)
  {
    if ss != [] {
      var init := ss[..|ss| - 1];
      SavedIffChanged(init, statusOf);
      forall x
        ensures x in TickSaves(ss, statusOf) <==> exists k :: 0 <= k < |ss| && ss[k].id == x && Changed(ss[k], statusOf)
      {
        if exists k :: 0 <= k < |ss| && ss[k].id == x && Changed(ss[k], statusOf) {
          var k :| 0 <= k < |ss| && ss[k].id == x && Changed(ss[k], statusOf);
          if k < |ss| - 1 {
            assert init[k] == ss[k];
          }
        }
        if x in TickSaves(init, statusOf) {
          var k :| 0 <= k < |init| && init[k].id == x && Changed(init[k], statusOf);
          assert ss[k] == init[k];
        }
      }
    }
  }

  /** Notifications go out only for a session whose status changed into LIVE,
      and only to its audience. */
  lemma {:induction false} AlertsOnlyOnGoingLive(ss: seq<Session>, statusOf: (Time, Time) -> SessionStatus,
                                                 followers: map<Id, seq<Id>>, users: seq<User>)
    ensures forall a :: a in TickAlerts(ss, statusOf, followers, users) ==>
              exists k :: 0 <= k < |ss| && ss[k].id == a.sessionId && GoesLive(ss[k], statusOf) &&
                          a.userId in Audience(ss[k], followers, users)
  {
    if ss != [] {
      var init := ss[..|ss| - 1];
      var last := ss[|ss| - 1];
      AlertsOnlyOnGoingLive(init, statusOf, followers, users);
      forall a | a in TickAlerts(ss, statusOf, followers, users)
        ensures exists k :: 0 <= k < |ss| && ss[k].id == a.sessionId && GoesLive(ss[k], statusOf) &&
                            a.userId in Audience(ss[k], followers, users)
      {
        if a in TickAlerts(init, statusOf, followers, users) {
          var k :| 0 <= k < |init| && init[k].id == a.sessionId && GoesLive(init[k], statusOf) &&
                   a.userId in Audience(init[k], followers, users);
          assert ss[k] == init[k];
        } else {
          var aud := Audience(last, followers, users);
          var j :| 0 <= j < |aud| && AlertsFor(aud, last.id)[j] == a;
          assert a.userId == aud[j];
          assert ss[|ss| - 1] == last;
        }
      }
    }
  }

  /** A follower-only session going live notifies each of its instructor's
      followers exactly once, and nobody else. */
  lemma FollowerOnlyGoLiveNotifiesEachFollowerOnce(s: Session, statusOf: (Time, Time) -> SessionStatus,
                                                   followers: map<Id, seq<Id>>, users: seq<User>, u: Id)
    requires s.followerOnly && GoesLive(s, statusOf)
    requires NoDuplicates(ListOf(followers, s.instructorId))
    ensures multiset(TickAlerts([s], statusOf, followers, users))[SessionAlert(u, s.id)]
            == (if u in ListOf(followers, s.instructorId) then 1 else 0)
  {
    var fs := ListOf(followers, s.instructorId);
    assert [s][..0] == [];
    assert TickAlerts([s], statusOf, followers, users) == AlertsFor(fs, s.id);
    AlertCount(fs, s.id, u);
  }

  lemma {:induction false} AlertCount(fs: seq<Id>, sessionId: Id, u: Id)
    requires NoDuplicates(fs)
    ensures multiset(AlertsFor(fs, sessionId))[SessionAlert(u, sessionId)] == (if u in fs then 1 else 0)
  {
    if fs != [] {
      NoDuplicatesTail(fs);
      AlertCount(fs[1..], sessionId, u);
      assert fs == [fs[0]] + fs[1..];
      AlertsForAppend([fs[0]], fs[1..], sessionId);
      assert AlertsFor([fs[0]], sessionId) == [SessionAlert(fs[0], sessionId)];
    }
  }

  function RefreshAll(ss: seq<Session>, statusOf: (Time, Time) -> SessionStatus): (r: seq<Session>)
    ensures |r| == |ss| && forall k :: 0 <= k < |ss| ==> r[k] == Refreshed(ss[k], statusOf)
  {
    seq(|ss|, k requires 0 <= k < |ss| => Refreshed(ss[k], statusOf))
  }

  /** After a tick, the sessions are settled: no status changes, so a second
      tick with the same clock saves nothing, sends nothing and changes nothing. */
  lemma {:induction false} SecondTickIsQuiet(ss: seq<Session>, statusOf: (Time, Time) -> SessionStatus,
                                             followers: map<Id, seq<Id>>, users: seq<User>)
    ensures TickSaves(RefreshAll(ss, statusOf), statusOf) == []
    ensures TickAlerts(RefreshAll(ss, statusOf), statusOf, followers, users) == []
    ensures RefreshAll(RefreshAll(ss, statusOf), statusOf) == RefreshAll(ss, statusOf)
  {
    if ss != [] {
      var init := ss[..|ss| - 1];
      SecondTickIsQuiet(init, statusOf, followers, users);
      assert RefreshAll(ss, statusOf)[..|ss| - 1] == RefreshAll(init, statusOf);
    }
  }
}
