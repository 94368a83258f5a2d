/** `SessionService`: live teaching sessions of an instructor, with the
    time-window and overlap checks of create and update, the follower-only
    access rule of join and the available-session listing, and the ownership
    checks of update and delete. */
module Sessions {
  import opened Common
  import opened Follow

  datatype SessionStatus = Upcoming | Live | Ended

  datatype Session = Session(
    id: Id,
    title: string,
    description: string,
    start: Time,
    end: Time,
    followerOnly: bool,
    instructorId: Id,
    meetingLink: string,
    status: SessionStatus)

  /** The fields a create or update request carries. */
  datatype SessionRequest = SessionRequest(title: string, description: string, start: Time, end: Time, followerOnly: bool)

  /** `newStart.isBefore(existing.end) && newEnd.isAfter(existing.start)`:
      intervals that only touch do not overlap. */
  predicate Overlaps(start: Time, end: Time, s: Session) {
    start < s.end && end > s.start
  }

  /** The test applied to each of the instructor's sessions; `skip` is the id
      of the session being edited, which is not compared with itself. */
  predicate Clashes(s: Session, instructorId: Id, start: Time, end: Time, skip: Option<Id>) {
    s.instructorId == instructorId && (skip.None? || s.id != skip.value) && Overlaps(start, end, s)
  }

  /** The scan over `findByInstructor(instructor)`: the first session that clashes, if any. */
  function FirstClash(sessions: seq<Session>, instructorId: Id, start: Time, end: Time, skip: Option<Id>): (r: Option<nat>)
    ensures r.Some? ==> r.value < |sessions| && Clashes(sessions[r.value], instructorId, start, end, skip)
    ensures r.None? <==> forall k :: 0 <= k < |sessions| ==> !Clashes(sessions[k], instructorId, start, end, skip)
  {
    if sessions == [] then None
    else if Clashes(sessions[0], instructorId, start, end, skip) then Some(0)
    else match FirstClash(sessions[1..], instructorId, start, end, skip)
      case None =>
        assert forall k :: 1 <= k < |sessions| ==> sessions[k] == sessions[1..][k - 1];
        None
      case Some(k) => Some(k + 1)
  }

  /** No two sessions of the same instructor overlap. */
  ghost predicate Disjoint(sessions: seq<Session>) {
    forall i, j :: 0 <= i < j < |sessions| && sessions[i].instructorId == sessions[j].instructorId
      ==> !Overlaps(sessions[j].start, sessions[j].end, sessions[i])
  }

  predicate DistinctSessionIds(sessions: seq<Session>) {
    forall i, j :: 0 <= i < j < |sessions| ==> sessions[i].id != sessions[j].id
  }

  /** `sessionRepository.findById`. */
  function FindSession(sessions: seq<Session>, id: Id): (r: Option<nat>)
    ensures r.Some? ==> r.value < |sessions| && sessions[r.value].id == id
    ensures r.None? ==> forall k :: 0 <= k < |sessions| ==> sessions[k].id != id
  {
    FindByIdFirst(sessions, (x: Session) => x.id, id);
    FindById(sessions, (x: Session) => x.id, id)
  }

  /** The join rule: open sessions admit everyone, follower-only sessions the
      followers of their instructor. */
  predicate MayJoin(s: Session, followed: seq<Id>) {
    !s.followerOnly || s.instructorId in followed
  }

  /** `SessionStatus.name()`. */
  function SessionStatusName(st: SessionStatus): string {
    match st
    case Upcoming => "UPCOMING"
    case Live => "LIVE"
    case Ended => "ENDED"
  }

  /** `SessionStatus.valueOf(name)`: the constant of exactly that name, if any. */
  function SessionStatusFromName(n: string): (r: Option<SessionStatus>)
    ensures forall st :: r == Some(st) <==> SessionStatusName(st) == n
  {
    if n == "UPCOMING" then Some(Upcoming)
    else if n == "LIVE" then Some(Live)
    else if n == "ENDED" then Some(Ended)
    else None
  }

  /** The upper case of one character, as `toUpperCase` gives it, for every
      character whose upper case is an ASCII letter: a to z, the dotless i and
      the long s. Every other character is kept; its real upper case is either
      not an ASCII letter or a pair such as "SS" or "FI" that occurs in no
      status name, so the name lookup below answers the same either way. */
  function UpperChar(c: char): (u: char)
    ensures 'a' <= c <= 'z' ==> u as int == c as int - 32
    ensures c == '\U{0131}' ==> u == 'I'
    ensures c == '\U{017F}' ==> u == 'S'
    ensures !('a' <= c <= 'z') && c != '\U{0131}' && c != '\U{017F}' ==> u == c
  {
    if 'a' <= c <= 'z' then (c as int - 32) as char
    else if c == '\U{0131}' then 'I'
    else if c == '\U{017F}' then 'S'
    else c
  }

  /** `statusFilter.toUpperCase()`, character by character. */
  function UpperCase(text: string): (u: string)
    ensures |u| == |text|
    ensures forall i :: 0 <= i < |text| ==> u[i] == UpperChar(text[i])
  {
    seq(|text|, i requires 0 <= i < |text| => UpperChar(text[i]))
  }

  /** Upper-casing twice changes nothing more. */
  lemma UpperCaseIdempotent(text: string)
    ensures UpperCase(UpperCase(text)) == UpperCase(text)
  {
  }

  /** The `statusFilter` argument of the listing: null or empty means no filter;
      otherwise the status whose name is the filter in upper case, and
      IllegalArgument (from `valueOf`) when no status has that name. */
  function ResolveFilter(statusFilter: Option<string>): (r: Result<Option<SessionStatus>>)
    ensures statusFilter.None? || statusFilter == Some("") ==> r == Ok(None)
    ensures forall st :: r == Ok(Some(st)) <==>
                           statusFilter.Some? && UpperCase(statusFilter.value) == SessionStatusName(st)
    ensures r.Err? <==> statusFilter.Some? && statusFilter.value != "" &&
                        forall st :: UpperCase(statusFilter.value) != SessionStatusName(st)
    ensures r.Err? ==> r.error == IllegalArgument
  {
    match statusFilter
    case None => Ok(None)
    case Some(text) =>
      if text == "" then Ok(None)
      else match SessionStatusFromName(UpperCase(text))
        case None => Err(IllegalArgument)
        case Some(st) => Ok(Some(st))
  }

  /** The filter is case-blind: a filter and its upper case select the same. */
  lemma FilterIgnoresCase(text: string)
    ensures ResolveFilter(Some(text)) == ResolveFilter(Some(UpperCase(text)))
  {
  }

  /** Examples of the filter at work: any spelling of a status name selects it,
      other words are refused. */
  lemma FilterExamples()
    ensures ResolveFilter(Some("live")) == Ok(Some(Live))
    ensures ResolveFilter(Some("Upcoming")) == Ok(Some(Upcoming))
    ensures ResolveFilter(Some("ended")) == Ok(Some(Ended))
    ensures ResolveFilter(Some("ongoing")) == Err(IllegalArgument)
  {
  }

  /** The sessions a student may join, in table order, optionally only those
      whose current status (by `statusOf`, the status at this instant of a
      session with that window) is `filter`. */
  function Available(sessions: seq<Session>, followed: seq<Id>, filter: Option<SessionStatus>,
                     statusOf: (Time, Time) -> SessionStatus): (r: seq<Session>)
    ensures |r| <= |sessions|
  {
    if sessions == [] then []
    else
      var rest := Available(sessions[1..], followed, filter, statusOf);
      var s := sessions[0];
      if MayJoin(s, followed) && (filter.Some? ==> statusOf(s.start, s.end) == filter.value) then [s] + rest else rest
  }

  /** The listing holds exactly the sessions of the table the student may join
      whose status matches the filter. */
  lemma {:induction false} AvailableMembers(sessions: seq<Session>, followed: seq<Id>, filter: Option<SessionStatus>,
                                            statusOf: (Time, Time) -> SessionStatus)
    ensures forall s :: s in Available(sessions, followed, filter, statusOf) <==>
                          s in sessions && MayJoin(s, followed) &&
                          (filter.Some? ==> statusOf(s.start, s.end) == filter.value)
  {
    if sessions != [] {
      AvailableMembers(sessions[1..], followed, filter, statusOf);
      assert sessions == [sessions[0]] + sessions[1..];
    }
  }

  /** The listing keeps table order: the listing of a table split in two is the
      listing of the first part followed by that of the second. */
  lemma {:induction false} AvailableOfConcat(a: seq<Session>, b: seq<Session>, followed: seq<Id>,
                                             filter: Option<SessionStatus>, statusOf: (Time, Time) -> SessionStatus)
    ensures Available(a + b, followed, filter, statusOf)
            == Available(a, followed, filter, statusOf) + Available(b, followed, filter, statusOf)
  {
    if a == [] {
      assert a + b == b;
    } else {
      assert (a + b)[0] == a[0];
      assert (a + b)[1..] == a[1..] + b;
      AvailableOfConcat(a[1..], b, followed, filter, statusOf);
    }
  }

  /** A session with a new window that clashes with none of the other sessions
      of its instructor keeps the table disjoint. */
  lemma ReplaceKeepsDisjoint(sessions: seq<Session>, k: nat, s': Session)
    requires Disjoint(sessions) && DistinctSessionIds(sessions) && k < |sessions|
    requires s'.id == sessions[k].id && s'.instructorId == sessions[k].instructorId
    requires FirstClash(sessions, s'.instructorId, s'.start, s'.end, Some(s'.id)).None?
    ensures Disjoint(sessions[k := s'])
  {
    var t := sessions[k := s'];
    forall i, j | 0 <= i < j < |t| && t[i].instructorId == t[j].instructorId
      ensures !Overlaps(t[j].start, t[j].end, t[i])
    {
      if j == k {
        assert !Clashes(sessions[i], s'.instructorId, s'.start, s'.end, Some(s'.id));
      } else if i == k {
        assert !Clashes(sessions[j], s'.instructorId, s'.start, s'.end, Some(s'.id));
      }
    }
  }

  lemma AppendKeepsDisjoint(sessions: seq<Session>, s: Session)
    requires Disjoint(sessions)
    requires FirstClash(sessions, s.instructorId, s.start, s.end, None).None?
    ensures Disjoint(sessions + [s])
  {
    var t := sessions + [s];
    forall i, j | 0 <= i < j < |t| && t[i].instructorId == t[j].instructorId
      ensures !Overlaps(t[j].start, t[j].end, t[i])
    {
      if j == |sessions| {
        assert !Clashes(sessions[i], s.instructorId, s.start, s.end, None);
      }
    }
  }

  class SessionService {
    var sessions: seq<Session>
    var nextId: Id
    /** Each user account's `followedInstructors`. */
    const following: map<Id, seq<Id>>

    ghost predicate Valid()
      reads this
    {
      DistinctSessionIds(sessions) &&
      (forall k :: 0 <= k < |sessions| ==> sessions[k].id < nextId) &&
      Disjoint(sessions)
    }

    constructor (following: map<Id, seq<Id>>)
      ensures Valid() && sessions == [] && this.following == following
    {
      this.following := following;
      sessions := [];
      nextId := 1;
    }

    /** `createSession` by the user whose instructor profile is `actor` (None
        when the account or its profile is missing), `approved` being the
        approved-instructor check; an empty `meetingLink` is replaced by the
        generated `fallbackLink`. */
    method CreateSession(req: SessionRequest, actor: Option<Id>, approved: bool,
                         meetingLink: string, fallbackLink: string) returns (r: Result<Session>)
      requires Valid()
      modifies this
      ensures Valid()
      ensures r.Ok? <==> actor.Some? && approved && req.end > req.start &&
                         FirstClash(old(sessions), actor.value, req.start, req.end, None).None?
      ensures r.Err? ==> r.error == IllegalState && sessions == old(sessions) && nextId == old(nextId)
      ensures r.Ok? ==> r.value == Session(old(nextId), req.title, req.description, req.start, req.end, req.followerOnly,
                                           actor.value, if meetingLink == "" then fallbackLink else meetingLink, Upcoming)
      ensures r.Ok? ==> sessions == old(sessions) + [r.value] && nextId == old(nextId) + 1
    {
      if actor.None? || !approved {
        return Err(IllegalState);
      }
      if !(req.end > req.start) {
        return Err(IllegalState);
      }
      if FirstClash(sessions, actor.value, req.start, req.end, None).Some? {
        return Err(IllegalState);
      }
      var s := Session(nextId, req.title, req.description, req.start, req.end, req.followerOnly,
                       actor.value, if meetingLink == "" then fallbackLink else meetingLink, Upcoming);
      AppendKeepsDisjoint(sessions, s);
      sessions := sessions + [s];
      nextId := nextId + 1;
      r := Ok(s);
    }

    /** `updateSession(sessionId, request)` by `actor`. */
    method UpdateSession(sessionId: Id, req: SessionRequest, actor: Option<Id>, approved: bool) returns (r: Result<Session>)
      requires Valid()
      modifies this
      ensures Valid() && nextId == old(nextId)
      ensures var k := FindSession(old(sessions), sessionId);
              r.Ok? <==> actor.Some? && approved && k.Some? && old(sessions)[k.value].instructorId == actor.value &&
                         req.end > req.start &&
                         FirstClash(old(sessions), actor.value, req.start, req.end, Some(sessionId)).None?
      ensures r.Err? ==> r.error == IllegalState && sessions == old(sessions)
      ensures var k := FindSession(old(sessions), sessionId);
              r.Ok? ==> r.value == old(sessions)[k.value].(title := req.title, description := req.description,
                                                            start := req.start, end := req.end, followerOnly := req.followerOnly) &&
                        sessions == old(sessions)[k.value := r.value]
    {
      if actor.None? || !approved {
        return Err(IllegalState);
      }
      var k := FindSession(sessions, sessionId);
      if k.None? {
        return Err(IllegalState);
      }
      if sessions[k.value].instructorId != actor.value {
        return Err(IllegalState);
      }
      if !(req.end > req.start) {
        return Err(IllegalState);
      }
      if FirstClash(sessions, actor.value, req.start, req.end, Some(sessionId)).Some? {
        return Err(IllegalState);
      }
      var s := sessions[k.value].(title := req.title, description := req.description,
                                  start := req.start, end := req.end, followerOnly := req.followerOnly);
      ReplaceKeepsDisjoint(sessions, k.value, s);
      sessions := sessions[k.value := s];
      r := Ok(s);
    }

    /** `deleteSession(sessionId)` by `actor`. */
    method DeleteSession(sessionId: Id, actor: Option<Id>, approved: bool) returns (r: Result<()>)
      requires Valid()
      modifies this
      ensures Valid() && nextId == old(nextId)
      ensures var k := FindSession(old(sessions), sessionId);
              r.Ok? <==> actor.Some? && approved && k.Some? && old(sessions)[k.value].instructorId == actor.value
      ensures r.Err? ==> r.error == IllegalState && sessions == old(sessions)
      ensures var k := FindSession(old(sessions), sessionId);
              r.Ok? ==> sessions == old(sessions)[..k.value] + old(sessions)[k.value + 1..]
    {
      if actor.None? || !approved {
        return Err(IllegalState);
      }
      var k := FindSession(sessions, sessionId);
      if k.None? {
        return Err(IllegalState);
      }
      if sessions[k.value].instructorId != actor.value {
        return Err(IllegalState);
      }
      RemoveKeepsValid(sessions, k.value, nextId);
      sessions := sessions[..k.value] + sessions[k.value + 1..];
      r := Ok(());
    }

    /** `joinSession(sessionId, studentId)`. */
    function JoinSession(sessionId: Id, studentId: Id): (r: Result<bool>)
      reads this
      ensures FindSession(sessions, sessionId).None? || studentId !in following ==> r == Err(IllegalState)
      ensures r == Ok(true) <==> FindSession(sessions, sessionId).Some? && studentId in following &&
                                 MayJoin(sessions[FindSession(sessions, sessionId).value], following[studentId])
      ensures FindSession(sessions, sessionId).Some? && studentId in following &&
              !MayJoin(sessions[FindSession(sessions, sessionId).value], following[studentId])
              ==> r == Err(AccessDenied)
      ensures r.Ok? ==> r.value
    {
      match FindSession(sessions, sessionId)
      case None => Err(IllegalState)
      case Some(k) =>
        if studentId !in following then Err(IllegalState)
        else if MayJoin(sessions[k], following[studentId]) then Ok(true)
        else Err(AccessDenied)
    }

    /** `getAvailableSessions(studentId, statusFilter)`: the student is looked up
        first, then the filter is resolved; `statusOf` is the current-status rule. */
    function GetAvailableSessions(studentId: Id, statusFilter: Option<string>,
                                  statusOf: (Time, Time) -> SessionStatus): (r: Result<seq<Session>>)
      reads this
      ensures studentId !in following ==> r == Err(IllegalState)
      ensures studentId in following && ResolveFilter(statusFilter).Err? ==> r == Err(IllegalArgument)
      ensures r.Ok? <==> studentId in following && ResolveFilter(statusFilter).Ok?
      ensures r.Ok? ==> r.value == Available(sessions, following[studentId], ResolveFilter(statusFilter).value, statusOf)
      ensures r.Ok? ==> var filter := ResolveFilter(statusFilter).value;
                        forall s :: s in r.value <==> s in sessions && MayJoin(s, following[studentId]) &&
                                                      (filter.Some? ==> statusOf(s.start, s.end) == filter.value)
    {
      if studentId !in following then Err(IllegalState)
      else match ResolveFilter(statusFilter)
        case Err(e) => Err(e)
        case Ok(filter) =>
          AvailableMembers(sessions, following[studentId], filter, statusOf);
          Ok(Available(sessions, following[studentId], filter, statusOf))
    }
  }

  lemma RemoveKeepsValid(sessions: seq<Session>, k: nat, bound: Id)
    requires k < |sessions| && DistinctSessionIds(sessions) && Disjoint(sessions)
    requires forall i :: 0 <= i < |sessions| ==> sessions[i].id < bound
    ensures var t := sessions[..k] + sessions[k + 1..];
            DistinctSessionIds(t) && Disjoint(t) && forall i :: 0 <= i < |t| ==> t[i].id < bound
  {
    var t := sessions[..k] + sessions[k + 1..];
    assert forall i :: 0 <= i < |t| ==> t[i] == sessions[if i < k then i else i + 1];
  }

  /** Listing and joining agree: a session of the table is listed without a
      filter exactly when joining it succeeds. */
  lemma AvailableMatchesJoin(svc: SessionService, studentId: Id, k: nat, statusOf: (Time, Time) -> SessionStatus)
    requires svc.Valid() && k < |svc.sessions| && studentId in svc.following
    ensures svc.GetAvailableSessions(studentId, None, statusOf).Ok?
    ensures svc.sessions[k] in svc.GetAvailableSessions(studentId, None, statusOf).value
            <==> svc.JoinSession(svc.sessions[k].id, studentId) == Ok(true)
  {
    var f := FindSession(svc.sessions, svc.sessions[k].id);
    assert f == Some(k);
  }
}
