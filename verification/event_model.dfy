/** The Event entity and its derived lifecycle status (`Event.updateStatus`),
    with the wall clock passed in as `now`. */
module EventModel {
  import opened Common

  datatype EventStatus = Upcoming | Ongoing | Ended

  /** A row of the events table. `status` is derived from the window and the
      clock; what is stored may be stale until it is recomputed. */
  datatype Event = Event(
    id: Id,
    title: string,
    description: Option<string>,
    start: Time,
    end: Time,
    isOnline: bool,
    location: Option<string>,
    meetingLink: Option<string>,
    imageUrl: Option<string>,
    maxParticipants: Option<int>,
    status: EventStatus)

  /** The status `updateStatus` assigns for the window [start, end] at `now`:
      both boundaries count as ONGOING and ENDED needs `now` strictly after
      the end. */
  function StatusAt(start: Time, end: Time, now: Time): (s: EventStatus)
    ensures s == Upcoming <==> now < start
    ensures s == Ended <==> start <= now && end < now
    ensures s == Ongoing <==> start <= now <= end
  {
    if now < start then Upcoming
    else if now > end then Ended
    else Ongoing
  }

  /** Position of a status in the lifecycle order. */
  function Rank(s: EventStatus): (r: nat)
    ensures r <= 2
    ensures (r == 0 <==> s == Upcoming) && (r == 2 <==> s == Ended)
  {
    match s
    case Upcoming => 0
    case Ongoing => 1
    case Ended => 2
  }

  /** For a fixed window the status never moves backwards as the clock advances. */
  lemma StatusMonotone(start: Time, end: Time, t1: Time, t2: Time)
    requires t1 <= t2
    ensures Rank(StatusAt(start, end, t1)) <= Rank(StatusAt(start, end, t2))
    ensures StatusAt(start, end, t1) == Ended ==> StatusAt(start, end, t2) == Ended
  {
  }

  /** `Event.updateStatus`: recompute the derived status and touch nothing else. */
  function UpdateStatus(e: Event, now: Time): (e': Event)
    ensures e'.status == StatusAt(e.start, e.end, now)
    ensures e'.(status := e.status) == e
  {
    e.(status := StatusAt(e.start, e.end, now))
  }

  /** `new Event()` with its fields set: the field initialiser makes the status
      UPCOMING until the first recompute. */
  function NewEvent(id: Id, title: string, description: Option<string>, start: Time, end: Time, isOnline: bool,
                    location: Option<string>, meetingLink: Option<string>, imageUrl: Option<string>,
                    maxParticipants: Option<int>): (e: Event)
    ensures e.status == Upcoming
    ensures e.id == id && e.title == title && e.description == description && e.start == start && e.end == end
    ensures e.isOnline == isOnline && e.location == location
    ensures e.meetingLink == meetingLink && e.imageUrl == imageUrl && e.maxParticipants == maxParticipants
  {
    Event(id, title, description, start, end, isOnline, location, meetingLink, imageUrl, maxParticipants, Upcoming)
  }

  /** One event with the window [10:00, 11:00], observed before, at and after it. */
  lemma StatusScenario()
    ensures StatusAt(10 * HOUR, 11 * HOUR, 10 * HOUR - 10 * MINUTE) == Upcoming
    ensures StatusAt(10 * HOUR, 11 * HOUR, 10 * HOUR) == Ongoing
    ensures StatusAt(10 * HOUR, 11 * HOUR, 11 * HOUR) == Ongoing
    ensures StatusAt(10 * HOUR, 11 * HOUR, 11 * HOUR + MINUTE) == Ended
  {
  }
}
