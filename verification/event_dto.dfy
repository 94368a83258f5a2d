/** `EventDTO.fromEntity`: the view of an event the API returns, with the
    participant count and the remaining capacity computed from its
    registrations. */
module EventDto {
  import opened Common
  import opened EventModel
  import opened EventRecords

  datatype EventView = EventView(
    id: Id,
    title: string,
    description: Option<string>,
    start: Time,
    end: Time,
    isOnline: bool,
    location: Option<string>,
    meetingLink: Option<string>,
    imageUrl: Option<string>,
    maxParticipants: Option<int>,
    currentParticipants: int,
    capacityLeft: Option<int>,
    status: string)

  /** `EventStatus.name()`. */
  function StatusName(s: EventStatus): (n: string)
    ensures |n| > 0
  {
    match s
    case Upcoming => "UPCOMING"
    case Ongoing => "ONGOING"
    case Ended => "ENDED"
  }

  /** `EventStatus.valueOf(name)`: the constant of that exact name, if any. */
  function StatusFromName(n: string): (s: Option<EventStatus>)
    ensures forall st :: s == Some(st) <==> StatusName(st) == n
  {
    if n == "UPCOMING" then Some(Upcoming)
    else if n == "ONGOING" then Some(Ongoing)
    else if n == "ENDED" then Some(Ended)
    else None
  }

  /** The status name in a view always reads back as the status it came from. */
  lemma StatusNameRoundTrip(s: EventStatus)
    ensures StatusFromName(StatusName(s)) == Some(s)
  {
  }

  /** `fromEntity(event)`: every stored field copied, the registration count,
      and `maxParticipants - count` in Java `int` arithmetic when a cap is set. */
  function FromEntity(e: Event, regs: seq<Registration>): (d: EventView)
    ensures d.id == e.id && d.title == e.title && d.description == e.description
    ensures d.start == e.start && d.end == e.end
    ensures d.isOnline == e.isOnline && d.location == e.location && d.meetingLink == e.meetingLink
    ensures d.imageUrl == e.imageUrl
    ensures d.maxParticipants == e.maxParticipants
    ensures d.currentParticipants == |RegistrantsOf(regs, e.id)|
    ensures d.capacityLeft.Some? <==> e.maxParticipants.Some?
    ensures e.maxParticipants.Some? ==>
              d.capacityLeft.value == Wrap32(e.maxParticipants.value - |RegistrantsOf(regs, e.id)|)
    ensures StatusFromName(d.status) == Some(e.status)
  {
    var count := |RegistrantsOf(regs, e.id)|;
    EventView(e.id, e.title, e.description, e.start, e.end, e.isOnline, e.location, e.meetingLink, e.imageUrl,
              e.maxParticipants,
              count,
              if e.maxParticipants.Some? then Some(Wrap32(e.maxParticipants.value - count)) else None,
              StatusName(e.status))
  }

  /** For a cap that fits in an `int` and was respected at registration, the
      remaining capacity is the plain difference and lies between 0 and the cap. */
  lemma CapacityLeftWithinCap(e: Event, regs: seq<Registration>)
    requires e.maxParticipants.Some? && e.maxParticipants.value < 0x8000_0000
    requires |RegistrantsOf(regs, e.id)| <= e.maxParticipants.value
    ensures var d := FromEntity(e, regs);
            d.capacityLeft == Some(e.maxParticipants.value - d.currentParticipants) &&
            0 <= d.capacityLeft.value <= e.maxParticipants.value
  {
  }
}
