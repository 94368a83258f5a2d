/** The check-in guard of `EventService.validateQRCode` and the sweep of
    `cleanUpRecentCheckIns`, as pure decisions over the service's state. The
    in-memory map keyed "eventId:userId" is a map from (route event id, user id)
    to the instant of the last accepted check-in. */
module CheckIn {
  import opened Common
  import opened EventModel
  import opened QRCode
  import opened EventRecords

  const CHECK_IN_COOLDOWN: int := 30
  const EARLY_CHECK_IN: int := 10 * MINUTE

  /** The key "eventId:userId": the route's event id and the QR's student id. */
  type CheckInKey = (Id, Id)

  function LastCheckIn(recent: map<CheckInKey, Time>, key: CheckInKey): Option<Time> {
    if key in recent then Some(recent[key]) else None
  }

  /** `lastCheckIn != null && now.isBefore(lastCheckIn + 30 s)`. */
  predicate CooldownActive(last: Option<Time>, now: Time) {
    last.Some? && now < last.value + CHECK_IN_COOLDOWN
  }

  /** Not before ten minutes ahead of the start and not after the end: the window
      for scanning a QR code and for joining an online event. */
  predicate InAttendanceWindow(e: Event, now: Time) {
    !(now < e.start - EARLY_CHECK_IN || now > e.end)
  }

  /** Where `validateQRCode` stops, in the order its guards are evaluated. */
  datatype Verdict =
    | RejectMalformed          // InvalidQRCodeException / IOException: caught, false
    | RaiseClassCast           // an id that is not a number: escapes the catch
    | RaiseNullPointer         // the document `null`: escapes the catch
    | RejectCooldown
    | RejectMismatch
    | RaiseEventNotFound
    | RaiseUserNotFound
    | RejectOutsideWindow
    | RejectNotRegistered
    | RejectAlreadyCheckedIn
    | Accept(index: nat, userId: Id)   // the registration row to flip and the student

  /** The value or exception the call ends with. */
  function Outcome(v: Verdict): (r: Result<bool>)
    ensures r == Ok(true) <==> v.Accept?
    ensures r == Err(ClassCast) <==> v == RaiseClassCast
    ensures r == Err(NullPointer) <==> v == RaiseNullPointer
    ensures r == Err(ResourceNotFound) <==> v == RaiseEventNotFound || v == RaiseUserNotFound
    ensures r.Err? ==> r.error in {ClassCast, NullPointer, ResourceNotFound}
  {
    match v
    case Accept(_, _) => Ok(true)
    case RaiseClassCast => Err(ClassCast)
    case RaiseNullPointer => Err(NullPointer)
    case RaiseEventNotFound => Err(ResourceNotFound)
    case RaiseUserNotFound => Err(ResourceNotFound)
    case _ => Ok(false)
  }

  /** The student a payload that parsed names. */
  function ScannedStudent(doc: Document): Id
    requires ParseQRCodeData(doc).Ok?
  {
    ParseQRCodeData(doc).value["studentId"]
  }

  /** The payload parsed and no check-in of that student for the route event
      lies within the cooldown. */
  predicate PastCooldown(eventId: Id, doc: Document, recent: map<CheckInKey, Time>, now: Time) {
    ParseQRCodeData(doc).Ok? && !CooldownActive(LastCheckIn(recent, (eventId, ScannedStudent(doc))), now)
  }

  /** Past the cooldown, and the payload names the route's event. */
  predicate PastMatch(eventId: Id, doc: Document, recent: map<CheckInKey, Time>, now: Time) {
    PastCooldown(eventId, doc, recent, now) && ParseQRCodeData(doc).value["eventId"] == eventId
  }

  /** Past the match, and both the event and the student exist. */
  predicate PastLookups(eventId: Id, doc: Document, recent: map<CheckInKey, Time>, events: seq<Event>,
                        users: map<Id, User>, now: Time) {
    PastMatch(eventId, doc, recent, now) && FindEvent(events, eventId).Some? && ScannedStudent(doc) in users
  }

  /** Past the lookups, and the scan falls in the attendance window. */
  predicate PastWindow(eventId: Id, doc: Document, recent: map<CheckInKey, Time>, events: seq<Event>,
                       users: map<Id, User>, now: Time) {
    PastLookups(eventId, doc, recent, events, users, now) &&
    InAttendanceWindow(events[FindEvent(events, eventId).value], now)
  }

  /** Past the window, and the student holds a registration for the event. */
  predicate PastRegistration(eventId: Id, doc: Document, recent: map<CheckInKey, Time>, events: seq<Event>,
                             users: map<Id, User>, regs: seq<Registration>, now: Time) {
    PastWindow(eventId, doc, recent, events, users, now) &&
    FindRegistration(regs, eventId, ScannedStudent(doc)).Some?
  }

  /** The guard chain of `validateQRCode(eventId, qrData)` at instant `now`: each
      verdict is reached exactly when every earlier guard passes and its own fails. */
  function Decide(eventId: Id, doc: Document, recent: map<CheckInKey, Time>, events: seq<Event>,
                  users: map<Id, User>, regs: seq<Registration>, now: Time): (v: Verdict)
    ensures v == RejectMalformed <==> ParseQRCodeData(doc) == Err(InvalidQRCode)
    ensures v == RaiseClassCast <==> ParseQRCodeData(doc) == Err(ClassCast)
    ensures v == RaiseNullPointer <==> ParseQRCodeData(doc) == Err(NullPointer)
    ensures v == RejectCooldown <==> ParseQRCodeData(doc).Ok? && !PastCooldown(eventId, doc, recent, now)
    ensures v == RejectMismatch <==>
              PastCooldown(eventId, doc, recent, now) && ParseQRCodeData(doc).value["eventId"] != eventId
    ensures v == RaiseEventNotFound <==> PastMatch(eventId, doc, recent, now) && FindEvent(events, eventId).None?
    ensures v == RaiseUserNotFound <==>
              PastMatch(eventId, doc, recent, now) && FindEvent(events, eventId).Some? && ScannedStudent(doc) !in users
    ensures v == RejectOutsideWindow <==>
              PastLookups(eventId, doc, recent, events, users, now) &&
              !InAttendanceWindow(events[FindEvent(events, eventId).value], now)
    ensures v == RejectNotRegistered <==>
              PastWindow(eventId, doc, recent, events, users, now) &&
              FindRegistration(regs, eventId, ScannedStudent(doc)).None?
    ensures v == RejectAlreadyCheckedIn <==>
              PastRegistration(eventId, doc, recent, events, users, regs, now) &&
              regs[FindRegistration(regs, eventId, ScannedStudent(doc)).value].checkedIn
    ensures v.Accept? <==>
              PastRegistration(eventId, doc, recent, events, users, regs, now) &&
              !regs[FindRegistration(regs, eventId, ScannedStudent(doc)).value].checkedIn
    ensures v.Accept? ==> ParseQRCodeData(doc).value == map["eventId" := eventId, "studentId" := v.userId]
    ensures v.Accept? ==> FindRegistration(regs, eventId, v.userId) == Some(v.index)
    ensures v.Accept? ==> !CooldownActive(LastCheckIn(recent, (eventId, v.userId)), now)
    ensures v.Accept? ==> InAttendanceWindow(events[FindEvent(events, eventId).value], now)
    ensures v.Accept? ==> !regs[v.index].checkedIn
  {
    match ParseQRCodeData(doc)
    case Err(e) =>
      if e == ClassCast then RaiseClassCast
      else if e == NullPointer then RaiseNullPointer
      else RejectMalformed
    case Ok(info) =>
      var qrEventId := info["eventId"];
      var userId := info["studentId"];
      if CooldownActive(LastCheckIn(recent, (eventId, userId)), now) then RejectCooldown
      else if qrEventId != eventId then RejectMismatch
      else match FindEvent(events, eventId)
        case None => RaiseEventNotFound
        case Some(ei) =>
          if userId !in users then RaiseUserNotFound
          else if !InAttendanceWindow(events[ei], now) then RejectOutsideWindow
          else match FindRegistration(regs, eventId, userId)
            case None => RejectNotRegistered
            case Some(ri) =>
              if regs[ri].checkedIn then RejectAlreadyCheckedIn
              else Accept(ri, userId)
  }

  /** What `validateQRCode` answers, by the guards: true exactly when every guard
      passes; ResourceNotFound exactly when the payload matches the route but the
      event or the student is missing; false for a malformed payload, a repeat
      within the cooldown, a mismatch, a scan outside the window, a student who
      is not registered or one already checked in. */
  lemma ValidationAnswers(eventId: Id, doc: Document, recent: map<CheckInKey, Time>, events: seq<Event>,
                          users: map<Id, User>, regs: seq<Registration>, now: Time)
    ensures var r := Outcome(Decide(eventId, doc, recent, events, users, regs, now));
            r == Ok(true) <==> PastRegistration(eventId, doc, recent, events, users, regs, now) &&
                               !regs[FindRegistration(regs, eventId, ScannedStudent(doc)).value].checkedIn
    ensures var r := Outcome(Decide(eventId, doc, recent, events, users, regs, now));
            r == Err(ResourceNotFound) <==> PastMatch(eventId, doc, recent, now) &&
                                            !PastLookups(eventId, doc, recent, events, users, now)
    ensures var r := Outcome(Decide(eventId, doc, recent, events, users, regs, now));
            r == Ok(false) <==>
              ParseQRCodeData(doc) == Err(InvalidQRCode) ||
              (ParseQRCodeData(doc).Ok? && !PastMatch(eventId, doc, recent, now)) ||
              (PastLookups(eventId, doc, recent, events, users, now) &&
               !(PastRegistration(eventId, doc, recent, events, users, regs, now) &&
                 !regs[FindRegistration(regs, eventId, ScannedStudent(doc)).value].checkedIn))
  {
  }

  /** The registrations after an accepted check-in: only that row changes. */
  function CheckInRegistration(regs: seq<Registration>, index: nat, now: Time): (regs': seq<Registration>)
    requires index < |regs|
    ensures |regs'| == |regs|
    ensures regs'[index].eventId == regs[index].eventId && regs'[index].studentId == regs[index].studentId
    ensures regs'[index].checkedIn && regs'[index].checkInTime == Some(now)
    ensures forall k :: 0 <= k < |regs| && k != index ==> regs'[k] == regs[k]
  {
    regs[index := regs[index].(checkedIn := true, checkInTime := Some(now))]
  }

  /** Exactly once: after a check-in is accepted, no later scan of any QR code for
      the same event and student is accepted again, whatever the clock says. */
  lemma CheckInAcceptedOnce(eventId: Id, doc: Document, recent: map<CheckInKey, Time>, events: seq<Event>,
                            users: map<Id, User>, regs: seq<Registration>, now: Time,
                            doc': Document, later: Time)
    requires Decide(eventId, doc, recent, events, users, regs, now).Accept?
    requires ParseQRCodeData(doc') == ParseQRCodeData(doc)
    ensures var v := Decide(eventId, doc, recent, events, users, regs, now);
            var recent' := recent[(eventId, v.userId) := now];
            var regs' := CheckInRegistration(regs, v.index, now);
            !Decide(eventId, doc', recent', events, users, regs', later).Accept?
  {
    var v := Decide(eventId, doc, recent, events, users, regs, now);
    var regs' := CheckInRegistration(regs, v.index, now);
    var found := FindRegistration(regs', eventId, v.userId);
    assert Registers(regs'[v.index], eventId, v.userId);
    assert found.Some? && found.value <= v.index;
    assert found == Some(v.index);
  }

  /** The cooldown: within 30 seconds of an accepted check-in, a scan for the same
      route event and student is refused before anything else is looked at. */
  lemma CooldownRefusesRepeat(eventId: Id, doc': Document, recent: map<CheckInKey, Time>, events: seq<Event>,
                              users: map<Id, User>, regs: seq<Registration>, userId: Id, at: Time, later: Time)
    requires ParseQRCodeData(doc').Ok? && ParseQRCodeData(doc').value["studentId"] == userId
    requires at <= later < at + CHECK_IN_COOLDOWN
    ensures Decide(eventId, doc', recent[(eventId, userId) := at], events, users, regs, later) == RejectCooldown
  {
  }

  /** `cleanUpRecentCheckIns`: drop every entry with `now` strictly after its
      instant plus the cooldown. */
  function SweepCheckIns(recent: map<CheckInKey, Time>, now: Time): (swept: map<CheckInKey, Time>)
    ensures forall k :: k in swept <==> k in recent && now <= recent[k] + CHECK_IN_COOLDOWN
    ensures forall k :: k in swept ==> swept[k] == recent[k]
  {
    map k | k in recent && !(now > recent[k] + CHECK_IN_COOLDOWN) :: recent[k]
  }

  /** The sweep is invisible to the guard: from its instant on, every key gets
      the same cooldown answer as before. */
  lemma SweepKeepsCooldownVerdicts(recent: map<CheckInKey, Time>, now: Time, key: CheckInKey, later: Time)
    requires now <= later
    ensures CooldownActive(LastCheckIn(SweepCheckIns(recent, now), key), later)
            == CooldownActive(LastCheckIn(recent, key), later)
  {
  }
}
