/** The rows EventService keeps besides events: registrations, the reminder
    ledger, and the fan-out requests it hands to NotificationService. */
module EventRecords {
  import opened Common
  import opened EventModel

  /** A row of event_registrations. */
  datatype Registration = Registration(eventId: Id, studentId: Id, checkedIn: bool, checkInTime: Option<Time>)

  /** A row of event_reminders: the ledger entry that gates one (event, lead time) reminder. */
  datatype EventReminder = EventReminder(eventId: Id, hoursBefore: int, sentAt: Time)

  /** What a fan-out announces (the title and message text are not modelled). */
  datatype Topic =
    | EventCancelled(eventId: Id)
    | EventReminderNotice(eventId: Id, hoursBefore: int)
    | EventStatusNotice(eventId: Id, status: EventStatus)

  /** One call of `createNotificationsWithPagination(userIds, ..., EVENT, role)`. */
  datatype FanOut = FanOut(userIds: seq<Id>, topic: Topic, role: Role)

  /** `eventRepository.findById`: the first row with that id. */
  function FindEvent(events: seq<Event>, id: Id): (r: Option<nat>)
    ensures r.Some? ==> r.value < |events| && events[r.value].id == id
    ensures r.Some? ==> forall k :: 0 <= k < r.value ==> events[k].id != id
    ensures r.None? ==> forall k :: 0 <= k < |events| ==> events[k].id != id
  {
    FindByIdFirst(events, (x: Event) => x.id, id);
    FindById(events, (x: Event) => x.id, id)
  }

  predicate Registers(r: Registration, eventId: Id, userId: Id) {
    r.eventId == eventId && r.studentId == userId
  }

  /** `findByEventAndStudent`: the index of the registration of (event, user). */
  function FindRegistration(regs: seq<Registration>, eventId: Id, userId: Id): (r: Option<nat>)
    ensures r.Some? ==> r.value < |regs| && Registers(regs[r.value], eventId, userId)
    ensures r.Some? ==> forall k :: 0 <= k < r.value ==> !Registers(regs[k], eventId, userId)
    ensures r.None? ==> forall k :: 0 <= k < |regs| ==> !Registers(regs[k], eventId, userId)
  {
    if regs == [] then None
    else if Registers(regs[0], eventId, userId) then Some(0)
    else match FindRegistration(regs[1..], eventId, userId)
      case None => None
      case Some(k) => Some(k + 1)
  }

  /** `findAllByEvent(event)` mapped to student ids, in table order. */
  function RegistrantsOf(regs: seq<Registration>, eventId: Id): (ids: seq<Id>)
    ensures |ids| <= |regs|
    ensures forall u :: u in ids <==> exists r :: r in regs && Registers(r, eventId, u)
  {
    if regs == [] then []
    else
      var rest := RegistrantsOf(regs[1..], eventId);
      var head := if regs[0].eventId == eventId then [regs[0].studentId] else [];
      assert regs == [regs[0]] + regs[1..];
      assert forall u :: u in head + rest <==> u in head || u in rest;
      assert forall u :: u in head <==> Registers(regs[0], eventId, u);
      head + rest
  }

  /** At most one registration per (event, user): the store's uniqueness rule. */
  predicate UniqueRegistrations(regs: seq<Registration>) {
    forall i, j :: 0 <= i < j < |regs| ==>
      !(regs[i].eventId == regs[j].eventId && regs[i].studentId == regs[j].studentId)
  }

  /** At most one ledger row per (event, lead time). */
  predicate UniqueReminders(rows: seq<EventReminder>) {
    forall i, j :: 0 <= i < j < |rows| ==>
      !(rows[i].eventId == rows[j].eventId && rows[i].hoursBefore == rows[j].hoursBefore)
  }

  /** `existsByEventIdAndHoursBefore`. */
  predicate HasReminder(rows: seq<EventReminder>, eventId: Id, hoursBefore: int) {
    exists k :: 0 <= k < |rows| && rows[k].eventId == eventId && rows[k].hoursBefore == hoursBefore
  }

  /** Appending a row for a pair that has none keeps the ledger unique. */
  lemma AppendKeepsRemindersUnique(rows: seq<EventReminder>, row: EventReminder)
    requires UniqueReminders(rows)
    requires !HasReminder(rows, row.eventId, row.hoursBefore)
    ensures UniqueReminders(rows + [row])
  {
    var rows' := rows + [row];
    forall i, j | 0 <= i < j < |rows'|
      ensures !(rows'[i].eventId == rows'[j].eventId && rows'[i].hoursBefore == rows'[j].hoursBefore)
    {
      if j == |rows| {
        assert rows'[i] == rows[i];
      }
    }
  }

  /** A new registration row extends the event's registrant list at its end. */
  lemma {:induction false} RegistrantsAppend(regs: seq<Registration>, r: Registration, eventId: Id)
    ensures RegistrantsOf(regs + [r], eventId)
            == RegistrantsOf(regs, eventId) + (if r.eventId == eventId then [r.studentId] else [])
    decreases |regs|
  {
    if regs == [] {
      assert [r][1..] == [];
    } else {
      assert (regs + [r])[1..] == regs[1..] + [r];
      RegistrantsAppend(regs[1..], r, eventId);
    }
  }

  /** `deleteByEventAndStudent`: every row of that pair goes, the rest keep their order. */
  function WithoutRegistration(regs: seq<Registration>, eventId: Id, userId: Id): (regs': seq<Registration>)
    ensures |regs'| <= |regs|
    ensures forall r :: r in regs' <==> r in regs && !Registers(r, eventId, userId)
    ensures UniqueRegistrations(regs) ==> UniqueRegistrations(regs')
  {
    if regs == [] then []
    else
      var rest := WithoutRegistration(regs[1..], eventId, userId);
      assert regs == [regs[0]] + regs[1..];
      UniqueTail(regs);
      if Registers(regs[0], eventId, userId) then rest
      else
        UniqueCons(regs[0], rest);
        [regs[0]] + rest
  }

  /** The cascade of deleting an event: all of its registrations go with it. */
  function WithoutEventRegistrations(regs: seq<Registration>, eventId: Id): (regs': seq<Registration>)
    ensures |regs'| <= |regs|
    ensures forall r :: r in regs' <==> r in regs && r.eventId != eventId
    ensures UniqueRegistrations(regs) ==> UniqueRegistrations(regs')
  {
    if regs == [] then []
    else
      var rest := WithoutEventRegistrations(regs[1..], eventId);
      assert regs == [regs[0]] + regs[1..];
      UniqueTail(regs);
      if regs[0].eventId == eventId then rest
      else
        UniqueCons(regs[0], rest);
        [regs[0]] + rest
  }

  /** A unique table stays unique without its first row, and that row shares
      its pair with no later row. */
  lemma UniqueTail(regs: seq<Registration>)
    requires regs != []
    ensures UniqueRegistrations(regs) ==> UniqueRegistrations(regs[1..])
    ensures UniqueRegistrations(regs) ==> forall r :: r in regs[1..] ==> !Registers(r, regs[0].eventId, regs[0].studentId)
  {
    if UniqueRegistrations(regs) {
      forall r | r in regs[1..]
        ensures !Registers(r, regs[0].eventId, regs[0].studentId)
      {
        var k :| 0 <= k < |regs[1..]| && regs[1..][k] == r;
        assert regs[k + 1] == r;
      }
    }
  }

  lemma UniqueCons(x: Registration, rest: seq<Registration>)
    ensures UniqueRegistrations(rest) && (forall r :: r in rest ==> !Registers(r, x.eventId, x.studentId))
            ==> UniqueRegistrations([x] + rest)
  {
    if UniqueRegistrations(rest) && (forall r :: r in rest ==> !Registers(r, x.eventId, x.studentId)) {
      var all := [x] + rest;
      forall i, j | 0 <= i < j < |all|
        ensures !(all[i].eventId == all[j].eventId && all[i].studentId == all[j].studentId)
      {
        if i == 0 {
          assert all[j] == rest[j - 1] && all[j] in rest;
        } else {
          assert all[i] == rest[i - 1] && all[j] == rest[j - 1];
        }
      }
    }
  }
}
