/** `EventService`: registrations, QR check-in, online joining, deletion and
    the two scheduled passes over the events table. Repositories are fields of
    the service object; the notification fan-outs it requests are appended to
    `fanOuts`. Every failing call throws before it writes, or is rolled back by
    its transaction, so an `Err` result leaves the state as it was. */
module EventServiceModel {
  import opened Common
  import opened EventModel
  import opened QRCode
  import opened EventRecords
  import opened CheckIn
  import opened EventSweeps

  predicate DistinctEventIds(events: seq<Event>) {
    forall i, j :: 0 <= i < j < |events| ==> events[i].id != events[j].id
  }

  /** Deleting one row keeps the event ids distinct. */
  lemma RemoveKeepsDistinctEventIds(events: seq<Event>, i: nat)
    requires i < |events| && DistinctEventIds(events)
    ensures DistinctEventIds(events[..i] + events[i + 1..])
  {
    var rest := events[..i] + events[i + 1..];
    forall a, b | 0 <= a < b < |rest|
      ensures rest[a].id != rest[b].id
    {
      var a' := if a < i then a else a + 1;
      var b' := if b < i then b else b + 1;
      assert rest[a] == events[a'] && rest[b] == events[b'];
    }
  }

  /** `validateEventDates`: both instants present and the end strictly after the start. */
  function ValidateEventDates(start: Option<Time>, end: Option<Time>): (r: Result<()>)
    ensures r.Ok? <==> start.Some? && end.Some? && start.value < end.value
    ensures r.Err? ==> r.error == EventServiceError(BadRequest)
  {
    if start.None? || end.None? || !(end.value > start.value) then Err(EventServiceError(BadRequest))
    else Ok(())
  }

  /** The check that only admins pass: a user without a role fails on the
      dereference, any other role is forbidden. */
  function RequireAdmin(users: map<Id, User>, adminId: Id): (r: Result<()>)
    ensures r.Ok? <==> adminId in users && users[adminId].role == Some(AdminRole)
    ensures adminId !in users ==> r == Err(ResourceNotFound)
    ensures adminId in users && users[adminId].role.None? ==> r == Err(NullPointer)
    ensures adminId in users && users[adminId].role.Some? && users[adminId].role != Some(AdminRole)
            ==> r == Err(EventServiceError(Forbidden))
  {
    if adminId !in users then Err(ResourceNotFound)
    else match users[adminId].role
      case None => Err(NullPointer)
      case Some(role) => if role == AdminRole then Ok(()) else Err(EventServiceError(Forbidden))
  }

  class EventService {
    var events: seq<Event>
    var users: map<Id, User>
    var registrations: seq<Registration>
    var reminders: seq<EventReminder>
    var recentCheckIns: map<CheckInKey, Time>
    var fanOuts: seq<FanOut>

    /** The uniqueness rules of the tables the service writes. */
    ghost predicate Valid()
      reads this
    {
      DistinctEventIds(events) && UniqueRegistrations(registrations) && UniqueReminders(reminders)
    }

    constructor (events: seq<Event>, users: map<Id, User>, registrations: seq<Registration>, reminders: seq<EventReminder>)
      requires DistinctEventIds(events) && UniqueRegistrations(registrations) && UniqueReminders(reminders)
      ensures Valid()
      ensures this.events == events && this.users == users
      ensures this.registrations == registrations && this.reminders == reminders
      ensures recentCheckIns == map[] && fanOuts == []
    {
      this.events := events;
      this.users := users;
      this.registrations := registrations;
      this.reminders := reminders;
      recentCheckIns := map[];
      fanOuts := [];
    }

    /** `validateQRCode(eventId, qrData)` at instant `now`: the verdict of the guard
        chain decides the answer; only an accepted scan writes, flipping exactly
        that registration and stamping the cooldown entry of the route key. */
    method ValidateQRCode(eventId: Id, doc: Document, now: Time) returns (r: Result<bool>)
      requires Valid()
      modifies this
      ensures Valid()
      ensures var v := Decide(eventId, doc, old(recentCheckIns), events, users, old(registrations), now);
              r == Outcome(v) &&
              (v.Accept? ==> registrations == CheckInRegistration(old(registrations), v.index, now) &&
                             recentCheckIns == old(recentCheckIns)[(eventId, v.userId) := now]) &&
              (!v.Accept? ==> registrations == old(registrations) && recentCheckIns == old(recentCheckIns))
      ensures events == old(events) && users == old(users)
      ensures reminders == old(reminders) && fanOuts == old(fanOuts)
    {
      var v := Decide(eventId, doc, recentCheckIns, events, users, registrations, now);
      if v.Accept? {
        var regs' := CheckInRegistration(registrations, v.index, now);
        assert UniqueRegistrations(regs') by {
          forall i, j | 0 <= i < j < |regs'|
            ensures !(regs'[i].eventId == regs'[j].eventId && regs'[i].studentId == regs'[j].studentId)
          {
            assert registrations[i].eventId == regs'[i].eventId && registrations[i].studentId == regs'[i].studentId;
            assert registrations[j].eventId == regs'[j].eventId && registrations[j].studentId == regs'[j].studentId;
          }
        }
        registrations := regs';
        recentCheckIns := recentCheckIns[(eventId, v.userId) := now];
      }
      r := Outcome(v);
    }

    /** `cleanUpRecentCheckIns` at instant `now`. */
    method CleanUpRecentCheckIns(now: Time)
      modifies this
      ensures recentCheckIns == SweepCheckIns(old(recentCheckIns), now)
      ensures events == old(events) && users == old(users) && registrations == old(registrations)
      ensures reminders == old(reminders) && fanOuts == old(fanOuts)
    {
      recentCheckIns := SweepCheckIns(recentCheckIns, now);
    }

    /** `registerForEvent`: the stored status must be UPCOMING, the pair new and
        the cap (if any) not yet reached; the new row is not checked in. An
        in-person event answers with the QR payload; when rendering it fails the
        transaction rolls the registration back. */
    method RegisterForEvent(eventId: Id, userId: Id, renderFails: bool) returns (r: Result<Option<map<string, JsonValue>>>)
      requires Valid()
      modifies this
      ensures Valid()
      ensures FindEvent(old(events), eventId).None? ==> r == Err(ResourceNotFound)
      ensures FindEvent(old(events), eventId).Some? && userId !in users ==> r == Err(ResourceNotFound)
      ensures var ei := FindEvent(old(events), eventId);
              ei.Some? && userId in users && old(events)[ei.value].status != Upcoming ==>
              r == Err(EventServiceError(BadRequest))
      ensures var ei := FindEvent(old(events), eventId);
              ei.Some? && userId in users && old(events)[ei.value].status == Upcoming &&
              FindRegistration(old(registrations), eventId, userId).Some? ==>
              r == Err(EventServiceError(Conflict))
      ensures var ei := FindEvent(old(events), eventId);
              r.Ok? ==>
              ei.Some? && old(events)[ei.value].status == Upcoming && userId in users &&
              FindRegistration(old(registrations), eventId, userId).None? &&
              (old(events)[ei.value].maxParticipants.Some? ==>
                 |RegistrantsOf(old(registrations), eventId)| < old(events)[ei.value].maxParticipants.value) &&
              r.value == (if old(events)[ei.value].isOnline then None else Some(QRPayload(eventId, userId)))
      ensures var ei := FindEvent(old(events), eventId);
              ei.Some? && userId in users && old(events)[ei.value].status == Upcoming &&
              FindRegistration(old(registrations), eventId, userId).None? ==>
              var e := old(events)[ei.value];
              var full := e.maxParticipants.Some? && |RegistrantsOf(old(registrations), eventId)| >= e.maxParticipants.value;
              (full ==> r == Err(EventServiceError(Conflict))) &&
              (!full && !e.isOnline && renderFails ==> r == Err(EventServiceError(InternalServerError))) &&
              (!full && (e.isOnline || !renderFails) ==> r.Ok?)
      ensures r.Ok? ==> registrations == old(registrations) + [Registration(eventId, userId, false, None)]
      ensures r.Err? ==> registrations == old(registrations)
      ensures events == old(events) && users == old(users) && recentCheckIns == old(recentCheckIns)
      ensures reminders == old(reminders) && fanOuts == old(fanOuts)
    {
      var ei := FindEvent(events, eventId);
      if ei.None? {
        return Err(ResourceNotFound);
      }
      if userId !in users {
        return Err(ResourceNotFound);
      }
      var event := events[ei.value];
      if event.status != Upcoming {
        return Err(EventServiceError(BadRequest));
      }
      if FindRegistration(registrations, eventId, userId).Some? {
        return Err(EventServiceError(Conflict));
      }
      if event.maxParticipants.Some? && |RegistrantsOf(registrations, eventId)| >= event.maxParticipants.value {
        return Err(EventServiceError(Conflict));
      }
      if !event.isOnline && renderFails {
        return Err(EventServiceError(InternalServerError));
      }
      var row := Registration(eventId, userId, false, None);
      UniqueAppend(registrations, row);
      registrations := registrations + [row];
      r := Ok(if event.isOnline then None else Some(QRPayload(eventId, userId)));
    }

    /** `joinOnlineEvent` at instant `now`: the meeting link, for an online event,
        to an admin or a registrant, inside the attendance window. */
    function JoinOnlineEvent(eventId: Id, userId: Id, now: Time): (r: Result<Option<string>>)
      reads this
      ensures r.Ok? <==> FindEvent(events, eventId).Some? && userId in users && users[userId].role.Some? &&
                         events[FindEvent(events, eventId).value].isOnline &&
                         (users[userId].role == Some(AdminRole) || FindRegistration(registrations, eventId, userId).Some?) &&
                         InAttendanceWindow(events[FindEvent(events, eventId).value], now)
      ensures r.Ok? ==> r.value == events[FindEvent(events, eventId).value].meetingLink
      ensures FindEvent(events, eventId).None? ==> r == Err(ResourceNotFound)
      ensures FindEvent(events, eventId).Some? && userId !in users ==> r == Err(ResourceNotFound)
      ensures FindEvent(events, eventId).Some? && !events[FindEvent(events, eventId).value].isOnline && userId in users
              ==> r == Err(EventServiceError(BadRequest))
      ensures FindEvent(events, eventId).Some? && events[FindEvent(events, eventId).value].isOnline && userId in users &&
              users[userId].role.None?
              ==> r == Err(NullPointer)
      ensures FindEvent(events, eventId).Some? && events[FindEvent(events, eventId).value].isOnline && userId in users &&
              users[userId].role.Some? && users[userId].role != Some(AdminRole) &&
              FindRegistration(registrations, eventId, userId).None?
              ==> r == Err(EventServiceError(Forbidden))
      ensures FindEvent(events, eventId).Some? && events[FindEvent(events, eventId).value].isOnline && userId in users &&
              users[userId].role.Some? &&
              (users[userId].role == Some(AdminRole) || FindRegistration(registrations, eventId, userId).Some?) &&
              !InAttendanceWindow(events[FindEvent(events, eventId).value], now)
              ==> r == Err(EventServiceError(BadRequest))
    {
      match FindEvent(events, eventId)
      case None => Err(ResourceNotFound)
      case Some(ei) =>
        var event := events[ei];
        if userId !in users then Err(ResourceNotFound)
        else if !event.isOnline then Err(EventServiceError(BadRequest))
        else if users[userId].role.None? then Err(NullPointer)
        else if users[userId].role != Some(AdminRole) && FindRegistration(registrations, eventId, userId).None? then
          Err(EventServiceError(Forbidden))
        else if !InAttendanceWindow(event, now) then Err(EventServiceError(BadRequest))
        else Ok(event.meetingLink)
    }

    /** `cancelRegistration`: the pair must be registered; its row is deleted. */
    method CancelRegistration(eventId: Id, userId: Id) returns (r: Result<()>)
      requires Valid()
      modifies this
      ensures Valid()
      ensures FindEvent(events, eventId).None? || userId !in users ==> r == Err(ResourceNotFound)
      ensures r.Ok? <==> FindEvent(events, eventId).Some? && userId in users &&
                         FindRegistration(old(registrations), eventId, userId).Some?
      ensures FindEvent(events, eventId).Some? && userId in users && !r.Ok? ==> r == Err(EventServiceError(BadRequest))
      ensures r.Ok? ==> registrations == WithoutRegistration(old(registrations), eventId, userId)
      ensures r.Err? ==> registrations == old(registrations)
      ensures events == old(events) && users == old(users) && recentCheckIns == old(recentCheckIns)
      ensures reminders == old(reminders) && fanOuts == old(fanOuts)
    {
      if FindEvent(events, eventId).None? || userId !in users {
        return Err(ResourceNotFound);
      }
      if FindRegistration(registrations, eventId, userId).None? {
        return Err(EventServiceError(BadRequest));
      }
      registrations := WithoutRegistration(registrations, eventId, userId);
      r := Ok(());
    }

    /** `deleteEvent`: an admin may delete an event whose stored status is not
        ONGOING; its registrants (if any) are told it is cancelled, and its
        registrations go with it. */
    method DeleteEvent(eventId: Id, adminId: Id) returns (r: Result<()>)
      requires Valid()
      modifies this
      ensures Valid()
      ensures RequireAdmin(users, adminId).Err? ==> r == RequireAdmin(users, adminId)
      ensures RequireAdmin(users, adminId).Ok? && FindEvent(old(events), eventId).None? ==> r == Err(ResourceNotFound)
      ensures r.Ok? <==> RequireAdmin(users, adminId).Ok? && FindEvent(old(events), eventId).Some? &&
                         old(events)[FindEvent(old(events), eventId).value].status != Ongoing
      ensures r.Ok? ==> var ei := FindEvent(old(events), eventId).value;
                        events == old(events)[..ei] + old(events)[ei + 1..] &&
                        registrations == WithoutEventRegistrations(old(registrations), eventId) &&
                        fanOuts == old(fanOuts) +
                          (if RegistrantsOf(old(registrations), eventId) == [] then []
                           else [FanOut(RegistrantsOf(old(registrations), eventId), EventCancelled(eventId), UserRole)])
      ensures r.Err? ==> events == old(events) && registrations == old(registrations) && fanOuts == old(fanOuts)
      ensures users == old(users) && recentCheckIns == old(recentCheckIns) && reminders == old(reminders)
    {
      var admin := RequireAdmin(users, adminId);
      if admin.Err? {
        return admin;
      }
      var ei := FindEvent(events, eventId);
      if ei.None? {
        return Err(ResourceNotFound);
      }
      if events[ei.value].status == Ongoing {
        return Err(EventServiceError(BadRequest));
      }
      var ids := RegistrantsOf(registrations, eventId);
      if ids != [] {
        fanOuts := fanOuts + [FanOut(ids, EventCancelled(eventId), UserRole)];
      }
      var i := ei.value;
      var rest := events[..i] + events[i + 1..];
      RemoveKeepsDistinctEventIds(events, i);
      events := rest;
      registrations := WithoutEventRegistrations(registrations, eventId);
      r := Ok(());
    }

    /** `sendEventReminders` at instant `now` for the configured lead times: for
        each lead time, each event starting in its band is reminded unless its
        pair is in the ledger or it has no registrants. */
    method SendEventReminders(hours: seq<int>, now: Time)
      requires Valid()
      modifies this
      ensures Valid()
      ensures ReminderState(reminders, fanOuts)
              == RemindAll(ReminderState(old(reminders), old(fanOuts)), events, registrations, hours, now)
      ensures events == old(events) && users == old(users) && registrations == old(registrations)
      ensures recentCheckIns == old(recentCheckIns)
    {
      ghost var s0 := ReminderState(reminders, fanOuts);
      var i := 0;
      while i < |hours|
        invariant 0 <= i <= |hours|
        invariant UniqueReminders(reminders)
        invariant ReminderState(reminders, fanOuts) == RemindAll(s0, events, registrations, hours[..i], now)
        invariant events == old(events) && users == old(users) && registrations == old(registrations)
        invariant recentCheckIns == old(recentCheckIns)
      {
        var h := hours[i];
        var band := Band(events, h, now);
        var ledger, log := RemindBand(reminders, fanOuts, band, registrations, h, now);
        reminders, fanOuts := ledger, log;
        assert hours[..i + 1][..i] == hours[..i];
        i := i + 1;
      }
      assert hours[..|hours|] == hours;
    }

    /** `updateEventStatuses` at instant `now`: every event not stored as ENDED
        is recomputed and saved; a change into ONGOING or ENDED is announced to
        its registrants. */
    method UpdateEventStatuses(now: Time)
      requires Valid()
      modifies this
      ensures Valid()
      ensures events == ReconcileAll(old(events), now)
      ensures fanOuts == old(fanOuts) + StatusNotices(old(events), registrations, now)
      ensures users == old(users) && registrations == old(registrations)
      ensures reminders == old(reminders) && recentCheckIns == old(recentCheckIns)
    {
      ReconcileKeepsIds(events, now);
      var evs, notices := ReconcileEvents(events, registrations, now);
      events, fanOuts := evs, fanOuts + notices;
    }
  }

  /** The loop of `updateEventStatuses` over the events table: each row not
      stored as ENDED is recomputed, and the fan-outs it causes are collected in
      order. */
  method ReconcileEvents(es: seq<Event>, regs: seq<Registration>, now: Time) returns (evs: seq<Event>, notices: seq<FanOut>)
    ensures evs == ReconcileAll(es, now)
    ensures notices == StatusNotices(es, regs, now)
  {
    evs := es;
    notices := [];
    var i := 0;
    while i < |evs|
      invariant 0 <= i <= |evs| == |es|
      invariant evs == ReconcileAll(es[..i], now) + es[i..]
      invariant notices == StatusNotices(es[..i], regs, now)
    {
      ReconcileStep(es, i, regs, now);
      var next, sent := ReconcileEvent(evs[i], regs, now);
      notices := notices + sent;
      evs := evs[i := next];
      i := i + 1;
    }
    assert es[..|es|] == es && es[|es|..] == [];
  }

  /** The inner loop of `sendEventReminders` over the events of one band: the
      ledger and the fan-out log afterwards, the ledger still unique. */
  method RemindBand(ledger: seq<EventReminder>, log: seq<FanOut>, band: seq<Event>, regs: seq<Registration>,
                    h: int, now: Time) returns (ledger': seq<EventReminder>, log': seq<FanOut>)
    requires UniqueReminders(ledger)
    ensures UniqueReminders(ledger')
    ensures ReminderState(ledger', log') == RemindEvents(ReminderState(ledger, log), band, regs, h, now)
  {
    ledger', log' := ledger, log;
    for j := 0 to |band|
      invariant UniqueReminders(ledger')
      invariant ReminderState(ledger', log') == RemindEvents(ReminderState(ledger, log), band[..j], regs, h, now)
    {
      var e := band[j];
      assert band[..j + 1][..j] == band[..j];
      if !HasReminder(ledger', e.id, h) {
        var ids := RegistrantsOf(regs, e.id);
        if ids != [] {
          var row := EventReminder(e.id, h, now);
          AppendKeepsRemindersUnique(ledger', row);
          log' := log' + [FanOut(ids, EventReminderNotice(e.id, h), UserRole)];
          ledger' := ledger' + [row];
        }
      }
    }
    assert band[..|band|] == band;
  }

  /** One turn of that loop: the row as saved and the fan-out it causes. */
  method ReconcileEvent(e: Event, regs: seq<Registration>, now: Time) returns (next: Event, sent: seq<FanOut>)
    ensures next == Reconciled(e, now)
    ensures sent == StatusNotice(e, regs, now)
  {
    next, sent := e, [];
    if e.status != Ended {
      next := UpdateStatus(e, now);
      if next.status != e.status && (next.status == Ongoing || next.status == Ended) {
        var ids := RegistrantsOf(regs, e.id);
        if ids != [] {
          sent := [FanOut(ids, EventStatusNotice(e.id, next.status), UserRole)];
        }
      }
    }
  }

  lemma ReconcileStep(es: seq<Event>, i: nat, regs: seq<Registration>, now: Time)
    requires i < |es|
    ensures var cur := ReconcileAll(es[..i], now) + es[i..];
            cur[i] == es[i] && |cur| == |es| &&
            ReconcileAll(es[..i + 1], now) + es[i + 1..] == cur[i := Reconciled(es[i], now)]
    ensures StatusNotices(es[..i + 1], regs, now) == StatusNotices(es[..i], regs, now) + StatusNotice(es[i], regs, now)
  {
    assert es[..i + 1][..i] == es[..i];
    var cur := ReconcileAll(es[..i], now) + es[i..];
    var nxt := ReconcileAll(es[..i + 1], now) + es[i + 1..];
    assert |nxt| == |cur|;
    forall k | 0 <= k < |cur|
      ensures nxt[k] == cur[i := Reconciled(es[i], now)][k]
    {
      if k < i {
        assert nxt[k] == ReconcileAll(es[..i + 1], now)[k];
      }
    }
  }

  lemma ReconcileKeepsIds(es: seq<Event>, now: Time)
    requires DistinctEventIds(es)
    ensures DistinctEventIds(ReconcileAll(es, now))
  {
    var es' := ReconcileAll(es, now);
    forall k | 0 <= k < |es|
      ensures es'[k].id == es[k].id
    {
      assert es'[k] == Reconciled(es[k], now);
    }
  }

  lemma UniqueAppend(regs: seq<Registration>, row: Registration)
    requires UniqueRegistrations(regs)
    requires FindRegistration(regs, row.eventId, row.studentId).None?
    ensures UniqueRegistrations(regs + [row])
  {
    var all := regs + [row];
    forall i, j | 0 <= i < j < |all|
      ensures !(all[i].eventId == all[j].eventId && all[i].studentId == all[j].studentId)
    {
      if j == |regs| {
        assert all[i] == regs[i];
        assert !Registers(regs[i], row.eventId, row.studentId);
      }
    }
  }

  /** A successful registration keeps the event within its cap. */
  lemma RegistrationRespectsCap(regs: seq<Registration>, eventId: Id, userId: Id, cap: int)
    requires |RegistrantsOf(regs, eventId)| < cap
    ensures |RegistrantsOf(regs + [Registration(eventId, userId, false, None)], eventId)| <= cap
  {
    RegistrantsAppend(regs, Registration(eventId, userId, false, None), eventId);
  }
}
