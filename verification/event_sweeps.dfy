/** The two scheduled passes of EventService as specification folds: the
    reminder sweep (`sendEventReminders`) and the status reconciliation
    (`updateEventStatuses`). Both folds consume their input from the back, so
    that a loop that has handled a prefix is described by the fold of that
    prefix. */
module EventSweeps {
  import opened Common
  import opened EventModel
  import opened EventRecords

  // ---------------------------------------------------------------- reminders

  /** The reminder ledger together with the fan-outs requested so far. */
  datatype ReminderState = ReminderState(ledger: seq<EventReminder>, log: seq<FanOut>)

  /** `findByStartDateTimeBetween(now + (H-1) h, now + (H+1) h)`: both ends inclusive. */
  predicate InBand(e: Event, hoursBefore: int, now: Time) {
    now + (hoursBefore - 1) * HOUR <= e.start <= now + (hoursBefore + 1) * HOUR
  }

  /** The events of the band, in table order. */
  function Band(events: seq<Event>, hoursBefore: int, now: Time): (band: seq<Event>)
    ensures |band| <= |events|
    ensures forall e :: e in band <==> e in events && InBand(e, hoursBefore, now)
  {
    if events == [] then []
    else
      var rest := Band(events[1..], hoursBefore, now);
      assert events == [events[0]] + events[1..];
      if InBand(events[0], hoursBefore, now) then [events[0]] + rest else rest
  }

  /** The body of the inner loop for one event and lead time. */
  function RemindEvent(s: ReminderState, e: Event, regs: seq<Registration>, hoursBefore: int, now: Time): ReminderState {
    if HasReminder(s.ledger, e.id, hoursBefore) then s
    else
      var ids := RegistrantsOf(regs, e.id);
      if ids == [] then s
      else ReminderState(s.ledger + [EventReminder(e.id, hoursBefore, now)],
                         s.log + [FanOut(ids, EventReminderNotice(e.id, hoursBefore), UserRole)])
  }

  /** The inner loop over the events of one band. */
  function RemindEvents(s: ReminderState, es: seq<Event>, regs: seq<Registration>, hoursBefore: int, now: Time): ReminderState
    decreases |es|
  {
    if es == [] then s
    else RemindEvent(RemindEvents(s, es[..|es| - 1], regs, hoursBefore, now), es[|es| - 1], regs, hoursBefore, now)
  }

  /** The outer loop over the configured lead times. */
  function RemindAll(s: ReminderState, events: seq<Event>, regs: seq<Registration>, hours: seq<int>, now: Time): ReminderState
    decreases |hours|
  {
    if hours == [] then s
    else
      var h := hours[|hours| - 1];
      RemindEvents(RemindAll(s, events, regs, hours[..|hours| - 1], now), Band(events, h, now), regs, h, now)
  }

  /** What the sweep may add to a state: rows for lead times in `hours`, for
      events of that band that had none, stamped `now`, each row matched in
      the same position by a fan-out of that reminder to a non-empty list of
      exactly that event's registrants. */
  predicate Extends(s0: ReminderState, s: ReminderState, events: seq<Event>, regs: seq<Registration>,
                    hours: seq<int>, now: Time) {
    var n := |s0.ledger|;
    var m := |s0.log|;
    n <= |s.ledger| && s.ledger[..n] == s0.ledger &&
    m <= |s.log| && s.log[..m] == s0.log &&
    |s.ledger| - n == |s.log| - m &&
    forall k :: n <= k < |s.ledger| ==>
      var row := s.ledger[k];
      var f := s.log[m + (k - n)];
      row.sentAt == now && row.hoursBefore in hours &&
      (exists e :: e in events && e.id == row.eventId && InBand(e, row.hoursBefore, now)) &&
      !HasReminder(s0.ledger, row.eventId, row.hoursBefore) &&
      f == FanOut(RegistrantsOf(regs, row.eventId), EventReminderNotice(row.eventId, row.hoursBefore), UserRole) &&
      f.userIds != []
  }

  lemma ExtendsTrans(s0: ReminderState, s1: ReminderState, s2: ReminderState, events: seq<Event>,
                     regs: seq<Registration>, hours: seq<int>, now: Time)
    requires Extends(s0, s1, events, regs, hours, now)
    requires Extends(s1, s2, events, regs, hours, now)
    ensures Extends(s0, s2, events, regs, hours, now)
  {
    var n0, n1 := |s0.ledger|, |s1.ledger|;
    var m0, m1 := |s0.log|, |s1.log|;
    assert s2.ledger[..n0] == s1.ledger[..n1][..n0];
    assert s2.log[..m0] == s1.log[..m1][..m0];
    forall k | n0 <= k < |s2.ledger|
      ensures !HasReminder(s0.ledger, s2.ledger[k].eventId, s2.ledger[k].hoursBefore)
      ensures s2.log[m0 + (k - n0)] == FanOut(RegistrantsOf(regs, s2.ledger[k].eventId),
                EventReminderNotice(s2.ledger[k].eventId, s2.ledger[k].hoursBefore), UserRole)
    {
      var row := s2.ledger[k];
      if k < n1 {
        assert row == s1.ledger[k];
        assert s2.log[m0 + (k - n0)] == s1.log[m0 + (k - n0)];
      } else {
        assert m0 + (k - n0) == m1 + (k - n1) + (m0 - m1) + (n1 - n0);
      }
    }
  }

  lemma {:induction false} RemindEventsExtends(s: ReminderState, es: seq<Event>, events: seq<Event>,
                                               regs: seq<Registration>, h: int, hours: seq<int>, now: Time)
    requires h in hours
    requires forall e :: e in es ==> e in events && InBand(e, h, now)
    ensures Extends(s, RemindEvents(s, es, regs, h, now), events, regs, hours, now)
    decreases |es|
  {
    if es == [] {
      assert s.ledger[..|s.ledger|] == s.ledger && s.log[..|s.log|] == s.log;
    } else {
      var front := es[..|es| - 1];
      var e := es[|es| - 1];
      assert forall x :: x in front ==> x in es;
      RemindEventsExtends(s, front, events, regs, h, hours, now);
      var mid := RemindEvents(s, front, regs, h, now);
      var next := RemindEvent(mid, e, regs, h, now);
      assert e in es;
      assert Extends(mid, next, events, regs, hours, now) by {
        assert mid.ledger == next.ledger[..|mid.ledger|] || next == mid;
        assert next.ledger[..|next.ledger|] == next.ledger && next.log[..|next.log|] == next.log;
      }
      ExtendsTrans(s, mid, next, events, regs, hours, now);
    }
  }

  /** Every row the sweep writes is justified: a configured lead time, an event
      of that band with no row for the pair yet, and a fan-out to its registrants
      recorded alongside. Nothing earlier in the ledger or the log is touched. */
  lemma {:induction false} SweepOnlyAddsJustifiedRows(s: ReminderState, events: seq<Event>, regs: seq<Registration>,
                                                      hours: seq<int>, now: Time)
    ensures Extends(s, RemindAll(s, events, regs, hours, now), events, regs, hours, now)
    decreases |hours|
  {
    if hours == [] {
      assert s.ledger[..|s.ledger|] == s.ledger && s.log[..|s.log|] == s.log;
    } else {
      var front := hours[..|hours| - 1];
      var h := hours[|hours| - 1];
      SweepOnlyAddsJustifiedRows(s, events, regs, front, now);
      var mid := RemindAll(s, events, regs, front, now);
      assert Extends(s, mid, events, regs, hours, now) by {
        assert forall x :: x in front ==> x in hours;
      }
      RemindEventsExtends(mid, Band(events, h, now), events, regs, h, hours, now);
      ExtendsTrans(s, mid, RemindAll(s, events, regs, hours, now), events, regs, hours, now);
    }
  }

  lemma {:induction false} RemindEventsKeepsUnique(s: ReminderState, es: seq<Event>, regs: seq<Registration>, h: int, now: Time)
    requires UniqueReminders(s.ledger)
    ensures UniqueReminders(RemindEvents(s, es, regs, h, now).ledger)
    decreases |es|
  {
    if es != [] {
      var mid := RemindEvents(s, es[..|es| - 1], regs, h, now);
      RemindEventsKeepsUnique(s, es[..|es| - 1], regs, h, now);
      var e := es[|es| - 1];
      if !HasReminder(mid.ledger, e.id, h) && RegistrantsOf(regs, e.id) != [] {
        AppendKeepsRemindersUnique(mid.ledger, EventReminder(e.id, h, now));
      }
    }
  }

  /** At most one reminder per (event, lead time): the sweep keeps the ledger
      free of duplicate pairs, even when a lead time is configured twice. */
  lemma {:induction false} SweepKeepsRemindersUnique(s: ReminderState, events: seq<Event>, regs: seq<Registration>,
                                                     hours: seq<int>, now: Time)
    requires UniqueReminders(s.ledger)
    ensures UniqueReminders(RemindAll(s, events, regs, hours, now).ledger)
    decreases |hours|
  {
    if hours != [] {
      var h := hours[|hours| - 1];
      SweepKeepsRemindersUnique(s, events, regs, hours[..|hours| - 1], now);
      RemindEventsKeepsUnique(RemindAll(s, events, regs, hours[..|hours| - 1], now), Band(events, h, now), regs, h, now);
    }
  }

  /** After a sweep every (event of the band, lead time) pair is settled: it has
      a ledger row, or the event has no registrants. */
  predicate Settled(ledger: seq<EventReminder>, events: seq<Event>, regs: seq<Registration>, hours: seq<int>, now: Time) {
    forall h, e :: h in hours && e in events && InBand(e, h, now) ==>
      HasReminder(ledger, e.id, h) || RegistrantsOf(regs, e.id) == []
  }

  lemma {:induction false} RemindEventsGrowsLedger(s: ReminderState, es: seq<Event>, regs: seq<Registration>, h: int, now: Time)
    ensures var s' := RemindEvents(s, es, regs, h, now);
            |s.ledger| <= |s'.ledger| && s'.ledger[..|s.ledger|] == s.ledger
    ensures forall e :: e in es ==> HasReminder(RemindEvents(s, es, regs, h, now).ledger, e.id, h) || RegistrantsOf(regs, e.id) == []
    decreases |es|
  {
    if es == [] {
      assert s.ledger[..|s.ledger|] == s.ledger;
    } else {
      var front := es[..|es| - 1];
      var e := es[|es| - 1];
      RemindEventsGrowsLedger(s, front, regs, h, now);
      var mid := RemindEvents(s, front, regs, h, now);
      var next := RemindEvent(mid, e, regs, h, now);
      assert mid.ledger == next.ledger[..|mid.ledger|];
      assert next.ledger[..|s.ledger|] == mid.ledger[..|s.ledger|];
      forall x | x in es && RegistrantsOf(regs, x.id) != []
        ensures HasReminder(next.ledger, x.id, h)
      {
        if x == e {
          if !HasReminder(mid.ledger, e.id, h) {
            assert next.ledger[|next.ledger| - 1] == EventReminder(e.id, h, now);
          }
        }
        if x != e || HasReminder(mid.ledger, e.id, h) {
          if x != e {
            assert x in front by {
              assert es == front + [e];
            }
          }
          var j :| 0 <= j < |mid.ledger| && mid.ledger[j].eventId == x.id && mid.ledger[j].hoursBefore == h;
          assert next.ledger[j] == mid.ledger[j];
        }
      }
    }
  }

  lemma HasReminderGrows(a: seq<EventReminder>, b: seq<EventReminder>, id: Id, h: int)
    requires |a| <= |b| && b[..|a|] == a
    requires HasReminder(a, id, h)
    ensures HasReminder(b, id, h)
  {
    var j :| 0 <= j < |a| && a[j].eventId == id && a[j].hoursBefore == h;
    assert b[j] == a[j];
  }

  lemma {:induction false} SweepSettles(s: ReminderState, events: seq<Event>, regs: seq<Registration>, hours: seq<int>, now: Time)
    ensures Settled(RemindAll(s, events, regs, hours, now).ledger, events, regs, hours, now)
    decreases |hours|
  {
    if hours != [] {
      var front := hours[..|hours| - 1];
      var h := hours[|hours| - 1];
      SweepSettles(s, events, regs, front, now);
      var mid := RemindAll(s, events, regs, front, now);
      var last := RemindAll(s, events, regs, hours, now);
      RemindEventsGrowsLedger(mid, Band(events, h, now), regs, h, now);
      forall h', e | h' in hours && e in events && InBand(e, h', now) && RegistrantsOf(regs, e.id) != []
        ensures HasReminder(last.ledger, e.id, h')
      {
        if h' != h {
          assert h' in front by {
            assert hours == front + [h];
          }
          HasReminderGrows(mid.ledger, last.ledger, e.id, h');
        }
      }
    }
  }

  lemma {:induction false} SettledEventsUnchanged(s: ReminderState, es: seq<Event>, regs: seq<Registration>, h: int, now: Time)
    requires forall e :: e in es ==> HasReminder(s.ledger, e.id, h) || RegistrantsOf(regs, e.id) == []
    ensures RemindEvents(s, es, regs, h, now) == s
    decreases |es|
  {
    if es != [] {
      assert forall x :: x in es[..|es| - 1] ==> x in es;
      SettledEventsUnchanged(s, es[..|es| - 1], regs, h, now);
    }
  }

  lemma {:induction false} SettledSweepUnchanged(s: ReminderState, events: seq<Event>, regs: seq<Registration>,
                                                 hours: seq<int>, all: seq<int>, now: Time)
    requires forall h :: h in hours ==> h in all
    requires Settled(s.ledger, events, regs, all, now)
    ensures RemindAll(s, events, regs, hours, now) == s
    decreases |hours|
  {
    if hours != [] {
      var h := hours[|hours| - 1];
      assert forall x :: x in hours[..|hours| - 1] ==> x in hours;
      SettledSweepUnchanged(s, events, regs, hours[..|hours| - 1], all, now);
      SettledEventsUnchanged(s, Band(events, h, now), regs, h, now);
    }
  }

  /** Running the sweep a second time at the same instant writes no row and
      requests no fan-out. */
  lemma SweepTwiceIsSweepOnce(s: ReminderState, events: seq<Event>, regs: seq<Registration>, hours: seq<int>, now: Time)
    ensures var once := RemindAll(s, events, regs, hours, now);
            RemindAll(once, events, regs, hours, now) == once
  {
    SweepSettles(s, events, regs, hours, now);
    SettledSweepUnchanged(RemindAll(s, events, regs, hours, now), events, regs, hours, hours, now);
  }

  // ---------------------------------------------------------- reconciliation

  /** One event of `updateEventStatuses`: ENDED rows are not selected; the rest
      are recomputed (and saved, which recomputes again to the same value). */
  function Reconciled(e: Event, now: Time): (e': Event)
    ensures e.status == Ended ==> e' == e
    ensures e.status != Ended ==> e' == UpdateStatus(e, now)
  {
    if e.status == Ended then e else UpdateStatus(e, now)
  }

  /** The fan-out one event causes: a change into ONGOING or ENDED with at
      least one registrant. */
  function StatusNotice(e: Event, regs: seq<Registration>, now: Time): (f: seq<FanOut>)
    ensures |f| <= 1
    ensures f != [] <==> e.status != Ended && StatusAt(e.start, e.end, now) != e.status &&
                         StatusAt(e.start, e.end, now) != Upcoming && RegistrantsOf(regs, e.id) != []
    ensures f != [] ==> f[0] == FanOut(RegistrantsOf(regs, e.id), EventStatusNotice(e.id, StatusAt(e.start, e.end, now)), UserRole)
  {
    if e.status == Ended then []
    else
      var s := StatusAt(e.start, e.end, now);
      var ids := RegistrantsOf(regs, e.id);
      if s != e.status && (s == Ongoing || s == Ended) && ids != [] then
        [FanOut(ids, EventStatusNotice(e.id, s), UserRole)]
      else []
  }

  function ReconcileAll(es: seq<Event>, now: Time): (es': seq<Event>)
    ensures |es'| == |es|
    ensures forall k :: 0 <= k < |es| ==> es'[k] == Reconciled(es[k], now)
    decreases |es|
  {
    if es == [] then [] else ReconcileAll(es[..|es| - 1], now) + [Reconciled(es[|es| - 1], now)]
  }

  function StatusNotices(es: seq<Event>, regs: seq<Registration>, now: Time): seq<FanOut>
    decreases |es|
  {
    if es == [] then [] else StatusNotices(es[..|es| - 1], regs, now) + StatusNotice(es[|es| - 1], regs, now)
  }

  /** Every fan-out of a reconciliation pass announces a real change of one of
      the scanned events into ONGOING or ENDED, to its registrants. */
  lemma {:induction false} NoticesAnnounceChanges(es: seq<Event>, regs: seq<Registration>, now: Time)
    ensures |StatusNotices(es, regs, now)| <= |es|
    ensures forall f :: f in StatusNotices(es, regs, now) ==>
      exists e :: e in es && e.status != Ended && f.userIds == RegistrantsOf(regs, e.id) && f.userIds != [] &&
        f.topic == EventStatusNotice(e.id, StatusAt(e.start, e.end, now)) &&
        StatusAt(e.start, e.end, now) != e.status && StatusAt(e.start, e.end, now) != Upcoming
    decreases |es|
  {
    if es != [] {
      var front := es[..|es| - 1];
      var e := es[|es| - 1];
      NoticesAnnounceChanges(front, regs, now);
      assert forall x :: x in front ==> x in es;
      assert e in es;
    }
  }

  /** A second reconciliation at the same instant changes nothing and sends nothing. */
  lemma {:induction false} ReconcileTwiceIsQuiet(es: seq<Event>, regs: seq<Registration>, now: Time)
    ensures ReconcileAll(ReconcileAll(es, now), now) == ReconcileAll(es, now)
    ensures StatusNotices(ReconcileAll(es, now), regs, now) == []
    decreases |es|
  {
    if es != [] {
      var front := es[..|es| - 1];
      ReconcileTwiceIsQuiet(front, regs, now);
      var once := ReconcileAll(es, now);
      assert once[..|once| - 1] == ReconcileAll(front, now);
    }
  }
}
