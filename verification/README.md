# E-learning backend: lifecycle and service rules in Dafny

This project models the service layer of a Spring e-learning backend and proves properties about it. The backend covers courses, enrolments, lesson progress, reviews, bookmarks, instructor follows, live sessions, events, notifications, two-factor login and password reset. The model covers:

- the event lifecycle: the status derived from the clock, registration, QR check-in with its 30-second cooldown, joining online events, deletion, the reminder sweep and the status sweep;
- the live-session rules and the one-minute session status tick;
- the notification store, its fan-out in batches of 100, and the nightly cleanup;
- the rule-driven services: follow, bookmark, enrolment, lesson progress, review, course, two-factor authentication and password reset;
- the EventDTO view.

The model is organised as follows:

- **Time.** Time is an integer number of seconds. Every operation that reads the clock takes the instant `now` as a parameter.
- **Tables.** Each repository is a field of the service class that uses it: a `seq` of rows in table order, or a `map` keyed by id. Tables a service only reads are `const` fields.
- **Calls to other services.** A service that calls another records the call in a log field of its class (`fanOuts`, `notices`, `pushes`, `alerts`, `mails`), so the contract can state exactly which calls were made.
- **Rollback.** A `@Transactional` method that throws is rolled back. In the model, an error result of such a method leaves the state unchanged.
- **Code outside the core becomes parameters.** These are:
  - the JWT check, as `tokenValid`;
  - the approved-instructor check, as `approved`;
  - the session status rule, as `statusOf`;
  - the failure of a WebSocket push, as the set `unreachable`;
  - random draws, as `draws` and `number`;
  - the password encoder, as `encode`;
  - token expiry, as `expired`;
  - the floating-point average and percentage, as `average` and `percent`.
- **Errors.** Each Java exception is a `Failure` constructor: `ResourceNotFound`, `IllegalState`, `IllegalArgument`, `SecurityViolation`, `AccessDenied`, `NullPointer`, `ClassCast`, `NonUniqueResult`, `TransactionRequired`, `EventServiceError(status)` and the others.

## Model

| member | source | states |
|---|---|---|
| Common.Wrap32 | Back/src/main/java/project/service/EnrollmentService.java:41 | the value `Long.intValue()` keeps: the low 32 bits read as a signed int, within [-2^31, 2^31) and equal to the input when it already fits |
| Common.FindById | Back/src/main/java/project/service/NotificationService.java:44-45 | `findById` over any table: a position found holds a row with that id |
| Common.FindByIdFirst | Back/src/main/java/project/service/NotificationService.java:44-45 | the row found is the first with that id, and none is found exactly when no row has it |
| Common.FindUser | Back/src/main/java/project/service/NotificationService.java:44-45 | `findById`: the index of the first user with that id, or none exactly when no user has it |
| Common.WithRole | Back/src/main/java/project/service/NotificationService.java:76-78 | the role filter keeps exactly the users whose role is present and equal to the one asked for, in order |
| Common.ZeroPadValue | Back/src/main/java/project/service/PasswordResetService.java:76 | a number below 10^w printed with w zero-padded digits reads back as that number |
| Common.ZeroPadInjective | Back/src/main/java/project/service/PasswordResetService.java:76 | distinct numbers below 10^w give distinct padded strings |
| EventModel.StatusAt | Back/src/main/java/project/models/Event.java:60-69 | UPCOMING exactly before the start, ENDED exactly after the end, ONGOING exactly within [start, end] |
| EventModel.StatusMonotone | Back/src/main/java/project/models/Event.java:60-69 | for a fixed window the derived status never moves backwards as time advances, and ENDED is final |
| EventModel.UpdateStatus | Back/src/main/java/project/models/Event.java:58-69 | the stored status becomes the derived status and no other field changes |
| EventModel.NewEvent | Back/src/main/java/project/models/Event.java:45 | a new event starts UPCOMING with the given fields, description and image URL included |
| EventModel.StatusScenario | Back/src/main/java/project/models/Event.java:60-69 | a [10:00, 11:00] window is UPCOMING at 09:50, ONGOING at 10:00 and at 11:00, ENDED at 11:01 |
| QRCode.TruncateTowardZero | Back/src/main/java/project/utils/QRCodeUtil.java:44-45 | the integer part of a real, rounded toward zero as a Java cast does |
| QRCode.LongValue | Back/src/main/java/project/utils/QRCodeUtil.java:44-45 | `((Number) v).longValue()`: defined exactly for numbers (otherwise ClassCast), always a 64-bit value, the number itself when it fits |
| QRCode.ParseQRCodeData | Back/src/main/java/project/utils/QRCodeUtil.java:34-55 | InvalidQRCode for unreadable JSON, a missing or null id, or an id whose longValue is not positive; ClassCast when both ids are present and one is not a number; NullPointer for the JSON `null`; success exactly when both ids are numbers with positive longValue, and then exactly the keys eventId and studentId holding those values |
| QRCode.QRPayload | Back/src/main/java/project/utils/QRCodeUtil.java:18-24 | the generated map holds exactly eventId and studentId with the given values |
| QRCode.ParseGeneratedPayload | Back/src/main/java/project/utils/QRCodeUtil.java:18-55 | round trip: parsing a payload the generator wrote for positive ids gives back the two ids |
| QRCode.NonPositiveIdRejected | Back/src/main/java/project/utils/QRCodeUtil.java:46-48 | a payload with a non-positive id is rejected as InvalidQRCode |
| EventRecords.FindEvent | Back/src/main/java/project/service/EventService.java:171-172 | `findById`: the first row with that id, or none exactly when no row has it |
| EventRecords.FindRegistration | Back/src/main/java/project/service/EventService.java:442-443 | the first registration of the (event, student) pair, or none exactly when there is none |
| EventRecords.RegistrantsOf | Back/src/main/java/project/service/EventService.java:227-230 | a user is listed exactly when the event has a registration of that user |
| EventRecords.RegistrantsAppend | Back/src/main/java/project/service/EventService.java:370-376 | a new registration row extends its event's registrant list at the end and leaves other events' lists alone |
| EventRecords.AppendKeepsRemindersUnique | Back/src/main/java/project/service/EventService.java:222-232 | a reminder row for a pair without one keeps at most one row per (event, lead time) |
| EventRecords.WithoutRegistration | Back/src/main/java/project/service/EventService.java:552-553 | `deleteByEventAndStudent`: exactly the rows of that pair go, and uniqueness is kept |
| EventRecords.WithoutEventRegistrations | Back/src/main/java/project/models/Event.java:47 | the cascade of an event delete: exactly that event's registrations go, and uniqueness is kept |
| CheckIn.Outcome | Back/src/main/java/project/service/EventService.java:412-464 | the guard verdict as the call's result: true exactly on acceptance; ClassCast, NullPointer and ResourceNotFound exactly for the verdicts whose exception escapes; false for every other refusal |
| CheckIn.Decide | Back/src/main/java/project/service/EventService.java:412-464 | each verdict holds exactly when every earlier guard passes and its own fails, in source order: parse errors, cooldown, event-id mismatch, missing event, missing user, outside [start - 10 min, end], no registration, already checked in; acceptance exactly when all pass, naming the registration found and the scanned student |
| CheckIn.ValidationAnswers | Back/src/main/java/project/service/EventService.java:412-464 | the answer of `validateQRCode`: true exactly when every guard passes; ResourceNotFound exactly when the QR matches the route but the event or the student is missing; false exactly for a malformed QR, a repeat within the cooldown, a mismatch, or a refusal after the lookups |
| CheckIn.CheckInRegistration | Back/src/main/java/project/service/EventService.java:455-458 | an accepted check-in marks exactly that registration with the check-in time and leaves every other row unchanged |
| CheckIn.CheckInAcceptedOnce | Back/src/main/java/project/service/EventService.java:412-464 | after an accepted check-in, no later scan of a QR with the same content is accepted again, at any instant |
| CheckIn.CooldownRefusesRepeat | Back/src/main/java/project/service/EventService.java:418-424 | within 30 seconds of a recorded scan, the same key is refused by the cooldown |
| CheckIn.SweepCheckIns | Back/src/main/java/project/service/EventService.java:466-471 | the cleanup keeps exactly the entries whose cooldown has not yet passed, with their times |
| CheckIn.SweepKeepsCooldownVerdicts | Back/src/main/java/project/service/EventService.java:466-471 | the sweep never changes a cooldown verdict from its own instant on |
| EventDto.StatusName | Back/src/main/java/project/dto/EventDTO.java:51 | `name()` of a status is never empty |
| EventDto.StatusFromName | Back/src/main/java/project/dto/EventDTO.java:51 | `valueOf`: a name gives a constant exactly when some constant carries that name, and then that constant |
| EventDto.StatusNameRoundTrip | Back/src/main/java/project/dto/EventDTO.java:51 | round trip: a status name in a view reads back as its status |
| EventDto.FromEntity | Back/src/main/java/project/dto/EventDTO.java:37-53 | the view copies every stored field, description and image URL included; the participant count is the event's registrations; capacity left is present exactly when the cap is, and equals the cap minus the count in 32-bit arithmetic |
| EventDto.CapacityLeftWithinCap | Back/src/main/java/project/dto/EventDTO.java:50 | when the cap was respected, capacity left lies between 0 and the cap |
| EventServiceModel.ValidateEventDates | Back/src/main/java/project/service/EventService.java:557-561 | passes exactly when both instants are present and the end is after the start; otherwise BAD_REQUEST |
| EventServiceModel.RequireAdmin | Back/src/main/java/project/service/EventService.java:165-169 | passes exactly for an existing admin; a missing user gives ResourceNotFound, a user with no role NullPointer, any other role FORBIDDEN |
| EventServiceModel.EventService.ValidateQRCode | Back/src/main/java/project/service/EventService.java:412-464 | the result is the guard's verdict; only an accepted scan records the cooldown entry and checks the registration in; nothing else changes |
| EventServiceModel.EventService.CleanUpRecentCheckIns | Back/src/main/java/project/service/EventService.java:466-471 | the cooldown map becomes its sweep; no table changes |
| EventServiceModel.EventService.RegisterForEvent | Back/src/main/java/project/service/EventService.java:348-383 | errors in the source's order: ResourceNotFound for a missing event or user, BAD_REQUEST when not UPCOMING, CONFLICT when already registered or full, INTERNAL_SERVER_ERROR when the QR image of an in-person event cannot be rendered; otherwise success, which appends exactly one unchecked registration and returns the QR payload for an in-person event; an error writes nothing |
| EventServiceModel.EventService.JoinOnlineEvent | Back/src/main/java/project/service/EventService.java:385-409 | the meeting link exactly for an existing online event, an existing user with a role who is an admin or a registrant, and a time inside the attendance window; each refusal in source order: ResourceNotFound for a missing event or user, BAD_REQUEST for an in-person event, NullPointer for a user with no role, FORBIDDEN for a non-admin without a registration, BAD_REQUEST outside [start - 10 min, end] |
| EventServiceModel.EventService.CancelRegistration | Back/src/main/java/project/service/EventService.java:543-555 | succeeds exactly for a registered pair and then deletes that pair's rows; otherwise nothing changes |
| EventServiceModel.EventService.DeleteEvent | Back/src/main/java/project/service/EventService.java:164-200 | admin check first, then missing event, then refuses an ONGOING event; on success the event and its registrations go and each registrant is told |
| EventServiceModel.EventService.SendEventReminders | Back/src/main/java/project/service/EventService.java:204-258 | the ledger and fan-out log become the reminder fold over the configured lead times; the other tables are unchanged |
| EventServiceModel.RemindBand | Back/src/main/java/project/service/EventService.java:220-256 | the loop over one band leaves the ledger and fan-out log of the band fold, and the ledger keeps each (event, lead time) pair at most once |
| EventServiceModel.EventService.UpdateEventStatuses | Back/src/main/java/project/service/EventService.java:262-312 | the events become their reconciliation and the fan-out log gains exactly the status notices |
| EventServiceModel.ReconcileEvents | Back/src/main/java/project/service/EventService.java:265-310 | the loop computes the reconciled table and the notices of the reconciliation functions |
| EventServiceModel.ReconcileEvent | Back/src/main/java/project/service/EventService.java:271-310 | for one event, the saved row is its reconciled status and the notice is the one fan-out of a change into ONGOING or ENDED with registrants, or none |
| EventServiceModel.ReconcileKeepsIds | Back/src/main/java/project/service/EventService.java:262-312 | reconciliation keeps event ids distinct |
| EventServiceModel.RegistrationRespectsCap | Back/src/main/java/project/service/EventService.java:363-367 | a registration accepted below the cap keeps the count within the cap |
| EventSweeps.Band | Back/src/main/java/project/service/EventService.java:210-213 | exactly the events whose start lies in [now + (H-1) h, now + (H+1) h] |
| EventSweeps.ExtendsTrans | Back/src/main/java/project/service/EventService.java:204-258 | justified growth of the ledger composes |
| EventSweeps.SweepOnlyAddsJustifiedRows | Back/src/main/java/project/service/EventService.java:204-258 | every ledger row the sweep writes is for a configured lead time and an event in its band, and each comes with exactly its fan-out to that event's registrants |
| EventSweeps.SweepKeepsRemindersUnique | Back/src/main/java/project/service/EventService.java:222-232 | the sweep keeps at most one reminder per (event, lead time) |
| EventSweeps.SweepSettles | Back/src/main/java/project/service/EventService.java:216-232 | after a sweep every banded event with registrants has its reminder row |
| EventSweeps.SettledSweepUnchanged | Back/src/main/java/project/service/EventService.java:222-224 | on a settled ledger the sweep writes nothing |
| EventSweeps.SweepTwiceIsSweepOnce | Back/src/main/java/project/service/EventService.java:204-258 | a second sweep at the same instant changes nothing and sends nothing |
| EventSweeps.Reconciled | Back/src/main/java/project/service/EventService.java:265-272 | ENDED rows are left alone; the others get their derived status |
| EventSweeps.StatusNotice | Back/src/main/java/project/service/EventService.java:274-308 | at most one fan-out, present exactly when a non-ENDED event changes status into ONGOING or ENDED and has registrants, addressed to them |
| EventSweeps.ReconcileAll | Back/src/main/java/project/service/EventService.java:262-312 | each row is reconciled in place |
| EventSweeps.NoticesAnnounceChanges | Back/src/main/java/project/service/EventService.java:274-308 | at most one notice per event, and each announces a real change of that event |
| EventSweeps.ReconcileTwiceIsQuiet | Back/src/main/java/project/service/EventService.java:262-312 | a second status pass at the same instant changes nothing and sends nothing |
| Notifications.BatchesCoverInOrder | Back/src/main/java/project/service/NotificationService.java:73-75 | the slices of 100 cover the id list exactly, in order, each holding 1 to 100 ids |
| Notifications.FindAllById | Back/src/main/java/project/service/NotificationService.java:76 | exactly the directory users whose id is listed |
| Notifications.ExplicitRecipientsExact | Back/src/main/java/project/service/NotificationService.java:72-80 | on the explicit-id path, exactly the listed users of the requested role are notified |
| Notifications.PageOf | Back/src/main/java/project/service/NotificationService.java:87 | page p holds the users from position 100p on, at most 100 of them, exactly 100 when the result reaches past the page, none past the end |
| Notifications.MakeRows | Back/src/main/java/project/service/NotificationService.java:107-120 | one unread row per user, in order, with consecutive fresh ids and the shared text and expiry |
| Notifications.PushesFor | Back/src/main/java/project/service/NotificationService.java:123-133 | one push per saved row, to its owner, which fails exactly for unreachable users and does not stop the loop |
| Notifications.Deliver | Back/src/main/java/project/service/NotificationService.java:101-134 | the store gains the batch rows, the id counter moves past them, and the push log gains their pushes |
| Notifications.DeliverAppend | Back/src/main/java/project/service/NotificationService.java:72-91 | notifying two groups in turn is notifying them together, so batching does not change the outcome |
| Notifications.DeliverKeepsFresh | Back/src/main/java/project/service/NotificationService.java:101-134 | delivery keeps notification ids distinct and below the counter |
| Notifications.Visible | Back/src/main/java/project/service/NotificationService.java:136-142 | exactly the user's notifications that have not expired |
| Notifications.VisibleUnread | Back/src/main/java/project/service/NotificationService.java:144-150 | exactly the user's unread notifications that have not expired |
| Notifications.UnreadIsVisibleFiltered | Back/src/main/java/project/service/NotificationService.java:136-150 | the unread list is the visible list with the read rows removed, in the same order |
| Notifications.FindNotification | Back/src/main/java/project/service/NotificationService.java:154-155 | `findById`: a row with that id, or none exactly when no row has it |
| Notifications.WithoutOwned | Back/src/main/java/project/service/NotificationService.java:173 | `deleteByIdAndUserId`: exactly the rows with that id and owner go, and ids stay distinct |
| Notifications.CountMatchesRemoved | Back/src/main/java/project/service/NotificationService.java:173-176 | the reported delete count is the number of rows removed |
| Notifications.OwnedCountIsOne | Back/src/main/java/project/service/NotificationService.java:168-176 | with distinct ids, deleting a found and owned row reports exactly 1, so the "failed to delete" branch cannot fire |
| Notifications.NotificationService.DraftAt | Back/src/main/java/project/service/NotificationService.java:108-109 | created now, expiring `expiryDays` days later, with the given text and type |
| Notifications.NotificationService.CreateNotification | Back/src/main/java/project/service/NotificationService.java:43-66 | IllegalState exactly for an unknown user, with nothing stored; otherwise exactly one new unread row for that user, pushed once |
| Notifications.NotificationService.CreateNotificationBatch | Back/src/main/java/project/service/NotificationService.java:101-134 | the outbox becomes the delivery of that batch |
| Notifications.NotificationService.CreateNotificationsWithPagination | Back/src/main/java/project/service/NotificationService.java:68-93 | a non-empty list notifies exactly its users of the role; an empty list notifies every user of the role |
| Notifications.NotificationService.NotifyListed | Back/src/main/java/project/service/NotificationService.java:72-80 | the slicing loop delivers to exactly the explicit recipients |
| Notifications.NotificationService.NotifyRole | Back/src/main/java/project/service/NotificationService.java:81-92 | the paging loop delivers to every user of the role, once, in order |
| Notifications.NotificationService.CreateNotificationsForUsers | Back/src/main/java/project/service/NotificationService.java:95-99 | the overload is the five-argument call with role USER |
| Notifications.NotificationService.GetNotificationsByUserId | Back/src/main/java/project/service/NotificationService.java:136-142 | exactly the user's stored rows that have not expired |
| Notifications.NotificationService.GetUnreadNotifications | Back/src/main/java/project/service/NotificationService.java:144-150 | exactly the user's unread rows that have not expired |
| Notifications.NotificationService.MarkAsRead | Back/src/main/java/project/service/NotificationService.java:152-164 | IllegalState for a missing row, another owner or an expired row, with nothing changed; otherwise only that row becomes read |
| Notifications.NotificationService.DeleteNotification | Back/src/main/java/project/service/NotificationService.java:166-178 | IllegalState for a missing row or another owner, with nothing changed; otherwise exactly the owner's row with that id goes |
| NotificationCleanup.ExpiredRowsMembers | Back/src/main/java/project/repository/NotificationRepository.java:19-20 | `findByExpiresAtBefore(now)`: exactly the rows expiring strictly before now |
| NotificationCleanup.DeleteByIdsMembers | Back/src/main/java/project/service/NotificationCleanupService.java:48 | exactly the rows whose id is listed go |
| NotificationCleanup.SweepBounds | Back/src/main/java/project/service/NotificationCleanupService.java:37-55 | each delete statement lists 1 to 1000 ids, and the total counted is the number of rows removed |
| NotificationCleanup.SweepKeepsLiveRows | Back/src/main/java/project/service/NotificationCleanupService.java:37-55 | with distinct ids, a row that has not expired is never deleted |
| NotificationCleanup.FirstPageSweepClearsExpired | Back/src/main/java/project/service/NotificationCleanupService.java:37-55 | the corrected loop, which always asks for the first page, leaves no expired row |
| NotificationCleanup.FirstPageSweepLeavesLiveRows | Back/src/main/java/project/service/NotificationCleanupService.java:37-55 | the corrected loop leaves exactly the rows that have not expired |
| NotificationCleanup.AsWrittenSweepLeavesExpired | Back/src/main/java/project/service/NotificationCleanupService.java:54 | as written, with more than one and at most two pages of expired rows, the rows after the first page survive |
| NotificationCleanup.AsWrittenMissesOneOf1001 | Back/src/main/java/project/service/NotificationCleanupService.java:33-55 | as written, a table of 1001 expired rows keeps one expired row |
| NotificationCleanup.DrainTable | Back/src/main/java/project/service/NotificationCleanupService.java:37-55 | the loop's table, delete log and total equal the sweep function's run |
| NotificationCleanup.NotificationCleanupService.DeleteExpiredNotifications | Back/src/main/java/project/service/NotificationCleanupService.java:29-58 | as written: the table becomes the advancing sweep's table, each statement lists 1 to 1000 ids, the total is the number of rows removed, and only expired rows are removed |
| NotificationCleanup.NotificationCleanupService.DeleteExpiredNotificationsFromFirstPage | Back/src/main/java/project/service/NotificationCleanupService.java:29-58 | corrected: exactly the live rows remain, and the total is the number removed |
| Follow.RemoveFirst | Back/src/main/java/project/service/FollowService.java:59-60 | `List.remove(Object)`: a missing element changes nothing; otherwise the list is one shorter and loses nothing else |
| Follow.RemoveFirstExact | Back/src/main/java/project/service/FollowService.java:59-60 | on a list without duplicates the element is gone afterwards |
| Follow.RemoveAppended | Back/src/main/java/project/service/FollowService.java:41-42 | removing what was just appended gives the list back |
| Follow.FollowService.FollowInstructor | Back/src/main/java/project/service/FollowService.java:24-44 | ResourceNotFound for a missing user or instructor; NullPointer for a profile with no user; IllegalState for self-follow and IllegalState for a repeat follow of a profile that has a user; success appends to both sides and keeps them mirrored |
| Follow.FollowService.UnfollowInstructor | Back/src/main/java/project/service/FollowService.java:47-62 | ResourceNotFound for a missing user or instructor, IllegalState when the user does not follow the instructor; succeeds exactly when the user follows the instructor, and then removes the link from both sides; nothing changes on error |
| Follow.FollowService.GetFollowers | Back/src/main/java/project/service/FollowService.java:64-68 | ResourceNotFound exactly for a missing instructor; otherwise exactly the users who follow the instructor |
| Follow.FollowService.GetFollowedInstructors | Back/src/main/java/project/service/FollowService.java:70-74 | ResourceNotFound exactly for a missing user; otherwise exactly the instructors whose followers include the user |
| Follow.LinkKeepsMirrored | Back/src/main/java/project/service/FollowService.java:41-43 | adding the link on both sides keeps the two sides mirrored |
| Follow.UnlinkKeepsMirrored | Back/src/main/java/project/service/FollowService.java:59-61 | removing the link on both sides keeps the two sides mirrored |
| Follow.FollowThenUnfollowRestores | Back/src/main/java/project/service/FollowService.java:24-62 | a follow followed by an unfollow restores both lists |
| Sessions.FirstClash | Back/src/main/java/project/service/SessionService.java:54-60 | the first of the instructor's sessions that overlaps the new window, or none exactly when none does |
| Sessions.Available | Back/src/main/java/project/service/SessionService.java:79-92 | the listing is never longer than the table |
| Sessions.AvailableMembers | Back/src/main/java/project/service/SessionService.java:79-92 | exactly the sessions the student may join, restricted to the filter's status when one is given |
| Sessions.AvailableOfConcat | Back/src/main/java/project/service/SessionService.java:79-92 | the listing keeps table order: listing two tables one after the other is listing their concatenation |
| Sessions.SessionStatusFromName | Back/src/main/java/project/service/SessionService.java:84 | `valueOf`: a name gives a status exactly when that status carries the name |
| Sessions.UpperChar | Back/src/main/java/project/service/SessionService.java:84 | the upper case of a to z, the dotless i and the long s; every other character kept |
| Sessions.UpperCase | Back/src/main/java/project/service/SessionService.java:84 | `toUpperCase`, character by character, keeping the length |
| Sessions.UpperCaseIdempotent | Back/src/main/java/project/service/SessionService.java:84 | upper-casing twice is upper-casing once |
| Sessions.ResolveFilter | Back/src/main/java/project/service/SessionService.java:83-84 | null or empty means no filter; otherwise the status whose name is the filter in upper case, or IllegalArgument exactly when no status has that name |
| Sessions.FilterIgnoresCase | Back/src/main/java/project/service/SessionService.java:84 | a filter and its upper case select the same status, or are refused alike |
| Sessions.FilterExamples | Back/src/main/java/project/service/SessionService.java:83-84 | "live", "Upcoming" and "ended" select LIVE, UPCOMING and ENDED; "ongoing" is refused with IllegalArgument |
| Sessions.ReplaceKeepsDisjoint | Back/src/main/java/project/service/SessionService.java:130-137 | a new window that clashes with none of the instructor's other sessions keeps that instructor's sessions disjoint |
| Sessions.AppendKeepsDisjoint | Back/src/main/java/project/service/SessionService.java:54-60 | a session that clashes with none keeps sessions disjoint |
| Sessions.SessionService.CreateSession | Back/src/main/java/project/service/SessionService.java:39-72 | succeeds exactly for an approved instructor, an end after the start and no overlap, and then appends exactly the new session; otherwise IllegalState and nothing changes |
| Sessions.SessionService.UpdateSession | Back/src/main/java/project/service/SessionService.java:109-146 | the owner's approved update with a valid window that overlaps none of their other sessions replaces that session's fields; every failure is IllegalState and nothing changes |
| Sessions.SessionService.DeleteSession | Back/src/main/java/project/service/SessionService.java:148-164 | the approved owner deletes exactly that session; otherwise IllegalState and nothing changes |
| Sessions.SessionService.JoinSession | Back/src/main/java/project/service/SessionService.java:95-107 | true exactly when the session and student exist and the session is open or its instructor is followed; AccessDenied for a follower-only session of an unfollowed instructor |
| Sessions.SessionService.GetAvailableSessions | Back/src/main/java/project/service/SessionService.java:74-93 | IllegalState for an unknown student, checked first; then IllegalArgument for a filter naming no status; otherwise the listing of the resolved filter: exactly the sessions the student may join whose status matches |
| Sessions.AvailableMatchesJoin | Back/src/main/java/project/service/SessionService.java:74-107 | listing and joining agree: a session listed without a filter is one the student may join |
| SessionStatusUpdater.NotifyBatch | Back/src/main/java/project/service/SessionStatusUpdater.java:67-75 | one alert per user of the page, in order |
| SessionStatusUpdater.NotifyUserPages | Back/src/main/java/project/service/SessionStatusUpdater.java:60-81 | the paging loop alerts every USER account once, in order |
| SessionStatusUpdater.Tick | Back/src/main/java/project/service/SessionStatusUpdater.java:35-87 | each session is refreshed, and the saves and alerts are those of the tick functions |
| SessionStatusUpdater.TickSession | Back/src/main/java/project/service/SessionStatusUpdater.java:40-85 | one session is saved exactly when its status changes, and alerts go out exactly when it goes LIVE, to its audience |
| SessionStatusUpdater.NotifyFollowers | Back/src/main/java/project/service/SessionStatusUpdater.java:51-61 | every follower of the instructor gets one alert, in list order |
| SessionStatusUpdater.SessionStatusUpdaterJob.UpdateSessionStatuses | Back/src/main/java/project/service/SessionStatusUpdater.java:35-87 | the sessions become their refresh, and the save and alert logs grow by the tick's saves and alerts |
| SessionStatusUpdater.SavedIffChanged | Back/src/main/java/project/service/SessionStatusUpdater.java:41-46 | a session is saved exactly when its status changed |
| SessionStatusUpdater.AlertsOnlyOnGoingLive | Back/src/main/java/project/service/SessionStatusUpdater.java:47-83 | every alert is for a session whose status changed into LIVE, and goes to its audience |
| SessionStatusUpdater.FollowerOnlyGoLiveNotifiesEachFollowerOnce | Back/src/main/java/project/service/SessionStatusUpdater.java:49-58 | a follower-only session going live alerts each distinct follower exactly once and no one else |
| SessionStatusUpdater.SecondTickIsQuiet | Back/src/main/java/project/service/SessionStatusUpdater.java:35-87 | a second tick with the same rule saves nothing, alerts nobody and changes nothing |
| Bookmarks.FindBookmark | Back/src/main/java/project/service/BookmarkService.java:37 | the first bookmark of the (user, course) pair, or none exactly when there is none |
| Bookmarks.CoursesOf | Back/src/main/java/project/service/BookmarkService.java:64-66 | a course is listed exactly when the user has bookmarked it |
| Bookmarks.CoursesOfDistinct | Back/src/main/java/project/service/BookmarkService.java:64-66 | with unique pairs, no course is listed twice |
| Bookmarks.AddedPairIsUnique | Back/src/main/java/project/service/BookmarkService.java:37-44 | appending a pair that has no bookmark keeps pairs unique |
| Bookmarks.BookmarkService.AddBookmark | Back/src/main/java/project/service/BookmarkService.java:30-45 | ResourceNotFound for a missing user or course, IllegalState for an existing bookmark; success appends exactly one bookmark and the pair then has exactly one |
| Bookmarks.BookmarkService.RemoveBookmark | Back/src/main/java/project/service/BookmarkService.java:47-58 | fails exactly for a missing user, course or bookmark, all ResourceNotFound; otherwise the pair's bookmark goes and every other bookmark stays |
| Bookmarks.BookmarkService.GetBookmarkedCourses | Back/src/main/java/project/service/BookmarkService.java:60-67 | ResourceNotFound exactly for a missing user; otherwise exactly the user's bookmarked courses, without repeats |
| Bookmarks.RemoveAtDropsPair | Back/src/main/java/project/service/BookmarkService.java:54-57 | removing the found bookmark leaves no bookmark for the pair and keeps every other one |
| Bookmarks.AddThenRemoveRestores | Back/src/main/java/project/service/BookmarkService.java:31-58 | adding then removing a bookmark restores the table |
| Enrollments.FindEnrollment | Back/src/main/java/project/service/EnrollmentService.java:49 | the first enrolment of the (student, course) pair, or none exactly when there is none |
| Enrollments.EnrollmentsOf | Back/src/main/java/project/service/EnrollmentService.java:98-101 | exactly the student's enrolments |
| Enrollments.PendingRows | Back/src/main/java/project/service/EnrollmentService.java:64-70 | one PENDING progress row per lesson, in order, with consecutive ids, for the new enrolment |
| Enrollments.PendingRowsOnePerLesson | Back/src/main/java/project/service/EnrollmentService.java:64-70 | on distinct lessons each lesson gets exactly one progress row, and other lessons none |
| Enrollments.Advance | Back/src/main/java/project/service/EnrollmentService.java:115-121 | the progress becomes the given percentage; exactly 100 marks the enrolment COMPLETED; otherwise the status is kept |
| Enrollments.CompletedIsFinal | Back/src/main/java/project/service/EnrollmentService.java:118-121 | once COMPLETED, later progress updates never reopen an enrolment |
| Enrollments.EnrollmentService.EnrollStudentInCourse | Back/src/main/java/project/service/EnrollmentService.java:38-73 | ResourceNotFound for a missing user or course, IllegalState if already enrolled, with nothing changed; success appends one ONGOING enrolment at 0 % and exactly one PENDING row per lesson |
| Enrollments.EnrollmentService.UnenrollStudentFromCourse | Back/src/main/java/project/service/EnrollmentService.java:75-90 | ResourceNotFound for a missing user, course or enrolment; otherwise that enrolment and its progress rows go and nothing else |
| Enrollments.EnrollmentService.GetEnrolledCourses | Back/src/main/java/project/service/EnrollmentService.java:92-102 | ResourceNotFound exactly for a missing user; otherwise exactly the student's enrolments |
| Enrollments.EnrollmentService.UpdateEnrollmentProgress | Back/src/main/java/project/service/EnrollmentService.java:104-124 | ResourceNotFound for a missing enrolment, IllegalState for another student; otherwise only that enrolment advances |
| Enrollments.BuildPendingRows | Back/src/main/java/project/service/EnrollmentService.java:64-70 | the loop over the lessons builds exactly the pending rows |
| Enrollments.RemoveEnrollmentKeepsValid | Back/src/main/java/project/service/EnrollmentService.java:85-89 | removing an enrolment keeps the table's invariants and leaves no enrolment for the pair |
| LessonProgressTracking.FindRow | Back/src/main/java/project/service/LessonProgressService.java:44-46 | the progress row of the (enrolment, lesson) pair, or none exactly when there is none |
| LessonProgressTracking.CompletedLessons | Back/src/main/java/project/service/LessonProgressService.java:67-71 | exactly the lessons with a COMPLETED row for the enrolment |
| LessonProgressTracking.MarkedRow | Back/src/main/java/project/service/LessonProgressService.java:44-51 | the row after marking: COMPLETED at now for that pair, keeping the id of an existing row |
| LessonProgressTracking.MarkRowsUpserts | Back/src/main/java/project/service/LessonProgressService.java:44-53 | marking is an upsert: pairs stay unique, the pair's row is COMPLETED, the table grows only for a new pair, and other rows are unchanged |
| LessonProgressTracking.MarkTwiceIsMarkOnce | Back/src/main/java/project/service/LessonProgressService.java:44-53 | marking the same lesson twice at the same instant equals marking it once |
| LessonProgressTracking.CountIsLessons | Back/src/main/java/project/service/LessonProgressService.java:67-71 | with unique pairs, the completed count is the number of completed lessons |
| LessonProgressTracking.CompletedWithinLessons | Back/src/main/java/project/service/LessonProgressService.java:67-73 | the completed count never exceeds the course's lesson count, so the percentage is at most 100 |
| LessonProgressTracking.MarkedIsCounted | Back/src/main/java/project/service/LessonProgressService.java:48-55 | after marking, the count is at least 1 |
| LessonProgressTracking.LessonProgressService.IsUserEnrolledInCourse | Back/src/main/java/project/service/LessonProgressService.java:28-30 | true exactly when an enrolment with that id belongs to that student |
| LessonProgressTracking.LessonProgressService.GetCourseProgress | Back/src/main/java/project/service/LessonProgressService.java:60-64 | ResourceNotFound exactly for a missing enrolment; otherwise its stored percentage |
| LessonProgressTracking.LessonProgressService.MarkLessonAsCompleted | Back/src/main/java/project/service/LessonProgressService.java:32-81 | ResourceNotFound for a missing enrolment or lesson, IllegalArgument for a lesson of another course, with nothing changed; otherwise the pair's row is upserted as COMPLETED and the enrolment advances to the percentage of completed lessons, which counts between 1 and the total |
| LessonProgressTracking.MarkKeepsFit | Back/src/main/java/project/service/LessonProgressService.java:44-53 | marking keeps every row tied to an existing enrolment and a lesson of its course |
| Courses.HandlePricingAndPrice | Back/src/main/java/project/service/CourseService.java:151-161 | no pricing type means PAID; FREE costs 0; a PAID course keeps a non-negative price, and a missing or negative price becomes 0 |
| Courses.PricingIdempotent | Back/src/main/java/project/service/CourseService.java:151-161 | normalising is idempotent, and its result is always consistent |
| Courses.FindInstructorByUser | Back/src/main/java/project/service/CourseService.java:57-58 | the first instructor profile of the user, or none exactly when there is none |
| Courses.CourseService.CreateCourse | Back/src/main/java/project/service/CourseService.java:53-120 | ResourceNotFound for a missing user, profile or category, with nothing saved; otherwise the normalised course with zero rating, reviews and students is saved; the followers are notified only when there are any; an unknown instructor id in the follow service fails after the save |
| Courses.CourseService.UpdateCourse | Back/src/main/java/project/service/CourseService.java:122-149 | fails exactly for a missing course or an unknown given category, with nothing changed; otherwise text and normalised pricing are replaced, and the category changes only when one is given |
| Courses.NewCourseDefaults | Back/src/main/java/project/service/CourseService.java:63-75 | a new course starts with no rating, reviews or students, and with consistent pricing |
| Reviews.ReviewsOfMembers | Back/src/main/java/project/service/ReviewService.java:226 | exactly the reviews of the course, in order |
| Reviews.Rerated | Back/src/main/java/project/service/ReviewService.java:225-242 | the total becomes the number of the course's reviews; the rating becomes 0 with none and their rounded average otherwise; nothing else changes |
| Reviews.InstructorRecipient | Back/src/main/java/project/service/ReviewService.java:70-101 | IllegalState exactly when the course has no instructor or the instructor no user; otherwise the instructor's user, unless that user is the actor |
| Reviews.FindReview | Back/src/main/java/project/service/ReviewService.java:108-109 | a position found holds a review with that id |
| Reviews.FindReviewMisses | Back/src/main/java/project/service/ReviewService.java:108-109 | the lookup finds nothing exactly when no review has that id |
| Reviews.RecountKeepsCounts | Back/src/main/java/project/service/ReviewService.java:225-242 | recounting a course after a new review keeps every course's count equal to its reviews |
| Reviews.EditKeepsCounts | Back/src/main/java/project/service/ReviewService.java:115-121 | editing a review in place keeps every course's count |
| Reviews.DeleteKeepsCounts | Back/src/main/java/project/service/ReviewService.java:171-172 | deleting a review and recounting its course keeps every course's count |
| Reviews.AppendKeepsConsistent | Back/src/main/java/project/service/ReviewService.java:59-68 | a new review with the next id and its recounted course keep every count and reference right |
| Reviews.EditKeepsConsistent | Back/src/main/java/project/service/ReviewService.java:115-121 | an edit in place and the recounted course keep every count and reference right |
| Reviews.DeleteKeepsConsistent | Back/src/main/java/project/service/ReviewService.java:171-172 | a delete and the recounted course keep every count and reference right |
| Reviews.NoReviewsMeansZero | Back/src/main/java/project/service/ReviewService.java:237-240 | a course whose reviews are all gone is rated 0 with 0 reviews |
| Reviews.ReviewService.CreateReview | Back/src/main/java/project/service/ReviewService.java:42-104 | ResourceNotFound for a missing course or user; IllegalState if not enrolled, not COMPLETED, or the course lacks an instructor or its user, all rolled back; success appends the review, rerates the course and notifies the instructor unless they wrote it |
| Reviews.ReviewService.UpdateReview | Back/src/main/java/project/service/ReviewService.java:106-157 | ResourceNotFound for a missing review, IllegalState for another author, and failure when the course lacks an instructor or its user, all rolled back; success replaces rating and comment in place, rerates and notifies the instructor unless they are the author |
| Reviews.ReviewService.DeleteReview | Back/src/main/java/project/service/ReviewService.java:159-205 | ResourceNotFound for a missing review, IllegalState for another author, and failure when the course lacks an instructor or its user, all rolled back; success removes exactly that review, rerates and notifies the instructor unless they are the author |
| TwoFactor.DigitString | Back/src/main/java/project/service/TwoFactorAuthenticationService.java:111-113 | one decimal digit per draw, in order, each the character of its draw |
| TwoFactor.GenerateRandomCode | Back/src/main/java/project/service/TwoFactorAuthenticationService.java:108-115 | the loop builds exactly the digit string of the six draws: six characters, all digits |
| TwoFactor.DigitsValueBound | Back/src/main/java/project/service/TwoFactorAuthenticationService.java:108-115 | a string of w digits denotes a number below 10^w |
| TwoFactor.CheckCode | Back/src/main/java/project/service/TwoFactorAuthenticationService.java:88-105 | true exactly when a code is stored, equals the one presented, and has not expired (the expiry instant itself still counts); an expired or accepted code is cleared; a missing or wrong code leaves the user as is |
| TwoFactor.CodeIsSingleUse | Back/src/main/java/project/service/TwoFactorAuthenticationService.java:99-105 | an accepted code is never accepted again |
| TwoFactor.ExpiredCodeIsCleared | Back/src/main/java/project/service/TwoFactorAuthenticationService.java:92-97 | an expired code is refused and stays unusable afterwards |
| TwoFactor.SentCodeWindow | Back/src/main/java/project/service/TwoFactorAuthenticationService.java:64-68 | a code just sent is accepted until five minutes later, and a different code is refused without clearing it |
| TwoFactor.TwoFactorAuthenticationService.EnableTwoFactorAuthentication | Back/src/main/java/project/service/TwoFactorAuthenticationService.java:32-41 | SecurityViolation for a bad token, then user lookup failure, with nothing changed; otherwise only the user's flag is set |
| TwoFactor.TwoFactorAuthenticationService.DisableTwoFactorAuthentication | Back/src/main/java/project/service/TwoFactorAuthenticationService.java:43-54 | the same guards; otherwise the flag, code and expiry are cleared |
| TwoFactor.TwoFactorAuthenticationService.SendTwoFactorCode | Back/src/main/java/project/service/TwoFactorAuthenticationService.java:56-78 | the same guards, with no change and no mail; otherwise a six-digit code is stored with expiry now + 5 min and mailed to the user's address |
| TwoFactor.TwoFactorAuthenticationService.VerifyTwoFactorCode | Back/src/main/java/project/service/TwoFactorAuthenticationService.java:80-106 | the same guards; otherwise the answer and the user's new state are those of the code check |
| PasswordReset.GenerateCode | Back/src/main/java/project/service/PasswordResetService.java:73-77 | six digits that read back as the draw, which lies in [0, 999998] |
| PasswordReset.GenerateCodeInjective | Back/src/main/java/project/service/PasswordResetService.java:73-77 | distinct draws give distinct codes |
| PasswordReset.TokenCount | Back/src/main/java/project/repository/PasswordResetTokenRepository.java:10 | the number of rows holding a code, which is zero exactly when none does |
| PasswordReset.FindByToken | Back/src/main/java/project/repository/PasswordResetTokenRepository.java:10 | the single-result query: null for no row, the row for one, NonUniqueResult for several |
| PasswordReset.WithoutUser | Back/src/main/java/project/repository/PasswordResetTokenRepository.java:11 | `deleteByUser`: exactly the user's rows go |
| PasswordReset.RemoveAtCounts | Back/src/main/java/project/service/PasswordResetService.java:70 | deleting a row removes exactly that row from the code and user counts |
| PasswordReset.ReissueKeepsOnePerUser | Back/src/main/java/project/service/PasswordResetService.java:39-45 | the intended delete-then-save keeps at most one code per user, and exactly one for that user |
| PasswordReset.WithoutAbsentUser | Back/src/main/java/project/repository/PasswordResetTokenRepository.java:11 | `deleteByUser` of a user with no rows leaves the table unchanged |
| PasswordReset.ReissueAsWritten | Back/src/main/java/project/service/PasswordResetService.java:39-45 | as written, the save happens exactly when the user holds no code, and then gives what delete-then-save would; otherwise TransactionRequired |
| PasswordReset.FirstCodeKeepsOnePerUser | Back/src/main/java/project/service/PasswordResetService.java:43-45 | saving the first code of a user keeps one code per user, and exactly one for that user |
| PasswordReset.AsWrittenLockOut | Back/src/main/java/project/service/PasswordResetService.java:39-62 | a user all of whose held codes have expired stays locked out: their own request fails, others' requests and every accepted reset keep the lock, and no accepted code is theirs |
| PasswordReset.AsWrittenSecondRequestFails | Back/src/main/java/project/service/PasswordResetService.java:39-45 | a user holding one code who asks again gets TransactionRequired, where delete-then-save would leave only the new code |
| PasswordReset.SharedCodeBlocksReset | Back/src/main/java/project/service/PasswordResetService.java:53-59 | two outstanding rows with the same code make the lookup fail with NonUniqueResult |
| PasswordReset.PasswordResetService.SendResetCode | Back/src/main/java/project/service/PasswordResetService.java:31-49 | as written: IllegalArgument for an unknown address and TransactionRequired for a user who already holds a code, each with nothing changed; otherwise the generated code is saved as the user's only code and mailed to that address |
| PasswordReset.PasswordResetService.SendResetCodeInTransaction | Back/src/main/java/project/service/PasswordResetService.java:31-49 | as intended: IllegalArgument exactly for an unknown address, with nothing changed; otherwise the user's old codes are replaced by the generated code, which is mailed to that address |
| PasswordReset.PasswordResetService.IsValidCode | Back/src/main/java/project/service/PasswordResetService.java:52-55 | true exactly when a single row holds the code and it has not expired; NonUniqueResult exactly when several do |
| PasswordReset.PasswordResetService.ResetPassword | Back/src/main/java/project/service/PasswordResetService.java:58-71 | succeeds exactly when the code is valid; then the token's user gets the encoded password and the code is gone; NonUniqueResult for a shared code, otherwise IllegalArgument, with nothing changed |

## Left out

- Event creation and update, the attendance exports (list and CSV), `getAllEvents` and `getMyRegisteredEvents`: they map DTOs, call the HMS room service over HTTP and format text, and none of that has rules to model. Image uploads, the chatbot and the controllers are out for the same reason.
- The JSON parser, the QR image rendering and Base64 are library calls. The parser's output is an input (`Document`), and rendering failure is a boolean.
- Floating-point arithmetic: the review average with its HALF_UP rounding and the lesson percentage `(int) ((double) done / total * 100)` are function parameters. The model proves what depends on them: which ratings are averaged, and that the count is at most the total. It does not prove what the double arithmetic returns.
- Reviews.Rerated: a null rating in a review (the DTO's boxed value) is not modelled; ratings are reals.
- `getReviewsByCourse` and its three sort orders are not modelled; the model keeps only the per-course filter.
- Concurrency: the cooldown map is a `ConcurrentHashMap` and the jobs are scheduled. Each operation is modelled as one atomic step.
- Message texts, mail subjects and the WebSocket payload are not modelled. A notification keeps its title and message as given, and mails keep only the recipient and the code.
- Course level, language, image and last-update date; enrolment and access dates; and the DTO mappings (CourseDTO, EnrollmentDTO, ReviewDTO, LessonProgressDTO) are not modelled.
- Enrollments.EnrollmentService.UnenrollStudentFromCourse: the model deletes the enrolment's progress rows with it, following the `CascadeType.ALL` mapping in Enrollment.java. The service itself issues only the enrolment delete.
- Enrollments.EnrollmentService.EnrollStudentInCourse: `findById(userId.intValue())` here, in unenrolment, in the course listing, and the owner check of the progress update all use the 32-bit truncation of the id (`Common.Wrap32`). The key-type mismatch with the Long-keyed repository is not modelled further.
- The session status rule (`getCurrentStatus`) and the approved-instructor check are declared outside the core. They enter as `statusOf` and `approved`.
- Session.java as shown declares no `SessionStatus` enum. The source shows the constant LIVE (SessionStatusUpdater.java:48) and the lookup by name (`valueOf`, SessionService.java:84). The other two names, UPCOMING and ENDED, are assumed. Session.java also declares no status field and no initial value, and createSession sets none; the model stores a new session as UPCOMING (Sessions.SessionService.CreateSession). If the stored status starts out null, the first tick of SessionStatusUpdater.java:44 finds `!newStatus.equals(null)` and saves every session, including one that is still upcoming; the model's first tick saves only sessions whose status actually changes (SessionStatusUpdater.SavedIffChanged), so that first-tick save is not modelled.
- Sessions.UpperChar: `toUpperCase` runs in the default locale, taken here to be one without Turkish casing rules. Characters whose upper case is not an ASCII letter are kept as they are; this changes the upper-cased text, but never which status name it matches.
- TwoFactor: the fields `twoFactorEnabled`, `twoFactorCode` and `twoFactorCodeExpiry` are not declared in the UserEntity shown. The model gives each user these three fields. Clock granularity is seconds, not milliseconds.
- PasswordReset: the expiry rule of `PasswordResetToken.isExpired()` is not part of this model; it is the parameter `expired`. The user lookup by address assumes addresses are unique (a map).
- Randomness: `Random.nextInt` draws are parameters constrained to their ranges.
- Mail sending (`JavaMailSender`, `EmailService`) is recorded as a mail log entry and cannot fail in the model.
- Reviews.ReviewService.UpdateReview and Reviews.ReviewService.DeleteReview compare the review's user id with `userId` by value. The source writes `review.getUser().getId() != userId` (ReviewService.java:111,164). The same file calls `.equals` on that getter (:82, :135, :186), so `getId()` must return `Long`, not the `long` shown in UserEntity.java. With `Long`, `!=` compares references. The model's reading agrees with the source only when the review's user is the instance the request loaded, so that both ids are the same object.
- EventDto.FromEntity models the one-argument `fromEntity(event)` in EventDTO.java. The three-argument call in EventService.java does not match any declaration shown and is not modelled.

## Findings

| source | as written | input that shows it | evidently intended | confidence | as-written member | corrected member |
|---|---|---|---|---|---|---|
| Back/src/main/java/project/service/NotificationCleanupService.java:54 | after deleting a page of expired rows the loop moves to the next page, but the deletion has already shifted the remaining expired rows onto page 0, so every other page is skipped | 1001 expired notifications: the first run deletes 1000, then asks for page 1 of the single remaining row, gets nothing and stops, leaving one expired row | keep asking for page 0 until it comes back empty, so every expired row is deleted | not executed | NotificationCleanup.AsWrittenMissesOneOf1001 | NotificationCleanup.NotificationCleanupService.DeleteExpiredNotificationsFromFirstPage |
| Back/src/main/java/project/service/PasswordResetService.java:40 | `sendResetCode` carries no `@Transactional`, and neither does the controller or the repository method, so the derived `deleteByUser` runs without a transaction; when it finds a row its remove throws TransactionRequiredException (as InvalidDataAccessApiUsageException) before the new code is saved | a user with one unspent code asks for a reset again: the call throws, the table keeps the old code and no mail is sent; if that code has expired, `resetPassword` refuses it (:60-62) and nothing else deletes it, so the user can never reset | run the delete and the save in one transaction, replacing the old code | not executed | PasswordReset.AsWrittenLockOut | PasswordReset.PasswordResetService.SendResetCodeInTransaction |
