/** `NotificationService`: stored notifications, the fan-out to many users in
    batches of one hundred, the read paths and the per-user rules for marking
    and deleting. The WebSocket send is modelled by the set of users whose
    delivery throws; every attempt is recorded in `pushes`, and a failed one
    changes nothing else. */
module Notifications {
  import opened Common

  datatype NotificationType = SESSION | COURSE | SYSTEM | FOLLOWERS | REVIEW | CATEGORY | EVENT

  /** A row of the notifications table. */
  datatype Notification = Notification(
    id: Id,
    userId: Id,
    title: string,
    message: string,
    ntype: NotificationType,
    createdAt: Time,
    expiresAt: Time,
    isRead: bool)

  /** One `convertAndSend` to "/topic/notifications/{userId}", and whether it went through. */
  datatype Push = Push(userId: Id, notificationId: Id, delivered: bool)

  const PAGE_SIZE: nat := 100

  // ------------------------------------------------------------ batching

  /** The slices `subList(i, min(i + 100, n))` for i = start, start + 100, ... */
  function BatchesFrom(ids: seq<Id>, start: nat): (bs: seq<seq<Id>>)
    decreases |ids| - start
  {
    if start >= |ids| then []
    else [ids[start..Min(start + PAGE_SIZE, |ids|)]] + BatchesFrom(ids, start + PAGE_SIZE)
  }

  function Flatten(bs: seq<seq<Id>>): seq<Id> {
    if bs == [] then [] else bs[0] + Flatten(bs[1..])
  }

  /** The slices cover the list in order, and each holds between 1 and 100 ids. */
  lemma {:induction false} BatchesCoverInOrder(ids: seq<Id>, start: nat)
    requires start <= |ids|
    ensures Flatten(BatchesFrom(ids, start)) == ids[start..]
    ensures forall b :: b in BatchesFrom(ids, start) ==> 1 <= |b| <= PAGE_SIZE
    decreases |ids| - start
  {
    if start < |ids| {
      var end := Min(start + PAGE_SIZE, |ids|);
      var bs := BatchesFrom(ids, start);
      if end < |ids| {
        BatchesCoverInOrder(ids, end);
      }
      assert bs[1..] == BatchesFrom(ids, start + PAGE_SIZE);
      assert ids[start..] == ids[start..end] + ids[end..];
    }
  }

  /** `userRepository.findAllById(batch)`: the directory rows whose id is listed,
      once each, in directory order. */
  function FindAllById(users: seq<User>, batch: seq<Id>): (found: seq<User>)
    ensures forall u :: u in found <==> u in users && u.id in batch
  {
    if users == [] then []
    else
      var rest := FindAllById(users[1..], batch);
      assert users == [users[0]] + users[1..];
      if users[0].id in batch then [users[0]] + rest else rest
  }

  /** The users the explicit-id path hands to the batch writer, batch after batch. */
  function BatchRecipients(users: seq<User>, bs: seq<seq<Id>>, role: Role): seq<User> {
    if bs == [] then [] else WithRole(FindAllById(users, bs[0]), role) + BatchRecipients(users, bs[1..], role)
  }

  function ExplicitRecipients(users: seq<User>, ids: seq<Id>, role: Role): seq<User> {
    BatchRecipients(users, BatchesFrom(ids, 0), role)
  }

  lemma {:induction false} BatchRecipientsMembers(users: seq<User>, bs: seq<seq<Id>>, role: Role)
    ensures forall u :: u in BatchRecipients(users, bs, role) <==>
              u in users && u.role == Some(role) && u.id in Flatten(bs)
  {
    if bs != [] {
      BatchRecipientsMembers(users, bs[1..], role);
      assert forall x :: x in Flatten(bs) <==> x in bs[0] || x in Flatten(bs[1..]);
    }
  }

  /** On the explicit path, exactly the listed users of the requested role are
      notified: a listed id with another role, no role or no row is skipped. */
  lemma ExplicitRecipientsExact(users: seq<User>, ids: seq<Id>, role: Role)
    ensures forall u :: u in ExplicitRecipients(users, ids, role) <==>
              u in users && u.role == Some(role) && u.id in ids
  {
    BatchesCoverInOrder(ids, 0);
    assert ids[0..] == ids;
    BatchRecipientsMembers(users, BatchesFrom(ids, 0), role);
  }

  /** One turn of the slicing loop: the slice at `i`, then the slices after it. */
  lemma BatchStep(users: seq<User>, ids: seq<Id>, i: nat, role: Role)
    requires i < |ids|
    ensures BatchRecipients(users, BatchesFrom(ids, i), role)
         == WithRole(FindAllById(users, ids[i..Min(i + PAGE_SIZE, |ids|)]), role)
            + BatchRecipients(users, BatchesFrom(ids, i + PAGE_SIZE), role)
  {
    var bs := BatchesFrom(ids, i);
    assert bs[0] == ids[i..Min(i + PAGE_SIZE, |ids|)];
    assert bs[1..] == BatchesFrom(ids, i + PAGE_SIZE);
  }

  lemma ListedStep(users: seq<User>, ids: seq<Id>, i: nat, role: Role, done: seq<User>, total: seq<User>)
    requires i < |ids|
    requires done + BatchRecipients(users, BatchesFrom(ids, i), role) == total
    ensures (done + WithRole(FindAllById(users, ids[i..Min(i + PAGE_SIZE, |ids|)]), role))
            + BatchRecipients(users, BatchesFrom(ids, i + PAGE_SIZE), role) == total
  {
    BatchStep(users, ids, i, role);
  }

  /** Page `p` of size 100 of a query result. */
  function PageOf(all: seq<User>, p: nat): (page: seq<User>)
    ensures |page| <= PAGE_SIZE
    ensures (p + 1) * PAGE_SIZE <= |all| ==> |page| == PAGE_SIZE
    ensures |all| <= p * PAGE_SIZE ==> page == []
    ensures |page| > 0 ==> p * PAGE_SIZE + |page| <= |all|
    ensures forall k :: 0 <= k < |page| ==> page[k] == all[p * PAGE_SIZE + k]
  {
    all[Min(p * PAGE_SIZE, |all|)..Min((p + 1) * PAGE_SIZE, |all|)]
  }

  /** `Page.hasNext()`. */
  predicate HasNext(all: seq<User>, p: nat) {
    (p + 1) * PAGE_SIZE < |all|
  }

  // --------------------------------------------------------------- rows

  /** What every row of one fan-out shares: text, type, creation and expiry instants. */
  datatype Draft = Draft(title: string, message: string, ntype: NotificationType, createdAt: Time, expiresAt: Time)

  /** The rows `saveAll` stores for a batch: one per user, in order, with
      consecutive identities from `firstId` and the shared draft. */
  function MakeRows(us: seq<User>, firstId: Id, d: Draft): (rows: seq<Notification>)
    ensures |rows| == |us|
    ensures forall k :: 0 <= k < |us| ==>
              rows[k] == Notification(firstId + k, us[k].id, d.title, d.message, d.ntype, d.createdAt, d.expiresAt, false)
  {
    seq(|us|, k requires 0 <= k < |us| => Notification(firstId + k, us[k].id, d.title, d.message, d.ntype, d.createdAt, d.expiresAt, false))
  }

  /** The send loop over the saved rows. */
  function PushesFor(rows: seq<Notification>, unreachable: set<Id>): (ps: seq<Push>)
    ensures |ps| == |rows|
    ensures forall k :: 0 <= k < |rows| ==>
              ps[k] == Push(rows[k].userId, rows[k].id, rows[k].userId !in unreachable)
  {
    seq(|rows|, k requires 0 <= k < |rows| => Push(rows[k].userId, rows[k].id, rows[k].userId !in unreachable))
  }

  /** The part of the service state a fan-out writes. */
  datatype Outbox = Outbox(store: seq<Notification>, nextId: Id, pushes: seq<Push>)

  /** The effect of notifying `us` with draft `d`: their rows are stored, the
      identity counter advances past them, and one send is attempted per row. */
  function Deliver(o: Outbox, us: seq<User>, d: Draft, unreachable: set<Id>): (o': Outbox)
    ensures o'.store == o.store + MakeRows(us, o.nextId, d)
    ensures o'.nextId == o.nextId + |us|
    ensures o'.pushes == o.pushes + PushesFor(MakeRows(us, o.nextId, d), unreachable)
  {
    var rows := MakeRows(us, o.nextId, d);
    Outbox(o.store + rows, o.nextId + |us|, o.pushes + PushesFor(rows, unreachable))
  }

  /** Notifying two groups one after the other is notifying them together. */
  lemma DeliverAppend(o: Outbox, a: seq<User>, b: seq<User>, d: Draft, unreachable: set<Id>)
    ensures Deliver(Deliver(o, a, d, unreachable), b, d, unreachable) == Deliver(o, a + b, d, unreachable)
  {
    var ra := MakeRows(a, o.nextId, d);
    var rb := MakeRows(b, o.nextId + |a|, d);
    MakeRowsAppend(a, b, o.nextId, d);
    PushesForAppend(ra, rb, unreachable);
    assert (o.store + ra) + rb == o.store + (ra + rb);
    assert (o.pushes + PushesFor(ra, unreachable)) + PushesFor(rb, unreachable)
        == o.pushes + (PushesFor(ra, unreachable) + PushesFor(rb, unreachable));
  }

  lemma MakeRowsAppend(a: seq<User>, b: seq<User>, firstId: Id, d: Draft)
    ensures MakeRows(a + b, firstId, d) == MakeRows(a, firstId, d) + MakeRows(b, firstId + |a|, d)
  {
    var l := MakeRows(a + b, firstId, d);
    var r := MakeRows(a, firstId, d) + MakeRows(b, firstId + |a|, d);
    assert |l| == |r|;
    forall k | 0 <= k < |l|
      ensures l[k] == r[k]
    {
      if k >= |a| {
        assert (a + b)[k] == b[k - |a|];
      }
    }
  }

  lemma PushesForAppend(ra: seq<Notification>, rb: seq<Notification>, unreachable: set<Id>)
    ensures PushesFor(ra + rb, unreachable) == PushesFor(ra, unreachable) + PushesFor(rb, unreachable)
  {
    var l := PushesFor(ra + rb, unreachable);
    var r := PushesFor(ra, unreachable) + PushesFor(rb, unreachable);
    assert |l| == |r|;
    forall k | 0 <= k < |l|
      ensures l[k] == r[k]
    {
      if k >= |ra| {
        assert (ra + rb)[k] == rb[k - |ra|];
      }
    }
  }

  predicate DistinctNotificationIds(store: seq<Notification>) {
    forall i, j :: 0 <= i < j < |store| ==> store[i].id != store[j].id
  }

  predicate IdsBelow(store: seq<Notification>, bound: Id) {
    forall k :: 0 <= k < |store| ==> store[k].id < bound
  }

  /** The identity rule of the table: distinct ids, all below the counter. */
  predicate Fresh(o: Outbox) {
    DistinctNotificationIds(o.store) && IdsBelow(o.store, o.nextId)
  }

  lemma DeliverKeepsFresh(o: Outbox, us: seq<User>, d: Draft, unreachable: set<Id>)
    requires Fresh(o)
    ensures Fresh(Deliver(o, us, d, unreachable))
  {
    var rows := MakeRows(us, o.nextId, d);
    var all := o.store + rows;
    forall i, j | 0 <= i < j < |all|
      ensures all[i].id != all[j].id
    {
      if j >= |o.store| {
        assert all[j] == rows[j - |o.store|];
        if i >= |o.store| {
          assert all[i] == rows[i - |o.store|];
        }
      }
    }
  }

  // ---------------------------------------------------------- read paths

  /** `findByUserId(userId)` filtered by `expiresAt.isAfter(now)`, in table order. */
  function Visible(store: seq<Notification>, userId: Id, now: Time): (r: seq<Notification>)
    ensures forall n :: n in r <==> n in store && n.userId == userId && n.expiresAt > now
  {
    if store == [] then []
    else
      var rest := Visible(store[1..], userId, now);
      assert store == [store[0]] + store[1..];
      if store[0].userId == userId && store[0].expiresAt > now then [store[0]] + rest else rest
  }

  /** `findByUserIdAndIsRead(userId, false)` with the same expiry filter. */
  function VisibleUnread(store: seq<Notification>, userId: Id, now: Time): (r: seq<Notification>)
    ensures forall n :: n in r <==> n in store && n.userId == userId && !n.isRead && n.expiresAt > now
  {
    if store == [] then []
    else
      var rest := VisibleUnread(store[1..], userId, now);
      assert store == [store[0]] + store[1..];
      if store[0].userId == userId && !store[0].isRead && store[0].expiresAt > now then [store[0]] + rest else rest
  }

  /** The unread list is the visible list without the read notifications, in the same order. */
  lemma {:induction false} UnreadIsVisibleFiltered(store: seq<Notification>, userId: Id, now: Time)
    ensures VisibleUnread(store, userId, now) == UnreadOf(Visible(store, userId, now))
  {
    if store != [] {
      UnreadIsVisibleFiltered(store[1..], userId, now);
    }
  }

  function UnreadOf(ns: seq<Notification>): seq<Notification> {
    if ns == [] then [] else (if ns[0].isRead then [] else [ns[0]]) + UnreadOf(ns[1..])
  }

  /** `notificationRepository.findById`. */
  function FindNotification(store: seq<Notification>, id: Id): (r: Option<nat>)
    ensures r.Some? ==> r.value < |store| && store[r.value].id == id
    ensures r.None? ==> forall k :: 0 <= k < |store| ==> store[k].id != id
  {
    FindByIdFirst(store, (x: Notification) => x.id, id);
    FindById(store, (x: Notification) => x.id, id)
  }

  /** `deleteByIdAndUserId`: the rows with that id and owner are removed. */
  function WithoutOwned(store: seq<Notification>, id: Id, userId: Id): (r: seq<Notification>)
    ensures forall n :: n in r <==> n in store && !(n.id == id && n.userId == userId)
    ensures |r| <= |store|
    ensures DistinctNotificationIds(store) ==> DistinctNotificationIds(r)
    decreases |store|
  {
    if store == [] then []
    else
      var rest := WithoutOwned(store[1..], id, userId);
      assert store == [store[0]] + store[1..];
      if store[0].id == id && store[0].userId == userId then rest
      else
        KeepHeadDistinct(store, rest);
        [store[0]] + rest
  }

  /** The number `deleteByIdAndUserId` reports. */
  function CountOwned(store: seq<Notification>, id: Id, userId: Id): nat {
    if store == [] then 0
    else (if store[0].id == id && store[0].userId == userId then 1 else 0) + CountOwned(store[1..], id, userId)
  }

  /** Once the row was found and its owner checked, the delete statement removes
      it, so the "deleted 0 rows" failure of `deleteNotification` never fires. */
  lemma FoundOwnedRowIsCounted(store: seq<Notification>, k: nat, userId: Id)
    requires k < |store| && store[k].userId == userId
    ensures CountOwned(store, store[k].id, userId) >= 1
    ensures |WithoutOwned(store, store[k].id, userId)| == |store| - CountOwned(store, store[k].id, userId)
  {
    OwnedRowCounted(store, k, userId);
    CountMatchesRemoved(store, store[k].id, userId);
  }

  /** The row at `k` is one of the rows the delete statement matches. */
  lemma {:induction false} OwnedRowCounted(store: seq<Notification>, k: nat, userId: Id)
    requires k < |store| && store[k].userId == userId
    ensures CountOwned(store, store[k].id, userId) >= 1
  {
    if k > 0 {
      assert store[1..][k - 1] == store[k];
      OwnedRowCounted(store[1..], k - 1, userId);
    }
  }

  lemma {:induction false} CountMatchesRemoved(store: seq<Notification>, id: Id, userId: Id)
    ensures |WithoutOwned(store, id, userId)| == |store| - CountOwned(store, id, userId)
  {
    if store != [] {
      CountMatchesRemoved(store[1..], id, userId);
    }
  }

  class NotificationService {
    var users: seq<User>
    var store: seq<Notification>
    var nextId: Id
    var pushes: seq<Push>
    const expiryDays: int

    function Box(): Outbox
      reads this
    {
      Outbox(store, nextId, pushes)
    }

    ghost predicate Valid()
      reads this
    {
      Fresh(Box())
    }

    constructor (users: seq<User>, expiryDays: int)
      ensures Valid()
      ensures this.users == users && this.expiryDays == expiryDays
      ensures store == [] && pushes == []
    {
      this.users := users;
      this.expiryDays := expiryDays;
      store := [];
      nextId := 1;
      pushes := [];
    }

    /** The draft of a notification created at `now`: expiry `now.plusDays(expiryDays)`. */
    function DraftAt(title: string, message: string, ntype: NotificationType, now: Time): (d: Draft)
      reads this
      ensures d.createdAt == now && d.expiresAt == now + expiryDays * DAY
      ensures d.title == title && d.message == message && d.ntype == ntype
    {
      Draft(title, message, ntype, now, now + expiryDays * DAY)
    }

    /** `createNotification`: one row for an existing user, pushed once. */
    method CreateNotification(userId: Id, title: string, message: string, ntype: NotificationType,
                              now: Time, unreachable: set<Id>) returns (r: Result<Notification>)
      requires Valid()
      modifies this
      ensures Valid()
      ensures r.Err? <==> FindUser(users, userId).None?
      ensures r.Err? ==> r.error == IllegalState && Box() == old(Box())
      ensures r.Ok? ==> Box() == Deliver(old(Box()), [users[FindUser(users, userId).value]],
                                         DraftAt(title, message, ntype, now), unreachable)
      ensures r.Ok? ==> r.value == Notification(old(nextId), userId, title, message, ntype, now, now + expiryDays * DAY, false)
      ensures users == old(users)
    {
      var found := FindUser(users, userId);
      if found.None? {
        return Err(IllegalState);
      }
      var d := DraftAt(title, message, ntype, now);
      var row := Notification(nextId, userId, title, message, ntype, now, d.expiresAt, false);
      var o' := Deliver(Box(), [users[found.value]], d, unreachable);
      DeliverKeepsFresh(Box(), [users[found.value]], d, unreachable);
      assert o'.store == store + [row];
      store, nextId, pushes := o'.store, o'.nextId, o'.pushes;
      r := Ok(row);
    }

    /** `createNotificationBatch`: one row per user with a shared expiry, saved
        together, then one send per saved row; an empty batch does nothing. */
    method CreateNotificationBatch(batch: seq<User>, d: Draft, unreachable: set<Id>)
      requires Valid()
      modifies this
      ensures Valid()
      ensures Box() == Deliver(old(Box()), batch, d, unreachable)
      ensures users == old(users)
    {
      if batch == [] {
        assert store + [] == store && pushes + [] == pushes;
        return;
      }
      var rows: seq<Notification> := [];
      var i := 0;
      while i < |batch|
        invariant 0 <= i <= |batch|
        invariant rows == MakeRows(batch[..i], nextId, d)
      {
        rows := rows + [Notification(nextId + i, batch[i].id, d.title, d.message, d.ntype, d.createdAt, d.expiresAt, false)];
        i := i + 1;
      }
      assert batch[..|batch|] == batch;
      var sent: seq<Push> := [];
      var j := 0;
      while j < |rows|
        invariant 0 <= j <= |rows|
        invariant sent == PushesFor(rows[..j], unreachable)
      {
        sent := sent + [Push(rows[j].userId, rows[j].id, rows[j].userId !in unreachable)];
        j := j + 1;
      }
      assert rows[..|rows|] == rows;
      DeliverKeepsFresh(Box(), batch, d, unreachable);
      store, nextId, pushes := store + rows, nextId + |batch|, pushes + sent;
    }

    /** `createNotificationsWithPagination(userIds, ..., roleFilter)` at `now`: a
        non-empty list goes out in slices of 100, each narrowed to the users of
        the role; an empty list means every user of the role, page by page. */
    method CreateNotificationsWithPagination(userIds: seq<Id>, title: string, message: string, ntype: NotificationType,
                                             role: Role, now: Time, unreachable: set<Id>)
      requires Valid()
      modifies this
      ensures Valid()
      ensures Box() == Deliver(old(Box()), if userIds != [] then ExplicitRecipients(users, userIds, role) else WithRole(users, role),
                               DraftAt(title, message, ntype, now), unreachable)
      ensures users == old(users)
    {
      var d := DraftAt(title, message, ntype, now);
      if userIds != [] {
        NotifyListed(userIds, d, role, unreachable);
      } else {
        NotifyRole(d, role, unreachable);
      }
    }

    /** The explicit-id branch: `for (i = 0; i < n; i += 100)` over the slices. */
    method NotifyListed(userIds: seq<Id>, d: Draft, role: Role, unreachable: set<Id>)
      requires Valid()
      modifies this
      ensures Valid()
      ensures Box() == Deliver(old(Box()), ExplicitRecipients(users, userIds, role), d, unreachable)
      ensures users == old(users)
    {
      ghost var o0 := Box();
      ghost var done: seq<User> := [];
      ghost var total := ExplicitRecipients(users, userIds, role);
      assert [] + total == total;
      var i := 0;
      while i < |userIds|
        invariant Valid() && users == old(users)
        invariant done + BatchRecipients(users, BatchesFrom(userIds, i), role) == total
        invariant Box() == Deliver(o0, done, d, unreachable)
        decreases |userIds| - i
      {
        var batchIds := userIds[i..Min(i + PAGE_SIZE, |userIds|)];
        var batch := WithRole(FindAllById(users, batchIds), role);
        ListedStep(users, userIds, i, role, done, total);
        CreateNotificationBatch(batch, d, unreachable);
        DeliverAppend(o0, done, batch, d, unreachable);
        done := done + batch;
        i := i + PAGE_SIZE;
      }
      assert BatchesFrom(userIds, i) == [];
      assert done + [] == done;
    }

    /** The all-users branch: the do-while over pages of 100 users of the role. */
    method NotifyRole(d: Draft, role: Role, unreachable: set<Id>)
      requires Valid()
      modifies this
      ensures Valid()
      ensures Box() == Deliver(old(Box()), WithRole(users, role), d, unreachable)
      ensures users == old(users)
    {
      ghost var o0 := Box();
      ghost var done: seq<User> := [];
      var all := WithRole(users, role);
      var p := 0;
      var more := true;
      while more
        invariant Valid() && users == old(users)
        invariant more ==> p * PAGE_SIZE <= |all|
        invariant !more ==> |all| <= p * PAGE_SIZE
        invariant done == all[..Min(p * PAGE_SIZE, |all|)]
        invariant Box() == Deliver(o0, done, d, unreachable)
        decreases if more then |all| - p * PAGE_SIZE + 1 else 0
      {
        var page := PageOf(all, p);
        CreateNotificationBatch(page, d, unreachable);
        DeliverAppend(o0, done, page, d, unreachable);
        assert all[..Min((p + 1) * PAGE_SIZE, |all|)] == done + page;
        done := done + page;
        more := HasNext(all, p);
        p := p + 1;
      }
      assert done == all;
    }

    /** The four-argument overload: the role filter is USER. */
    method CreateNotificationsForUsers(userIds: seq<Id>, title: string, message: string, ntype: NotificationType,
                                       now: Time, unreachable: set<Id>)
      requires Valid()
      modifies this
      ensures Valid()
      ensures Box() == Deliver(old(Box()), if userIds != [] then ExplicitRecipients(users, userIds, UserRole) else WithRole(users, UserRole),
                               DraftAt(title, message, ntype, now), unreachable)
      ensures users == old(users)
    {
      CreateNotificationsWithPagination(userIds, title, message, ntype, UserRole, now, unreachable);
    }

    /** `getNotificationsByUserId` at instant `now`. */
    function GetNotificationsByUserId(userId: Id, now: Time): (r: seq<Notification>)
      reads this
      ensures forall n :: n in r <==> n in store && n.userId == userId && now < n.expiresAt
    {
      Visible(store, userId, now)
    }

    /** `getUnreadNotifications` at instant `now`. */
    function GetUnreadNotifications(userId: Id, now: Time): (r: seq<Notification>)
      reads this
      ensures forall n :: n in r <==> n in store && n.userId == userId && !n.isRead && now < n.expiresAt
    {
      VisibleUnread(store, userId, now)
    }

    /** `markAsRead` at instant `now`: the owner may mark a notification that has
        not expired; only its `isRead` flag changes. */
    method MarkAsRead(notificationId: Id, userId: Id, now: Time) returns (r: Result<()>)
      requires Valid()
      modifies this
      ensures Valid()
      ensures var k := FindNotification(old(store), notificationId);
              r.Ok? <==> k.Some? && old(store)[k.value].userId == userId && !(old(store)[k.value].expiresAt < now)
      ensures r.Err? ==> r.error == IllegalState && store == old(store)
      ensures var k := FindNotification(old(store), notificationId);
              r.Ok? ==> store == old(store)[k.value := old(store)[k.value].(isRead := true)]
      ensures users == old(users) && nextId == old(nextId) && pushes == old(pushes)
    {
      var k := FindNotification(store, notificationId);
      if k.None? {
        return Err(IllegalState);
      }
      var n := store[k.value];
      if n.userId != userId {
        return Err(IllegalState);
      }
      if n.expiresAt < now {
        return Err(IllegalState);
      }
      var store' := store[k.value := n.(isRead := true)];
      assert forall j :: 0 <= j < |store'| ==> store'[j].id == store[j].id;
      store := store';
      r := Ok(());
    }

    /** `deleteNotification`: the owner's row is deleted. */
    method DeleteNotification(notificationId: Id, userId: Id) returns (r: Result<()>)
      requires Valid()
      modifies this
      ensures Valid()
      ensures var k := FindNotification(old(store), notificationId);
              r.Ok? <==> k.Some? && old(store)[k.value].userId == userId
      ensures r.Err? ==> r.error == IllegalState && store == old(store)
      ensures r.Ok? ==> store == WithoutOwned(old(store), notificationId, userId) &&
                        |store| == |old(store)| - 1 &&
                        forall n :: n in store <==> n in old(store) && n.id != notificationId
      ensures users == old(users) && nextId == old(nextId) && pushes == old(pushes)
    {
      var k := FindNotification(store, notificationId);
      if k.None? {
        return Err(IllegalState);
      }
      if store[k.value].userId != userId {
        return Err(IllegalState);
      }
      FoundOwnedRowIsCounted(store, k.value, userId);
      OwnedCountIsOne(store, k.value);
      var store' := WithoutOwned(store, notificationId, userId);
      assert forall n :: n in store && n.id == notificationId ==> n.userId == userId by {
        forall n | n in store && n.id == notificationId
          ensures n.userId == userId
        {
          var j :| 0 <= j < |store| && store[j] == n;
          assert j == k.value;
        }
      }
      store := store';
      r := Ok(());
    }
  }

  /** With distinct identities, at most one row carries the id being deleted. */
  lemma {:induction false} OwnedCountIsOne(store: seq<Notification>, k: nat)
    requires DistinctNotificationIds(store) && k < |store|
    ensures CountOwned(store, store[k].id, store[k].userId) == 1
  {
    if k == 0 {
      NoOtherOwned(store[1..], store[0].id, store[0].userId);
    } else {
      assert DistinctNotificationIds(store[1..]) by {
        forall i, j | 0 <= i < j < |store[1..]|
          ensures store[1..][i].id != store[1..][j].id
        {
          assert store[1..][i] == store[i + 1] && store[1..][j] == store[j + 1];
        }
      }
      assert store[0].id != store[k].id;
      OwnedCountIsOne(store[1..], k - 1);
    }
  }

  lemma {:induction false} NoOtherOwned(store: seq<Notification>, id: Id, userId: Id)
    requires forall j :: 0 <= j < |store| ==> store[j].id != id
    ensures CountOwned(store, id, userId) == 0
  {
    if store != [] {
      NoOtherOwned(store[1..], id, userId);
    }
  }

  lemma DistinctTail(store: seq<Notification>)
    requires store != [] && DistinctNotificationIds(store)
    ensures DistinctNotificationIds(store[1..])
    ensures forall n :: n in store[1..] ==> n.id != store[0].id
  {
    forall n | n in store[1..]
      ensures n.id != store[0].id
    {
      var k :| 0 <= k < |store[1..]| && store[1..][k] == n;
      assert store[k + 1] == n;
    }
  }

  lemma DistinctCons(x: Notification, rest: seq<Notification>)
    requires DistinctNotificationIds(rest) && forall n :: n in rest ==> n.id != x.id
    ensures DistinctNotificationIds([x] + rest)
  {
    var all := [x] + rest;
    forall i, j | 0 <= i < j < |all|
      ensures all[i].id != all[j].id
    {
      assert all[j] == rest[j - 1] && all[j] in rest;
      if i > 0 {
        assert all[i] == rest[i - 1];
      }
    }
  }

  lemma KeepHeadDistinct(store: seq<Notification>, rest: seq<Notification>)
    requires store != [] && forall n :: n in rest ==> n in store[1..]
    ensures DistinctNotificationIds(store) && DistinctNotificationIds(rest) ==> DistinctNotificationIds([store[0]] + rest)
  {
    if DistinctNotificationIds(store) && DistinctNotificationIds(rest) {
      DistinctTail(store);
      DistinctCons(store[0], rest);
    }
  }
}
