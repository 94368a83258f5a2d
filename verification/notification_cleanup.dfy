/** `NotificationCleanupService.deleteExpiredNotifications`: the nightly batched
    delete of expired notifications. The instant is read once, before the loop;
    each turn asks for one page of the rows expiring strictly before it, deletes
    those ids, adds the reported count and moves the page cursor forward. */
module NotificationCleanup {
  import opened Common
  import opened Notifications

  const BATCH_SIZE: nat := 1000

  /** `findByExpiresAtBefore(now)` before paging: the rows with `expiresAt < now`, in table order. */
  function ExpiredRows(store: seq<Notification>, now: Time): (r: seq<Notification>)
    ensures |r| <= |store|
  {
    if store == [] then []
    else
      var rest := ExpiredRows(store[1..], now);
      if store[0].expiresAt < now then [store[0]] + rest else rest
  }

  /** The query returns exactly the rows of the table that expire before `now`. */
  lemma {:induction false} ExpiredRowsMembers(store: seq<Notification>, now: Time)
    ensures forall n :: n in ExpiredRows(store, now) <==> n in store && n.expiresAt < now
  {
    if store != [] {
      ExpiredRowsMembers(store[1..], now);
      assert store == [store[0]] + store[1..];
    }
  }

  /** Page `p` of `size` rows of a query result. */
  function PageAt(xs: seq<Notification>, p: nat, size: nat): (page: seq<Notification>)
    ensures |page| <= size
    ensures forall n :: n in page ==> n in xs
  {
    xs[Min(p * size, |xs|)..Min((p + 1) * size, |xs|)]
  }

  /** `stream().map(Notification::getId)`. */
  function IdsOf(rows: seq<Notification>): (ids: seq<Id>)
    ensures |ids| == |rows|
    ensures forall k :: 0 <= k < |rows| ==> ids[k] == rows[k].id
  {
    seq(|rows|, k requires 0 <= k < |rows| => rows[k].id)
  }

  /** `deleteByIds(ids)`: every row whose id is listed goes; the rest keep their order. */
  function DeleteByIds(store: seq<Notification>, ids: seq<Id>): (r: seq<Notification>)
    ensures |r| <= |store|
  {
    if store == [] then []
    else
      var rest := DeleteByIds(store[1..], ids);
      if store[0].id in ids then rest else [store[0]] + rest
  }

  /** What survives the delete is exactly the rows whose id is not listed. */
  lemma {:induction false} DeleteByIdsMembers(store: seq<Notification>, ids: seq<Id>)
    ensures forall n :: n in DeleteByIds(store, ids) <==> n in store && n.id !in ids
  {
    if store != [] {
      DeleteByIdsMembers(store[1..], ids);
      assert store == [store[0]] + store[1..];
    }
  }

  /** A delete that matches some row makes the table shorter. */
  lemma {:induction false} DeleteShrinks(store: seq<Notification>, ids: seq<Id>, k: nat)
    requires k < |store| && store[k].id in ids
    ensures |DeleteByIds(store, ids)| < |store|
  {
    if k > 0 {
      DeleteShrinks(store[1..], ids, k - 1);
    }
  }

  /** What a run leaves behind: the table, the id list of every delete
      statement issued, and the running total of reported deletions. */
  datatype Run = Run(store: seq<Notification>, batches: seq<seq<Id>>, total: int)

  /** The first row of a non-empty page is a row of the table, and its id is listed. */
  lemma PageHeadInTable(store: seq<Notification>, now: Time, p: nat, size: nat)
    requires PageAt(ExpiredRows(store, now), p, size) != []
    ensures var page := PageAt(ExpiredRows(store, now), p, size);
            |DeleteByIds(store, IdsOf(page))| < |store|
  {
    var page := PageAt(ExpiredRows(store, now), p, size);
    ExpiredRowsMembers(store, now);
    assert page[0] in store;
    var k :| 0 <= k < |store| && store[k] == page[0];
    assert IdsOf(page)[0] == store[k].id;
    DeleteShrinks(store, IdsOf(page), k);
  }

  /** The delete loop from page `p` on. With `advance` the cursor moves to the
      next page after every delete, as `pageable.next()` does; without it every
      turn asks for the first page again. The loop stops at the first empty page. */
  function Sweep(store: seq<Notification>, now: Time, size: nat, p: nat, advance: bool): (r: Run)
    decreases |store|
  {
    var page := PageAt(ExpiredRows(store, now), p, size);
    if page == [] then Run(store, [], 0)
    else
      var ids := IdsOf(page);
      PageHeadInTable(store, now, p, size);
      var store1 := DeleteByIds(store, ids);
      var rest := Sweep(store1, now, size, if advance then p + 1 else p, advance);
      Run(rest.store, [ids] + rest.batches, (|store| - |store1|) + rest.total)
  }

  /** Every delete statement lists between 1 and `size` ids, the total is the
      number of rows deleted, and only rows of the table survive. */
  lemma {:induction false} SweepBounds(store: seq<Notification>, now: Time, size: nat, p: nat, advance: bool)
    ensures var r := Sweep(store, now, size, p, advance);
            (forall b :: b in r.batches ==> 1 <= |b| <= size) &&
            r.total == |store| - |r.store| &&
            (forall n :: n in r.store ==> n in store)
    decreases |store|
  {
    var page := PageAt(ExpiredRows(store, now), p, size);
    if page != [] {
      var ids := IdsOf(page);
      PageHeadInTable(store, now, p, size);
      DeleteByIdsMembers(store, ids);
      SweepBounds(DeleteByIds(store, ids), now, size, if advance then p + 1 else p, advance);
    }
  }

  // ------------------------------------------------------------ properties

  lemma {:induction false} ExpiredRowsKeepsDistinct(store: seq<Notification>, now: Time)
    requires DistinctNotificationIds(store)
    ensures DistinctNotificationIds(ExpiredRows(store, now))
  {
    if store != [] {
      DistinctTail(store);
      ExpiredRowsKeepsDistinct(store[1..], now);
      ExpiredRowsMembers(store[1..], now);
      if store[0].expiresAt < now {
        DistinctCons(store[0], ExpiredRows(store[1..], now));
      }
    }
  }

  lemma {:induction false} DeleteByIdsKeepsDistinct(store: seq<Notification>, ids: seq<Id>)
    requires DistinctNotificationIds(store)
    ensures DistinctNotificationIds(DeleteByIds(store, ids))
  {
    if store != [] {
      DistinctTail(store);
      DeleteByIdsKeepsDistinct(store[1..], ids);
      DeleteByIdsMembers(store[1..], ids);
      if store[0].id !in ids {
        DistinctCons(store[0], DeleteByIds(store[1..], ids));
      }
    }
  }

  /** With distinct identities the delete only ever removes expired rows:
      a notification that has not expired is still in the table afterwards. */
  lemma {:induction false} SweepKeepsLiveRows(store: seq<Notification>, now: Time, size: nat, p: nat, advance: bool, n: Notification)
    requires size > 0 && DistinctNotificationIds(store)
    requires n in store && !(n.expiresAt < now)
    ensures n in Sweep(store, now, size, p, advance).store
    decreases |store|
  {
    var page := PageAt(ExpiredRows(store, now), p, size);
    if page != [] {
      var ids := IdsOf(page);
      ExpiredRowsMembers(store, now);
      assert n.id !in ids by {
        forall k | 0 <= k < |page|
          ensures ids[k] != n.id
        {
          var m := page[k];
          assert m in store && m.expiresAt < now;
          var i :| 0 <= i < |store| && store[i] == m;
          var j :| 0 <= j < |store| && store[j] == n;
          assert i != j;
        }
      }
      PageHeadInTable(store, now, p, size);
      var store1 := DeleteByIds(store, ids);
      DeleteByIdsKeepsDistinct(store, ids);
      DeleteByIdsMembers(store, ids);
      SweepKeepsLiveRows(store1, now, size, if advance then p + 1 else p, advance, n);
    }
  }

  /** The intended cleanup: always asking for the first page, the loop only
      stops once no expired row is left. */
  lemma {:induction false} FirstPageSweepClearsExpired(store: seq<Notification>, now: Time, size: nat)
    requires size > 0
    ensures ExpiredRows(Sweep(store, now, size, 0, false).store, now) == []
    decreases |store|
  {
    var page := PageAt(ExpiredRows(store, now), 0, size);
    if page != [] {
      var ids := IdsOf(page);
      PageHeadInTable(store, now, 0, size);
      FirstPageSweepClearsExpired(DeleteByIds(store, ids), now, size);
    } else {
      assert |ExpiredRows(store, now)| == 0;
    }
  }

  /** ... and together with `SweepKeepsLiveRows`, it leaves exactly the live rows. */
  lemma FirstPageSweepLeavesLiveRows(store: seq<Notification>, now: Time, size: nat)
    requires size > 0 && DistinctNotificationIds(store)
    ensures forall n :: n in Sweep(store, now, size, 0, false).store <==> n in store && !(n.expiresAt < now)
  {
    var r := Sweep(store, now, size, 0, false);
    SweepBounds(store, now, size, 0, false);
    FirstPageSweepClearsExpired(store, now, size);
    forall n | n in store && !(n.expiresAt < now)
      ensures n in r.store
    {
      SweepKeepsLiveRows(store, now, size, 0, false, n);
    }
    forall n | n in r.store
      ensures !(n.expiresAt < now)
    {
      ExpiredRowsMembers(r.store, now);
      assert n !in ExpiredRows(r.store, now);
    }
  }

  // ------------------------------------------------- the skipped-page finding

  lemma {:induction false} DeleteByIdsAppend(a: seq<Notification>, b: seq<Notification>, ids: seq<Id>)
    ensures DeleteByIds(a + b, ids) == DeleteByIds(a, ids) + DeleteByIds(b, ids)
  {
    if a == [] {
      assert a + b == b;
    } else {
      assert (a + b)[1..] == a[1..] + b;
      DeleteByIdsAppend(a[1..], b, ids);
    }
  }

  lemma {:induction false} DeleteByIdsAll(a: seq<Notification>, ids: seq<Id>)
    requires forall k :: 0 <= k < |a| ==> a[k].id in ids
    ensures DeleteByIds(a, ids) == []
  {
    if a != [] {
      DeleteByIdsAll(a[1..], ids);
    }
  }

  lemma {:induction false} DeleteByIdsNone(a: seq<Notification>, ids: seq<Id>)
    requires forall k :: 0 <= k < |a| ==> a[k].id !in ids
    ensures DeleteByIds(a, ids) == a
  {
    if a != [] {
      DeleteByIdsNone(a[1..], ids);
    }
  }

  /** Filtering by expiry and deleting by id commute. */
  lemma {:induction false} ExpiredAfterDelete(store: seq<Notification>, ids: seq<Id>, now: Time)
    ensures ExpiredRows(DeleteByIds(store, ids), now) == DeleteByIds(ExpiredRows(store, now), ids)
  {
    if store != [] {
      ExpiredAfterDelete(store[1..], ids, now);
    }
  }

  /** Deleting the ids of the first `k` rows of a list with distinct ids leaves the rest. */
  lemma DeletePrefix(xs: seq<Notification>, k: nat)
    requires k <= |xs| && DistinctNotificationIds(xs)
    ensures DeleteByIds(xs, IdsOf(xs[..k])) == xs[k..]
  {
    var ids := IdsOf(xs[..k]);
    assert xs == xs[..k] + xs[k..];
    DeleteByIdsAppend(xs[..k], xs[k..], ids);
    DeleteByIdsAll(xs[..k], ids);
    forall j | 0 <= j < |xs[k..]|
      ensures xs[k..][j].id !in ids
    {
      forall i | 0 <= i < k
        ensures ids[i] != xs[k..][j].id
      {
        assert ids[i] == xs[i].id && xs[k..][j] == xs[k + j];
      }
    }
    DeleteByIdsNone(xs[k..], ids);
  }

  /** As written, with more than one and at most two pages of expired rows,
      one run deletes the first page, then asks for the SECOND page of what is
      left (which now fits on the first), finds it empty and stops: the
      expired rows beyond the first `size` stay in the table. */
  lemma AsWrittenSweepLeavesExpired(store: seq<Notification>, now: Time, size: nat)
    requires size > 0 && DistinctNotificationIds(store)
    requires size < |ExpiredRows(store, now)| <= 2 * size
    ensures ExpiredRows(Sweep(store, now, size, 0, true).store, now) == ExpiredRows(store, now)[size..]
    ensures ExpiredRows(Sweep(store, now, size, 0, true).store, now) != []
  {
    var xs := ExpiredRows(store, now);
    var page := PageAt(xs, 0, size);
    assert page == xs[..size];
    var ids := IdsOf(page);
    PageHeadInTable(store, now, 0, size);
    var store1 := DeleteByIds(store, ids);
    ExpiredRowsKeepsDistinct(store, now);
    ExpiredAfterDelete(store, ids, now);
    DeletePrefix(xs, size);
    assert ExpiredRows(store1, now) == xs[size..];
    assert PageAt(ExpiredRows(store1, now), 1, size) == [];
  }

  /** The smallest table that shows it at the deployed batch size: 1001 rows
      that all expired a second before the run. */
  function ExpiredTable(count: nat, now: Time): (t: seq<Notification>)
    ensures |t| == count && DistinctNotificationIds(t)
    ensures forall k :: 0 <= k < count ==> t[k].expiresAt < now
  {
    seq(count, k requires 0 <= k < count => Notification(k + 1, 1, "", "", SYSTEM, now - 2, now - 1, false))
  }

  lemma AsWrittenMissesOneOf1001(now: Time)
    ensures |ExpiredRows(Sweep(ExpiredTable(BATCH_SIZE + 1, now), now, BATCH_SIZE, 0, true).store, now)| == 1
  {
    var t := ExpiredTable(BATCH_SIZE + 1, now);
    AllExpired(t, now);
    AsWrittenSweepLeavesExpired(t, now, BATCH_SIZE);
  }

  lemma {:induction false} AllExpired(t: seq<Notification>, now: Time)
    requires forall k :: 0 <= k < |t| ==> t[k].expiresAt < now
    ensures ExpiredRows(t, now) == t
  {
    if t != [] {
      AllExpired(t[1..], now);
    }
  }

  // --------------------------------------------------------------- service

  /** The outcome of a run that already issued `issued` and counted `total`
      before continuing as `r`. */
  function After(issued: seq<seq<Id>>, total: int, r: Run): Run {
    Run(r.store, issued + r.batches, total + r.total)
  }

  /** One turn of the loop, as `Sweep` takes it: the table shrinks and the
      outcome still to come stays the same. */
  lemma SweepUnfold(store: seq<Notification>, now: Time, size: nat, p: nat, advance: bool, issued: seq<seq<Id>>, total: int)
    requires size > 0
    requires PageAt(ExpiredRows(store, now), p, size) != []
    ensures var ids := IdsOf(PageAt(ExpiredRows(store, now), p, size));
            var store1 := DeleteByIds(store, ids);
            |store1| < |store| &&
            After(issued, total, Sweep(store, now, size, p, advance))
            == After(issued + [ids], total + (|store| - |store1|), Sweep(store1, now, size, if advance then p + 1 else p, advance))
  {
    var page := PageAt(ExpiredRows(store, now), p, size);
    var ids := IdsOf(page);
    PageHeadInTable(store, now, p, size);
    var store1 := DeleteByIds(store, ids);
    var rest := Sweep(store1, now, size, if advance then p + 1 else p, advance);
    assert Sweep(store, now, size, p, advance) == Run(rest.store, [ids] + rest.batches, (|store| - |store1|) + rest.total);
    assert issued + ([ids] + rest.batches) == (issued + [ids]) + rest.batches;
  }

  /** `SweepUnfold` in the loop's own terms: after deleting the page's ids
      and moving the cursor, the rest of the run still ends at `target`. */
  lemma SweepStep(store: seq<Notification>, now: Time, size: nat, p: nat, advance: bool, issued: seq<seq<Id>>, total: int,
                  target: Run, ids: seq<Id>, remaining: seq<Notification>, next: nat)
    requires size > 0
    requires PageAt(ExpiredRows(store, now), p, size) != []
    requires ids == IdsOf(PageAt(ExpiredRows(store, now), p, size))
    requires remaining == DeleteByIds(store, ids)
    requires next == if advance then p + 1 else p
    requires After(issued, total, Sweep(store, now, size, p, advance)) == target
    ensures |remaining| < |store|
    ensures After(issued + [ids], total + (|store| - |remaining|), Sweep(remaining, now, size, next, advance)) == target
  {
    SweepUnfold(store, now, size, p, advance, issued, total);
  }

  /** A turn that finds an empty page ends the run: nothing more is deleted. */
  lemma SweepStops(store: seq<Notification>, now: Time, size: nat, p: nat, advance: bool, issued: seq<seq<Id>>, total: int)
    requires PageAt(ExpiredRows(store, now), p, size) == []
    ensures After(issued, total, Sweep(store, now, size, p, advance)) == Run(store, issued, total)
  {
    assert issued + [] == issued;
  }

  /** The delete loop over the table's rows: find a page, delete its ids, add
      the reported count, move the cursor (or not). */
  method DrainTable(table: seq<Notification>, now: Time, advance: bool)
    returns (store: seq<Notification>, issued: seq<seq<Id>>, totalDeleted: int)
    ensures Sweep(table, now, BATCH_SIZE, 0, advance) == Run(store, issued, totalDeleted)
  {
    ghost var target := Sweep(table, now, BATCH_SIZE, 0, advance);
    store, issued, totalDeleted := table, [], 0;
    var p := 0;
    assert After([], 0, target) == target;
    while true
      invariant After(issued, totalDeleted, Sweep(store, now, BATCH_SIZE, p, advance)) == target
      decreases |store|
    {
      var expired := PageAt(ExpiredRows(store, now), p, BATCH_SIZE);
      if expired == [] {
        SweepStops(store, now, BATCH_SIZE, p, advance, issued, totalDeleted);
        break;
      }
      var ids := IdsOf(expired);
      var remaining := DeleteByIds(store, ids);
      var deletedCount := |store| - |remaining|;
      var next := if advance then p + 1 else p;
      SweepStep(store, now, BATCH_SIZE, p, advance, issued, totalDeleted, target, ids, remaining, next);
      store, issued, totalDeleted, p := remaining, issued + [ids], totalDeleted + deletedCount, next;
    }
  }

  class NotificationCleanupService {
    /** The notification table. */
    var store: seq<Notification>
    /** The id lists of the `deleteByIds` statements issued, in order. */
    var deletes: seq<seq<Id>>

    constructor (store: seq<Notification>)
      ensures this.store == store && deletes == []
    {
      this.store := store;
      deletes := [];
    }

    /** `deleteExpiredNotifications` as written, at instant `now`; the result is
        `totalDeleted`. Every delete statement lists at most 1000 ids, the
        total is the number of rows deleted, only expired rows go when ids are
        distinct; `AsWrittenSweepLeavesExpired` shows that some may stay. */
    method DeleteExpiredNotifications(now: Time) returns (totalDeleted: int)
      modifies this
      ensures var run := Sweep(old(store), now, BATCH_SIZE, 0, true);
              store == run.store && deletes == old(deletes) + run.batches && totalDeleted == run.total
      ensures forall b :: b in deletes[|old(deletes)|..] ==> 1 <= |b| <= BATCH_SIZE
      ensures totalDeleted == |old(store)| - |store|
      ensures forall n :: n in store ==> n in old(store)
      ensures DistinctNotificationIds(old(store)) ==>
                forall n :: n in old(store) && !(n.expiresAt < now) ==> n in store
    {
      SweepBounds(store, now, BATCH_SIZE, 0, true);
      if DistinctNotificationIds(store) {
        forall n | n in store && !(n.expiresAt < now)
          ensures n in Sweep(store, now, BATCH_SIZE, 0, true).store
        {
          SweepKeepsLiveRows(store, now, BATCH_SIZE, 0, true, n);
        }
      }
      var store', issued;
      store', issued, totalDeleted := DrainTable(store, now, true);
      store := store';
      deletes := deletes + issued;
      assert deletes[|old(deletes)|..] == issued;
    }

    /** The cleanup as intended: the cursor stays on the first page, so every
        expired row is deleted and every other row is kept. */
    method DeleteExpiredNotificationsFromFirstPage(now: Time) returns (totalDeleted: int)
      requires DistinctNotificationIds(store)
      modifies this
      ensures var run := Sweep(old(store), now, BATCH_SIZE, 0, false);
              store == run.store && deletes == old(deletes) + run.batches && totalDeleted == run.total
      ensures forall n :: n in store <==> n in old(store) && !(n.expiresAt < now)
      ensures totalDeleted == |old(store)| - |store|
    {
      SweepBounds(store, now, BATCH_SIZE, 0, false);
      FirstPageSweepLeavesLiveRows(store, now, BATCH_SIZE);
      var store', issued;
      store', issued, totalDeleted := DrainTable(store, now, false);
      store := store';
      deletes := deletes + issued;
    }
  }
}
