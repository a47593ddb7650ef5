/**
 * The admin list, the per-user list and the offline cleanup script: each
 * reconciles the stored orders first (deleting duplicates found by the
 * resolver) and then reads them back through a filter.
 *
 * The store is the sequence of stored orders in ascending `date` order, the
 * order the database returns for `sort({ date: 1 })`; a query is a filter over
 * it and `deleteMany({ _id: { $in: ids } })` keeps the orders whose id is not
 * listed. The clock is the parameter `now`, in milliseconds.
 */
module Reconciliation {
  import opened Wrappers
  import opened Orders
  import opened Canonical
  import opened Resolver

  /** Two-minute duplicate window, shared by the controller and the script. */
  const DuplicateWindowMs: int := 2 * 60 * 1000

  /** How long a delivered order stays in the admin list. */
  const DeliveredRetentionMs: int := 30 * 1000

  /** `getDeliveredCutoff`. */
  function DeliveredCutoff(now: int): int
  {
    now - DeliveredRetentionMs
  }

  // ----------------------------------------------------------- store queries

  /** The conditions the controllers put on the store. */
  datatype Query =
    | CreatedSince(cutoff: int)     // `{ date: { $gte: cutoff } }`
    | IdNotIn(ids: seq<OrderId>)    // what `deleteMany({ _id: { $in: ids } })` leaves
    | AdminFilter(now: int)         // the `$or` of the admin list
    | OfUser(userId: string)        // `{ userId }`

  predicate Selects(q: Query, o: Order)
  {
    match q
    case CreatedSince(cutoff) => o.date >= cutoff
    case IdNotIn(ids) => o.id !in ids
    case AdminFilter(now) => AdminVisible(o, now)
    case OfUser(userId) => o.userId == Some(userId)
  }

  /** The orders of `store` that the query selects, in store order. */
  function Where(store: seq<Order>, q: Query): (r: seq<Order>)
    ensures |r| <= |store|
    ensures forall o :: o in r <==> o in store && Selects(q, o)
  {
    if store == [] then []
    else (if Selects(q, store[0]) then [store[0]] else []) + Where(store[1..], q)
  }

  lemma {:induction false} WhereKeepsDates(store: seq<Order>, q: Query)
    requires SortedByDate(store)
    ensures SortedByDate(Where(store, q))
  {
    if store != [] {
      WhereKeepsDates(store[1..], q);
      var rest := Where(store[1..], q);
      forall o | o in rest
        ensures store[0].date <= o.date
      {
        var i :| 0 <= i < |store[1..]| && store[1..][i] == o;
        assert store[i + 1] == o;
      }
    }
  }

  lemma {:induction false} WhereKeepsIdsDistinct(store: seq<Order>, q: Query)
    requires DistinctIds(store)
    ensures DistinctIds(Where(store, q))
  {
    if store != [] {
      WhereKeepsIdsDistinct(store[1..], q);
      var rest := Where(store[1..], q);
      forall o | o in rest
        ensures store[0].id != o.id
      {
        var i :| 0 <= i < |store[1..]| && store[1..][i] == o;
        assert store[i + 1] == o;
      }
    }
  }

  /** A filter that keeps everything returns the store itself. */
  lemma {:induction false} WhereKeepsAll(store: seq<Order>, q: Query)
    requires forall o :: o in store ==> Selects(q, o)
    ensures Where(store, q) == store
  {
    if store != [] {
      assert forall o :: o in store[1..] ==> o in store;
      WhereKeepsAll(store[1..], q);
      assert store == [store[0]] + store[1..];
    }
  }

  /** `find({ date: { $gte: cutoff } })`. */
  function Since(store: seq<Order>, cutoff: int): seq<Order>
  {
    Where(store, CreatedSince(cutoff))
  }

  /** `deleteMany({ _id: { $in: ids } })`. */
  function DeleteMany(store: seq<Order>, ids: seq<OrderId>): seq<Order>
  {
    Where(store, IdNotIn(ids))
  }

  // ----------------------------------------------------------- removeRecentDuplicates

  /** The ids one reconciliation deletes: the resolver's verdict on the orders of the look-back window. */
  function DuplicatesSince(store: seq<Order>, now: int, windowMs: int, sig: Order -> Signature): seq<OrderId>
  {
    Run(Since(store, now - windowMs), windowMs, sig).toDelete
  }

  /**
   * `removeRecentDuplicates`: resolve the orders created in the last `windowMs`
   * milliseconds and delete the losers; the delete is issued only when there is
   * something to delete. Exactly the orders whose id is on the list disappear.
   */
  method RemoveRecentDuplicates(store: seq<Order>, now: int, windowMs: int, sig: Order -> Signature)
    returns (stored: seq<Order>, toDelete: seq<OrderId>, deleteIssued: bool)
    ensures toDelete == DuplicatesSince(store, now, windowMs, sig)
    ensures stored == DeleteMany(store, toDelete)
    ensures forall o :: o in stored <==> o in store && o.id !in toDelete
    ensures deleteIssued <==> toDelete != []
  {
    var cutoff := now - windowMs;
    var recentOrders := Since(store, cutoff);
    var recent;
    recent, toDelete := ResolveDuplicates(recentOrders, windowMs, sig);
    deleteIssued := |toDelete| > 0;
    if deleteIssued {
      stored := DeleteMany(store, toDelete);
    } else {
      stored := store;
      WhereKeepsAll(store, IdNotIn(toDelete));
    }
  }

  /**
   * Only orders inside the look-back window can be deleted: an order created
   * before `cutoff` is not among the ids a walk over `Since(store, cutoff)`
   * deletes, whatever the signature function.
   */
  lemma OutsideWindowUntouched(store: seq<Order>, cutoff: int, windowMs: int, sig: Order -> Signature, o: Order)
    requires DistinctIds(store) && o in store && o.date < cutoff
    ensures o.id !in Run(Since(store, cutoff), windowMs, sig).toDelete
  {
    var recentOrders := Since(store, cutoff);
    var p := Run(recentOrders, windowMs, sig);
    RunConservesIds(recentOrders, windowMs, sig);
    forall i | 0 <= i < |recentOrders|
      ensures Ids(recentOrders)[i] != o.id
    {
      var r := recentOrders[i];
      assert r in recentOrders;
      var a :| 0 <= a < |store| && store[a] == r;
      var b :| 0 <= b < |store| && store[b] == o;
      assert r.date > o.date;
    }
    assert o.id !in multiset(Ids(recentOrders));
    assert multiset(p.toDelete) <= HeldIds(p);
  }

  /**
   * Reconciliation is idempotent: once duplicates were removed at `now`, a
   * reconciliation at any later time (with the same window) deletes nothing.
   */
  lemma ReconcileIdempotent(store: seq<Order>, now: int, later: int, windowMs: int, sig: Order -> Signature)
    requires SortedByDate(store) && DistinctIds(store) && now <= later
    ensures DuplicatesSince(DeleteMany(store, DuplicatesSince(store, now, windowMs, sig)), later, windowMs, sig) == []
  {
    var recentOrders := Since(store, now - windowMs);
    var toDelete := DuplicatesSince(store, now, windowMs, sig);
    var stored := DeleteMany(store, toDelete);
    var again := Since(stored, later - windowMs);
    WhereKeepsDates(store, CreatedSince(now - windowMs));
    WhereKeepsIdsDistinct(store, CreatedSince(now - windowMs));
    WhereKeepsDates(store, IdNotIn(toDelete));
    WhereKeepsIdsDistinct(store, IdNotIn(toDelete));
    WhereKeepsDates(stored, CreatedSince(later - windowMs));
    WhereKeepsIdsDistinct(stored, CreatedSince(later - windowMs));
    RunPartition(recentOrders, windowMs, sig);
    forall x | x in again
      ensures exists e :: e in Run(recentOrders, windowMs, sig).recent && e.order == x
    {
      assert x in recentOrders && x.id !in toDelete;
    }
    forall i, j | 0 <= i < j < |again|
      ensures again[i] != again[j]
    {
      assert again[i].id != again[j].id;
    }
    RerunDeletesNothing(recentOrders, again, windowMs, sig);
  }

  // ----------------------------------------------------------- listOrders and userOrders

  /**
   * The admin filter: orders not yet delivered, orders delivered after the
   * cutoff, and legacy delivered orders without a timestamp created after it.
   */
  predicate AdminVisible(o: Order, now: int)
  {
    var cutoff := DeliveredCutoff(now);
    || (o.deliveredAt.None? && o.status != "Delivered")
    || (o.deliveredAt.Some? && o.deliveredAt.value > cutoff)
    || (o.status == "Delivered" && o.deliveredAt.None? && o.date > cutoff)
  }

  /** `listOrders`: reconcile, then list the orders the admin filter lets through, oldest first. */
  method ListOrders(store: seq<Order>, now: int) returns (stored: seq<Order>, listed: seq<Order>)
    ensures stored == DeleteMany(store, DuplicatesSince(store, now, DuplicateWindowMs, GetSignature))
    ensures listed == Where(stored, AdminFilter(now))
    ensures forall o :: o in listed <==> o in stored && AdminVisible(o, now)
  {
    var toDelete, issued;
    stored, toDelete, issued := RemoveRecentDuplicates(store, now, DuplicateWindowMs, GetSignature);
    listed := Where(stored, AdminFilter(now));
  }

  /** `userOrders`: reconcile, then list the caller's orders, oldest first. */
  method UserOrders(store: seq<Order>, now: int, userId: string) returns (stored: seq<Order>, listed: seq<Order>)
    ensures stored == DeleteMany(store, DuplicatesSince(store, now, DuplicateWindowMs, GetSignature))
    ensures listed == Where(stored, OfUser(userId))
    ensures forall o :: o in listed <==> o in stored && o.userId == Some(userId)
  {
    var toDelete, issued;
    stored, toDelete, issued := RemoveRecentDuplicates(store, now, DuplicateWindowMs, GetSignature);
    listed := Where(stored, OfUser(userId));
  }

  /** An order that is not delivered is always in the admin list. */
  lemma UndeliveredAlwaysVisible(o: Order, now: int)
    requires o.status != "Delivered" && o.deliveredAt.None?
    ensures AdminVisible(o, now)
  {
  }

  /** The cutoff is strict: delivered exactly 30 s ago is hidden, a millisecond later is shown. */
  lemma CutoffIsStrict(o: Order, now: int)
    ensures !AdminVisible(o.(deliveredAt := Some(now - 30000)), now)
    ensures AdminVisible(o.(deliveredAt := Some(now - 29999)), now)
  {
  }

  /** Once a delivered order has left the admin list it never comes back as time passes. */
  lemma HiddenStaysHidden(o: Order, now: int, later: int)
    requires now <= later && !AdminVisible(o, now)
    ensures !AdminVisible(o, later)
  {
  }

  /**
   * For an order whose `deliveredAt` is set exactly when it is delivered (the
   * shape the status guard keeps), it is listed iff it is undelivered or was
   * delivered less than 30 s ago.
   */
  lemma VisibleIffRecentlyDelivered(o: Order, now: int)
    requires o.deliveredAt.Some? <==> o.status == "Delivered"
    ensures AdminVisible(o, now) <==> o.status != "Delivered" || now - o.deliveredAt.value < 30000
  {
  }

  // ----------------------------------------------------------- cleanupDuplicateOrders

  /**
   * The cleanup script: resolve every stored order, oldest first, delete the
   * losers when there are any, and report how many were removed.
   */
  method CleanupDuplicateOrders(store: seq<Order>) returns (stored: seq<Order>, removed: nat, deleteIssued: bool)
    ensures stored == DeleteMany(store, Run(store, DuplicateWindowMs, GetSignature).toDelete)
    ensures removed == |Run(store, DuplicateWindowMs, GetSignature).toDelete|
    ensures deleteIssued <==> Run(store, DuplicateWindowMs, GetSignature).toDelete != []
  {
    var recent, toDelete := ResolveDuplicates(store, DuplicateWindowMs, GetSignature);
    if |toDelete| > 0 {
      stored := DeleteMany(store, toDelete);
      deleteIssued := true;
    } else {
      stored := store;
      WhereKeepsAll(store, IdNotIn(toDelete));
      deleteIssued := false;
    }
    removed := |toDelete|;
  }


  /** Running the script a second time removes nothing. */
  lemma CleanupIdempotent(store: seq<Order>, sig: Order -> Signature)
    requires SortedByDate(store) && DistinctIds(store)
    ensures Run(DeleteMany(store, Run(store, DuplicateWindowMs, sig).toDelete), DuplicateWindowMs, sig).toDelete == []
  {
    var toDelete := Run(store, DuplicateWindowMs, sig).toDelete;
    var stored := DeleteMany(store, toDelete);
    WhereKeepsDates(store, IdNotIn(toDelete));
    WhereKeepsIdsDistinct(store, IdNotIn(toDelete));
    RunPartition(store, DuplicateWindowMs, sig);
    forall i, j | 0 <= i < j < |stored|
      ensures stored[i] != stored[j]
    {
      assert stored[i].id != stored[j].id;
    }
    RerunDeletesNothing(store, stored, DuplicateWindowMs, sig);
  }
}
