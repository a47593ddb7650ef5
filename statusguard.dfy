/**
 * The status guard of `updateStatus`: look the order up, compare the requested
 * status with the stored one through the fixed priority table, and either reject
 * the request or write the new status together with `deliveredAt`.
 *
 * Modelled as the code behaves: a status outside the table has no priority, and
 * a comparison with a missing priority is false, so such a request (or such a
 * stored status) is never rejected; and every accepted "Delivered" stamps
 * `deliveredAt` afresh.
 */
module StatusGuard {
  import opened Wrappers
  import opened Orders

  /** The `statusPriority` table; `None` is `undefined`. */
  function StatusPriority(status: string): Option<nat>
  {
    if status == "Food Processing" then Some(0)
    else if status == "Out for delivery" then Some(1)
    else if status == "Delivered" then Some(2)
    else None
  }

  predicate Known(status: string)
  {
    StatusPriority(status).Some?
  }

  /** `nextPriority < currentPriority`; a comparison involving `undefined` is false. */
  predicate IsRegression(requested: string, current: string)
  {
    Known(requested) && Known(current)
    && StatusPriority(requested).value < StatusPriority(current).value
  }

  /** The outcome reported to the caller. */
  datatype Reply = Updated | NotFound | Regression

  /** What one request does to the stored order: unchanged when rejected, else the written fields. */
  function Guarded(o: Order, requested: string, now: int): Order
  {
    if IsRegression(requested, o.status) then o
    else o.(status := requested, deliveredAt := if requested == "Delivered" then Some(now) else None)
  }

  /**
   * `updateStatus`: a missing order is rejected with no write; a request whose
   * priority is below the current one is rejected with no write; any other
   * request writes the requested status, sets `deliveredAt` to `now` exactly when
   * the request is "Delivered" and clears it otherwise, and changes nothing else.
   */
  method UpdateStatus(orders: map<OrderId, Order>, orderId: OrderId, requested: string, now: int)
    returns (stored: map<OrderId, Order>, reply: Reply)
    ensures reply == NotFound <==> orderId !in orders
    ensures orderId !in orders ==> stored == orders
    ensures orderId in orders && !IsRegression(requested, orders[orderId].status) ==> reply == Updated
    ensures orderId in orders ==>
      (reply == Regression <==> IsRegression(requested, orders[orderId].status))
    ensures reply != Updated ==> stored == orders
    ensures reply == Updated ==>
      && orderId in orders
      && stored.Keys == orders.Keys
      && (forall id :: id in orders && id != orderId ==> stored[id] == orders[id])
      && stored[orderId].status == requested
      && stored[orderId].deliveredAt == (if requested == "Delivered" then Some(now) else None)
      && stored[orderId] == orders[orderId].(status := requested, deliveredAt := stored[orderId].deliveredAt)
    ensures orderId in orders ==> stored == orders[orderId := Guarded(orders[orderId], requested, now)]
  {
    if orderId !in orders {
      return orders, NotFound;
    }
    var order := orders[orderId];
    var nextPriority := StatusPriority(requested);
    var currentPriority := StatusPriority(order.status);
    if nextPriority.Some? && currentPriority.Some? && nextPriority.value < currentPriority.value {
      return orders, Regression;
    }
    var isDelivered := requested == "Delivered";
    stored := orders[orderId := order.(status := requested, deliveredAt := if isDelivered then Some(now) else None)];
    reply := Updated;
  }

  // ----------------------------------------------------------- properties

  /** A request or a stored status outside the table is never rejected. */
  lemma UnknownStatusNeverRejected(o: Order, requested: string, now: int)
    requires !Known(requested) || !Known(o.status)
    ensures Guarded(o, requested, now).status == requested
  {
  }

  /** Among the three known statuses, an accepted request never lowers the priority. */
  lemma KnownStatusNeverRegresses(o: Order, requested: string, now: int)
    requires Known(requested) && Known(o.status)
    ensures Known(Guarded(o, requested, now).status)
    ensures StatusPriority(Guarded(o, requested, now).status).value >= StatusPriority(o.status).value
  {
  }

  /** After any request, `deliveredAt` is set exactly when the status is "Delivered", if it was so before. */
  lemma DeliveredAtTracksStatus(o: Order, requested: string, now: int)
    requires o.deliveredAt.Some? <==> o.status == "Delivered"
    ensures Guarded(o, requested, now).deliveredAt.Some? <==> Guarded(o, requested, now).status == "Delivered"
  {
  }

  /** "Delivered" is never a regression, and re-applying it overwrites the earlier stamp. */
  lemma ReapplyingDeliveredRestamps(o: Order, first: int, second: int)
    ensures Guarded(o, "Delivered", first).deliveredAt == Some(first)
    ensures Guarded(Guarded(o, "Delivered", first), "Delivered", second).deliveredAt == Some(second)
  {
  }

  /** One status request with the time it arrives. */
  datatype Request = Request(status: string, at: int)

  /** The stored order after a series of requests, each guarded against the state before it. */
  function Replay(o: Order, requests: seq<Request>): Order
  {
    if requests == [] then o
    else
      var last := requests[|requests| - 1];
      Guarded(Replay(o, requests[..|requests| - 1]), last.status, last.at)
  }

  /**
   * Status monotonicity: when the stored status and every request name one of
   * the three known statuses, the priority after any series of requests is at
   * least the priority before it.
   */
  lemma {:induction false} ReplayMonotone(o: Order, requests: seq<Request>)
    requires Known(o.status)
    requires forall i :: 0 <= i < |requests| ==> Known(requests[i].status)
    ensures Known(Replay(o, requests).status)
    ensures StatusPriority(Replay(o, requests).status).value >= StatusPriority(o.status).value
  {
    if requests != [] {
      var init, last := requests[..|requests| - 1], requests[|requests| - 1];
      ReplayMonotone(o, init);
      KnownStatusNeverRegresses(Replay(o, init), last.status, last.at);
    }
  }

  /**
   * Monotonicity needs the known-status premise: a delivered order reaches
   * "Food Processing" again through any status outside the table, and loses
   * its `deliveredAt`.
   */
  lemma UnknownStatusOpensRegression(o: Order, t1: int, t2: int)
    requires o.status == "Delivered"
    ensures Replay(o, [Request("Cancelled", t1), Request("Food Processing", t2)]).status == "Food Processing"
    ensures Replay(o, [Request("Cancelled", t1), Request("Food Processing", t2)]).deliveredAt == None
  {
    var rs := [Request("Cancelled", t1), Request("Food Processing", t2)];
    assert rs[..1] == [Request("Cancelled", t1)] && rs[..1][..0] == [];
  }
}
