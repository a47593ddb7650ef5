/**
 * The stored order document as the backend reads it. Every field the
 * canonicaliser defaults with `??` is optional here; `date` and `deliveredAt`
 * are millisecond timestamps.
 */
module Orders {
  import opened Wrappers

  type OrderId = string

  /** One cart line as submitted: `_id` and `id` are both looked at by the canonicaliser. */
  datatype RawItem = RawItem(
    objectId: Option<string>,   // `_id`
    id: Option<string>,
    name: Option<string>,
    quantity: Option<int>,
    price: Option<int>)

  /** The shipping address as submitted; any field may be missing. */
  datatype RawAddress = RawAddress(
    firstName: Option<string>,
    lastName: Option<string>,
    email: Option<string>,
    street: Option<string>,
    city: Option<string>,
    state: Option<string>,
    zipcode: Option<string>,
    country: Option<string>,
    phone: Option<string>)

  /** `{}`: an address object with no fields. */
  function NoAddress(): RawAddress
  {
    RawAddress(None, None, None, None, None, None, None, None, None)
  }

  datatype Order = Order(
    id: OrderId,                  // `_id`
    userId: Option<string>,
    amount: Option<int>,
    items: Option<seq<RawItem>>,
    address: Option<RawAddress>,
    payment: bool,                // `payment === true`
    status: string,
    date: int,
    deliveredAt: Option<int>)

  function Ids(orders: seq<Order>): (r: seq<OrderId>)
    ensures |r| == |orders| && forall i :: 0 <= i < |orders| ==> r[i] == orders[i].id
  {
    seq(|orders|, i requires 0 <= i < |orders| => orders[i].id)
  }

  /** No two orders share an `_id`, as the document store guarantees. */
  predicate DistinctIds(orders: seq<Order>)
  {
    forall i, j :: 0 <= i < j < |orders| ==> orders[i].id != orders[j].id
  }

  /** Ascending by creation time: the order of `find(...).sort({ date: 1 })`. */
  predicate SortedByDate(orders: seq<Order>)
  {
    forall i, j :: 0 <= i < j < |orders| ==> orders[i].date <= orders[j].date
  }
}
